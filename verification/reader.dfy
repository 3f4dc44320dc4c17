/** Reading numbers of either byte order from a device. */
module Reading {
  import opened Bytes

  datatype Endianness = Little | Big

  datatype Result<T> = Ok(value: T, pos: nat) | Failed

  function Power(n: nat): (r: nat)
    ensures r > 0
  {
    if n == 0 then 1 else 256 * Power(n - 1)
  }

  /** The number that the bytes stand for, the least significant byte first. */
  function LittleUInt(b: seq<Byte>): (r: nat)
    ensures r < Power(|b|)
  {
    if b == [] then 0 else b[0] + 256 * LittleUInt(b[1..])
  }

  function BytesReversed(b: seq<Byte>): (r: seq<Byte>)
    ensures |r| == |b| && forall i | 0 <= i < |b| :: r[i] == b[|b| - 1 - i]
  {
    if b == [] then [] else BytesReversed(b[1..]) + [b[0]]
  }

  function UInt(b: seq<Byte>, e: Endianness): (r: nat)
    ensures r < Power(|b|)
  {
    LittleUInt(if e.Big? then BytesReversed(b) else b)
  }

  /** The `n` bytes that stand for `v`. */
  function LittleBytes(v: nat, n: nat): (r: seq<Byte>)
    ensures |r| == n
  {
    if n == 0 then [] else [v % 256] + LittleBytes(v / 256, n - 1)
  }

  function UIntBytes(v: nat, n: nat, e: Endianness): (r: seq<Byte>)
    ensures |r| == n
  {
    if e.Big? then BytesReversed(LittleBytes(v, n)) else LittleBytes(v, n)
  }

  lemma {:induction false} LittleRoundTrip(v: nat, n: nat)
    requires v < Power(n)
    ensures LittleUInt(LittleBytes(v, n)) == v
  {
    if n > 0 {
      LittleRoundTrip(v / 256, n - 1);
      assert LittleBytes(v, n)[1..] == LittleBytes(v / 256, n - 1);
    }
  }

  lemma ReversedTwice(b: seq<Byte>)
    ensures BytesReversed(BytesReversed(b)) == b
  {
  }

  lemma UIntRoundTrip(v: nat, n: nat, e: Endianness)
    requires v < Power(n)
    ensures UInt(UIntBytes(v, n, e), e) == v
  {
    LittleRoundTrip(v, n);
    ReversedTwice(LittleBytes(v, n));
  }

  /** The bytes from `k` on, at their place in the number. */
  lemma {:induction false} LittleUIntSplit(b: seq<Byte>, k: nat)
    requires k < |b|
    ensures LittleUInt(b[..k + 1]) == LittleUInt(b[..k]) + b[k] * Power(k)
  {
    if k == 0 {
      assert b[..1] == [b[0]] && b[..0] == [];
      assert [b[0]][1..] == [];
    } else {
      LittleUIntSplit(b[1..], k - 1);
      assert b[..k + 1][1..] == b[1..][..k] && b[..k][1..] == b[1..][..k - 1];
      assert b[1..][k - 1] == b[k];
      Scaled(LittleUInt(b[1..][..k - 1]), b[k], Power(k - 1));
    }
  }

  lemma Scaled(a: nat, x: nat, p: nat)
    ensures 256 * (a + x * p) == 256 * a + x * (256 * p)
  {
  }

  /** The place that byte `i` of `n` is shifted to. */
  function Place(i: nat, n: nat, e: Endianness): nat
    requires i < n
  {
    if e.Big? then n - (i + 1) else i
  }

  /** The first `i` bytes, each shifted to its place, added up. */
  function PlacedSum(b: seq<Byte>, i: nat, e: Endianness): nat
    requires i <= |b|
  {
    if i == 0 then 0 else PlacedSum(b, i - 1, e) + b[i - 1] * Power(Place(i - 1, |b|, e))
  }

  /** What the remaining bytes still add to the sum. */
  lemma {:induction false} PlacedSumIsUInt(b: seq<Byte>, i: nat, e: Endianness)
    requires i <= |b|
    ensures PlacedSum(b, i, e) <= UInt(b, e)
    ensures i == |b| ==> PlacedSum(b, i, e) == UInt(b, e)
  {
    if e.Big? {
      BigSumIsUInt(b, i);
      assert BytesReversed(b)[..0] == [];
    } else {
      LittleSumIsUInt(b, i);
      LittlePrefix(b, i);
      assert b[..|b|] == b;
    }
  }

  lemma {:induction false} BigSumIsUInt(b: seq<Byte>, i: nat)
    requires i <= |b|
    ensures PlacedSum(b, i, Big) + LittleUInt(BytesReversed(b)[..|b| - i]) == UInt(b, Big)
  {
    var r := BytesReversed(b);
    if i == 0 {
      assert r[..|b|] == r;
    } else {
      BigSumIsUInt(b, i - 1);
      LittleUIntSplit(r, |b| - i);
      assert r[|b| - i] == b[i - 1];
    }
  }

  lemma {:induction false} LittleSumIsUInt(b: seq<Byte>, i: nat)
    requires i <= |b|
    ensures PlacedSum(b, i, Little) == LittleUInt(b[..i])
  {
    if i > 0 {
      LittleSumIsUInt(b, i - 1);
      LittleUIntSplit(b, i - 1);
    }
  }

  lemma {:induction false} LittlePrefix(b: seq<Byte>, i: nat)
    requires i <= |b|
    ensures LittleUInt(b[..i]) <= LittleUInt(b)
    decreases |b| - i
  {
    if i == |b| {
      assert b[..i] == b;
    } else {
      hide LittleUInt;
      LittlePrefix(b, i + 1);
      LittleUIntSplit(b, i);
      NotNegative(b[i], Power(i));
    }
  }

  lemma NotNegative(x: nat, p: nat)
    ensures x * p >= 0
  {
  }

  /** Adding a byte at its place never wraps around. */
  lemma PlacedStep(b: seq<Byte>, i: nat, e: Endianness)
    requires i < |b|
    ensures (PlacedSum(b, i, e) + b[i] * Power(Place(i, |b|, e))) % Power(|b|) == PlacedSum(b, i + 1, e)
  {
    hide UInt;
    PlacedSumIsUInt(b, i + 1, e);
    SmallModulo(PlacedSum(b, i + 1, e), Power(|b|));
  }

  lemma NothingPlaced(b: seq<Byte>, e: Endianness)
    ensures PlacedSum(b, 0, e) == 0
  {
  }

  lemma SmallModulo(x: nat, m: nat)
    requires x < m
    ensures x % m == x
  {
  }

  // ---------------------------------------------------------------------------------------------
  // What reading from a device gives
  // ---------------------------------------------------------------------------------------------

  /** Where a device stands after up to `max` bytes have been read. */
  function After(bytes: seq<Byte>, pos: nat, max: nat): nat {
    if pos >= |bytes| then pos else if pos + max <= |bytes| then pos + max else |bytes|
  }

  function UIntAt(bytes: seq<Byte>, pos: nat, num: nat, e: Endianness): Result<nat> {
    if pos + num <= |bytes| then Ok(UInt(bytes[pos..pos + num], e), pos + num) else Failed
  }

  /** Numbers of the given widths, one after the other, as long as there are bytes for all of them. */
  function FieldsAt(bytes: seq<Byte>, pos: nat, widths: seq<nat>, e: Endianness): (r: Result<seq<nat>>)
    ensures r.Ok? ==> |r.value| == |widths|
    decreases |widths|
  {
    if widths == [] then Ok([], pos)
    else
      match UIntAt(bytes, pos, widths[0], e)
      case Failed => Failed
      case Ok(v, next) =>
        match FieldsAt(bytes, next, widths[1..], e)
        case Failed => Failed
        case Ok(vs, end) => Ok([v] + vs, end)
  }

  class Reader {
    const bytes: seq<Byte>
    var pos: nat
    var endianness: Endianness

    constructor (bytes: seq<Byte>, endianness: Endianness)
      ensures this.bytes == bytes && pos == 0 && this.endianness == endianness
    {
      this.bytes, this.pos, this.endianness := bytes, 0, endianness;
    }

    method Seek(p: nat)
      modifies this`pos
      ensures pos == p
    {
      pos := p;
    }

    method Read(max: nat) returns (buf: seq<Byte>)
      modifies this`pos
      ensures buf == Mid(bytes, old(pos), max) && pos == After(bytes, old(pos), max)
    {
      buf := Mid(bytes, pos, max);
      pos := After(bytes, pos, max);
    }

    /** The sum of the bytes, each shifted to its place. */
    method GetUInt(num: nat) returns (ok: bool, res: nat)
      requires 0 < num <= 8
      modifies this`pos
      ensures ok <==> UIntAt(bytes, old(pos), num, endianness).Ok?
      ensures ok ==> Ok(res, pos) == UIntAt(bytes, old(pos), num, endianness)
      ensures !ok ==> res == 0
      ensures pos == After(bytes, old(pos), num)
    {
      var buf := Read(num);
      if |buf| < num { return false, 0; }
      hide PlacedSum, Power, UInt;
      NothingPlaced(buf, endianness);
      res := 0;
      for i := 0 to num
        invariant res == PlacedSum(buf, i, endianness) && pos == old(pos) + num
      {
        var j := i;
        if endianness.Big? {
          j := num - (i + 1);
        }
        PlacedStep(buf, i, endianness);
        res := (res + buf[i] * Power(j)) % Power(num);
      }
      PlacedSumIsUInt(buf, num, endianness);
      assert buf == bytes[old(pos)..old(pos) + num];
      ok := true;
    }
  }
}
