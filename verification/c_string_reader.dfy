/** Reading the strings of a block of data, one after the other. */
module CStrings {
  import opened Bytes

  /** The first index from `i` on that holds a byte other than zero, or the end. */
  function SkipZeros(data: seq<Byte>, i: nat): (r: nat)
    requires i <= |data|
    ensures i <= r <= |data|
    ensures forall k | i <= k < r :: data[k] == 0
    ensures r < |data| ==> data[r] != 0
    decreases |data| - i
  {
    if i < |data| && data[i] == 0 then SkipZeros(data, i + 1) else i
  }

  /** The first index from `i` on that holds a zero, or the end. */
  function FindZero(data: seq<Byte>, i: nat): (r: nat)
    requires i <= |data|
    ensures i <= r <= |data|
    ensures forall k | i <= k < r :: data[k] != 0
    ensures r < |data| ==> data[r] == 0
    decreases |data| - i
  {
    if i < |data| && data[i] != 0 then FindZero(data, i + 1) else i
  }

  /** The strings from `i` on, as reading one after the other gives them. */
  function StringsFrom(data: seq<Byte>, i: nat): seq<seq<Byte>>
    decreases if i <= |data| then |data| - i + 1 else 0
  {
    if i >= |data| then []
    else
      var begin := SkipZeros(data, i);
      if begin == |data| then []
      else
        var end := FindZero(data, begin);
        [data[begin..end]] + StringsFrom(data, end + 1)
  }

  /** Where the string from `i` on ends. */
  function StringEnd(data: seq<Byte>, i: nat): (r: nat)
    requires i <= |data|
    ensures SkipZeros(data, i) <= r <= |data|
    ensures forall k | SkipZeros(data, i) <= k < r :: data[k] != 0
    ensures r < |data| ==> SkipZeros(data, i) < r && data[r] == 0
  {
    FindZero(data, SkipZeros(data, i))
  }

  lemma NextString(data: seq<Byte>, i: nat)
    requires i < |data|
    ensures var begin, end := SkipZeros(data, i), StringEnd(data, i);
      if begin == |data| then StringsFrom(data, i) == []
      else StringsFrom(data, i) == [data[begin..end]] + StringsFrom(data, end + 1)
  {
  }

  lemma NoString(data: seq<Byte>, i: nat)
    requires i >= |data|
    ensures StringsFrom(data, i) == []
  {
  }

  class CStringReader {
    const data: seq<Byte>
    var pos: nat
    var str: seq<Byte>
    var offset: nat

    /** No string is current, and there is none from the offset on. */
    ghost predicate Exhausted()
      reads this
    {
      str == [] && forall k | offset <= k < |data| :: data[k] == 0
    }

    /** Zeros, perhaps none, and then the current string, up to a zero or the end. */
    ghost predicate Current()
      reads this
    {
      && str != [] && offset + |str| <= pos <= |data|
      && str == data[pos - |str|..pos] && 0 !in str
      && (forall k | offset <= k < pos - |str| :: data[k] == 0)
      && (pos < |data| ==> data[pos] == 0)
    }

    ghost predicate Fresh()
      reads this
    {
      str == [] && pos == 0 && offset == 0
    }

    ghost predicate Valid()
      reads this
    {
      Fresh() || Current() || Exhausted()
    }

    /** Where the next string is looked for. */
    function Start(): nat
      reads this
    {
      if str == [] then offset else pos + 1
    }

    constructor (data: seq<Byte>)
      ensures this.data == data && Fresh()
    {
      this.data, pos, str, offset := data, 0, [], 0;
    }

    method Next() returns (ok: bool)
      requires Valid()
      modifies this
      ensures Valid() && offset == old(Start())
      ensures ok == (StringsFrom(data, old(Start())) != [])
      ensures ok ==> Current()
      ensures ok ==> StringsFrom(data, old(Start())) == [str] + StringsFrom(data, Start())
      ensures ok && !old(Fresh()) ==> offset > old(offset)
      ensures !ok ==> Exhausted()
      ensures old(Exhausted()) ==> !ok
    {
      hide StringsFrom, SkipZeros, FindZero, StringEnd;
      if str != [] {
        str := [];
        pos := pos + 1;
        offset := pos;
      }
      var it := offset;
      if it >= |data| {
        NoString(data, offset);
        return false;
      }
      Scan();
      ok := str != [];
      NextString(data, offset);
    }

    /** Passes over zeros and takes the bytes up to the next one. */
    method Scan()
      requires str == [] && offset < |data|
      modifies this`pos, this`str
      ensures str == data[SkipZeros(data, offset)..StringEnd(data, offset)]
      ensures pos == old(pos) + StringEnd(data, offset) - offset
    {
      hide SkipZeros, FindZero;
      var it := offset;
      ghost var begin, end := SkipZeros(data, offset), StringEnd(data, offset);
      while it != |data|
        invariant str == [] ==> offset <= it <= begin
        invariant str != [] ==> begin < it <= end && str == data[begin..it]
        invariant pos == old(pos) + it - offset
      {
        var ch := data[it];
        if ch == 0 {
          if str != [] { break; }
        } else {
          ghost var before := str;
          str := str + [ch];
          assert before == data[begin..it];
          assert str == data[begin..it + 1];
        }
        it, pos := it + 1, pos + 1;
      }
    }

    method ReadAll() returns (res: seq<seq<Byte>>)
      requires Valid()
      modifies this
      ensures res == StringsFrom(data, old(Start()))
      ensures Exhausted()
    {
      hide StringsFrom, Valid, Current, Exhausted;
      res := [];
      ghost var all := StringsFrom(data, Start());
      var ok := Next();
      while ok
        invariant Valid() && (!ok ==> Exhausted() && res == all)
        invariant ok ==> Current() && all == res + ([str] + StringsFrom(data, Start()))
        decreases ok, |data| - offset
      {
        assert res + ([str] + StringsFrom(data, Start())) == res + [str] + StringsFrom(data, Start());
        res := res + [str];
        CurrentIsNotFresh();
        ok := Next();
      }
    }

    lemma CurrentIsNotFresh()
      requires Current()
      ensures str != [] && offset < |data|
    {
    }
  }

  // ---------------------------------------------------------------------------------------------
  // What the strings are
  // ---------------------------------------------------------------------------------------------

  /** The parts between zeros, also the empty ones. */
  function Split(data: seq<Byte>): (r: seq<seq<Byte>>)
    ensures r != []
  {
    if data == [] then [[]]
    else
      var rest := Split(data[1..]);
      if data[0] == 0 then [[]] + rest else [[data[0]] + rest[0]] + rest[1..]
  }

  function Joined(parts: seq<seq<Byte>>): seq<Byte> {
    if parts == [] then [] else if |parts| == 1 then parts[0] else parts[0] + [0] + Joined(parts[1..])
  }

  function NonEmpty(parts: seq<seq<Byte>>): seq<seq<Byte>> {
    if parts == [] then [] else (if parts[0] == [] then [] else [parts[0]]) + NonEmpty(parts[1..])
  }

  /** Splitting is what joining with zeros undoes. */
  lemma {:induction false} SplitIsInverse(data: seq<Byte>)
    ensures Joined(Split(data)) == data
    ensures forall i | 0 <= i < |Split(data)| :: 0 !in Split(data)[i]
  {
    if data != [] {
      SplitIsInverse(data[1..]);
      var rest := Split(data[1..]);
      if data[0] == 0 {
        JoinedEmpty(rest);
        assert [0] + data[1..] == data;
      } else {
        JoinedLonger(data[0], rest);
        assert [data[0]] + data[1..] == data;
      }
    }
  }

  lemma JoinedEmpty(rest: seq<seq<Byte>>)
    requires rest != []
    ensures Joined([[]] + rest) == [0] + Joined(rest)
  {
    assert ([[]] + rest)[1..] == rest;
  }

  lemma JoinedLonger(b: Byte, rest: seq<seq<Byte>>)
    requires rest != []
    ensures Joined([[b] + rest[0]] + rest[1..]) == [b] + Joined(rest)
  {
    var longer := [[b] + rest[0]] + rest[1..];
    if |rest| > 1 {
      assert longer[1..] == rest[1..];
      assert [b] + rest[0] + [0] + Joined(rest[1..]) == [b] + (rest[0] + [0] + Joined(rest[1..]));
    }
  }

  lemma {:induction false} SplitAt(data: seq<Byte>, end: nat)
    requires end <= |data| && (forall k | 0 <= k < end :: data[k] != 0) && (end < |data| ==> data[end] == 0)
    ensures Split(data) == [data[..end]] + if end < |data| then Split(data[end + 1..]) else []
  {
    if end == 0 {
    } else {
      SplitAt(data[1..], end - 1);
      assert [data[0]] + data[1..][..end - 1] == data[..end];
      if end < |data| {
        assert data[1..][end..] == data[end + 1..];
      }
    }
  }

  /** Reading one string after the other gives exactly the parts that are not empty, in their order. */
  lemma {:induction false} StringsAreNonEmptyParts(data: seq<Byte>, i: nat)
    requires i <= |data|
    ensures StringsFrom(data, i) == NonEmpty(Split(data[i..]))
    decreases |data| - i
  {
    hide NonEmpty, Split, StringsFrom, FindZero;
    if i == |data| {
      assert data[i..] == [];
      NothingFrom(data, i);
      NoParts();
    } else if data[i] == 0 {
      StringsAreNonEmptyParts(data, i + 1);
      ZeroIsSkipped(data, i);
    } else {
      PartFrom(data, i);
      var end := FindZero(data, i);
      if end < |data| {
        StringsAreNonEmptyParts(data, end + 1);
      }
    }
  }

  /** A string that is not empty is the first part, for both. */
  lemma PartFrom(data: seq<Byte>, i: nat)
    requires i < |data| && data[i] != 0
    ensures var end, part := FindZero(data, i), data[i..FindZero(data, i)];
      if end < |data|
      then StringsFrom(data, i) == [part] + StringsFrom(data, end + 1)
        && NonEmpty(Split(data[i..])) == [part] + NonEmpty(Split(data[end + 1..]))
      else StringsFrom(data, i) == [part] == NonEmpty(Split(data[i..]))
  {
    hide NonEmpty, Split, StringsFrom, FindZero, StringEnd;
    var end := FindZero(data, i);
    NextStringHere(data, i);
    SplitAt(data[i..], end - i);
    assert data[i..][..end - i] == data[i..end];
    if end < |data| {
      assert data[i..][end - i + 1..] == data[end + 1..];
      PartsFrom(data[i..end], Split(data[end + 1..]));
    } else {
      PartsFrom(data[i..end], []);
      NothingFrom(data, end + 1);
    }
  }

  lemma NextStringHere(data: seq<Byte>, i: nat)
    requires i < |data| && data[i] != 0
    ensures var end := FindZero(data, i);
      StringsFrom(data, i) == [data[i..end]] + StringsFrom(data, end + 1)
  {
    NextString(data, i);
  }

  lemma NoParts()
    ensures NonEmpty(Split([])) == []
  {
  }

  lemma PartsFrom(part: seq<Byte>, rest: seq<seq<Byte>>)
    ensures NonEmpty([part] + rest) == (if part == [] then [] else [part]) + NonEmpty(rest)
  {
    assert ([part] + rest)[1..] == rest;
  }

  lemma NothingFrom(data: seq<Byte>, i: nat)
    requires i >= |data|
    ensures StringsFrom(data, i) == [] && NonEmpty([]) == []
  {
  }

  lemma ZeroIsSkipped(data: seq<Byte>, i: nat)
    requires i < |data| && data[i] == 0
    ensures StringsFrom(data, i) == StringsFrom(data, i + 1)
    ensures NonEmpty(Split(data[i..])) == NonEmpty(Split(data[i + 1..]))
  {
    assert data[i..][1..] == data[i + 1..];
    PartsFrom([], Split(data[i + 1..]));
  }

  /** A fresh reader reads exactly the parts of the data that are not empty. */
  method ReadStrings(data: seq<Byte>) returns (res: seq<seq<Byte>>)
    ensures res == NonEmpty(Split(data))
  {
    var reader := new CStringReader(data);
    res := reader.ReadAll();
    StringsAreNonEmptyParts(data, 0);
    assert data[0..] == data;
  }
}
