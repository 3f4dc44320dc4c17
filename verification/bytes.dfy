/** Bytes, and the list facts that several parts of the model share. */
module Bytes {
  import opened Options

  type Byte = b: int | 0 <= b < 256

  /** `b` at `pos` in `a`, over what was there and past the end of `a` if it is longer. */
  function Splice<T>(a: seq<T>, pos: nat, b: seq<T>): (r: seq<T>)
    requires pos <= |a|
    ensures |r| == if pos + |b| <= |a| then |a| else pos + |b|
    ensures forall i | 0 <= i < |r| :: r[i] == if pos <= i < pos + |b| then b[i - pos] else a[i]
  {
    a[..pos] + b + if pos + |b| <= |a| then a[pos + |b|..] else []
  }

  /** Up to `size` elements from `pos`: what QByteArray::mid returns. */
  function Mid<T>(a: seq<T>, pos: nat, size: nat): (r: seq<T>)
    ensures pos + size <= |a| ==> |r| == size && forall i | 0 <= i < size :: r[i] == a[pos + i]
  {
    if pos >= |a| then [] else if pos + size <= |a| then a[pos..pos + size] else a[pos..]
  }

  /** The value of a hexadecimal digit of either case. */
  function HexDigit(c: char): (r: Option<nat>)
    ensures r.Some? ==> r.value < 16
  {
    if '0' <= c <= '9' then Some(c as int - '0' as int)
    else if 'a' <= c <= 'f' then Some(c as int - 'a' as int + 10)
    else if 'A' <= c <= 'F' then Some(c as int - 'A' as int + 10)
    else None
  }
}
