/** The print buffer of the Itanium demangler and the growable string that its chunks are collected in. */
module ItaniumPrintBuffer {
  import opened ItaniumPrint

  /** A growable string whose capacity is doubled until it suffices; the text ends in a zero. */
  class GrowableString {
    var buf: array?<char>
    var len: nat
    var alc: nat

    ghost predicate Valid()
      reads this, buf
    {
      if buf == null then len == 0 && alc == 0 else len < alc == buf.Length && buf[len] == '\0'
    }

    function Contents(): string
      requires Valid()
      reads this, buf
    {
      if buf == null then "" else buf[..len]
    }

    ghost function Footprint(): set<object>
      reads this
    {
      {this} + if buf == null then {} else {buf}
    }

    constructor ()
      ensures Valid() && Contents() == "" && fresh(Footprint())
    {
      buf, len, alc := null, 0, 0;
    }

    method Resize(need: nat)
      requires Valid() && need > alc
      modifies this
      ensures buf != null && fresh(buf) && len == old(len) && need <= alc == buf.Length
      ensures buf[..len] == old(Contents())
    {
      var newalc := if alc > 0 then alc else 2;
      while newalc < need
        invariant newalc > 0 && newalc >= alc
        decreases need - newalc
      {
        newalc := 2 * newalc;
      }
      var newbuf := new char[newalc];
      var from := buf;
      if from != null {
        for i := 0 to len
          invariant buf == from && len == old(len)
          invariant forall k | 0 <= k < i :: newbuf[k] == from[k]
        {
          newbuf[i] := from[i];
        }
      }
      buf, alc := newbuf, newalc;
    }

    method AppendBuffer(s: string)
      requires Valid()
      modifies Footprint()
      ensures Valid() && Contents() == old(Contents()) + s && fresh(Footprint() - old(Footprint()))
    {
      ghost var text := Contents();
      var need := len + |s| + 1;
      if need > alc {
        Resize(need);
      }
      var to := buf;
      for i := 0 to |s|
        invariant buf == to && to != null && len == old(len) && alc == to.Length && need <= alc
        invariant to[..len] == text
        invariant forall k | 0 <= k < i :: to[len + k] == s[k]
      {
        to[len + i] := s[i];
      }
      to[len + |s|] := '\0';
      len := len + |s|;
      assert to[..len] == text + s;
    }
  }

  class PrintInfo {
    const buf: array<char>
    var len: nat
    var lastChar: char
    var flushCount: nat
    const sink: GrowableString

    ghost predicate Valid()
      reads this, buf, sink, sink.buf
    {
      && buf.Length == BUFFER_LENGTH && len < BUFFER_LENGTH
      && sink.Valid() && buf !in sink.Footprint()
    }

    ghost function Footprint(): set<object>
      reads this, sink
    {
      {this, buf} + sink.Footprint()
    }

    ghost function Value(): Buffered
      requires Valid()
      reads this, buf, sink, sink.buf
    {
      Buffered(sink.Contents(), buf[..len], lastChar, flushCount)
    }

    constructor ()
      ensures Valid() && fresh(Footprint()) && Value() == Buffered("", "", '\0', 0)
    {
      buf := new char[BUFFER_LENGTH];
      len, lastChar, flushCount := 0, '\0', 0;
      sink := new GrowableString();
    }

    /** Hands the buffered characters to the callback. */
    method PrintFlush()
      requires Valid()
      modifies Footprint()
      ensures Valid() && fresh(Footprint() - old(Footprint()))
      ensures Value() == Flush(old(Value()))
    {
      ghost var pending := buf[..len];
      buf[len] := '\0';
      assert buf[..len] == pending;
      sink.AppendBuffer(buf[..len]);
      len := 0;
      flushCount := flushCount + 1;
    }

    method AppendChar(c: char)
      requires Valid()
      modifies Footprint()
      ensures Valid() && fresh(Footprint() - old(Footprint()))
      ensures Value() == PutChar(old(Value()), c)
    {
      if len == BUFFER_LENGTH - 1 {
        PrintFlush();
      }
      ghost var pending := buf[..len];
      buf[len] := c;
      len := len + 1;
      lastChar := c;
      assert buf[..len] == pending + [c];
    }

    method AppendString(s: string)
      requires Valid()
      modifies Footprint()
      ensures Valid() && fresh(Footprint() - old(Footprint()))
      ensures Value() == Put(old(Value()), s)
    {
      ghost var first := Value();
      assert s[0..] == s;
      for i := 0 to |s|
        invariant Valid() && fresh(Footprint() - old(Footprint()))
        invariant Put(first, s) == Put(Value(), s[i..])
      {
        hide PutChar;
        assert s[i..][0] == s[i] && s[i..][1..] == s[i + 1..];
        AppendChar(s[i]);
      }
    }

    /** Prints; the list case is that of argument lists. */
    method PrintComp(p: Print)
      requires Valid()
      modifies Footprint()
      ensures Valid() && fresh(Footprint() - old(Footprint()))
      ensures Value() == Exec(p, old(Value()))
      decreases p, 0
    {
      hide Put, Flush;
      match p
      case Text(s) =>
        AppendString(s);
      case Then(first, second) =>
        PrintComp(first);
        PrintComp(second);
      case IfLast(chars, yes, no) =>
        if lastChar in chars { PrintComp(yes); } else { PrintComp(no); }
      case List(left, right) =>
        PrintComp(left);
        PrintArgs(right);
    }

    /** A comma and the second part; the comma is taken back when that part printed nothing. */
    method PrintArgs(right: Print)
      requires Valid()
      modifies Footprint()
      ensures Valid() && fresh(Footprint() - old(Footprint()))
      ensures Value() == TakeBack(Comma(old(Value())), Exec(right, Comma(old(Value()))))
      decreases right, 1
    {
      hide Put, Flush, Exec;
      if len >= BUFFER_LENGTH - 2 {
        PrintFlush();
      }
      CommaAtEnd(old(Value()));
      AppendString(", ");
      var size, count := len, flushCount;
      ghost var comma := Value();
      PrintComp(right);
      if flushCount == count && len == size {
        ghost var after := Value();
        len := len - 2;
        assert buf[..len] == after.pending[..|after.pending| - 2];
      }
    }
  }

  /** Prints a whole name, and flushes what is left. */
  method PrintCallback(p: Print) returns (text: string)
    ensures text == Exec(p, Buffered("", "", '\0', 0)).Total()
    ensures !Strands(p, Buffered("", "", '\0', 0)) <==> text == Printed(p, '\0')
  {
    var info := new PrintInfo();
    info.PrintComp(p);
    ghost var end := info.Value();
    info.PrintFlush();
    text := info.sink.Contents();
    PrintsSameExactlyWhen(p, Buffered("", "", '\0', 0));
  }
}
