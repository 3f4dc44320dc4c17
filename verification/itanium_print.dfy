/** Printing through a small buffer that is flushed when full, and from which a comma may be taken back. */
module ItaniumPrint {
  /** The buffer has 256 characters, one of which is for the terminator. */
  const BUFFER_LENGTH := 256

  /**
   What a printer does to its buffer. Which text it writes depends on what has been written only
   through the last character. A list has two parts, with a comma between them.
   */
  datatype Print =
    | Text(s: string)
    | Then(first: Print, second: Print)
    | IfLast(chars: string, yes: Print, no: Print)
    | List(left: Print, right: Print)

  // ---------------------------------------------------------------------------------------------
  // The unbuffered printer
  // ---------------------------------------------------------------------------------------------

  /** The last character afterwards; taking a comma back does not bring back the one before it. */
  function LastOf(p: Print, last: char): char {
    match p
    case Text(s) => if s == "" then last else s[|s| - 1]
    case Then(a, b) => LastOf(b, LastOf(a, last))
    case IfLast(chars, yes, no) => if last in chars then LastOf(yes, last) else LastOf(no, last)
    case List(l, r) => LastOf(r, ' ')
  }

  /** What is printed, by a printer that looks at what the second part of a list prints. */
  function Printed(p: Print, last: char): string {
    match p
    case Text(s) => s
    case Then(a, b) => Printed(a, last) + Printed(b, LastOf(a, last))
    case IfLast(chars, yes, no) => if last in chars then Printed(yes, last) else Printed(no, last)
    case List(l, r) =>
      Printed(l, last) + if Printed(r, ' ') == "" then "" else ", " + Printed(r, ' ')
  }

  /** Whether a list is among what is printed. */
  predicate RunsList(p: Print, last: char) {
    match p
    case Text(_) => false
    case Then(a, b) => RunsList(a, last) || RunsList(b, LastOf(a, last))
    case IfLast(chars, yes, no) => if last in chars then RunsList(yes, last) else RunsList(no, last)
    case List(_, _) => true
  }

  // ---------------------------------------------------------------------------------------------
  // The buffered printer
  // ---------------------------------------------------------------------------------------------

  /** The chunks that were flushed, joined; what is in the buffer; the last character; how many flushes. */
  datatype Buffered = Buffered(done: string, pending: string, last: char, flushes: nat) {
    function Total(): string { done + pending }

    predicate Fits() { |pending| < BUFFER_LENGTH }
  }

  function Flush(b: Buffered): Buffered { Buffered(b.done + b.pending, "", b.last, b.flushes + 1) }

  function PutChar(b: Buffered, c: char): Buffered {
    var room := if |b.pending| == BUFFER_LENGTH - 1 then Flush(b) else b;
    Buffered(room.done, room.pending + [c], c, room.flushes)
  }

  function Put(b: Buffered, s: string): Buffered
    decreases |s|
  {
    if s == "" then b else Put(PutChar(b, s[0]), s[1..])
  }

  /** Makes sure that a comma and a space are not flushed one without the other. */
  function Room(b: Buffered): Buffered {
    if |b.pending| >= BUFFER_LENGTH - 2 then Flush(b) else b
  }

  function Comma(b: Buffered): Buffered { Put(Room(b), ", ") }

  /** Takes two characters back when nothing was written and nothing flushed since. */
  function TakeBack(before: Buffered, after: Buffered): Buffered {
    if after.flushes == before.flushes && |after.pending| == |before.pending| >= 2
    then after.(pending := after.pending[..|after.pending| - 2])
    else after
  }

  function Exec(p: Print, b: Buffered): Buffered {
    match p
    case Text(s) => Put(b, s)
    case Then(x, y) => Exec(y, Exec(x, b))
    case IfLast(chars, yes, no) => if b.last in chars then Exec(yes, b) else Exec(no, b)
    case List(l, r) =>
      var comma := Comma(Exec(l, b));
      TakeBack(comma, Exec(r, comma))
  }

  // ---------------------------------------------------------------------------------------------
  // What the buffer keeps
  // ---------------------------------------------------------------------------------------------

  /** Nothing that was flushed is ever changed; without a flush, what was pending stays in front. */
  ghost predicate Extends(a: Buffered, b: Buffered) {
    && b.Fits() && a.flushes <= b.flushes && a.done <= b.done
    && (a.flushes == b.flushes ==> a.done == b.done && a.pending <= b.pending)
    && (a.flushes < b.flushes ==> a.Total() <= b.done)
  }

  lemma ExtendsTransitive(a: Buffered, b: Buffered, c: Buffered)
    requires Extends(a, b) && Extends(b, c)
    ensures Extends(a, c)
  {
  }

  lemma PutCharExtends(b: Buffered, c: char)
    requires b.Fits()
    ensures Extends(b, PutChar(b, c)) && PutChar(b, c).Total() == b.Total() + [c]
  {
  }

  lemma {:induction false} PutExtends(b: Buffered, s: string)
    requires b.Fits()
    ensures Extends(b, Put(b, s)) && Put(b, s).Total() == b.Total() + s
    ensures Put(b, s).last == if s == "" then b.last else s[|s| - 1]
    decreases |s|
  {
    if s != "" {
      hide PutChar, Extends;
      PutCharExtends(b, s[0]);
      PutCharLast(b, s[0]);
      FitsAfter(b, PutChar(b, s[0]));
      PutExtends(PutChar(b, s[0]), s[1..]);
      ExtendsTransitive(b, PutChar(b, s[0]), Put(b, s));
      assert b.Total() + [s[0]] + s[1..] == b.Total() + s;
    } else {
      SameExtends(b);
    }
  }

  lemma SameExtends(b: Buffered)
    requires b.Fits()
    ensures Extends(b, b)
  {
  }

  lemma FitsAfter(a: Buffered, b: Buffered)
    requires Extends(a, b)
    ensures b.Fits()
  {
  }

  lemma PutCharLast(b: Buffered, c: char)
    ensures PutChar(b, c).last == c
  {
  }

  /** The comma and the space stand at the end of the buffer. */
  lemma CommaAtEnd(b: Buffered)
    requires b.Fits()
    ensures Extends(Room(b), Comma(b)) && Extends(b, Comma(b))
    ensures Comma(b).pending == Room(b).pending + ", " && Comma(b).flushes == Room(b).flushes
    ensures Comma(b).done == Room(b).done && Comma(b).last == ' ' && Comma(b).Total() == b.Total() + ", "
    ensures Room(b).Total() == b.Total() && |Room(b).pending| <= 253
  {
    var room := Room(b);
    assert Put(room, ", ") == Put(PutChar(room, ','), " ") == PutChar(PutChar(room, ','), ' ');
    assert room.pending + [','] + [' '] == room.pending + ", ";
    assert b.Total() + ", " == room.done + (room.pending + ", ");
  }

  /**
   What is taken back is exactly the comma and the space of the same list: never older text, and
   nothing that was flushed.
   */
  lemma TakesBackOwnComma(b: Buffered, after: Buffered)
    requires b.Fits() && Extends(Comma(b), after)
    ensures var comma := Comma(b);
      var end := TakeBack(comma, after);
      && Extends(Room(b), end)
      && (end != after ==> after.pending == comma.pending == end.pending + ", " && end.Total() == b.Total())
      && (end == after <==> after.flushes != comma.flushes || |after.pending| != |comma.pending|)
  {
    CommaAtEnd(b);
  }

  /** The buffer never overflows, and only ever what was printed last is taken back. */
  lemma {:induction false} ExecExtends(p: Print, b: Buffered)
    requires b.Fits()
    ensures Extends(b, Exec(p, b))
    ensures Exec(p, b).last == LastOf(p, b.last)
  {
    hide Put, Extends, Comma, TakeBack;
    match p
    case Text(s) => PutExtends(b, s);
    case Then(x, y) =>
      ExecExtends(x, b);
      FitsAfter(b, Exec(x, b));
      ExecExtends(y, Exec(x, b));
      ExtendsTransitive(b, Exec(x, b), Exec(p, b));
    case IfLast(chars, yes, no) =>
      ExecExtends(if b.last in chars then yes else no, b);
    case List(l, r) =>
      var left := Exec(l, b);
      ExecExtends(l, b);
      FitsAfter(b, left);
      CommaAtEnd(left);
      FitsAfter(left, Comma(left));
      ExecExtends(r, Comma(left));
      TakesBackOwnComma(left, Exec(r, Comma(left)));
      RoomExtends(left);
      ExtendsTransitive(b, left, Room(left));
      ExtendsTransitive(b, Room(left), Exec(p, b));
      TakeBackLast(Comma(left), Exec(r, Comma(left)));
  }

  lemma RoomExtends(b: Buffered)
    requires b.Fits()
    ensures Extends(b, Room(b))
  {
  }

  lemma TakeBackLast(before: Buffered, after: Buffered)
    ensures TakeBack(before, after).last == after.last
  {
  }

  // ---------------------------------------------------------------------------------------------
  // When the buffered printer prints the same
  // ---------------------------------------------------------------------------------------------

  /**
   A list keeps its comma although its second part prints nothing: the buffer was so full that the
   list inside the second part flushed it.
   */
  predicate KeepsComma(r: Print, left: Buffered) {
    Printed(r, ' ') == "" && RunsList(r, ' ') && BUFFER_LENGTH - 4 <= |left.pending| < BUFFER_LENGTH - 2
  }

  /** Somewhere in what is printed a list keeps its comma. */
  predicate Strands(p: Print, b: Buffered) {
    match p
    case Text(_) => false
    case Then(x, y) => Strands(x, b) || Strands(y, Exec(x, b))
    case IfLast(chars, yes, no) => if b.last in chars then Strands(yes, b) else Strands(no, b)
    case List(l, r) => Strands(l, b) || KeepsComma(r, Exec(l, b)) || Strands(r, Comma(Exec(l, b)))
  }

  /** Without a list, what prints nothing does nothing. */
  lemma {:induction false} SilentWithoutList(p: Print, b: Buffered)
    requires b.Fits() && Printed(p, b.last) == "" && !RunsList(p, b.last)
    ensures Exec(p, b) == b && LastOf(p, b.last) == b.last
  {
    match p
    case Text(_) =>
    case Then(x, y) =>
      SilentWithoutList(x, b);
      SilentWithoutList(y, b);
    case IfLast(chars, yes, no) => SilentWithoutList(if b.last in chars then yes else no, b);
    case List(_, _) =>
  }

  /** While there is room, what prints nothing leaves the buffer as it was. */
  lemma {:induction false} SilentWithRoom(p: Print, b: Buffered)
    requires Printed(p, b.last) == "" && !Strands(p, b) && |b.pending| < BUFFER_LENGTH - 2
    ensures Exec(p, b) == b.(last := LastOf(p, b.last))
  {
    match p
    case Text(_) =>
    case Then(x, y) =>
      SilentWithRoom(x, b);
      SilentWithRoom(y, Exec(x, b));
    case IfLast(chars, yes, no) => SilentWithRoom(if b.last in chars then yes else no, b);
    case List(l, r) =>
      SilentWithRoom(l, b);
      SilentList(l, r, b, Exec(l, b));
  }

  lemma SilentList(l: Print, r: Print, b: Buffered, left: Buffered)
    requires left == Exec(l, b) && left.Fits() && Printed(r, ' ') == ""
    requires !KeepsComma(r, left) && !Strands(r, Comma(left))
    ensures Exec(List(l, r), b) == Room(left).(last := LastOf(r, ' '))
    decreases r
  {
    hide *;
    var comma := Comma(left);
    CommaAtEnd(left);
    if RunsList(r, ' ') {
      RoomForComma(r, left);
      SilentWithRoom(r, comma);
    } else {
      CommaFits(left);
      SilentWithoutList(r, comma);
    }
    ListIs(l, r, b);
    CommaTakenBack(left, LastOf(r, ' '));
  }

  lemma ListIs(l: Print, r: Print, b: Buffered)
    ensures Exec(List(l, r), b) == TakeBack(Comma(Exec(l, b)), Exec(r, Comma(Exec(l, b))))
  {
    hide Comma, TakeBack;
  }

  lemma CommaFits(left: Buffered)
    requires left.Fits()
    ensures Comma(left).Fits()
  {
    CommaAtEnd(left);
  }

  lemma RoomForComma(r: Print, left: Buffered)
    requires left.Fits() && Printed(r, ' ') == "" && RunsList(r, ' ') && !KeepsComma(r, left)
    ensures |Comma(left).pending| < BUFFER_LENGTH - 2
  {
    hide Printed, RunsList, Comma;
    CommaAtEnd(left);
  }

  lemma CommaTakenBack(left: Buffered, last: char)
    requires left.Fits()
    ensures TakeBack(Comma(left), Comma(left).(last := last)) == Room(left).(last := last)
  {
    hide Comma, Room;
    CommaAtEnd(left);
    var room := Room(left);
    assert (room.pending + ", ")[..|room.pending|] == room.pending;
  }

  /** With no room for a comma, the first list that is run flushes. */
  lemma {:induction false} SilentFlushes(p: Print, b: Buffered)
    requires b.Fits() && Printed(p, b.last) == "" && RunsList(p, b.last) && |b.pending| >= BUFFER_LENGTH - 2
    ensures Exec(p, b).flushes > b.flushes
  {
    hide Put, Comma, Extends;
    match p
    case Then(x, y) =>
      ExecExtends(x, b);
      if RunsList(x, b.last) {
        SilentFlushes(x, b);
        FitsAfter(b, Exec(x, b));
      } else {
        SilentWithoutList(x, b);
        SilentFlushes(y, b);
      }
      ExecExtends(y, Exec(x, b));
      NeverLess(Exec(x, b), Exec(p, b));
    case IfLast(chars, yes, no) => SilentFlushes(if b.last in chars then yes else no, b);
    case List(l, r) =>
      var left := Exec(l, b);
      ExecExtends(l, b);
      FitsAfter(b, left);
      NeverLess(b, left);
      if RunsList(l, b.last) {
        SilentFlushes(l, b);
      } else {
        SilentWithoutList(l, b);
      }
      CommaAtEnd(left);
      FitsAfter(left, Comma(left));
      ExecExtends(r, Comma(left));
      NeverLess(Comma(left), Exec(r, Comma(left)));
      NeverLess(left, Comma(left));
  }

  lemma NeverLess(a: Buffered, b: Buffered)
    requires Extends(a, b)
    ensures a.flushes <= b.flushes
  {
  }

  /** Whether the text is as long as what the unbuffered printer prints, or longer. */
  ghost predicate PrintsAtLeast(p: Print, b: Buffered, strands: bool) {
    var end := Exec(p, b);
    if strands then |end.Total()| > |b.Total()| + |Printed(p, b.last)|
    else end.Total() == b.Total() + Printed(p, b.last)
  }

  /** Either the printer prints what the unbuffered one prints, or it keeps commas and prints more. */
  lemma {:induction false} PrintsSameOrMore(p: Print, b: Buffered)
    requires b.Fits()
    ensures PrintsAtLeast(p, b, Strands(p, b))
  {
    match p
    case Text(s) => PutExtends(b, s);
    case Then(x, y) =>
      ExecExtends(x, b);
      PrintsSameOrMore(x, b);
      PrintsSameOrMore(y, Exec(x, b));
      Regroup(b.Total(), Printed(x, b.last), Printed(y, LastOf(x, b.last)));
    case IfLast(chars, yes, no) => PrintsSameOrMore(if b.last in chars then yes else no, b);
    case List(l, r) =>
      ExecExtends(l, b);
      PrintsSameOrMore(l, b);
      CommaAtEnd(Exec(l, b));
      PrintsSameOrMore(r, Comma(Exec(l, b)));
      ListPrintsSameOrMore(l, r, b);
  }

  lemma Regroup(a: string, b: string, c: string)
    ensures a + b + c == a + (b + c)
  {
  }

  lemma ListPrintsSameOrMore(l: Print, r: Print, b: Buffered)
    requires b.Fits() && Exec(l, b).Fits()
    requires PrintsAtLeast(l, b, Strands(l, b))
    requires PrintsAtLeast(r, Comma(Exec(l, b)), Strands(r, Comma(Exec(l, b))))
    ensures PrintsAtLeast(List(l, r), b, Strands(List(l, r), b))
  {
    hide Put, Extends, Comma, Exec, Room, TakeBack, Strands;
    var left := Exec(l, b);
    var comma := Comma(left);
    var after := Exec(r, comma);
    CommaAtEnd(left);
    FitsAfter(left, comma);
    ExecExtends(r, comma);
    TakesBackOwnComma(left, after);
    ListExec(l, r, b);
    ListStrands(l, r, b);
    if Printed(r, ' ') == "" && !Strands(r, comma) {
      if !RunsList(r, ' ') {
        SilentWithoutList(r, comma);
      } else if KeepsComma(r, left) {
        RoomKeeps(left);
        SilentFlushes(r, comma);
      } else {
        SilentList(l, r, b, left);
        RoomTotal(left);
      }
    } else {
      LongerIsKept(comma, after);
      Regroup(b.Total(), Printed(l, b.last), ", " + Printed(r, ' '));
      Regroup(left.Total(), ", ", Printed(r, ' '));
    }
  }

  lemma ListExec(l: Print, r: Print, b: Buffered)
    ensures Exec(List(l, r), b) == TakeBack(Comma(Exec(l, b)), Exec(r, Comma(Exec(l, b))))
  {
  }

  lemma ListStrands(l: Print, r: Print, b: Buffered)
    ensures Strands(List(l, r), b)
      <==> Strands(l, b) || KeepsComma(r, Exec(l, b)) || Strands(r, Comma(Exec(l, b)))
  {
  }

  lemma RoomKeeps(b: Buffered)
    requires |b.pending| < BUFFER_LENGTH - 2
    ensures Room(b) == b
  {
  }

  lemma RoomTotal(b: Buffered)
    ensures Room(b).Total() == b.Total()
  {
  }

  /** When more has been written, nothing is taken back. */
  lemma LongerIsKept(comma: Buffered, after: Buffered)
    requires Extends(comma, after) && |after.Total()| > |comma.Total()|
    ensures after.flushes != comma.flushes || |after.pending| != |comma.pending|
  {
  }

  /** The chunks, joined, are what the unbuffered printer prints exactly when no list keeps its comma. */
  lemma PrintsSameExactlyWhen(p: Print, b: Buffered)
    requires b.Fits()
    ensures Exec(p, b).Total() == b.Total() + Printed(p, b.last) <==> !Strands(p, b)
  {
    PrintsSameOrMore(p, b);
  }

  // ---------------------------------------------------------------------------------------------
  // When no comma is kept, wherever printing starts
  // ---------------------------------------------------------------------------------------------

  /** No list whose second part prints nothing has a list in that part. */
  predicate OneSilentPart(p: Print, last: char) {
    match p
    case Text(_) => true
    case Then(a, b) => OneSilentPart(a, last) && OneSilentPart(b, LastOf(a, last))
    case IfLast(chars, yes, no) => if last in chars then OneSilentPart(yes, last) else OneSilentPart(no, last)
    case List(l, r) =>
      OneSilentPart(l, last) && OneSilentPart(r, ' ') && (Printed(r, ' ') == "" ==> !RunsList(r, ' '))
  }

  /** With at most one silent part at the end of each list, both printers always print the same. */
  lemma {:induction false} OneSilentPartPrintsSame(p: Print, b: Buffered)
    requires b.Fits() && OneSilentPart(p, b.last)
    ensures !Strands(p, b) && Exec(p, b).Total() == b.Total() + Printed(p, b.last)
  {
    OneSilentPartNeverStrands(p, b);
    PrintsSameOrMore(p, b);
  }

  lemma {:induction false} OneSilentPartNeverStrands(p: Print, b: Buffered)
    requires b.Fits() && OneSilentPart(p, b.last)
    ensures !Strands(p, b)
  {
    match p
    case Text(_) =>
    case Then(x, y) =>
      ExecExtends(x, b);
      OneSilentPartNeverStrands(x, b);
      OneSilentPartNeverStrands(y, Exec(x, b));
    case IfLast(chars, yes, no) => OneSilentPartNeverStrands(if b.last in chars then yes else no, b);
    case List(l, r) =>
      ExecExtends(l, b);
      OneSilentPartNeverStrands(l, b);
      CommaAtEnd(Exec(l, b));
      OneSilentPartNeverStrands(r, Comma(Exec(l, b)));
  }

  /** Conversely, two silent parts at the end of a list keep a comma when the buffer is full enough. */
  lemma TwoSilentPartsStrand(s: string, last: char)
    requires |s| == 252
    ensures var p := List(Text(s), List(Text(""), Text("")));
      var end := Exec(p, Buffered("", "", last, 0));
      Printed(p, last) == s && end.Total() != s && |end.Total()| > |s|
  {
    hide Put, Exec;
    var b, l, r := Buffered("", "", last, 0), Text(s), List(Text(""), Text(""));
    PutExtends(b, s);
    PutShort(b, s);
    ListStrands(l, r, b);
    TextExec(b, s);
    PrintsSameOrMore(List(l, r), b);
    assert Printed(r, ' ') == "";
    assert b.Total() + s == s && s + "" == s;
  }

  lemma TextExec(b: Buffered, s: string)
    ensures Exec(Text(s), b) == Put(b, s)
  {
  }

  lemma {:induction false} PutShort(b: Buffered, s: string)
    requires |b.pending| + |s| < BUFFER_LENGTH
    ensures Put(b, s).pending == b.pending + s && Put(b, s).flushes == b.flushes && Put(b, s).done == b.done
    decreases |s|
  {
    if s != "" {
      PutShort(PutChar(b, s[0]), s[1..]);
      assert b.pending + [s[0]] + s[1..] == b.pending + s;
    }
  }
}
