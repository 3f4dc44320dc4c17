/** Reading a printed line of a hex dump back: its address, its bytes, its characters. */
module HexBlock {
  import opened Bytes
  import opened Options
  import opened HexDump

  // ---------------------------------------------------------------------------------------------
  // Texts
  // ---------------------------------------------------------------------------------------------

  predicate IsSpace(c: char) { c == ' ' || 9 <= c as int <= 13 }

  function TrimmedFront(s: string): (r: string)
    ensures |r| <= |s|
  {
    if s != "" && IsSpace(s[0]) then TrimmedFront(s[1..]) else s
  }

  function TrimmedBack(s: string): (r: string)
    ensures |r| <= |s|
  {
    if s != "" && IsSpace(s[|s| - 1]) then TrimmedBack(s[..|s| - 1]) else s
  }

  function Trimmed(s: string): string { TrimmedBack(TrimmedFront(s)) }

  function IndexOf(s: string, c: char): Option<nat> {
    if s == "" then None
    else if s[0] == c then Some(0)
    else match IndexOf(s[1..], c) case None => None case Some(i) => Some(i + 1)
  }

  function Right(s: string, n: nat): string { if n >= |s| then s else s[|s| - n..] }

  function Chopped(s: string, n: nat): string { if n >= |s| then "" else s[..|s| - n] }

  function WithoutBlanks(s: string): string {
    if s == "" then "" else (if s[0] == ' ' then "" else [s[0]]) + WithoutBlanks(s[1..])
  }

  /** The value of a text of hexadecimal digits. */
  function HexValue(s: string): Option<nat> {
    if s == "" then None
    else
      match HexDigit(s[|s| - 1])
      case None => None
      case Some(d) =>
        if |s| == 1 then Some(d)
        else match HexValue(s[..|s| - 1]) case None => None case Some(v) => Some(16 * v + d)
  }

  /** Zero when the text is no number, or one of more than 64 bits. */
  function ToULongLong(s: string): (r: nat)
    ensures r < TWO64
  {
    match HexValue(s)
    case None => 0
    case Some(v) => if v < TWO64 then v else 0
  }

  // ---------------------------------------------------------------------------------------------
  // The block of a line
  // ---------------------------------------------------------------------------------------------

  datatype Block = Block(addr: nat, hexLow: string, hexHigh: string, ascii: string, line: string) {
    function Hex(): string { hexLow + hexHigh }
  }

  function CursorBlock(text: string): Block {
    var line := Trimmed(text);
    var colon := IndexOf(line, ':');
    var addr := ToULongLong(if colon.Some? then Mid(line, 0, colon.value) else line);
    var ascii := Trimmed(Right(line, 16));
    var rest := if colon.Some? then Mid(line, colon.value + 1, |line|) else line;
    var hex := WithoutBlanks(Trimmed(Chopped(rest, |ascii|)));
    Block(addr, Mid(hex, 0, 16), Mid(hex, 16, 16), ascii, line)
  }

  /** Two digits a byte; nothing when there is anything but digits. */
  function DataOf(hex: string): Option<seq<Byte>>
    decreases |hex|
  {
    if hex == "" then Some([])
    else
      match HexValue(Mid(hex, 0, 2))
      case None => None
      case Some(v) =>
        match DataOf(hex[if |hex| < 2 then 1 else 2..])
        case None => None
        case Some(rest) => Some([v % 256] + rest)
  }

  function Prefixed(data: seq<Byte>, rest: Option<seq<Byte>>): Option<seq<Byte>> {
    match rest case None => None case Some(more) => Some(data + more)
  }

  /** The pair of digits at `i`, and then the others. */
  lemma DataStep(hex: string, i: nat, data: seq<Byte>)
    requires i < |hex|
    ensures var v, next := HexValue(Mid(hex, i, 2)), if i + 2 <= |hex| then i + 2 else |hex|;
      Prefixed(data, DataOf(hex[i..]))
        == if v.None? then None else Prefixed(data + [v.value % 256], DataOf(hex[next..]))
  {
    hide HexValue;
    var rest := hex[i..];
    assert Mid(rest, 0, 2) == Mid(hex, i, 2);
    var next := if i + 2 <= |hex| then i + 2 else |hex|;
    assert rest[if |rest| < 2 then 1 else 2..] == hex[next..];
    var v, more := HexValue(Mid(hex, i, 2)), DataOf(hex[next..]);
    if v.Some? && more.Some? {
      assert data + ([v.value % 256] + more.value) == data + [v.value % 256] + more.value;
    }
  }

  method HexToData(str: string) returns (data: seq<Byte>)
    ensures data == if DataOf(str).Some? then DataOf(str).value else []
  {
    hide HexValue, Mid;
    data := [];
    var size, i := |str|, 0;
    assert str[0..] == str;
    assert DataOf(str).Some? ==> [] + DataOf(str).value == DataOf(str).value;
    while i < size
      invariant 0 <= i <= size + 1
      invariant DataOf(str) == Prefixed(data, DataOf(str[if i <= size then i else size..]))
      decreases size + 2 - i
    {
      DataStep(str, i, data);
      var v := HexValue(Mid(str, i, 2));
      if v.None? { return []; }
      data := data + [v.value % 256];
      i := i + 2;
    }
  }

  // ---------------------------------------------------------------------------------------------
  // Numbers
  // ---------------------------------------------------------------------------------------------

  lemma {:induction false} UpperHexReadsBack(n: nat)
    ensures HexValue(UpperHex(n)) == Some(n)
  {
    if n >= 16 {
      UpperHexReadsBack(n / 16);
      var s := UpperHex(n);
      assert s[..|s| - 1] == UpperHex(n / 16) && s[|s| - 1] == UpperHexChar(n % 16);
    }
  }

  /** The digits of all bytes of a row. */
  function RowHex(row: seq<Byte>): (r: string)
    ensures |r| == 2 * |row|
  {
    if row == [] then "" else ByteHex(row[0]) + RowHex(row[1..])
  }

  lemma {:induction false} DataReadsBack(row: seq<Byte>)
    ensures DataOf(RowHex(row)) == Some(row)
  {
    if row != [] {
      DataReadsBack(row[1..]);
      var hex := RowHex(row);
      assert hex[2..] == RowHex(row[1..]);
      assert Mid(hex, 0, 2) == ByteHex(row[0]);
      ByteReadsBack(row[0]);
      assert [row[0]] + row[1..] == row;
    }
  }

  lemma ByteReadsBack(b: Byte)
    ensures HexValue(ByteHex(b)) == Some(b)
  {
    var s := ByteHex(b);
    assert s[..1] == [UpperHexChar(b / 16)];
    assert HexValue(s[..1]) == Some(b / 16);
  }

  // ---------------------------------------------------------------------------------------------
  // Blanks
  // ---------------------------------------------------------------------------------------------

  lemma {:induction false} WithoutBlanksAppend(a: string, b: string)
    ensures WithoutBlanks(a + b) == WithoutBlanks(a) + WithoutBlanks(b)
  {
    if a == "" {
      assert a + b == b;
    } else {
      WithoutBlanksAppend(a[1..], b);
      assert (a + b)[0] == a[0] && (a + b)[1..] == a[1..] + b;
      Joined(if a[0] == ' ' then "" else [a[0]], WithoutBlanks(a[1..]), WithoutBlanks(b));
    }
  }

  lemma Joined(a: string, b: string, c: string)
    ensures a + (b + c) == a + b + c
  {
  }

  lemma {:induction false} NoBlanks(n: nat)
    ensures WithoutBlanks(Spaces(n)) == ""
  {
    if n > 0 {
      NoBlanks(n - 1);
      assert Spaces(n)[1..] == Spaces(n - 1);
    }
  }

  ghost predicate OnlyBlanks(s: string) {
    forall i | 0 <= i < |s| && IsSpace(s[i]) :: s[i] == ' '
  }

  lemma {:induction false} FrontIsBlank(s: string)
    requires OnlyBlanks(s)
    ensures WithoutBlanks(TrimmedFront(s)) == WithoutBlanks(s) && OnlyBlanks(TrimmedFront(s))
  {
    if s != "" && IsSpace(s[0]) {
      FrontIsBlank(s[1..]);
    }
  }

  lemma {:induction false} BackIsBlank(s: string)
    requires OnlyBlanks(s)
    ensures WithoutBlanks(TrimmedBack(s)) == WithoutBlanks(s)
  {
    if s != "" && IsSpace(s[|s| - 1]) {
      BackIsBlank(s[..|s| - 1]);
      WithoutBlanksAppend(s[..|s| - 1], [s[|s| - 1]]);
      assert s[..|s| - 1] + [s[|s| - 1]] == s;
      LastBlank(s[|s| - 1]);
    }
  }

  lemma LastBlank(c: char)
    requires c == ' '
    ensures WithoutBlanks([c]) == ""
  {
    assert [c][1..] == "";
  }

  lemma {:induction false} SpacesAreTrimmed(n: nat, s: string)
    requires s != "" && !IsSpace(s[0]) && !IsSpace(s[|s| - 1])
    ensures Trimmed(Spaces(n) + s) == s
  {
    if n == 0 {
      assert Spaces(0) + s == s;
    } else {
      SpacesAreTrimmed(n - 1, s);
      assert (Spaces(n) + s)[1..] == Spaces(n - 1) + s;
    }
  }

  lemma {:induction false} HexPartDigits(row: seq<Byte>)
    requires |row| <= 16
    ensures WithoutBlanks(HexPart(row)) == RowHex(row) && OnlyBlanks(HexPart(row))
  {
    if row != [] {
      var front, last := row[..|row| - 1], row[|row| - 1];
      HexPartDigits(front);
      RowHexAppend(front, last);
      assert front + [last] == row;
      ByteHexKept(last);
      WithoutBlanksAppend(HexPart(front), ByteHex(last) + " ");
      WithoutBlanksAppend(HexPart(front) + (ByteHex(last) + " "), " ");
      LastBlank(' ');
    }
  }

  lemma ByteHexKept(b: Byte)
    ensures WithoutBlanks(ByteHex(b) + " ") == ByteHex(b) && OnlyBlanks(ByteHex(b) + " ")
  {
    var s := ByteHex(b) + " ";
    assert s[1..] == [UpperHexChar(b % 16), ' '] && s[1..][1..] == " ";
    LastBlank(' ');
  }

  lemma {:induction false} RowHexAppend(row: seq<Byte>, b: Byte)
    ensures RowHex(row + [b]) == RowHex(row) + ByteHex(b)
  {
    if row == [] {
      assert row + [b] == [b] && [b][1..] == [];
    } else {
      RowHexAppend(row[1..], b);
      assert (row + [b])[1..] == row[1..] + [b];
    }
  }

  // ---------------------------------------------------------------------------------------------
  // The round trip
  // ---------------------------------------------------------------------------------------------

  lemma {:induction false} ColonFound(a: string, rest: string)
    requires forall i | 0 <= i < |a| :: a[i] != ':'
    ensures IndexOf(a + ":" + rest, ':') == Some(|a|)
  {
    if a == "" {
      assert (a + ":" + rest)[0] == ':';
    } else {
      ColonFound(a[1..], rest);
      assert (a + ":" + rest)[1..] == a[1..] + ":" + rest;
    }
  }

  /** What stands between the colon and the characters. */
  function Middle(row: seq<Byte>): string
    requires |row| <= 16
  {
    " " + (HexPart(row) + Spaces(49 - |HexPart(row)|)) + "  "
  }

  lemma LineParts(addr: nat, row: seq<Byte>)
    requires 0 < |row| <= 16
    ensures Line(addr, row) == UpperHex(addr) + ":" + (Middle(row) + AsciiPart(row))
  {
  }

  lemma MiddleDigits(row: seq<Byte>)
    requires |row| <= 16
    ensures WithoutBlanks(Trimmed(Middle(row))) == RowHex(row)
  {
    hide HexPart, Trimmed, WithoutBlanks, RowHex, OnlyBlanks;
    HexPartDigits(row);
    BlanksAround(HexPart(row), 49 - |HexPart(row)|);
  }

  lemma BlanksAround(h: string, n: nat)
    requires OnlyBlanks(h)
    ensures WithoutBlanks(Trimmed(" " + (h + Spaces(n)) + "  ")) == WithoutBlanks(h)
  {
    var inner, all := h + Spaces(n), " " + (h + Spaces(n)) + "  ";
    FrontIsBlank(all);
    BackIsBlank(TrimmedFront(all));
    hide *;
    BlanksVanish(h, n);
    NoBlanks(1);
    NoBlanks(2);
    TwoSpaces();
    WithoutBlanksAppend(" ", inner);
    WithoutBlanksAppend(" " + inner, "  ");
    TrimmedIs(all);
  }

  lemma TrimmedIs(s: string)
    ensures Trimmed(s) == TrimmedBack(TrimmedFront(s))
  {
  }

  lemma TwoSpaces()
    ensures " " == Spaces(1) && "  " == Spaces(2)
  {
  }

  lemma BlanksVanish(h: string, n: nat)
    ensures WithoutBlanks(h + Spaces(n)) == WithoutBlanks(h)
  {
    hide WithoutBlanks;
    NoBlanks(n);
    WithoutBlanksAppend(h, Spaces(n));
  }

  /** Before the characters of a row there are always enough spaces to make them 16. */
  lemma LastSixteen(a: string, row: seq<Byte>)
    requires 0 < |row| <= 16
    ensures Right(a + ":" + (Middle(row) + AsciiPart(row)), 16) == Spaces(16 - |row|) + AsciiPart(row)
  {
  }

  lemma AsciiIsVisible(row: seq<Byte>)
    ensures forall i | 0 <= i < |row| :: !IsSpace(AsciiPart(row)[i])
  {
  }

  lemma LineIsTrimmed(addr: nat, row: seq<Byte>)
    requires 0 < |row| <= 16
    ensures Trimmed(Line(addr, row)) == Line(addr, row)
  {
    var line := Line(addr, row);
    AsciiIsVisible(row);
    assert line[0] == UpperHex(addr)[0];
    assert line[|line| - 1] == AsciiPart(row)[|row| - 1];
  }

  /** A printed line gives back its address, its bytes and its characters. */
  lemma LineReadsBack(addr: nat, row: seq<Byte>)
    requires addr < TWO64 && 0 < |row| <= 16
    ensures var block := CursorBlock(Line(addr, row));
      && block.addr == addr && block.ascii == AsciiPart(row) && block.line == Line(addr, row)
      && block.Hex() == RowHex(row) && DataOf(block.Hex()) == Some(row)
      && |block.hexLow| == (if |row| <= 8 then 2 * |row| else 16)
  {
    hide *;
    var line, a, ascii := Line(addr, row), UpperHex(addr), AsciiPart(row);
    LineIsTrimmed(addr, row);
    LineParts(addr, row);
    DigitsAreNoColon(addr);
    ColonFound(a, Middle(row) + ascii);
    UpperHexReadsBack(addr);
    LastSixteen(a, row);
    AsciiIsVisible(row);
    SpacesAreTrimmed(16 - |row|, ascii);
    MiddleDigits(row);
    DataReadsBack(row);
    BlockOfParts(line, a, Middle(row), ascii, addr, RowHex(row));
    Halves(RowHex(row));
  }

  lemma DigitsAreNoColon(addr: nat)
    ensures forall i | 0 <= i < |UpperHex(addr)| :: UpperHex(addr)[i] != ':'
  {
  }

  lemma BlockOfParts(line: string, a: string, middle: string, ascii: string, addr: nat, hex: string)
    requires Trimmed(line) == line == a + ":" + (middle + ascii) && IndexOf(line, ':') == Some(|a|)
    requires HexValue(a) == Some(addr) && addr < TWO64
    requires Trimmed(Right(line, 16)) == ascii && WithoutBlanks(Trimmed(middle)) == hex && |hex| <= 32
    ensures CursorBlock(line) == Block(addr, Mid(hex, 0, 16), Mid(hex, 16, 16), ascii, line)
    ensures CursorBlock(line).Hex() == hex
  {
    hide Trimmed, IndexOf, HexValue, Right, WithoutBlanks;
    Halves(hex);
    assert Mid(line, 0, |a|) == a;
    assert Mid(line, |a| + 1, |line|) == middle + ascii;
    assert Chopped(middle + ascii, |ascii|) == middle;
  }

  lemma Halves(hex: string)
    requires |hex| <= 32
    ensures Mid(hex, 0, 16) + Mid(hex, 16, 16) == hex
    ensures |Mid(hex, 0, 16)| == if |hex| <= 16 then |hex| else 16
  {
  }

  /** The address of row `k`, in 64 bits. */
  function RowAddress(addr: nat, k: nat): nat { (addr + 16 * k) % TWO64 }

  /** Every line of a dump gives back the address and the bytes of its row. */
  lemma {:induction false} DumpReadsBack(addr: nat, data: seq<Byte>, k: nat)
    requires addr < TWO64 && data != [] && k < |Lines(addr, data)|
    ensures 16 * k < |data|
    ensures var row := Mid(data, 16 * k, 16);
      var block := CursorBlock(Lines(addr, data)[k]);
      block.addr == RowAddress(addr, k) && DataOf(block.Hex()) == Some(row)
    decreases |data|
  {
    hide *;
    if k == 0 {
      FirstLine(addr, data);
      LineReadsBack(addr, Mid(data, 0, 16));
    } else {
      var next := (addr + 16) % TWO64;
      LaterLine(addr, data, k);
      DumpReadsBack(next, data[16..], k - 1);
      RowAddressStep(addr, k);
    }
  }

  lemma FirstLine(addr: nat, data: seq<Byte>)
    requires addr < TWO64 && data != []
    ensures Lines(addr, data)[0] == Line(addr, Mid(data, 0, 16)) && 0 < |Mid(data, 0, 16)| <= 16
    ensures RowAddress(addr, 0) == addr
  {
    hide Line;
    assert Mid(data, 0, 16) == if |data| <= 16 then data else data[..16];
  }

  lemma LaterLine(addr: nat, data: seq<Byte>, k: nat)
    requires 0 < k < |Lines(addr, data)|
    ensures var next := (addr + 16) % TWO64;
      && |data| > 16 && k - 1 < |Lines(next, data[16..])|
      && Lines(addr, data)[k] == Lines(next, data[16..])[k - 1]
    ensures Mid(data[16..], 16 * (k - 1), 16) == Mid(data, 16 * k, 16)
  {
    hide Line, Mid;
    MidOfRest(data, 16, 16 * (k - 1), 16);
  }

  lemma MidOfRest(data: seq<Byte>, n: nat, pos: nat, size: nat)
    requires n <= |data|
    ensures Mid(data[n..], pos, size) == Mid(data, n + pos, size)
  {
  }

  lemma RowAddressStep(addr: nat, k: nat)
    requires k > 0
    ensures RowAddress((addr + 16) % TWO64, k - 1) == RowAddress(addr, k)
  {
    WrappedTwice(addr, 16, 16 * (k - 1));
  }

  lemma WrappedTwice(a: nat, b: nat, c: nat)
    ensures ((a + b) % TWO64 + c) % TWO64 == (a + b + c) % TWO64
  {
  }
}
