/** Printing data as lines of an address, up to 16 bytes in hexadecimal, and the same in characters. */
module HexDump {
  import opened Bytes
  import opened Options

  const TWO64: nat := 0x1_0000_0000_0000_0000

  function UpperHexChar(d: nat): char
    requires d < 16
  {
    if d < 10 then '0' + d as char else 'A' + (d - 10) as char
  }

  /** A number in upper-case hexadecimal digits, without leading zeros. */
  function UpperHex(n: nat): (r: string)
    ensures r != ""
    ensures forall i | 0 <= i < |r| :: HexDigit(r[i]).Some?
  {
    if n < 16 then [UpperHexChar(n)] else UpperHex(n / 16) + [UpperHexChar(n % 16)]
  }

  function ByteHex(b: Byte): string { [UpperHexChar(b / 16), UpperHexChar(b % 16)] }

  /** The character of a byte, or a dot when it is not a visible one. */
  function Visible(b: Byte): char { if 33 <= b <= 126 then b as char else '.' }

  function Spaces(n: nat): (r: string)
    ensures |r| == n && forall i | 0 <= i < n :: r[i] == ' '
  {
    seq(n, _ => ' ')
  }

  /** The bytes of a row, each followed by a space, and one more space after the eighth. */
  function HexPart(row: seq<Byte>): (r: string)
    requires |row| <= 16
    ensures |r| == 3 * |row| + if |row| >= 8 then 1 else 0
  {
    if row == [] then ""
    else
      var text := HexPart(row[..|row| - 1]) + (ByteHex(row[|row| - 1]) + " ");
      if |row| == 8 then text + " " else text
  }

  function AsciiPart(row: seq<Byte>): (r: string)
    ensures |r| == |row| && forall i | 0 <= i < |r| :: r[i] == Visible(row[i])
  {
    seq(|row|, i requires 0 <= i < |row| => Visible(row[i]))
  }

  /** The bytes and characters of a row; an empty row has nothing, not even spaces. */
  function RowText(row: seq<Byte>): string
    requires |row| <= 16
  {
    if row == [] then "" else HexPart(row) + Spaces(49 - |HexPart(row)|) + ("  " + AsciiPart(row))
  }

  function Line(addr: nat, row: seq<Byte>): string
    requires |row| <= 16
  {
    UpperHex(addr) + (": " + RowText(row))
  }

  /** A line for each 16 bytes; addresses have 64 bits. */
  function Lines(addr: nat, data: seq<Byte>): (r: seq<string>)
    ensures r != []
    decreases |data|
  {
    if |data| <= 16 then [Line(addr, data)] else [Line(addr, data[..16])] + Lines((addr + 16) % TWO64, data[16..])
  }

  function Join(lines: seq<string>, between: string): string
    requires lines != []
  {
    if |lines| == 1 then lines[0] else lines[0] + between + Join(lines[1..], between)
  }

  /** The text of a whole block of data. */
  function Dump(addr: nat, data: seq<Byte>): string {
    Join(Lines(addr, data), "\n")
  }

  // ---------------------------------------------------------------------------------------------
  // The printing loop
  // ---------------------------------------------------------------------------------------------

  lemma RowStep(row: seq<Byte>, b: Byte)
    requires |row| < 16
    ensures var text := HexPart(row) + (ByteHex(b) + " ");
      HexPart(row + [b]) == if |row| == 7 then text + " " else text
  {
    var longer := row + [b];
    assert longer[..|longer| - 1] == row && longer[|longer| - 1] == b;
    hide ByteHex;
  }

  lemma AsciiStep(row: seq<Byte>, b: Byte)
    ensures AsciiPart(row + [b]) == AsciiPart(row) + [Visible(b)]
  {
  }

  /** Adds a byte to the two parts of a row. */
  method AddByte(output: string, ascii: string, c: Byte, j: nat, ghost row: seq<Byte>) returns (o: string, a: string)
    requires |row| == j < 16 && output == HexPart(row) && ascii == AsciiPart(row)
    ensures o == HexPart(row + [c]) && a == AsciiPart(row + [c])
  {
    hide HexPart, AsciiPart;
    RowStep(row, c);
    AsciiStep(row, c);
    o := output + (ByteHex(c) + " ");
    if j == 7 {
      o := o + " ";
    }
    a := ascii + [Visible(c)];
  }

  /** Fills up the bytes of a row with spaces and puts the characters after them. */
  method EndRow(output: string, ascii: string, ghost row: seq<Byte>) returns (text: string)
    requires 0 < |row| <= 16 && output == HexPart(row) && ascii == AsciiPart(row)
    ensures text == RowText(row)
  {
    hide HexPart, AsciiPart;
    text := output;
    if |output| < 49 {
      text := output + Spaces(49 - |output|);
    } else {
      assert output + Spaces(0) == output;
    }
    text := text + ("  " + ascii);
  }

  /** The lines of the rows before `i`, which is at the start of a row, and then those from there on. */
  lemma LinesStep(addr: nat, data: seq<Byte>, i: nat)
    requires i + 16 < |data|
    ensures Lines(addr, data[i..]) == [Line(addr, data[i..i + 16])] + Lines((addr + 16) % TWO64, data[i + 16..])
  {
    assert data[i..][..16] == data[i..i + 16] && data[i..][16..] == data[i + 16..];
  }

  method JoinLines(lines: seq<string>) returns (s: string)
    requires lines != []
    ensures s == Join(lines, "\n")
  {
    s := lines[0];
    assert lines == [lines[0]] + lines[1..];
    for k := 1 to |lines|
      invariant Join(lines, "\n") == if k == |lines| then s else s + "\n" + Join(lines[k..], "\n")
    {
      assert lines[k..][1..] == lines[k + 1..];
      s := s + "\n" + lines[k];
    }
  }

  method AddrDataString(addr: nat, data: seq<Byte>) returns (s: string)
    ensures s == Dump(addr, data)
  {
    hide HexPart, AsciiPart, RowText, Lines;
    var output, ascii := "", "";
    var lines: seq<string> := [];
    var at: nat, j: nat := addr, 0;
    ghost var begin := 0;
    FirstRow(addr, data);
    for i := 0 to |data|
      invariant begin <= i && (i < |data| ==> begin % 16 == 0) && j == i - begin && (begin == i || i < |data|) && j < 16
      invariant i < |data| ==> Lines(addr, data) == lines + Lines(at, data[begin..])
      invariant i < |data| ==> output == HexPart(data[begin..i]) && ascii == AsciiPart(data[begin..i])
      invariant i == |data| ==> Lines(addr, data) == lines + [UpperHex(at) + (": " + output)]
    {
      ghost var row := data[begin..i];
      output, ascii := AddByte(output, ascii, data[i], j, row);
      assert data[begin..i + 1] == row + [data[i]];
      j := j + 1;
      if (i + 1) % 16 == 0 || i == |data| - 1 {
        output := EndRow(output, ascii, data[begin..i + 1]);
        ascii := "";
        if i != |data| - 1 {
          LinesStep(at, data, begin);
          assert lines + ([Line(at, data[begin..i + 1])] + Lines((at + 16) % TWO64, data[i + 1..]))
            == lines + [Line(at, data[begin..i + 1])] + Lines((at + 16) % TWO64, data[i + 1..]);
          lines := lines + [UpperHex(at) + (": " + output)];
          at := (at + 16) % TWO64;
          output, j := "", 0;
          begin := i + 1;
          FirstRow(at, data[begin..]);
        } else {
          LastLine(at, data, begin);
          assert data[begin..i + 1] == data[begin..];
          j, begin := 0, i + 1;
        }
      }
    }
    lines := lines + [UpperHex(at) + (": " + output)];
    s := JoinLines(lines);
  }

  lemma FirstRow(addr: nat, data: seq<Byte>)
    ensures HexPart([]) == "" && AsciiPart([]) == ""
    ensures data == [] ==> Lines(addr, data) == [] + [UpperHex(addr) + (": " + "")]
    ensures data[0..] == data && [] + Lines(addr, data) == Lines(addr, data)
  {
  }

  lemma LastLine(addr: nat, data: seq<Byte>, i: nat)
    requires i < |data| <= i + 16
    ensures Lines(addr, data[i..]) == [UpperHex(addr) + (": " + RowText(data[i..]))]
  {
  }
}
