/** Load commands as they are laid out in a file are read back, each from its own offset. */
module MachORoundTrip {
  import opened Bytes
  import opened Reading
  import opened MachOSpec

  datatype SectionHeader = SectionHeader(section: string, segment: string, numbers: seq<nat>, reserved: seq<nat>)

  datatype Command =
    | Segment(name: string, numbers: seq<nat>, flags: nat, headers: seq<SectionHeader>)
    | Numbers(t: nat, values: seq<nat>)
    | Path(t: nat, values: seq<nat>, path: seq<Byte>)
    | Uuid(bytes: seq<Byte>)

  // ---------------------------------------------------------------------------------------------
  // The layout of a file
  // ---------------------------------------------------------------------------------------------

  predicate Fits(values: seq<nat>, widths: seq<nat>) {
    |values| == |widths| && forall i | 0 <= i < |values| :: values[i] < Power(widths[i])
  }

  function TotalWidth(widths: seq<nat>): nat {
    if widths == [] then 0 else widths[0] + TotalWidth(widths[1..])
  }

  function FieldsBytes(values: seq<nat>, widths: seq<nat>, e: Endianness): (r: seq<Byte>)
    requires |values| == |widths|
    ensures |r| == TotalWidth(widths)
  {
    if values == [] then [] else UIntBytes(values[0], widths[0], e) + FieldsBytes(values[1..], widths[1..], e)
  }

  predicate IsName(name: string) {
    |name| <= 16 && forall i | 0 <= i < |name| :: 0 < name[i] as int < 256
  }

  /** A name of up to 16 bytes, filled up with zeros. */
  function NameBytes(name: string): (r: seq<Byte>)
    requires IsName(name)
    ensures |r| == 16
  {
    seq(16, i requires 0 <= i < 16 => if i < |name| then name[i] as int else 0)
  }

  function ReservedWidths(h: Layout): seq<nat> { if h.is64 then [4, 4, 4] else [4, 4] }

  predicate IsHeader(s: SectionHeader, h: Layout) {
    IsName(s.section) && IsName(s.segment) && Fits(s.numbers, SectionWidths(h)) && Fits(s.reserved, ReservedWidths(h))
  }

  function HeaderBytes(s: SectionHeader, h: Layout): seq<Byte>
    requires IsHeader(s, h)
  {
    NameBytes(s.section) + (NameBytes(s.segment)
      + (FieldsBytes(s.numbers, SectionWidths(h), h.e) + FieldsBytes(s.reserved, ReservedWidths(h), h.e)))
  }

  predicate AreHeaders(s: seq<SectionHeader>, h: Layout) {
    forall i | 0 <= i < |s| :: IsHeader(s[i], h)
  }

  function HeadersBytes(s: seq<SectionHeader>, h: Layout): seq<Byte>
    requires AreHeaders(s, h)
  {
    if s == [] then [] else HeaderBytes(s[0], h) + HeadersBytes(s[1..], h)
  }

  function Type(c: Command, h: Layout): nat {
    match c
    case Segment(_, _, _, _) => if h.is64 then 25 else 1
    case Numbers(t, _) => t
    case Path(t, _, _) => t
    case Uuid(_) => 0x1B
  }

  /** The numbers of a segment command: those before the number of sections, that number, and the flags. */
  function SegmentNumbers(c: Command): seq<nat>
    requires c.Segment?
  {
    c.numbers + [|c.headers|, c.flags]
  }

  /** The offset of a path in its command: it stands right after the numbers. */
  function PathOffset(t: nat): nat { 8 + TotalWidth(PathWidths(t)) }

  predicate IsCommand(c: Command, h: Layout) {
    && (match c
        case Segment(name, _, _, headers) =>
          IsName(name) && AreHeaders(headers, h) && Fits(SegmentNumbers(c), SegmentWidths(h))
        case Numbers(t, values) => HasFields(t) && Fits(values, Widths(t))
        case Path(t, values, path) => HasPath(t) && Fits([PathOffset(t)] + values, PathWidths(t))
        case Uuid(bytes) => |bytes| == 16)
    && 8 + |BodyBytes(c, h)| < TWO32
  }

  function BodyBytes(c: Command, h: Layout): seq<Byte> {
    match c
    case Segment(name, _, _, headers) =>
      if IsName(name) && AreHeaders(headers, h) && Fits(SegmentNumbers(c), SegmentWidths(h))
      then NameBytes(name) + (FieldsBytes(SegmentNumbers(c), SegmentWidths(h), h.e) + HeadersBytes(headers, h))
      else []
    case Numbers(t, values) =>
      if HasFields(t) && |values| == |Widths(t)| then FieldsBytes(values, Widths(t), h.e) else []
    case Path(t, values, path) =>
      if |values| + 1 == |PathWidths(t)| then FieldsBytes([PathOffset(t)] + values, PathWidths(t), h.e) + path else path
    case Uuid(bytes) => bytes
  }

  function CommandBytes(c: Command, h: Layout): (r: seq<Byte>)
    ensures |r| == 8 + |BodyBytes(c, h)|
  {
    FieldsBytes([Type(c, h), 8 + |BodyBytes(c, h)|], [4, 4], h.e) + BodyBytes(c, h)
  }

  predicate AreCommands(cs: seq<Command>, h: Layout) {
    forall i | 0 <= i < |cs| :: IsCommand(cs[i], h)
  }

  function CommandsBytes(cs: seq<Command>, h: Layout): seq<Byte> {
    if cs == [] then [] else CommandBytes(cs[0], h) + CommandsBytes(cs[1..], h)
  }

  // ---------------------------------------------------------------------------------------------
  // What the commands mean
  // ---------------------------------------------------------------------------------------------

  function KeptSections(s: seq<SectionHeader>, h: Layout): seq<SectionInfo>
    requires AreHeaders(s, h)
  {
    if s == [] then []
    else
      var n := s[0].numbers;
      KeptSection(s[0].segment, s[0].section, n[0], n[1], (h.base + n[2]) % TWO32) + KeptSections(s[1..], h)
  }

  function CommandSections(c: Command, pos: nat, h: Layout): seq<SectionInfo>
    requires IsCommand(c, h)
  {
    match c
    case Segment(_, _, _, headers) => KeptSections(headers, h)
    case Numbers(t, values) => FieldSections(t, values, pos + 8, h.base)
    case Path(_, _, _) => []
    case Uuid(_) => []
  }

  function CommandTables(c: Command, h: Layout, tables: Tables): Tables
    requires IsCommand(c, h)
  {
    if c.Numbers? then FieldTables(c.t, c.values, tables) else tables
  }

  /** The sections of the commands, in their order, where the first command lies at `pos`. */
  function AllSections(cs: seq<Command>, pos: nat, h: Layout): seq<SectionInfo>
    requires AreCommands(cs, h)
    decreases |cs|
  {
    if cs == [] then []
    else CommandSections(cs[0], pos, h) + AllSections(cs[1..], pos + |CommandBytes(cs[0], h)|, h)
  }

  /** The last symbol tables that are named count. */
  function LastTables(cs: seq<Command>, h: Layout, tables: Tables): Tables
    requires AreCommands(cs, h)
    decreases |cs|
  {
    if cs == [] then tables else LastTables(cs[1..], h, CommandTables(cs[0], h, tables))
  }

  // ---------------------------------------------------------------------------------------------
  // Reading back
  // ---------------------------------------------------------------------------------------------

  predicate Holds(b: seq<Byte>, pos: nat, piece: seq<Byte>) {
    pos + |piece| <= |b| && b[pos..pos + |piece|] == piece
  }

  lemma HoldsBoth(b: seq<Byte>, pos: nat, x: seq<Byte>, y: seq<Byte>)
    requires Holds(b, pos, x + y)
    ensures Holds(b, pos, x) && Holds(b, pos + |x|, y)
  {
    assert b[pos..pos + |x + y|][..|x|] == x && b[pos..pos + |x + y|][|x|..] == y;
  }

  lemma HoldsThree(b: seq<Byte>, pos: nat, whole: seq<Byte>, x: seq<Byte>, y: seq<Byte>, z: seq<Byte>)
    requires Holds(b, pos, whole) && whole == x + (y + z)
    ensures Holds(b, pos, x) && Holds(b, pos + |x|, y) && Holds(b, pos + |x| + |y|, z)
    ensures |whole| == |x| + |y| + |z|
  {
    HoldsBoth(b, pos, x, y + z);
    HoldsBoth(b, pos + |x|, y, z);
  }

  lemma {:induction false} FieldsReadBack(b: seq<Byte>, pos: nat, values: seq<nat>, widths: seq<nat>, e: Endianness)
    requires Fits(values, widths) && Holds(b, pos, FieldsBytes(values, widths, e))
    ensures FieldsAt(b, pos, widths, e) == Ok(values, pos + TotalWidth(widths))
    decreases |values|
  {
    hide *;
    if values != [] {
      FieldsBytesStep(values, widths, e);
      var first, rest := UIntBytes(values[0], widths[0], e), FieldsBytes(values[1..], widths[1..], e);
      HoldsBoth(b, pos, first, rest);
      HeldUInt(b, pos, values[0], widths[0], e);
      FieldsReadBack(b, pos + widths[0], values[1..], widths[1..], e);
      FieldsAtStep(b, pos, values, widths, pos + TotalWidth(widths), e);
    } else {
      FieldsAtNothing(b, pos, values, widths, e);
    }
  }

  lemma FieldsAtNothing(b: seq<Byte>, pos: nat, values: seq<nat>, widths: seq<nat>, e: Endianness)
    requires Fits(values, widths) && values == []
    ensures FieldsAt(b, pos, widths, e) == Ok(values, pos + TotalWidth(widths))
  {
  }

  lemma FieldsBytesStep(values: seq<nat>, widths: seq<nat>, e: Endianness)
    requires Fits(values, widths) && values != []
    ensures |values| == |widths| && values[0] < Power(widths[0]) && Fits(values[1..], widths[1..])
    ensures FieldsBytes(values, widths, e)
      == UIntBytes(values[0], widths[0], e) + FieldsBytes(values[1..], widths[1..], e)
    ensures TotalWidth(widths) == widths[0] + TotalWidth(widths[1..])
  {
    hide UIntBytes, Power;
    assert values[0] < Power(widths[0]);
    assert forall i | 0 <= i < |values[1..]| :: values[1..][i] == values[i + 1] && widths[1..][i] == widths[i + 1];
  }

  lemma HeldUInt(b: seq<Byte>, pos: nat, v: nat, n: nat, e: Endianness)
    requires v < Power(n) && Holds(b, pos, UIntBytes(v, n, e))
    ensures UIntAt(b, pos, n, e) == Ok(v, pos + n)
  {
    hide UInt, UIntBytes, Power;
    UIntRoundTrip(v, n, e);
  }

  lemma FieldsAtStep(b: seq<Byte>, pos: nat, values: seq<nat>, widths: seq<nat>, end: nat, e: Endianness)
    requires |values| == |widths| && values != []
    requires UIntAt(b, pos, widths[0], e) == Ok(values[0], pos + widths[0])
    requires FieldsAt(b, pos + widths[0], widths[1..], e) == Ok(values[1..], end)
    ensures FieldsAt(b, pos, widths, e) == Ok(values, end)
  {
    hide UIntAt;
    assert [values[0]] + values[1..] == values;
  }

  lemma {:induction false} NameReadsBack(name: string, bytes: seq<Byte>)
    requires |name| <= |bytes| && forall i | 0 <= i < |name| :: 0 < name[i] as int < 256 && bytes[i] == name[i] as int
    requires |name| < |bytes| ==> bytes[|name|] == 0
    ensures NameOf(bytes) == name
  {
    if name != [] {
      NameReadsBack(name[1..], bytes[1..]);
      assert [name[0]] + name[1..] == name;
    }
  }

  lemma HeldName(b: seq<Byte>, pos: nat, name: string)
    requires IsName(name) && Holds(b, pos, NameBytes(name))
    ensures NameOf(Mid(b, pos, 16)) == name && After(b, pos, 16) == pos + 16
  {
    assert Mid(b, pos, 16) == NameBytes(name);
    NameReadsBack(name, NameBytes(name));
  }

  lemma SectionPieces(b: seq<Byte>, pos: nat, s: SectionHeader, h: Layout)
    requires IsHeader(s, h) && Holds(b, pos, HeaderBytes(s, h))
    ensures |s.numbers| == 7
    ensures Holds(b, pos, NameBytes(s.section)) && Holds(b, pos + 16, NameBytes(s.segment))
    ensures Holds(b, pos + 32, FieldsBytes(s.numbers, SectionWidths(h), h.e))
    ensures var next := pos + 32 + TotalWidth(SectionWidths(h));
      && Holds(b, next, FieldsBytes(s.reserved, ReservedWidths(h), h.e))
      && pos + |HeaderBytes(s, h)| == next + TotalWidth(ReservedWidths(h))
  {
    hide FieldsBytes, NameBytes, Holds, IsName, TotalWidth;
    var x, y := NameBytes(s.section), NameBytes(s.segment);
    var z, w := FieldsBytes(s.numbers, SectionWidths(h), h.e), FieldsBytes(s.reserved, ReservedWidths(h), h.e);
    HoldsThree(b, pos, HeaderBytes(s, h), x, y, z + w);
    HoldsBoth(b, pos + 32, z, w);
  }

  lemma SectionReadsBack(b: seq<Byte>, pos: nat, s: SectionHeader, h: Layout)
    requires IsHeader(s, h) && Holds(b, pos, HeaderBytes(s, h))
    ensures |s.numbers| == 7
    ensures SectionAt(b, pos, h) == Ok(
      KeptSection(s.segment, s.section, s.numbers[0], s.numbers[1], (h.base + s.numbers[2]) % TWO32),
      pos + |HeaderBytes(s, h)|)
  {
    hide FieldsAt, FieldsBytes, NameBytes, NameOf, Mid, KeptSection, Holds, HeaderBytes, IsName, TotalWidth;
    SectionPieces(b, pos, s, h);
    HeldName(b, pos, s.section);
    HeldName(b, pos + 16, s.segment);
    FieldsReadBack(b, pos + 32, s.numbers, SectionWidths(h), h.e);
    var next := pos + 32 + TotalWidth(SectionWidths(h));
    ReservedIsSkipped(b, next, FieldsBytes(s.reserved, ReservedWidths(h), h.e), h);
    assert NameOf(Mid(b, pos, 16)) == s.section && NameOf(Mid(b, pos + 16, 16)) == s.segment;
  }

  lemma ReservedIsSkipped(b: seq<Byte>, pos: nat, w: seq<Byte>, h: Layout)
    requires Holds(b, pos, w) && |w| == TotalWidth(ReservedWidths(h))
    ensures AfterReserved(b, pos, h) == pos + |w|
  {
    assert [4, 4, 4][1..] == [4, 4] && [4, 4][1..] == [4] && [4][1..] == [];
    assert TotalWidth([4, 4]) == 8;
  }

  lemma {:induction false} SectionsReadBack(b: seq<Byte>, pos: nat, s: seq<SectionHeader>, h: Layout)
    requires AreHeaders(s, h) && Holds(b, pos, HeadersBytes(s, h))
    ensures SectionsAt(b, pos, h, |s|) == Ok(KeptSections(s, h), pos + |HeadersBytes(s, h)|)
    decreases |s|
  {
    hide *;
    if s != [] {
      HeadersStep(s, h);
      HoldsBoth(b, pos, HeaderBytes(s[0], h), HeadersBytes(s[1..], h));
      HeaderNumbers(s[0], h);
      SectionReadsBack(b, pos, s[0], h);
      SectionsReadBack(b, pos + |HeaderBytes(s[0], h)|, s[1..], h);
      SectionsAtStep(b, pos, h, |s|);
    } else {
      NoSections(b, pos, h);
    }
  }

  lemma NoSections(b: seq<Byte>, pos: nat, h: Layout)
    ensures SectionsAt(b, pos, h, 0) == Ok(KeptSections([], h), pos + |HeadersBytes([], h)|)
  {
  }

  lemma HeadersStep(s: seq<SectionHeader>, h: Layout)
    requires AreHeaders(s, h) && s != []
    ensures IsHeader(s[0], h) && |s[0].numbers| == 7 && AreHeaders(s[1..], h)
    ensures HeadersBytes(s, h) == HeaderBytes(s[0], h) + HeadersBytes(s[1..], h)
    ensures KeptSections(s, h) == KeptSection(s[0].segment, s[0].section, s[0].numbers[0], s[0].numbers[1],
        (h.base + s[0].numbers[2]) % TWO32) + KeptSections(s[1..], h)
  {
    hide HeaderBytes, KeptSection, AreHeaders, IsHeader;
    HeadersTail(s, h);
    HeaderNumbers(s[0], h);
  }

  lemma HeadersTail(s: seq<SectionHeader>, h: Layout)
    requires AreHeaders(s, h) && s != []
    ensures IsHeader(s[0], h) && AreHeaders(s[1..], h)
  {
    hide IsHeader;
  }

  lemma SectionsAtStep(b: seq<Byte>, pos: nat, h: Layout, n: nat)
    requires n > 0 && SectionAt(b, pos, h).Ok? && SectionsAt(b, SectionAt(b, pos, h).pos, h, n - 1).Ok?
    ensures var rest := SectionsAt(b, SectionAt(b, pos, h).pos, h, n - 1);
      SectionsAt(b, pos, h, n) == Ok(SectionAt(b, pos, h).value + rest.value, rest.pos)
  {
    hide SectionAt;
  }

  lemma HeaderNumbers(s: SectionHeader, h: Layout)
    requires IsHeader(s, h)
    ensures |s.numbers| == 7
  {
  }

  lemma SegmentLayout(c: Command, h: Layout)
    requires c.Segment? && IsCommand(c, h)
    ensures IsName(c.name) && AreHeaders(c.headers, h) && Fits(SegmentNumbers(c), SegmentWidths(h))
    ensures |c.numbers| == 6 && SegmentNumbers(c)[6] == |c.headers| && |SegmentNumbers(c)| == |SegmentWidths(h)|
    ensures BodyBytes(c, h) == NameBytes(c.name)
      + (FieldsBytes(SegmentNumbers(c), SegmentWidths(h), h.e) + HeadersBytes(c.headers, h))
  {
    hide IsName, AreHeaders, FieldsBytes, NameBytes, HeadersBytes, Power;
  }

  lemma SegmentPieces(b: seq<Byte>, pos: nat, c: Command, h: Layout)
    requires c.Segment? && IsCommand(c, h) && Holds(b, pos, BodyBytes(c, h))
    ensures IsName(c.name) && AreHeaders(c.headers, h) && Fits(SegmentNumbers(c), SegmentWidths(h))
    ensures |c.numbers| == 6 && SegmentNumbers(c)[6] == |c.headers| && |SegmentNumbers(c)| == |SegmentWidths(h)|
    ensures Holds(b, pos, NameBytes(c.name))
    ensures Holds(b, pos + 16, FieldsBytes(SegmentNumbers(c), SegmentWidths(h), h.e))
    ensures var next := pos + 16 + TotalWidth(SegmentWidths(h));
      Holds(b, next, HeadersBytes(c.headers, h)) && pos + |BodyBytes(c, h)| == next + |HeadersBytes(c.headers, h)|
  {
    hide *;
    SegmentLayout(c, h);
    var x, y, z := NameBytes(c.name), FieldsBytes(SegmentNumbers(c), SegmentWidths(h), h.e), HeadersBytes(c.headers, h);
    HoldsThree(b, pos, BodyBytes(c, h), x, y, z);
  }

  lemma SegmentReadsBack(b: seq<Byte>, pos: nat, c: Command, h: Layout)
    requires c.Segment? && IsCommand(c, h) && Holds(b, pos, BodyBytes(c, h))
    ensures SegmentAt(b, pos, h) == Ok(KeptSections(c.headers, h), pos + |BodyBytes(c, h)|)
  {
    hide *;
    SegmentPieces(b, pos, c, h);
    var next := pos + 16 + TotalWidth(SegmentWidths(h));
    HeldName(b, pos, c.name);
    FieldsReadBack(b, pos + 16, SegmentNumbers(c), SegmentWidths(h), h.e);
    SectionsReadBack(b, next, c.headers, h);
    SegmentAtIs(b, pos, h, SegmentNumbers(c), next);
  }

  lemma SegmentAtIs(b: seq<Byte>, pos: nat, h: Layout, values: seq<nat>, next: nat)
    requires After(b, pos, 16) == pos + 16 && FieldsAt(b, pos + 16, SegmentWidths(h), h.e) == Ok(values, next)
    ensures |values| == 8 && SegmentAt(b, pos, h) == SectionsAt(b, next, h, values[6])
  {
    hide FieldsAt, SectionsAt;
  }

  lemma PathReadsBack(b: seq<Byte>, pos: nat, c: Command, h: Layout)
    requires c.Path? && IsCommand(c, h) && Holds(b, pos, BodyBytes(c, h))
    ensures var was := FieldsAt(b, pos, PathWidths(c.t), h.e);
      was.Ok? && After(b, was.pos, Minus32(8 + |BodyBytes(c, h)|, was.value[0])) == pos + |BodyBytes(c, h)|
  {
    hide FieldsAt, FieldsBytes, TotalWidth, Holds;
    var values := [PathOffset(c.t)] + c.values;
    var numbers := FieldsBytes(values, PathWidths(c.t), h.e);
    HoldsBoth(b, pos, numbers, c.path);
    FieldsReadBack(b, pos, values, PathWidths(c.t), h.e);
    HeldEnds(b, pos + |numbers|, c.path);
    assert 8 + |BodyBytes(c, h)| - PathOffset(c.t) == |c.path|;
  }

  lemma HeldEnds(b: seq<Byte>, pos: nat, piece: seq<Byte>)
    requires Holds(b, pos, piece)
    ensures After(b, pos, |piece|) == pos + |piece|
  {
  }

  lemma BodyReadsBack(b: seq<Byte>, pos: nat, c: Command, h: Layout, tables: Tables)
    requires IsCommand(c, h) && Holds(b, pos + 8, BodyBytes(c, h))
    ensures BodyAt(b, pos + 8, h, Type(c, h), 8 + |BodyBytes(c, h)|, tables)
      == Ok(Parsed(CommandSections(c, pos, h), CommandTables(c, h, tables)), pos + 8 + |BodyBytes(c, h)|)
  {
    hide *;
    match c
    case Segment(_, _, _, _) => SegmentBody(b, pos, c, h, tables);
    case Numbers(_, _) => NumbersBody(b, pos, c, h, tables);
    case Path(_, _, _) => PathBody(b, pos, c, h, tables);
    case Uuid(_) => UuidBody(b, pos, c, h, tables);
  }

  lemma SegmentBody(b: seq<Byte>, pos: nat, c: Command, h: Layout, tables: Tables)
    requires c.Segment? && IsCommand(c, h) && Holds(b, pos + 8, BodyBytes(c, h))
    ensures BodyAt(b, pos + 8, h, Type(c, h), 8 + |BodyBytes(c, h)|, tables)
      == Ok(Parsed(CommandSections(c, pos, h), CommandTables(c, h, tables)), pos + 8 + |BodyBytes(c, h)|)
  {
    hide FieldsAt, FieldsBytes, Holds, SegmentAt, After, KeptSections, BodyBytes, IsCommand;
    SegmentReadsBack(b, pos + 8, c, h);
  }

  lemma NumbersBody(b: seq<Byte>, pos: nat, c: Command, h: Layout, tables: Tables)
    requires c.Numbers? && IsCommand(c, h) && Holds(b, pos + 8, BodyBytes(c, h))
    ensures BodyAt(b, pos + 8, h, Type(c, h), 8 + |BodyBytes(c, h)|, tables)
      == Ok(Parsed(CommandSections(c, pos, h), CommandTables(c, h, tables)), pos + 8 + |BodyBytes(c, h)|)
  {
    hide FieldsAt, FieldsBytes, Holds, SegmentAt, After, FieldSections, FieldTables, PathWidths, HeadersBytes;
    TypesAreApart(c.t);
    FieldsReadBack(b, pos + 8, c.values, Widths(c.t), h.e);
  }

  lemma PathBody(b: seq<Byte>, pos: nat, c: Command, h: Layout, tables: Tables)
    requires c.Path? && IsCommand(c, h) && Holds(b, pos + 8, BodyBytes(c, h))
    ensures BodyAt(b, pos + 8, h, Type(c, h), 8 + |BodyBytes(c, h)|, tables)
      == Ok(Parsed(CommandSections(c, pos, h), CommandTables(c, h, tables)), pos + 8 + |BodyBytes(c, h)|)
  {
    hide FieldsAt, FieldsBytes, Holds, SegmentAt, After, PathWidths, HeadersBytes;
    TypesAreApart(c.t);
    PathReadsBack(b, pos + 8, c, h);
  }

  lemma UuidBody(b: seq<Byte>, pos: nat, c: Command, h: Layout, tables: Tables)
    requires c.Uuid? && IsCommand(c, h) && Holds(b, pos + 8, BodyBytes(c, h))
    ensures BodyAt(b, pos + 8, h, Type(c, h), 8 + |BodyBytes(c, h)|, tables)
      == Ok(Parsed(CommandSections(c, pos, h), CommandTables(c, h, tables)), pos + 8 + |BodyBytes(c, h)|)
  {
    hide FieldsAt, Holds, SegmentAt, HeadersBytes;
    HeldEnds(b, pos + 8, c.bytes);
  }

  lemma TypesAreApart(t: nat)
    ensures HasFields(t) ==> !IsObsolete(t) && !IsSegment(t)
    ensures HasPath(t) ==> !IsObsolete(t) && !IsSegment(t) && !HasFields(t)
  {
  }

  lemma TypeFits(c: Command, h: Layout)
    requires IsCommand(c, h)
    ensures Fits([Type(c, h), 8 + |BodyBytes(c, h)|], [4, 4])
  {
    hide BodyBytes;
    assert Power(4) == TWO32 by { assert Power(1) == 256 && Power(2) == 0x1_0000 && Power(3) == 0x100_0000; }
  }

  lemma CommandReadsBack(b: seq<Byte>, pos: nat, c: Command, h: Layout, tables: Tables)
    requires IsCommand(c, h) && Holds(b, pos, CommandBytes(c, h))
    ensures CommandAt(b, pos, h, tables)
      == Ok(Parsed(CommandSections(c, pos, h), CommandTables(c, h, tables)), pos + |CommandBytes(c, h)|)
  {
    hide FieldsAt, FieldsBytes, Holds, BodyAt, BodyBytes, IsCommand, CommandSections, CommandTables, Fits;
    var head := [Type(c, h), 8 + |BodyBytes(c, h)|];
    HoldsBoth(b, pos, FieldsBytes(head, [4, 4], h.e), BodyBytes(c, h));
    TypeFits(c, h);
    assert TotalWidth([4, 4]) == 8;
    FieldsReadBack(b, pos, head, [4, 4], h.e);
    BodyReadsBack(b, pos, c, h, tables);
  }

  /** The loop over a list of commands gives the sections of the commands, in their order. */
  lemma {:induction false} CommandsReadBack(b: seq<Byte>, pos: nat, cs: seq<Command>, h: Layout, tables: Tables)
    requires AreCommands(cs, h) && Holds(b, pos, CommandsBytes(cs, h))
    ensures CommandsAt(b, pos, h, |cs|, tables)
      == Ok(Parsed(AllSections(cs, pos, h), LastTables(cs, h, tables)), pos + |CommandsBytes(cs, h)|)
    decreases |cs|
  {
    hide *;
    if cs != [] {
      CommandsStep(cs, pos, h, tables);
      HoldsBoth(b, pos, CommandBytes(cs[0], h), CommandsBytes(cs[1..], h));
      CommandReadsBack(b, pos, cs[0], h, tables);
      CommandsReadBack(b, pos + |CommandBytes(cs[0], h)|, cs[1..], h, CommandTables(cs[0], h, tables));
      CommandsAtStep(b, pos, h, |cs|, tables);
    } else {
      NoCommands(b, pos, h, tables);
    }
  }

  lemma NoCommands(b: seq<Byte>, pos: nat, h: Layout, tables: Tables)
    ensures CommandsAt(b, pos, h, 0, tables)
      == Ok(Parsed(AllSections([], pos, h), LastTables([], h, tables)), pos + |CommandsBytes([], h)|)
  {
  }

  lemma CommandsStep(cs: seq<Command>, pos: nat, h: Layout, tables: Tables)
    requires AreCommands(cs, h) && cs != []
    ensures IsCommand(cs[0], h) && AreCommands(cs[1..], h)
    ensures CommandsBytes(cs, h) == CommandBytes(cs[0], h) + CommandsBytes(cs[1..], h)
    ensures AllSections(cs, pos, h)
      == CommandSections(cs[0], pos, h) + AllSections(cs[1..], pos + |CommandBytes(cs[0], h)|, h)
    ensures LastTables(cs, h, tables) == LastTables(cs[1..], h, CommandTables(cs[0], h, tables))
  {
    hide *;
    CommandsTail(cs, h);
    BytesStep(cs, h);
    SectionsStep(cs, pos, h);
    TablesStep(cs, h, tables);
  }

  lemma BytesStep(cs: seq<Command>, h: Layout)
    requires AreCommands(cs, h) && cs != [] && IsCommand(cs[0], h) && AreCommands(cs[1..], h)
    ensures CommandsBytes(cs, h) == CommandBytes(cs[0], h) + CommandsBytes(cs[1..], h)
  {
    hide IsCommand, CommandBytes, AreCommands;
  }

  lemma SectionsStep(cs: seq<Command>, pos: nat, h: Layout)
    requires AreCommands(cs, h) && cs != [] && IsCommand(cs[0], h) && AreCommands(cs[1..], h)
    ensures AllSections(cs, pos, h)
      == CommandSections(cs[0], pos, h) + AllSections(cs[1..], pos + |CommandBytes(cs[0], h)|, h)
  {
    hide IsCommand, CommandBytes, CommandSections, AreCommands;
  }

  lemma TablesStep(cs: seq<Command>, h: Layout, tables: Tables)
    requires AreCommands(cs, h) && cs != [] && IsCommand(cs[0], h) && AreCommands(cs[1..], h)
    ensures LastTables(cs, h, tables) == LastTables(cs[1..], h, CommandTables(cs[0], h, tables))
  {
    hide IsCommand, CommandTables, AreCommands;
  }

  lemma CommandsTail(cs: seq<Command>, h: Layout)
    requires AreCommands(cs, h) && cs != []
    ensures IsCommand(cs[0], h) && AreCommands(cs[1..], h)
  {
    hide IsCommand;
  }

  lemma CommandsAtStep(b: seq<Byte>, pos: nat, h: Layout, n: nat, tables: Tables)
    requires n > 0 && CommandAt(b, pos, h, tables).Ok?
    requires var first := CommandAt(b, pos, h, tables);
      CommandsAt(b, first.pos, h, n - 1, first.value.tables).Ok?
    ensures var first := CommandAt(b, pos, h, tables);
      var rest := CommandsAt(b, first.pos, h, n - 1, first.value.tables);
      CommandsAt(b, pos, h, n, tables) == Ok(Parsed(first.value.sections + rest.value.sections, rest.value.tables), rest.pos)
  {
    hide CommandAt;
  }

  lemma {:induction false} CommandsBytesSplit(cs: seq<Command>, k: nat, h: Layout)
    requires k <= |cs|
    ensures CommandsBytes(cs, h) == CommandsBytes(cs[..k], h) + CommandsBytes(cs[k..], h)
  {
    if k == 0 {
      assert cs[..0] == [] && cs[0..] == cs;
    } else {
      hide CommandBytes;
      CommandsBytesSplit(cs[1..], k - 1, h);
      assert cs[..k][0] == cs[0] && cs[..k][1..] == cs[1..][..k - 1] && cs[1..][k - 1..] == cs[k..];
      Joined(CommandBytes(cs[0], h), CommandsBytes(cs[1..][..k - 1], h), CommandsBytes(cs[k..], h));
    }
  }

  lemma Joined<T>(a: seq<T>, b: seq<T>, c: seq<T>)
    ensures a + (b + c) == a + b + c
  {
  }

  lemma CommandsPrefix(cs: seq<Command>, k: nat, h: Layout)
    requires AreCommands(cs, h) && k <= |cs|
    ensures AreCommands(cs[..k], h) && |cs[..k]| == k
  {
    hide IsCommand;
  }

  /** After `k` rounds of the loop the reader stands where command number `k` begins. */
  lemma EachCommandStartsAtItsOffset(b: seq<Byte>, pos: nat, cs: seq<Command>, k: nat, h: Layout, tables: Tables)
    requires AreCommands(cs, h) && k <= |cs| && Holds(b, pos, CommandsBytes(cs, h))
    ensures var was := CommandsAt(b, pos, h, k, tables);
      was.Ok? && was.pos == pos + |CommandsBytes(cs[..k], h)| && Holds(b, was.pos, CommandsBytes(cs[k..], h))
  {
    hide *;
    CommandsPrefix(cs, k, h);
    CommandsBytesSplit(cs, k, h);
    HoldsBoth(b, pos, CommandsBytes(cs[..k], h), CommandsBytes(cs[k..], h));
    CommandsReadBack(b, pos, cs[..k], h, tables);
  }

  // ---------------------------------------------------------------------------------------------
  // Where the reader loses its place
  // ---------------------------------------------------------------------------------------------

  /** Types that the loop knows nothing of. */
  predicate IsUnknown(t: nat) {
    !IsObsolete(t) && !IsSegment(t) && !HasFields(t) && !HasPath(t) && t != 0x1B && !IsThread(t) && !IsRaw(t)
  }

  /** The size of a segment command: its header with `n` section headers behind it. */
  function SegmentSize(h: Layout, n: nat): nat { 24 + TotalWidth(SegmentWidths(h)) + n * SectionSize(h) }

  function SectionSize(h: Layout): nat { 32 + TotalWidth(SectionWidths(h)) + if h.is64 then 12 else 8 }

  /**
   When the reader stands at the next command: never after a command that is read as `cmdsize` bytes, and
   otherwise exactly when the size that the command gives is the size of what is read.
   */
  lemma InPlaceExactlyWhen(b: seq<Byte>, pos: nat, h: Layout, tables: Tables, t: nat, cmdsize: nat)
    requires FieldsAt(b, pos, [4, 4], h.e) == Ok([t, cmdsize], pos + 8) && pos + 8 + cmdsize <= |b|
    requires CommandAt(b, pos, h, tables).Ok?
    ensures var next := CommandAt(b, pos, h, tables).pos;
      && (IsSegment(t) ==> SegmentHead(b, pos + 8, h).Ok?)
      && (IsSegment(t) ==> (next == pos + cmdsize <==> cmdsize == SegmentSize(h, SegmentHead(b, pos + 8, h).value[6])))
      && (HasFields(t) ==> (next == pos + cmdsize <==> cmdsize == 8 + TotalWidth(Widths(t))))
      && (t == 0x1B ==> (next == pos + cmdsize <==> cmdsize == 24))
      && (IsThread(t) ==> ThreadHead(b, pos + 8, h).Ok?)
      && (IsThread(t) ==> (next == pos + cmdsize <==> cmdsize == 16 + ThreadSize(ThreadHead(b, pos + 8, h).value)))
      && (IsRaw(t) ==> next == pos + cmdsize + 8)
      && (IsUnknown(t) ==> (next == pos + cmdsize <==> cmdsize == 8))
  {
    hide FieldsAt, Widths, FieldSections, FieldTables, SegmentAt, SegmentSize, Product64;
    if IsSegment(t) {
      SegmentEnd(b, pos + 8, h);
    } else if HasFields(t) {
      FieldsEnd(b, pos + 8, Widths(t), h.e);
    } else if IsThread(t) {
      FieldsEnd(b, pos + 8, [4, 4], h.e);
      WidthOfTwo();
    }
  }

  lemma WidthOfTwo()
    ensures TotalWidth([4, 4]) == 8
  {
    assert [4, 4][1..] == [4];
  }

  /** The flavor and the count of a thread command. */
  function ThreadHead(b: seq<Byte>, pos: nat, h: Layout): Result<seq<nat>> { FieldsAt(b, pos, [4, 4], h.e) }

  function ThreadSize(v: seq<nat>): nat
    requires |v| == 2
  {
    Product64(v[0], v[1])
  }

  /** The numbers of a segment, behind its name. */
  function SegmentHead(b: seq<Byte>, pos: nat, h: Layout): Result<seq<nat>> {
    FieldsAt(b, After(b, pos, 16), SegmentWidths(h), h.e)
  }

  /** Reading a segment ends behind its section headers, or with the file. */
  lemma SegmentEnd(b: seq<Byte>, pos: nat, h: Layout)
    requires SegmentAt(b, pos, h).Ok? && pos <= |b|
    ensures SegmentHead(b, pos, h).Ok?
    ensures var end := pos + SegmentSize(h, SegmentHead(b, pos, h).value[6]) - 8;
      SegmentAt(b, pos, h).pos == if end <= |b| then end else |b|
  {
    hide FieldsAt, SegmentWidths, SectionsAt, TotalWidth;
    var start := After(b, pos, 16);
    FieldsEnd(b, start, SegmentWidths(h), h.e);
    var head := SegmentHead(b, pos, h);
    SegmentIsWide(h);
    WithinFile(b, start, SegmentWidths(h), h.e);
    SectionsEnd(b, head.pos, h, head.value[6]);
  }

  lemma SegmentIsWide(h: Layout)
    ensures |SegmentWidths(h)| == 8 && |SectionWidths(h)| == 7
    ensures TotalWidth(SegmentWidths(h)) > 0 && TotalWidth(SectionWidths(h)) > 0
  {
  }

  lemma {:induction false} SectionsEnd(b: seq<Byte>, pos: nat, h: Layout, n: nat)
    requires SectionsAt(b, pos, h, n).Ok? && pos <= |b|
    ensures var end := pos + n * SectionSize(h);
      SectionsAt(b, pos, h, n).pos == if end <= |b| then end else |b|
    decreases n
  {
    if n > 0 {
      hide FieldsAt, SectionWidths, TotalWidth, KeptSection, NameOf;
      SegmentIsWide(h);
      SectionEnd(b, pos, h);
      var next := SectionAt(b, pos, h).pos;
      SectionsEnd(b, next, h, n - 1);
      OneMoreSection(n, SectionSize(h));
      if n > 1 && next == |b| {
        SectionEnd(b, next, h);
      }
    }
  }

  lemma OneMoreSection(n: nat, size: nat)
    requires n > 0
    ensures n * size == size + (n - 1) * size && (n > 1 ==> (n - 1) * size >= size)
  {
  }

  /** A section header has room for its numbers; only the reserved ones at its end may be missing. */
  lemma SectionEnd(b: seq<Byte>, pos: nat, h: Layout)
    requires SectionAt(b, pos, h).Ok? && pos <= |b|
    ensures pos + 32 + TotalWidth(SectionWidths(h)) <= |b|
    ensures var end := pos + SectionSize(h); SectionAt(b, pos, h).pos == if end <= |b| then end else |b|
  {
    hide FieldsAt, SectionWidths, TotalWidth, KeptSection, NameOf;
    var start := After(b, After(b, pos, 16), 16);
    SegmentIsWide(h);
    FieldsEnd(b, start, SectionWidths(h), h.e);
    WithinFile(b, start, SectionWidths(h), h.e);
  }

  lemma {:induction false} WithinFile(b: seq<Byte>, pos: nat, widths: seq<nat>, e: Endianness)
    requires FieldsAt(b, pos, widths, e).Ok? && widths != []
    ensures pos + TotalWidth(widths) <= |b|
    decreases |widths|
  {
    if |widths| > 1 {
      WithinFile(b, pos + widths[0], widths[1..], e);
    } else {
      assert widths[1..] == [];
    }
  }

  lemma {:induction false} FieldsEnd(b: seq<Byte>, pos: nat, widths: seq<nat>, e: Endianness)
    requires FieldsAt(b, pos, widths, e).Ok?
    ensures FieldsAt(b, pos, widths, e).pos == pos + TotalWidth(widths)
    decreases |widths|
  {
    if widths != [] {
      FieldsEnd(b, pos + widths[0], widths[1..], e);
    }
  }

  /** A path is passed over exactly when it stands right after the numbers. */
  lemma PathInPlaceExactlyWhen(b: seq<Byte>, pos: nat, h: Layout, tables: Tables, t: nat, cmdsize: nat, v: seq<nat>)
    requires FieldsAt(b, pos, [4, 4], h.e) == Ok([t, cmdsize], pos + 8) && HasPath(t)
    requires FieldsAt(b, pos + 8, PathWidths(t), h.e) == Ok(v, pos + PathOffset(t)) && |v| > 0
    requires PathOffset(t) <= v[0] <= cmdsize < TWO32 && pos + cmdsize <= |b|
    ensures var was := CommandAt(b, pos, h, tables);
      was.Ok? && (was.pos == pos + cmdsize <==> v[0] == PathOffset(t))
  {
    hide FieldsAt, TotalWidth, PathWidths;
    TypesAreApart(t);
    assert Minus32(cmdsize, v[0]) == cmdsize - v[0];
  }

  // ---------------------------------------------------------------------------------------------
  // The whole object file
  // ---------------------------------------------------------------------------------------------

  datatype ObjectFile = ObjectFile(magic: nat, cpu: nat, subtype: nat, filetype: nat, sizeofcmds: nat, flags: nat,
                                   reserved: nat, commands: seq<Command>)

  function HeadNumbers(o: ObjectFile): seq<nat> {
    [o.cpu, o.subtype, o.filetype, |o.commands|, o.sizeofcmds, o.flags]
  }

  predicate IsObjectFile(o: ObjectFile, base: nat) {
    var h := LayoutOf(o.magic, base);
    && Fits([o.magic], [4]) && Fits(HeadNumbers(o), HEADER_WIDTHS) && Fits([o.reserved], [4])
    && IsFileType(o.filetype) && AreCommands(o.commands, h)
  }

  function HeadBytes(o: ObjectFile, base: nat): seq<Byte> {
    var h := LayoutOf(o.magic, base);
    FieldsBytes([o.magic], [4], Little)
      + (FieldsBytes(HeadNumbers(o), HEADER_WIDTHS, h.e) + if h.is64 then FieldsBytes([o.reserved], [4], h.e) else [])
  }

  lemma HeadReadsBack(b: seq<Byte>, o: ObjectFile, base: nat)
    requires IsObjectFile(o, base) && Holds(b, base, HeadBytes(o, base))
    ensures HeadAt(b, base) == Ok(Head(LayoutOf(o.magic, base), |o.commands|), base + |HeadBytes(o, base)|)
  {
    hide FieldsAt, FieldsBytes, Holds, AreCommands, Fits, TotalWidth;
    var h := LayoutOf(o.magic, base);
    var x, y := FieldsBytes([o.magic], [4], Little), FieldsBytes(HeadNumbers(o), HEADER_WIDTHS, h.e);
    var z := if h.is64 then FieldsBytes([o.reserved], [4], h.e) else [];
    HoldsThree(b, base, HeadBytes(o, base), x, y, z);
    FieldsReadBack(b, base, [o.magic], [4], Little);
    FieldsReadBack(b, base + |x|, HeadNumbers(o), HEADER_WIDTHS, h.e);
    WordIsFour();
    HeldEnds(b, base + |x| + |y|, z);
  }

  lemma WordIsFour()
    ensures TotalWidth([4]) == 4
  {
  }

  /**
   A whole object file is read back, in either word size. The byte order is the one that goes with its magic
   number: files in big endian are those with the magic numbers of BigEndianExactlyWhen only.
   */
  lemma ObjectReadsBack(b: seq<Byte>, o: ObjectFile, base: nat)
    requires IsObjectFile(o, base)
    requires var h := LayoutOf(o.magic, base);
      Holds(b, base, HeadBytes(o, base) + CommandsBytes(o.commands, h))
    ensures var h := LayoutOf(o.magic, base);
      var start := base + |HeadBytes(o, base)|;
      ObjectAt(b, base) == Ok(
        Parsed(AllSections(o.commands, start, h), LastTables(o.commands, h, Tables(0, 0, 0, 0))),
        start + |CommandsBytes(o.commands, h)|)
  {
    hide FieldsBytes, Holds, AreCommands, Fits, HeadAt, HeadBytes, CommandsBytes, CommandsAt, AllSections, LastTables;
    var h := LayoutOf(o.magic, base);
    HoldsBoth(b, base, HeadBytes(o, base), CommandsBytes(o.commands, h));
    HeadReadsBack(b, o, base);
    CommandsReadBack(b, base + |HeadBytes(o, base)|, o.commands, h, Tables(0, 0, 0, 0));
  }

  function Weighted(w: nat, x: nat, y: nat, z: nat): nat { w + 256 * (x + 256 * (y + 256 * z)) }

  /** Four bytes, the first one the lowest: they are determined by their number. */
  lemma FourBytes(b: seq<Byte>)
    requires |b| == 4
    ensures LittleUInt(b) == Weighted(b[0], b[1], b[2], b[3])
  {
    assert b[1..][1..] == b[2..] && b[2..][1..] == b[3..] && b[3..][1..] == [];
    assert LittleUInt(b[3..]) == b[3];
    var x: nat, y: nat := b[2], b[3];
    assert LittleUInt(b[2..]) == x + 256 * y;
  }

  lemma LowByte(x: nat, y: nat, p: nat, q: nat)
    requires x + 256 * p == y + 256 * q && x < 256 && y < 256
    ensures x == y && p == q
  {
  }

  lemma SameBytes(w: nat, x: nat, y: nat, z: nat, w2: nat, x2: nat, y2: nat, z2: nat)
    requires w < 256 && x < 256 && y < 256 && w2 < 256 && x2 < 256 && y2 < 256
    requires Weighted(w, x, y, z) == Weighted(w2, x2, y2, z2)
    ensures w == w2 && x == x2 && y == y2 && z == z2
  {
    LowByte(w, w2, x + 256 * (y + 256 * z), x2 + 256 * (y2 + 256 * z2));
    LowByte(x, x2, y + 256 * z, y2 + 256 * z2);
    LowByte(y, y2, z, z2);
  }

  lemma FourAreEqual(b: seq<Byte>, c: seq<Byte>)
    requires |b| == |c| == 4
    ensures LittleUInt(b) == LittleUInt(c) <==> b == c
  {
    FourBytes(b);
    FourBytes(c);
    if LittleUInt(b) == LittleUInt(c) {
      SameBytes(b[0], b[1], b[2], b[3], c[0], c[1], c[2], c[3]);
    }
  }

  /** The first four bytes of the files that are taken for big endian, with 32 and with 64 bits. */
  function BigMagic(is64: bool): seq<Byte> { if is64 then [0xEF, 0xDE, 0xAF, 0xFC] else [0xEF, 0xDE, 0xAF, 0xEC] }

  /** The magic number of a big-endian file in its own byte order. */
  function StandardBigMagic(is64: bool): seq<Byte> { if is64 then [0xFE, 0xED, 0xFA, 0xCF] else [0xFE, 0xED, 0xFA, 0xCE] }

  /**
   A file is taken for big endian exactly when it begins with one of two magic numbers, neither of which is
   that of a big-endian file: such a file is taken for one of 32 bits in little endian.
   */
  lemma BigEndianExactlyWhen(b: seq<Byte>, base: nat)
    requires |b| == 4
    ensures LayoutOf(UInt(b, Little), base) == Layout(false, Big, base) <==> b == BigMagic(false)
    ensures LayoutOf(UInt(b, Little), base) == Layout(true, Big, base) <==> b == BigMagic(true)
    ensures b == StandardBigMagic(false) || b == StandardBigMagic(true) ==>
      LayoutOf(UInt(b, Little), base) == Layout(false, Little, base)
  {
    hide LittleUInt;
    FourAreEqual(b, BigMagic(false));
    FourAreEqual(b, BigMagic(true));
    FourAreEqual(b, [0xCF, 0xFA, 0xED, 0xFE]);
    FourBytes(BigMagic(false));
    FourBytes(BigMagic(true));
    FourBytes([0xCF, 0xFA, 0xED, 0xFE]);
  }

  /** Of a whole file: its byte order is decided by its first four bytes in this way. */
  lemma BigEndianFileExactlyWhen(b: seq<Byte>, base: nat)
    requires HeadAt(b, base).Ok?
    ensures base + 4 <= |b|
    ensures HeadAt(b, base).value.layout.e.Big? <==> b[base..base + 4] == BigMagic(false) || b[base..base + 4] == BigMagic(true)
  {
    hide LayoutOf, UInt, IsFileType;
    WordIsFour();
    BigEndianExactlyWhen(b[base..base + 4], base);
    BigIsBig(UInt(b[base..base + 4], Little), base);
  }

  lemma BigIsBig(magic: nat, base: nat)
    ensures var h := LayoutOf(magic, base);
      h.base == base && (h.e.Big? <==> h == Layout(false, Big, base) || h == Layout(true, Big, base))
  {
  }
}
