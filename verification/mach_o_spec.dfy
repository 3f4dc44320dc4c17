/** What the load commands of a Mach-O file say, and what the parser takes from them. */
module MachOSpec {
  import opened Bytes
  import opened Reading

  datatype Kind =
    | Text | SymbolStubs | Symbols | DynSymbols | CString | String | FuncStarts | CodeSig
    | MinMacOsx | MinIphoneOs | MinWatchOs | MinTvOs

  datatype SectionInfo = SectionInfo(kind: Kind, name: string, address: nat, size: nat, offset: nat)

  /** Symbol tables found so far: where they are, and how many entries they have. */
  datatype Tables = Tables(symoff: nat, symnum: nat, indirsymoff: nat, indirsymnum: nat)

  /** What a load command adds. */
  datatype Parsed = Parsed(sections: seq<SectionInfo>, tables: Tables)

  /** Word size, byte order and file offset of the object file. */
  datatype Layout = Layout(is64: bool, e: Endianness, base: nat) {
    function Word(): nat { if is64 then 8 else 4 }
  }

  const TWO32: nat := 0x1_0000_0000

  // ---------------------------------------------------------------------------------------------
  // Types of load commands
  // ---------------------------------------------------------------------------------------------

  predicate IsObsolete(t: nat) {
    t == 0x3 || t == 0x6 || t == 0x7 || t == 0x8 || t == 0x9 || t == 0xA || t == 0x10 || t == 0x16 || t == 0x17
  }

  predicate IsSegment(t: nat) { t == 1 || t == 25 }

  predicate IsDyldInfo(t: nat) { t == 0x22 || t == 0x8000_0022 }

  predicate IsDylib(t: nat) { t == 0xC || t == 0xD || t == 0x8000_0018 || t == 0x8000_001F }

  predicate IsDylinker(t: nat) { t == 0xE || t == 0xF || t == 0x27 }

  predicate IsVersionMin(t: nat) { t == 0x24 || t == 0x25 || t == 0x2F || t == 0x30 }

  predicate IsLinkEdit(t: nat) {
    t == 0x26 || t == 0x2B || t == 0x1E || t == 0x1D || t == 0x2E || t == 0x8000_0033 || t == 0x8000_0034
  }

  predicate IsThread(t: nat) { t == 0x4 || t == 0x5 }

  predicate IsRpath(t: nat) { t == 0x8000_001C }

  /** Read as `cmdsize` bytes, although eight of those have been read already. */
  predicate IsRaw(t: nat) {
    t == 0x12 || t == 0x13 || t == 0x14 || t == 0x15 || t == 0x11 || t == 0x1A || t == 0x21 || t == 0x2C
    || t == 0x2D || t == 0x31 || t == 0x32
  }

  /** Commands of a fixed list of numbers, and the widths of those. */
  predicate HasFields(t: nat) {
    IsDyldInfo(t) || t == 2 || t == 0xB || IsVersionMin(t) || t == 0x2A || t == 0x8000_0028 || IsLinkEdit(t) || t == 0x29
  }

  function Widths(t: nat): seq<nat>
    requires HasFields(t)
  {
    if IsDyldInfo(t) then [4, 4, 4, 4, 4, 4, 4, 4, 4, 4]
    else if t == 2 then [4, 4, 4, 4]
    else if t == 0xB then [4, 4, 4, 4, 4, 4, 4, 4, 4, 4, 4, 4, 4, 4, 4, 4, 4, 4]
    else if t == 0x2A then [8]
    else if t == 0x8000_0028 then [8, 8]
    else if t == 0x29 then [4, 2, 2]
    else [4, 4]
  }

  /** Commands that name a path, and the widths of the numbers before it. */
  predicate HasPath(t: nat) { IsDylib(t) || IsDylinker(t) || IsRpath(t) }

  function PathWidths(t: nat): seq<nat> {
    if IsDylib(t) then [4, 4, 4, 4] else [4]
  }

  function VersionMinSection(t: nat, pos: nat): SectionInfo {
    var (kind, name) :=
      if t == 0x24 then (MinMacOsx, "macOS SDK min version")
      else if t == 0x25 then (MinIphoneOs, "iOS SDK min version")
      else if t == 0x2F then (MinWatchOs, "watchOS SDK min version")
      else (MinTvOs, "tvOS SDK min version");
    SectionInfo(kind, name, pos, 8, pos % TWO32)
  }

  /** The sections that the numbers of a command give, where `pos` is the offset of the first number. */
  function FieldSections(t: nat, v: seq<nat>, pos: nat, base: nat): seq<SectionInfo>
    requires HasFields(t) && |v| == |Widths(t)|
  {
    if t == 2 then [SectionInfo(String, "String Table", v[2], v[3], (base + v[2]) % TWO32)]
    else if IsVersionMin(t) then [VersionMinSection(t, pos)]
    else if t == 0x26 then [SectionInfo(FuncStarts, "Function Starts", v[0], v[1], (base + v[0]) % TWO32)]
    else if t == 0x1D then [SectionInfo(CodeSig, "Code Signature", v[0], v[1], (base + v[0]) % TWO32)]
    else []
  }

  function FieldTables(t: nat, v: seq<nat>, tables: Tables): Tables
    requires HasFields(t) && |v| == |Widths(t)|
  {
    if t == 2 then tables.(symoff := v[0], symnum := v[1])
    else if t == 0xB then tables.(indirsymoff := v[12], indirsymnum := v[13])
    else tables
  }

  /** The characters before the first zero byte. */
  function NameOf(bytes: seq<Byte>): string {
    if bytes == [] || bytes[0] == 0 then [] else [bytes[0] as char] + NameOf(bytes[1..])
  }

  /** The sections of a segment that are kept: four of `__TEXT`. */
  function KeptSection(segment: string, section: string, address: nat, size: nat, offset: nat): seq<SectionInfo> {
    if segment != "__TEXT" then []
    else if section == "__text" then [SectionInfo(Text, "Program", address, size, offset)]
    else if section == "__symbol_stub" || section == "__stubs" then
      [SectionInfo(SymbolStubs, "Symbol Stubs", address, size, offset)]
    else if section == "__cstring" then [SectionInfo(CString, "C-Strings", address, size, offset)]
    else if section == "__objc_methname" then [SectionInfo(CString, "ObjC Method Names", address, size, offset)]
    else []
  }

  // ---------------------------------------------------------------------------------------------
  // What is read where
  // ---------------------------------------------------------------------------------------------

  function SegmentWidths(h: Layout): seq<nat> { [h.Word(), h.Word(), h.Word(), h.Word(), 4, 4, 4, 4] }

  function SectionWidths(h: Layout): seq<nat> { [h.Word(), h.Word(), 4, 4, 4, 4, 4] }

  /** The reserved numbers at the end of a section header are read without looking whether they are there. */
  function AfterReserved(b: seq<Byte>, pos: nat, h: Layout): nat {
    var next := After(b, After(b, pos, 4), 4);
    if h.is64 then After(b, next, 4) else next
  }

  function SectionAt(b: seq<Byte>, pos: nat, h: Layout): Result<seq<SectionInfo>> {
    var middle := After(b, pos, 16);
    match FieldsAt(b, After(b, middle, 16), SectionWidths(h), h.e)
    case Failed => Failed
    case Ok(v, next) =>
      Ok(KeptSection(NameOf(Mid(b, middle, 16)), NameOf(Mid(b, pos, 16)), v[0], v[1], (h.base + v[2]) % TWO32),
         AfterReserved(b, next, h))
  }

  function SectionsAt(b: seq<Byte>, pos: nat, h: Layout, n: nat): Result<seq<SectionInfo>>
    decreases n
  {
    if n == 0 then Ok([], pos)
    else
      match SectionAt(b, pos, h)
      case Failed => Failed
      case Ok(first, next) =>
        match SectionsAt(b, next, h, n - 1)
        case Failed => Failed
        case Ok(rest, end) => Ok(first + rest, end)
  }

  function SegmentAt(b: seq<Byte>, pos: nat, h: Layout): Result<seq<SectionInfo>> {
    match FieldsAt(b, After(b, pos, 16), SegmentWidths(h), h.e)
    case Failed => Failed
    case Ok(v, next) => SectionsAt(b, next, h, v[6])
  }

  /** `a - b` in 32 bits. */
  function Minus32(a: nat, b: nat): nat { (a - b) % TWO32 }

  /** How far a product of 64 bits with sign reaches: nothing is read when it is negative. */
  function Product64(a: nat, b: nat): nat {
    if a * b < 0x8000_0000_0000_0000 then a * b else 0
  }

  /** The body of a load command of type `t`, whose header has been read. */
  function BodyAt(b: seq<Byte>, pos: nat, h: Layout, t: nat, cmdsize: nat, tables: Tables): Result<Parsed> {
    if IsObsolete(t) then Failed
    else if IsSegment(t) then
      match SegmentAt(b, pos, h)
      case Failed => Failed
      case Ok(sections, next) => Ok(Parsed(sections, tables), next)
    else if HasFields(t) then
      match FieldsAt(b, pos, Widths(t), h.e)
      case Failed => Failed
      case Ok(v, next) => Ok(Parsed(FieldSections(t, v, pos, h.base), FieldTables(t, v, tables)), next)
    else if HasPath(t) then
      match FieldsAt(b, pos, PathWidths(t), h.e)
      case Failed => Failed
      case Ok(v, next) => Ok(Parsed([], tables), After(b, next, Minus32(cmdsize, v[0])))
    else if t == 0x1B then Ok(Parsed([], tables), After(b, pos, 16))
    else if IsThread(t) then
      match FieldsAt(b, pos, [4, 4], h.e)
      case Failed => Failed
      case Ok(v, next) => Ok(Parsed([], tables), After(b, next, Product64(v[0], v[1])))
    else if IsRaw(t) then Ok(Parsed([], tables), After(b, pos, cmdsize))
    else Ok(Parsed([], tables), pos)
  }

  function CommandAt(b: seq<Byte>, pos: nat, h: Layout, tables: Tables): Result<Parsed> {
    match FieldsAt(b, pos, [4, 4], h.e)
    case Failed => Failed
    case Ok(v, next) => BodyAt(b, next, h, v[0], v[1], tables)
  }

  function CommandsAt(b: seq<Byte>, pos: nat, h: Layout, n: nat, tables: Tables): Result<Parsed>
    decreases n
  {
    if n == 0 then Ok(Parsed([], tables), pos)
    else
      match CommandAt(b, pos, h, tables)
      case Failed => Failed
      case Ok(first, next) =>
        match CommandsAt(b, next, h, n - 1, first.tables)
        case Failed => Failed
        case Ok(rest, end) => Ok(Parsed(first.sections + rest.sections, rest.tables), end)
  }

  // ---------------------------------------------------------------------------------------------
  // The header
  // ---------------------------------------------------------------------------------------------

  /** The layout that a magic number stands for; any other number is taken for 32 bits, little endian. */
  function LayoutOf(magic: nat, base: nat): Layout {
    if magic == 0xFEEDFACF then Layout(true, Little, base)
    else if magic == 0xECAFDEEF then Layout(false, Big, base)
    else if magic == 0xFCAFDEEF then Layout(true, Big, base)
    else Layout(false, Little, base)
  }

  predicate IsFileType(t: nat) { t == 1 || t == 2 || t == 4 || t == 5 || t == 6 || t == 7 || t == 8 }

  datatype Head = Head(layout: Layout, ncmds: nat)

  const HEADER_WIDTHS: seq<nat> := [4, 4, 4, 4, 4, 4]

  function HeadAt(b: seq<Byte>, base: nat): Result<Head> {
    match FieldsAt(b, base, [4], Little)
    case Failed => Failed
    case Ok(magic, next) =>
      var h := LayoutOf(magic[0], base);
      match FieldsAt(b, next, HEADER_WIDTHS, h.e)
      case Failed => Failed
      case Ok(v, end) =>
        if IsFileType(v[2]) then Ok(Head(h, v[3]), if h.is64 then After(b, end, 4) else end) else Failed
  }

  /** The header at `base`, and the load commands after it. */
  function ObjectAt(b: seq<Byte>, base: nat): Result<Parsed> {
    match HeadAt(b, base)
    case Failed => Failed
    case Ok(head, next) => CommandsAt(b, next, head.layout, head.ncmds, Tables(0, 0, 0, 0))
  }
}
