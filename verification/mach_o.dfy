/** The load-command loop: a reader moves over the commands while the sections are collected. */
module MachO {
  import opened Bytes
  import opened Reading
  import opened MachOSpec
  import Sections

  class BinaryObject {
    var sections: seq<SectionInfo>

    constructor ()
      ensures sections == []
    {
      sections := [];
    }

    method AddSections(more: seq<SectionInfo>)
      modifies this
      ensures sections == old(sections) + more
    {
      sections := sections + more;
    }
  }

  function Prepend<T>(values: seq<T>, r: Result<seq<T>>): Result<seq<T>> {
    match r
    case Failed => Failed
    case Ok(more, end) => Ok(values + more, end)
  }

  lemma PrependNothing<T>(r: Result<seq<T>>)
    ensures Prepend([], r) == r
  {
    if r.Ok? {
      assert [] + r.value == r.value;
    }
  }

  lemma PrependTwice<T>(a: seq<T>, b: seq<T>, r: Result<seq<T>>)
    ensures Prepend(a, Prepend(b, r)) == Prepend(a + b, r)
  {
    if r.Ok? {
      assert a + (b + r.value) == a + b + r.value;
    }
  }

  /** Numbers of the given widths, given up at the first that is cut off. */
  method ReadFields(r: Reader, widths: seq<nat>) returns (ok: bool, values: seq<nat>)
    requires forall i | 0 <= i < |widths| :: 0 < widths[i] <= 8
    modifies r`pos
    ensures ok <==> FieldsAt(r.bytes, old(r.pos), widths, r.endianness).Ok?
    ensures ok ==> Ok(values, r.pos) == FieldsAt(r.bytes, old(r.pos), widths, r.endianness)
  {
    values := [];
    var e := r.endianness;
    ghost var all := FieldsAt(r.bytes, r.pos, widths, e);
    assert widths[0..] == widths;
    PrependNothing(all);
    for k := 0 to |widths|
      invariant all == Prepend(values, FieldsAt(r.bytes, r.pos, widths[k..], e))
    {
      ghost var pos := r.pos;
      var valid, v := r.GetUInt(widths[k]);
      FieldsStep(r.bytes, pos, widths, k, e);
      if !valid { return false, values; }
      PrependTwice(values, [v], FieldsAt(r.bytes, r.pos, widths[k + 1..], e));
      values := values + [v];
    }
    assert widths[|widths|..] == [] && values + [] == values;
    ok := true;
  }

  lemma FieldsStep(b: seq<Byte>, pos: nat, widths: seq<nat>, k: nat, e: Endianness)
    requires k < |widths|
    ensures FieldsAt(b, pos, widths[k..], e) ==
      match UIntAt(b, pos, widths[k], e)
      case Failed => Failed
      case Ok(v, next) => Prepend([v], FieldsAt(b, next, widths[k + 1..], e))
  {
    assert widths[k..][0] == widths[k] && widths[k..][1..] == widths[k + 1..];
  }

  method ReadSection(r: Reader, h: Layout, binary: BinaryObject) returns (ok: bool)
    requires r.endianness == h.e
    modifies r`pos, binary
    ensures var was := SectionAt(r.bytes, old(r.pos), h);
      ok == was.Ok? && (ok ==> r.pos == was.pos && binary.sections == old(binary.sections) + was.value)
  {
    hide FieldsAt, Mid, UIntAt, KeptSection, NameOf;
    var secname := r.Read(16);
    var segname := r.Read(16);
    var valid, v := ReadFields(r, SectionWidths(h));
    if !valid { return false; }
    var skipped, value := r.GetUInt(4);
    skipped, value := r.GetUInt(4);
    if h.is64 {
      skipped, value := r.GetUInt(4);
    }
    binary.AddSections(KeptSection(NameOf(segname), NameOf(secname), v[0], v[1], (h.base + v[2]) % TWO32));
    ok := true;
  }

  method ReadSegment(r: Reader, h: Layout, binary: BinaryObject) returns (ok: bool)
    requires r.endianness == h.e
    modifies r`pos, binary
    ensures var was := SegmentAt(r.bytes, old(r.pos), h);
      ok == was.Ok? && (ok ==> r.pos == was.pos && binary.sections == old(binary.sections) + was.value)
  {
    hide FieldsAt, Mid, SectionAt;
    var name := r.Read(16);
    var valid, v := ReadFields(r, SegmentWidths(h));
    if !valid { return false; }
    var nsects := v[6];
    ghost var all, before := SectionsAt(r.bytes, r.pos, h, nsects), binary.sections;
    ghost var added: seq<SectionInfo> := [];
    PrependNothing(all);
    for j := 0 to nsects
      invariant all == Prepend(added, SectionsAt(r.bytes, r.pos, h, nsects - j))
      invariant binary.sections == before + added
    {
      ghost var pos := r.pos;
      ghost var first := SectionAt(r.bytes, pos, h);
      valid := ReadSection(r, h, binary);
      if !valid { return false; }
      PrependTwice(added, first.value, SectionsAt(r.bytes, r.pos, h, nsects - (j + 1)));
      added := added + first.value;
    }
    ok := true;
  }

  method ReadPath(r: Reader, t: nat, cmdsize: nat) returns (ok: bool)
    requires HasPath(t)
    modifies r`pos
    ensures var was := FieldsAt(r.bytes, old(r.pos), PathWidths(t), r.endianness);
      ok == was.Ok? && (ok ==> r.pos == After(r.bytes, was.pos, Minus32(cmdsize, was.value[0])))
  {
    hide FieldsAt, Mid;
    var valid, v := ReadFields(r, PathWidths(t));
    if !valid { return false; }
    var path := r.Read(Minus32(cmdsize, v[0]));
    ok := true;
  }

  method ReadThread(r: Reader) returns (ok: bool)
    modifies r`pos
    ensures var was := FieldsAt(r.bytes, old(r.pos), [4, 4], r.endianness);
      ok == was.Ok? && (ok ==> r.pos == After(r.bytes, was.pos, Product64(was.value[0], was.value[1])))
  {
    hide FieldsAt, Mid;
    var valid, v := ReadFields(r, [4, 4]);
    if !valid { return false; }
    var data := r.Read(Product64(v[0], v[1]));
    ok := true;
  }

  method ReadBody(r: Reader, h: Layout, t: nat, cmdsize: nat, before: Tables, binary: BinaryObject)
    returns (ok: bool, tables: Tables)
    requires r.endianness == h.e
    modifies r`pos, binary
    ensures var was := BodyAt(r.bytes, old(r.pos), h, t, cmdsize, before);
      && ok == was.Ok?
      && (ok ==> Ok(Parsed(was.value.sections, tables), r.pos) == was
                 && binary.sections == old(binary.sections) + was.value.sections)
  {
    hide FieldsAt, Mid, SegmentAt, FieldSections, FieldTables, After, PathWidths, Widths;
    ok, tables := true, before;
    if IsObsolete(t) { return false, before; }
    if IsSegment(t) {
      ok := ReadSegment(r, h, binary);
    } else if HasFields(t) {
      var pos := r.pos;
      WidthsAreSmall(t);
      var valid, v := ReadFields(r, Widths(t));
      if !valid { return false, before; }
      binary.AddSections(FieldSections(t, v, pos, h.base));
      tables := FieldTables(t, v, before);
    } else if HasPath(t) {
      ok := ReadPath(r, t, cmdsize);
    } else if t == 0x1B {
      var uuid := r.Read(16);
    } else if IsThread(t) {
      ok := ReadThread(r);
    } else if IsRaw(t) {
      var data := r.Read(cmdsize);
    }
  }

  lemma WidthsAreSmall(t: nat)
    requires HasFields(t)
    ensures forall i | 0 <= i < |Widths(t)| :: 0 < Widths(t)[i] <= 8
  {
  }

  method ReadCommand(r: Reader, h: Layout, before: Tables, binary: BinaryObject) returns (ok: bool, tables: Tables)
    requires r.endianness == h.e
    modifies r`pos, binary
    ensures var was := CommandAt(r.bytes, old(r.pos), h, before);
      && ok == was.Ok?
      && (ok ==> Ok(Parsed(was.value.sections, tables), r.pos) == was
                 && binary.sections == old(binary.sections) + was.value.sections)
  {
    hide FieldsAt, BodyAt;
    var valid, v := ReadFields(r, [4, 4]);
    if !valid { return false, before; }
    ok, tables := ReadBody(r, h, v[0], v[1], before, binary);
  }

  function PrependSections(sections: seq<SectionInfo>, r: Result<Parsed>): Result<Parsed> {
    match r
    case Failed => Failed
    case Ok(p, end) => Ok(Parsed(sections + p.sections, p.tables), end)
  }

  lemma PrependSectionsTwice(a: seq<SectionInfo>, b: seq<SectionInfo>, r: Result<Parsed>)
    ensures PrependSections(a, PrependSections(b, r)) == PrependSections(a + b, r)
  {
    if r.Ok? {
      assert a + (b + r.value.sections) == a + b + r.value.sections;
    }
  }

  method ReadCommands(r: Reader, h: Layout, ncmds: nat, binary: BinaryObject) returns (ok: bool, tables: Tables)
    requires r.endianness == h.e
    modifies r`pos, binary
    ensures var was := CommandsAt(r.bytes, old(r.pos), h, ncmds, Tables(0, 0, 0, 0));
      && ok == was.Ok?
      && (ok ==> Ok(Parsed(was.value.sections, tables), r.pos) == was
                 && binary.sections == old(binary.sections) + was.value.sections)
  {
    hide CommandAt;
    tables := Tables(0, 0, 0, 0);
    ghost var all, before := CommandsAt(r.bytes, r.pos, h, ncmds, tables), binary.sections;
    ghost var added: seq<SectionInfo> := [];
    if all.Ok? {
      assert [] + all.value.sections == all.value.sections;
    }
    for i := 0 to ncmds
      invariant all == PrependSections(added, CommandsAt(r.bytes, r.pos, h, ncmds - i, tables))
      invariant binary.sections == before + added
    {
      ghost var first := CommandAt(r.bytes, r.pos, h, tables);
      ok, tables := ReadCommand(r, h, tables, binary);
      if !ok { return; }
      PrependSectionsTwice(added, first.value.sections, CommandsAt(r.bytes, r.pos, h, ncmds - (i + 1), tables));
      added := added + first.value.sections;
    }
    ok := true;
  }

  method ReadHead(r: Reader, base: nat) returns (ok: bool, head: Head)
    modifies r
    ensures var was := HeadAt(r.bytes, base);
      ok == was.Ok? && (ok ==> Ok(head, r.pos) == was && r.endianness == head.layout.e)
  {
    hide FieldsAt, LayoutOf;
    head := Head(Layout(false, Little, base), 0);
    r.Seek(base);
    r.endianness := Little;
    var valid, magic := ReadFields(r, [4]);
    if !valid { return false, head; }
    var h := LayoutOf(magic[0], base);
    r.endianness := h.e;
    var v;
    valid, v := ReadFields(r, HEADER_WIDTHS);
    if !valid { return false, head; }
    if h.is64 {
      var skipped, value := r.GetUInt(4);
    }
    if !IsFileType(v[2]) { return false, head; }
    head := Head(h, v[3]);
    ok := true;
  }

  /** The first half of parsing an object file: its header and its load commands. */
  method ParseHeader(r: Reader, base: nat, binary: BinaryObject) returns (ok: bool, tables: Tables)
    modifies r, binary
    ensures var was := ObjectAt(r.bytes, base);
      && ok == was.Ok?
      && (ok ==> Ok(Parsed(was.value.sections, tables), r.pos) == was
                 && binary.sections == old(binary.sections) + was.value.sections)
  {
    hide HeadAt, CommandsAt;
    var valid, head := ReadHead(r, base);
    if !valid { return false, Tables(0, 0, 0, 0); }
    ok, tables := ReadCommands(r, head.layout, head.ncmds, binary);
  }

  /** Every section gets the bytes that the file holds at its place, as many as there are. */
  method FillData(r: Reader, sections: seq<Sections.Section>)
    requires forall i, j | 0 <= i < j < |sections| :: sections[i] != sections[j]
    modifies r`pos, sections
    ensures forall i | 0 <= i < |sections| ::
      && sections[i].data == Mid(r.bytes, sections[i].offset, sections[i].size)
      && sections[i].modifiedRegions == old(sections[i].modifiedRegions)
  {
    for i := 0 to |sections|
      invariant forall j | 0 <= j < i :: sections[j].data == Mid(r.bytes, sections[j].offset, sections[j].size)
      invariant forall j | 0 <= j < |sections| :: sections[j].modifiedRegions == old(sections[j].modifiedRegions)
    {
      r.Seek(sections[i].offset);
      var data := r.Read(sections[i].size);
      sections[i].SetData(data);
    }
  }
}
