/** Writing the modified regions of the sections back into the file they were read from. */
module FormatWrite {
  import opened Bytes
  import opened Sections

  /** An open file: seeking past the end and writing there fills the gap with zeros. */
  class Device {
    var bytes: seq<Byte>
    var pos: nat

    constructor (bytes: seq<Byte>)
      ensures this.bytes == bytes && pos == 0
    {
      this.bytes, pos := bytes, 0;
    }

    method Seek(p: nat)
      modifies this`pos
      ensures pos == p
    {
      pos := p;
    }

    method Write(data: seq<Byte>)
      modifies this
      ensures bytes == WrittenAt(old(bytes), old(pos), data) && pos == old(pos) + |data|
    {
      if data != [] {
        if pos > |bytes| {
          bytes := bytes + seq(pos - |bytes|, _ => 0);
        }
        bytes := Splice(bytes, pos, data);
      }
      pos := pos + |data|;
    }
  }

  function WrittenAt(bytes: seq<Byte>, pos: nat, data: seq<Byte>): (r: seq<Byte>)
    ensures pos + |data| <= |bytes| ==> |r| == |bytes|
    ensures pos + |data| <= |bytes| ==>
      forall q | 0 <= q < |r| :: r[q] == if pos <= q < pos + |data| then data[q - pos] else bytes[q]
  {
    if data == [] then bytes
    else Splice(if pos > |bytes| then bytes + seq(pos - |bytes|, _ => 0) else bytes, pos, data)
  }

  /** The bytes after the regions of one section have been written, one after the other. */
  function RegionsWritten(bytes: seq<Byte>, offset: nat, data: seq<Byte>, regions: seq<Region>): seq<Byte>
    decreases |regions|
  {
    if regions == [] then bytes
    else
      var r := regions[0];
      RegionsWritten(WrittenAt(bytes, offset + r.position, Mid(data, r.position, r.size)), offset, data, regions[1..])
  }

  /** A section as it lies in a file: where it starts, the size it was read with and its state. */
  datatype Placed = Placed(offset: nat, size: nat, st: State)

  function SectionsWritten(bytes: seq<Byte>, sections: seq<Placed>): seq<Byte>
    decreases |sections|
  {
    if sections == [] then bytes
    else
      var s := sections[0];
      SectionsWritten(RegionsWritten(bytes, s.offset, s.st.data, s.st.regions), sections[1..])
  }

  // ---------------------------------------------------------------------------------------------
  // The writing loop
  // ---------------------------------------------------------------------------------------------

  function PlacedValue(s: Section): Placed
    reads s
  {
    Placed(s.offset, s.size, s.Value())
  }

  function PlacedValues(sections: seq<Section>): (r: seq<Placed>)
    reads sections
    ensures |r| == |sections| && forall i | 0 <= i < |r| :: r[i] == PlacedValue(sections[i])
  {
    if sections == [] then [] else [PlacedValue(sections[0])] + PlacedValues(sections[1..])
  }

  /** The sections of all objects of a binary, object by object. */
  function Flattened(objects: seq<seq<Section>>): seq<Section> {
    if objects == [] then [] else objects[0] + Flattened(objects[1..])
  }

  lemma {:induction false} SectionsWrittenAppend(bytes: seq<Byte>, a: seq<Placed>, b: seq<Placed>)
    ensures SectionsWritten(bytes, a + b) == SectionsWritten(SectionsWritten(bytes, a), b)
    decreases |a|
  {
    if a == [] {
      assert a + b == b;
    } else {
      assert (a + b)[1..] == a[1..] + b;
      var s := a[0];
      SectionsWrittenAppend(RegionsWritten(bytes, s.offset, s.st.data, s.st.regions), a[1..], b);
    }
  }

  lemma {:induction false} FlattenedAppend(a: seq<seq<Section>>, o: seq<Section>)
    ensures Flattened(a + [o]) == Flattened(a) + o
  {
    if a == [] {
      assert a + [o] == [o];
      assert [o][1..] == [];
    } else {
      assert (a + [o])[1..] == a[1..] + [o];
      FlattenedAppend(a[1..], o);
    }
  }

  method Write(objects: seq<seq<Section>>, device: Device)
    modifies device
    ensures device.bytes == SectionsWritten(old(device.bytes), PlacedValues(Flattened(objects)))
  {
    hide SectionsWritten, PlacedValues, Flattened;
    assert objects[..0] == [];
    WriteNothing(device.bytes);
    FlattenedNothing();
    for i := 0 to |objects|
      invariant device.bytes == SectionsWritten(old(device.bytes), PlacedValues(Flattened(objects[..i])))
    {
      ghost var before := Flattened(objects[..i]);
      ghost var values := PlacedValues(before);
      WriteObject(objects[i], device);
      assert values == PlacedValues(before);
      SectionsWrittenAppend(old(device.bytes), PlacedValues(before), PlacedValues(objects[i]));
      PlacedValuesAppend(before, objects[i]);
      assert objects[..i + 1] == objects[..i] + [objects[i]];
      FlattenedAppend(objects[..i], objects[i]);
    }
    assert objects[..|objects|] == objects;
  }

  method WriteObject(sections: seq<Section>, device: Device)
    modifies device
    ensures device.bytes == SectionsWritten(old(device.bytes), PlacedValues(sections))
  {
    hide SectionsWritten, RegionsWritten;
    assert sections[..0] == [];
    WriteNothing(device.bytes);
    for j := 0 to |sections|
      invariant device.bytes == SectionsWritten(old(device.bytes), PlacedValues(sections[..j]))
    {
      ghost var bytes := device.bytes;
      WriteSection(sections[j], device);
      ghost var s := PlacedValue(sections[j]);
      SectionsWrittenAppend(old(device.bytes), PlacedValues(sections[..j]), [s]);
      SingleSectionWritten(bytes, s);
      assert sections[..j + 1] == sections[..j] + [sections[j]];
      PlacedValuesAppend(sections[..j], [sections[j]]);
      assert PlacedValues([sections[j]]) == [s];
    }
    assert sections[..|sections|] == sections;
  }

  lemma PlacedValuesAppend(a: seq<Section>, b: seq<Section>)
    ensures PlacedValues(a + b) == PlacedValues(a) + PlacedValues(b)
  {
  }

  lemma FlattenedNothing()
    ensures Flattened([]) == [] && PlacedValues([]) == []
  {
  }

  lemma WriteNothing(bytes: seq<Byte>)
    ensures SectionsWritten(bytes, []) == bytes
  {
  }

  lemma SingleSectionWritten(bytes: seq<Byte>, s: Placed)
    ensures SectionsWritten(bytes, [s]) == RegionsWritten(bytes, s.offset, s.st.data, s.st.regions)
  {
    assert [s][1..] == [];
  }

  method WriteSection(section: Section, device: Device)
    modifies device
    ensures device.bytes == RegionsWritten(old(device.bytes), section.offset, section.data, section.modifiedRegions)
  {
    hide WrittenAt;
    var regions := section.modifiedRegions;
    if regions == [] { return; }
    var data := section.data;
    assert regions[0..] == regions;
    for k := 0 to |regions|
      invariant RegionsWritten(old(device.bytes), section.offset, data, regions)
        == RegionsWritten(device.bytes, section.offset, data, regions[k..])
    {
      var region := regions[k];
      assert regions[k..][0] == region && regions[k..][1..] == regions[k + 1..];
      device.Seek(section.offset + region.position);
      device.Write(Mid(data, region.position, region.size));
    }
    assert regions[|regions|..] == [];
  }

  // ---------------------------------------------------------------------------------------------
  // What the written file holds
  // ---------------------------------------------------------------------------------------------

  /** The log of one section writes its current byte wherever it covers one, and nothing else. */
  lemma {:induction false} RegionsWrittenAt(bytes: seq<Byte>, offset: nat, data: seq<Byte>, regions: seq<Region>, q: nat)
    requires offset + |data| <= |bytes| && q < |bytes|
    requires forall i | 0 <= i < |regions| :: regions[i].position + regions[i].size <= |data|
    ensures var r := RegionsWritten(bytes, offset, data, regions);
      |r| == |bytes| && r[q] == if offset <= q && Covers(regions, q - offset) then data[q - offset] else bytes[q]
    decreases |regions|
  {
    if regions != [] {
      hide WrittenAt, Mid, Covers;
      var r, rest := regions[0], regions[1..];
      var next := WrittenAt(bytes, offset + r.position, Mid(data, r.position, r.size));
      assert forall i | 0 <= i < |rest| :: rest[i] == regions[i + 1];
      assert r.position + r.size <= |data|;
      RegionsWrittenAt(next, offset, data, rest, q);
      if offset <= q { CoverSplit(regions, q - offset); }
    }
  }

  /** The file position `q` belongs to the section. */
  predicate Owns(s: Placed, q: nat) {
    s.offset <= q < s.offset + |s.st.data|
  }

  /** The log of the section leads from what it was read as to its data. */
  ghost predicate TracksFile(file: seq<Byte>, s: Placed) {
    && s.offset + s.size <= |file| && s.offset + |s.st.data| <= |file|
    && Tracks(file[s.offset..s.offset + s.size], s.st)
  }

  /** No file position belongs to both sections. */
  predicate Apart(a: Placed, b: Placed) {
    a.st.data == [] || b.st.data == []
    || a.offset + |a.st.data| <= b.offset || b.offset + |b.st.data| <= a.offset
  }

  ghost predicate Disjoint(sections: seq<Placed>) {
    forall i, j | 0 <= i < j < |sections| :: Apart(sections[i], sections[j])
  }

  lemma SectionWrittenAt(bytes: seq<Byte>, file: seq<Byte>, s: Placed, q: nat)
    requires TracksFile(file, s) && |bytes| == |file| && q < |file|
    requires Owns(s, q) ==> bytes[q] == file[q]
    ensures var r := RegionsWritten(bytes, s.offset, s.st.data, s.st.regions);
      |r| == |bytes| && r[q] == if Owns(s, q) then s.st.data[q - s.offset] else bytes[q]
  {
    hide RegionsWritten;
    RegionsWrittenAt(bytes, s.offset, s.st.data, s.st.regions, q);
    if s.offset <= q && Covers(s.st.regions, q - s.offset) {
      var i :| 0 <= i < |s.st.regions| && s.st.regions[i].Has(q - s.offset);
    }
  }

  /** The byte the file should hold: that of the section the position belongs to, if there is one. */
  function Expected(file: seq<Byte>, sections: seq<Placed>, q: nat): Byte
    requires q < |file|
    decreases |sections|
  {
    if sections == [] then file[q]
    else if Owns(sections[0], q) then sections[0].st.data[q - sections[0].offset]
    else Expected(file, sections[1..], q)
  }

  lemma {:induction false} ExpectedElsewhere(file: seq<Byte>, sections: seq<Placed>, q: nat)
    requires q < |file| && forall i | 0 <= i < |sections| :: !Owns(sections[i], q)
    ensures Expected(file, sections, q) == file[q]
    decreases |sections|
  {
    if sections != [] {
      ExpectedElsewhere(file, sections[1..], q);
    }
  }

  /**
   Writing only the logged regions gives the file in which every section's range holds its current
   data and no other byte has changed.
   */
  lemma {:induction false} WriteRebuildsFile(bytes: seq<Byte>, file: seq<Byte>, sections: seq<Placed>, q: nat)
    requires |bytes| == |file| && q < |file|
    requires forall i | 0 <= i < |sections| :: TracksFile(file, sections[i])
    requires Disjoint(sections)
    requires (exists i | 0 <= i < |sections| :: Owns(sections[i], q)) ==> bytes[q] == file[q]
    ensures |SectionsWritten(bytes, sections)| == |file|
    ensures SectionsWritten(bytes, sections)[q]
      == if exists i | 0 <= i < |sections| :: Owns(sections[i], q) then Expected(file, sections, q) else bytes[q]
    decreases |sections|
  {
    if sections != [] {
      var s, rest := sections[0], sections[1..];
      var next := RegionsWritten(bytes, s.offset, s.st.data, s.st.regions);
      SectionWrittenAt(bytes, file, s, q);
      assert forall i | 0 <= i < |rest| :: rest[i] == sections[i + 1];
      if Owns(s, q) {
        assert forall i | 0 <= i < |rest| :: !Owns(rest[i], q);
      } else if exists i | 0 <= i < |sections| :: Owns(sections[i], q) {
        var i :| 0 <= i < |sections| && Owns(sections[i], q);
        assert Owns(rest[i - 1], q);
      }
      WriteRebuildsFile(next, file, rest, q);
    }
  }

  /** The section after a run of edits on what was read from the file. */
  function Edited(file: seq<Byte>, offset: nat, size: nat, edits: seq<Edit>): Placed
    requires offset + size <= |file|
  {
    Placed(offset, size, Run(State(file[offset..offset + size], []), edits))
  }

  /** After any runs of edits in bounds on freshly read sections, the written file is as expected. */
  lemma EditsReachFile(file: seq<Byte>, sections: seq<Placed>, edits: seq<seq<Edit>>, q: nat)
    requires |edits| == |sections| && q < |file| && Disjoint(sections)
    requires forall i | 0 <= i < |sections| :: var s := sections[i];
      && s.offset + s.size <= |file| && s == Edited(file, s.offset, s.size, edits[i])
      && AllInBounds(State(file[s.offset..s.offset + s.size], []), edits[i])
    ensures |SectionsWritten(file, sections)| == |file|
    ensures SectionsWritten(file, sections)[q] == Expected(file, sections, q)
    ensures forall i | 0 <= i < |sections| :: |sections[i].st.data| == sections[i].size
  {
    forall i | 0 <= i < |sections|
      ensures TracksFile(file, sections[i]) && |sections[i].st.data| == sections[i].size
    {
      var s := sections[i];
      var original := file[s.offset..s.offset + s.size];
      FreshTracks(original);
      RunTracks(original, State(original, []), edits[i]);
    }
    WriteRebuildsFile(file, file, sections, q);
    if !exists i | 0 <= i < |sections| :: Owns(sections[i], q) {
      ExpectedElsewhere(file, sections, q);
    }
  }
}
