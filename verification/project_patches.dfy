/** Carrying the modified regions of a binary through its project file. */
module ProjectPatches {
  import opened Bytes
  import opened Sections
  import opened FormatWrite
  import opened Project
  import opened ProjectFile
  import opened Options

  // ---------------------------------------------------------------------------------------------
  // Saving
  // ---------------------------------------------------------------------------------------------

  /** Each region is stored under its file offset, over what was stored there before. */
  function RegionEntries(m: RegionMap, offset: nat, data: seq<Byte>, regions: seq<Region>): RegionMap
    decreases |regions|
  {
    if regions == [] then m
    else
      var r := regions[0];
      RegionEntries(m[offset + r.position := Mid(data, r.position, r.size)], offset, data, regions[1..])
  }

  function SectionEntries(m: RegionMap, sections: seq<Placed>): RegionMap
    decreases |sections|
  {
    if sections == [] then m
    else
      var s := sections[0];
      SectionEntries(RegionEntries(m, s.offset, s.st.data, s.st.regions), sections[1..])
  }

  /** All modified sections of all objects of the binary. */
  method SaveRegions(objects: seq<seq<Section>>) returns (m: RegionMap)
    ensures m == SectionEntries(map[], PlacedValues(Flattened(objects)))
  {
    hide SectionEntries, PlacedValues, Flattened;
    m := map[];
    assert objects[..0] == [];
    FlattenedNothing();
    NothingSaved(m);
    for i := 0 to |objects|
      invariant m == SectionEntries(map[], PlacedValues(Flattened(objects[..i])))
    {
      ghost var before := Flattened(objects[..i]);
      ghost var values := PlacedValues(before);
      m := SaveObjectRegions(m, objects[i]);
      assert values == PlacedValues(before);
      SectionEntriesAppend(map[], PlacedValues(before), PlacedValues(objects[i]));
      PlacedValuesAppend(before, objects[i]);
      assert objects[..i + 1] == objects[..i] + [objects[i]];
      FlattenedAppend(objects[..i], objects[i]);
    }
    assert objects[..|objects|] == objects;
  }

  lemma NothingSaved(m: RegionMap)
    ensures SectionEntries(m, []) == m
  {
  }

  lemma {:induction false} SectionEntriesAppend(m: RegionMap, a: seq<Placed>, b: seq<Placed>)
    ensures SectionEntries(m, a + b) == SectionEntries(SectionEntries(m, a), b)
    decreases |a|
  {
    if a == [] {
      assert a + b == b;
    } else {
      assert (a + b)[1..] == a[1..] + b;
      SectionEntriesAppend(RegionEntries(m, a[0].offset, a[0].st.data, a[0].st.regions), a[1..], b);
    }
  }

  method SaveObjectRegions(before: RegionMap, sections: seq<Section>) returns (m: RegionMap)
    ensures m == SectionEntries(before, PlacedValues(sections))
  {
    m := before;
    ghost var all := PlacedValues(sections);
    for i := 0 to |sections|
      invariant SectionEntries(before, all) == SectionEntries(m, all[i..])
    {
      assert all[i..][0] == PlacedValue(sections[i]) && all[i..][1..] == all[i + 1..];
      if sections[i].modifiedRegions == [] { continue; }
      m := SaveSection(m, sections[i]);
    }
  }

  method SaveSection(before: RegionMap, section: Section) returns (m: RegionMap)
    ensures m == RegionEntries(before, section.offset, section.data, section.modifiedRegions)
  {
    m := before;
    var data, regions := section.data, section.modifiedRegions;
    for k := 0 to |regions|
      invariant RegionEntries(before, section.offset, data, regions)
        == RegionEntries(m, section.offset, data, regions[k..])
    {
      assert regions[k..][0] == regions[k] && regions[k..][1..] == regions[k + 1..];
      m := m[section.offset + regions[k].position := Mid(data, regions[k].position, regions[k].size)];
    }
  }

  // ---------------------------------------------------------------------------------------------
  // Applying
  // ---------------------------------------------------------------------------------------------

  /** Entries that end at the end of the section, or behind it, are passed over. */
  predicate InRange(address: nat, length: nat, offset: nat, size: nat) {
    address >= offset && address + length < offset + size
  }

  function ApplyEntry(st: State, offset: nat, size: nat, address: nat, entry: seq<Byte>): State {
    if InRange(address, |entry|, offset, size) && entry != Mid(st.data, address - offset, |entry|)
    then Apply(st, Edit(entry, address - offset))
    else st
  }

  function ApplyEntries(st: State, offset: nat, size: nat, m: RegionMap, keys: seq<nat>): State
    requires forall k | k in keys :: k in m
    decreases |keys|
  {
    if keys == [] then st
    else ApplyEntries(ApplyEntry(st, offset, size, keys[0], m[keys[0]]), offset, size, m, keys[1..])
  }

  method ApplyModifiedRegions(sections: seq<Section>, m: RegionMap, keys: seq<nat>) returns (match_: bool)
    requires forall k | k in keys :: k in m
    requires forall i, j | 0 <= i < j < |sections| :: sections[i] != sections[j]
    modifies sections
    ensures forall i | 0 <= i < |sections| ::
      sections[i].Value() == ApplyEntries(old(sections[i].Value()), sections[i].offset, sections[i].size, m, keys)
    ensures !match_ ==> forall i | 0 <= i < |sections| :: sections[i].Value() == old(sections[i].Value())
  {
    match_ := false;
    for i := 0 to |sections|
      invariant forall j | 0 <= j < i ::
        sections[j].Value() == ApplyEntries(old(sections[j].Value()), sections[j].offset, sections[j].size, m, keys)
      invariant forall j | i <= j < |sections| :: sections[j].Value() == old(sections[j].Value())
      invariant !match_ ==> forall j | 0 <= j < i :: sections[j].Value() == old(sections[j].Value())
    {
      var changed := ApplyToSection(sections[i], m, keys);
      match_ := match_ || changed;
    }
  }

  method ApplyToSection(section: Section, m: RegionMap, keys: seq<nat>) returns (changed: bool)
    requires forall k | k in keys :: k in m
    modifies section
    ensures section.Value() == ApplyEntries(old(section.Value()), section.offset, section.size, m, keys)
    ensures !changed ==> section.Value() == old(section.Value())
  {
    hide Apply;
    changed := false;
    for k := 0 to |keys|
      invariant ApplyEntries(section.Value(), section.offset, section.size, m, keys[k..])
        == ApplyEntries(old(section.Value()), section.offset, section.size, m, keys)
      invariant !changed ==> section.Value() == old(section.Value())
    {
      var address: nat := keys[k];
      assert keys[k..][0] == address && keys[k..][1..] == keys[k + 1..];
      var regionData := m[address];
      if address >= section.offset && address + |regionData| < section.offset + section.size {
        var pos := address - section.offset;
        if regionData != Mid(section.data, pos, |regionData|) {
          section.SetSubData(regionData, pos);
          changed := true;
        }
      }
    }
  }

  // ---------------------------------------------------------------------------------------------
  // What was saved
  // ---------------------------------------------------------------------------------------------

  /** No later region starts where region number `k` does. */
  ghost predicate LastWithStart(regions: seq<Region>, k: nat)
    requires k < |regions|
  {
    forall j | k < j < |regions| :: regions[j].position != regions[k].position
  }

  /** The entry at `address` is the region number `k`, with its current data. */
  ghost predicate IsEntry(s: Placed, k: nat, address: nat, entry: seq<Byte>) {
    && k < |s.st.regions| && LastWithStart(s.st.regions, k)
    && address == s.offset + s.st.regions[k].position
    && entry == Mid(s.st.data, s.st.regions[k].position, s.st.regions[k].size)
  }

  /** A later region replaces an earlier one with the same start; nothing else is touched. */
  lemma {:induction false} RegionEntryAt(m: RegionMap, offset: nat, data: seq<Byte>, regions: seq<Region>, address: nat)
    ensures var r := RegionEntries(m, offset, data, regions);
      if exists k | 0 <= k < |regions| :: offset + regions[k].position == address
      then address in r && exists k | 0 <= k < |regions| ::
          LastWithStart(regions, k) && offset + regions[k].position == address
          && r[address] == Mid(data, regions[k].position, regions[k].size)
      else (address in r <==> address in m) && (address in m ==> r[address] == m[address])
    decreases |regions|
  {
    if regions != [] {
      var first, rest := regions[0], regions[1..];
      var next := m[offset + first.position := Mid(data, first.position, first.size)];
      RegionEntryAt(next, offset, data, rest, address);
      assert forall k | 0 <= k < |rest| :: rest[k] == regions[k + 1];
      if exists k | 0 <= k < |rest| :: offset + rest[k].position == address {
        var k :| 0 <= k < |rest| && LastWithStart(rest, k) && offset + rest[k].position == address
          && RegionEntries(next, offset, data, rest)[address] == Mid(data, rest[k].position, rest[k].size);
        assert LastWithStart(regions, k + 1) && offset + regions[k + 1].position == address;
      } else if offset + first.position == address {
        assert LastWithStart(regions, 0);
      } else {
        assert forall k | 0 <= k < |regions| :: offset + regions[k].position != address;
      }
    }
  }

  /** Regions are logged inside the data, and sections do not overlap. */
  ghost predicate LaidOut(sections: seq<Placed>) {
    && Disjoint(sections)
    && forall i, k | 0 <= i < |sections| && 0 <= k < |sections[i].st.regions| ::
         sections[i].st.regions[k].position < |sections[i].st.data|
  }

  ghost predicate StartsAt(s: Placed, address: nat) {
    exists k | 0 <= k < |s.st.regions| :: s.offset + s.st.regions[k].position == address
  }

  ghost predicate HasEntry(s: Placed, address: nat, entry: seq<Byte>) {
    exists k | 0 <= k < |s.st.regions| :: IsEntry(s, k, address, entry)
  }

  lemma SectionEntryOf(m: RegionMap, s: Placed, address: nat)
    ensures var r := RegionEntries(m, s.offset, s.st.data, s.st.regions);
      if StartsAt(s, address) then address in r && HasEntry(s, address, r[address])
      else (address in r <==> address in m) && (address in m ==> r[address] == m[address])
  {
    RegionEntryAt(m, s.offset, s.st.data, s.st.regions, address);
    if StartsAt(s, address) {
      var k :| 0 <= k < |s.st.regions| && LastWithStart(s.st.regions, k) && s.offset + s.st.regions[k].position == address
        && RegionEntries(m, s.offset, s.st.data, s.st.regions)[address]
           == Mid(s.st.data, s.st.regions[k].position, s.st.regions[k].size);
      assert IsEntry(s, k, address, RegionEntries(m, s.offset, s.st.data, s.st.regions)[address]);
    }
  }

  lemma {:induction false} SavedEntryAt(m: RegionMap, sections: seq<Placed>, address: nat)
    ensures var r := SectionEntries(m, sections);
      if exists i | 0 <= i < |sections| :: StartsAt(sections[i], address)
      then address in r && exists i | 0 <= i < |sections| :: HasEntry(sections[i], address, r[address])
      else (address in r <==> address in m) && (address in m ==> r[address] == m[address])
    decreases |sections|
  {
    if sections != [] {
      hide RegionEntries, StartsAt, HasEntry;
      var s, rest := sections[0], sections[1..];
      var next := RegionEntries(m, s.offset, s.st.data, s.st.regions);
      SectionEntryOf(m, s, address);
      SavedEntryAt(next, rest, address);
      assert forall i | 0 <= i < |rest| :: rest[i] == sections[i + 1];
      if exists i | 0 <= i < |rest| :: StartsAt(rest[i], address) {
        var i :| 0 <= i < |rest| && StartsAt(rest[i], address);
        assert StartsAt(sections[i + 1], address);
        var j :| 0 <= j < |rest| && HasEntry(rest[j], address, SectionEntries(next, rest)[address]);
        assert HasEntry(sections[j + 1], address, SectionEntries(m, sections)[address]);
      } else if StartsAt(s, address) {
        assert HasEntry(sections[0], address, SectionEntries(m, sections)[address]);
      }
    }
  }

  lemma OneOwner(sections: seq<Placed>, i: nat, j: nat, address: nat)
    requires i < |sections| && j < |sections| && Disjoint(sections)
    requires Owns(sections[i], address) && Owns(sections[j], address)
    ensures i == j
  {
  }

  /** Within a section, an entry of the project is one of its own regions. */
  lemma OwnEntry(sections: seq<Placed>, i: nat, address: nat)
    requires i < |sections| && LaidOut(sections)
    requires address in SectionEntries(map[], sections) && Owns(sections[i], address)
    ensures HasEntry(sections[i], address, SectionEntries(map[], sections)[address])
  {
    var m := SectionEntries(map[], sections);
    SavedEntryAt(map[], sections, address);
    var j :| 0 <= j < |sections| && HasEntry(sections[j], address, m[address]);
    var k :| 0 <= k < |sections[j].st.regions| && IsEntry(sections[j], k, address, m[address]);
    OneOwner(sections, i, j, address);
  }

  /** The regions of a section that are the last with their start are saved. */
  lemma OwnRegion(sections: seq<Placed>, i: nat, k: nat)
    requires i < |sections| && LaidOut(sections)
    requires k < |sections[i].st.regions| && LastWithStart(sections[i].st.regions, k)
    ensures HoldsRegion(sections[i], SectionEntries(map[], sections), k)
  {
    hide SectionEntries;
    var s := sections[i];
    var address: nat := s.offset + s.st.regions[k].position;
    assert StartsAt(s, address);
    SavedEntryAt(map[], sections, address);
    OwnEntry(sections, i, address);
    var l :| 0 <= l < |s.st.regions| && IsEntry(s, l, address, SectionEntries(map[], sections)[address]);
    assert s.st.regions[l].position == s.st.regions[k].position;
    assert k == l;
  }

  ghost predicate HoldsRegion(s: Placed, m: RegionMap, k: nat)
    requires k < |s.st.regions|
  {
    var address: nat := s.offset + s.st.regions[k].position;
    address in m && IsEntry(s, k, address, m[address])
  }

  /** What the project holds of a section: its last regions, and nothing else in its range. */
  ghost predicate HoldsOwn(s: Placed, m: RegionMap) {
    && (forall address | address in m && Owns(s, address) :: HasEntry(s, address, m[address]))
    && (forall k | 0 <= k < |s.st.regions| && LastWithStart(s.st.regions, k) :: HoldsRegion(s, m, k))
  }

  lemma SavedHoldsOwn(sections: seq<Placed>, i: nat)
    requires i < |sections| && LaidOut(sections)
    ensures HoldsOwn(sections[i], SectionEntries(map[], sections))
  {
    hide SectionEntries, HasEntry, HoldsRegion, LastWithStart;
    var s, m := sections[i], SectionEntries(map[], sections);
    forall address | address in m && Owns(s, address) ensures HasEntry(s, address, m[address]) {
      OwnEntry(sections, i, address);
    }
    forall k | 0 <= k < |s.st.regions| && LastWithStart(s.st.regions, k) ensures HoldsRegion(s, m, k) {
      OwnRegion(sections, i, k);
    }
  }

  // ---------------------------------------------------------------------------------------------
  // What is restored
  // ---------------------------------------------------------------------------------------------

  /** An entry in range covers the position. */
  ghost predicate Reaches(offset: nat, size: nat, m: RegionMap, keys: seq<nat>, p: nat)
    requires forall k | k in keys :: k in m
  {
    exists k | k in keys :: InRange(k, |m[k]|, offset, size) && k <= offset + p < k + |m[k]|
  }

  /** Entries that agree with `target` turn the data into `target` where they reach, and only there. */
  lemma {:induction false} ApplyEntriesAt(st: State, target: seq<Byte>, offset: nat, m: RegionMap, keys: seq<nat>, p: nat)
    requires |st.data| == |target| && p < |target|
    requires forall k | k in keys :: k in m
    requires forall k | k in keys && InRange(k, |m[k]|, offset, |target|) :: m[k] == Mid(target, k - offset, |m[k]|)
    ensures var r := ApplyEntries(st, offset, |target|, m, keys);
      && |r.data| == |target|
      && r.data[p] == if Reaches(offset, |target|, m, keys, p) then target[p] else st.data[p]
    decreases |keys|
  {
    if keys != [] {
      hide Apply, Mid;
      var key, rest := keys[0], keys[1..];
      assert key in keys;
      var next := ApplyEntry(st, offset, |target|, key, m[key]);
      ApplyEntryAt(st, target, offset, key, m[key], p);
      assert forall k | k in rest :: k in keys;
      ApplyEntriesAt(next, target, offset, m, rest, p);
      assert forall k | k in keys :: k == key || k in rest;
    }
  }

  lemma ApplyEntryAt(st: State, target: seq<Byte>, offset: nat, address: nat, entry: seq<Byte>, p: nat)
    requires |st.data| == |target| && p < |target|
    requires InRange(address, |entry|, offset, |target|) ==> entry == Mid(target, address - offset, |entry|)
    ensures var r := ApplyEntry(st, offset, |target|, address, entry);
      && |r.data| == |target|
      && r.data[p] == if InRange(address, |entry|, offset, |target|) && address <= offset + p < address + |entry|
                      then target[p] else st.data[p]
  {
    hide Pruned;
  }

  /** A region that survives saving and applying covers the position. */
  ghost predicate Survives(s: Placed, p: nat) {
    exists k | 0 <= k < |s.st.regions| ::
      LastWithStart(s.st.regions, k) && s.st.regions[k].Has(p)
      && s.st.regions[k].position + s.st.regions[k].size < s.size
  }

  lemma EntryInRange(s: Placed, m: RegionMap, address: nat) returns (k: nat)
    requires HoldsOwn(s, m) && |s.st.data| == s.size
    requires forall l | 0 <= l < |s.st.regions| :: s.st.regions[l].position + s.st.regions[l].size <= s.size
    requires address in m && InRange(address, |m[address]|, s.offset, s.size)
    ensures k < |s.st.regions| && LastWithStart(s.st.regions, k)
    ensures address == s.offset + s.st.regions[k].position && |m[address]| == s.st.regions[k].size
    ensures m[address] == Mid(s.st.data, address - s.offset, |m[address]|)
  {
    hide LastWithStart;
    assert Owns(s, address);
    k :| 0 <= k < |s.st.regions| && IsEntry(s, k, address, m[address]);
  }

  lemma ReachesIffSurvives(s: Placed, m: RegionMap, keys: seq<nat>, p: nat)
    requires HoldsOwn(s, m) && |s.st.data| == s.size
    requires forall k | 0 <= k < |s.st.regions| :: s.st.regions[k].position + s.st.regions[k].size <= s.size
    requires forall k: nat :: k in keys <==> k in m
    ensures Reaches(s.offset, s.size, m, keys, p) <==> Survives(s, p)
  {
    hide *;
    if Reaches(s.offset, s.size, m, keys, p) {
      ReachesThenSurvives(s, m, keys, p);
    }
    if Survives(s, p) {
      SurvivesThenReaches(s, m, keys, p);
    }
  }

  lemma SurvivesThenReaches(s: Placed, m: RegionMap, keys: seq<nat>, p: nat)
    requires HoldsOwn(s, m) && |s.st.data| == s.size
    requires forall k: nat :: k in keys <==> k in m
    requires Survives(s, p)
    ensures Reaches(s.offset, s.size, m, keys, p)
  {
    hide HoldsOwn, LastWithStart, HasEntry;
    var k :| 0 <= k < |s.st.regions| && LastWithStart(s.st.regions, k) && s.st.regions[k].Has(p)
      && s.st.regions[k].position + s.st.regions[k].size < s.size;
    LastIsHeld(s, m, k);
    var address: nat := s.offset + s.st.regions[k].position;
    assert address in keys && |m[address]| == s.st.regions[k].size;
  }

  lemma LastIsHeld(s: Placed, m: RegionMap, k: nat)
    requires HoldsOwn(s, m) && k < |s.st.regions| && LastWithStart(s.st.regions, k)
    ensures HoldsRegion(s, m, k)
  {
    hide LastWithStart, HoldsRegion, HasEntry;
  }

  lemma ReachesThenSurvives(s: Placed, m: RegionMap, keys: seq<nat>, p: nat)
    requires HoldsOwn(s, m) && |s.st.data| == s.size
    requires forall k | 0 <= k < |s.st.regions| :: s.st.regions[k].position + s.st.regions[k].size <= s.size
    requires forall k: nat :: k in keys <==> k in m
    requires Reaches(s.offset, s.size, m, keys, p)
    ensures Survives(s, p)
  {
    hide HoldsOwn, LastWithStart;
    var address: nat :| address in keys && InRange(address, |m[address]|, s.offset, s.size)
      && address <= s.offset + p < address + |m[address]|;
    var k := EntryInRange(s, m, address);
    assert s.st.regions[k].Has(p);
  }

  lemma RestoredAt(s: Placed, m: RegionMap, keys: seq<nat>, original: seq<Byte>, p: nat)
    requires HoldsOwn(s, m) && Tracks(original, s.st) && |original| == |s.st.data| == s.size && p < s.size
    requires forall k: nat :: k in keys <==> k in m
    ensures var r := ApplyEntries(State(original, []), s.offset, s.size, m, keys);
      |r.data| == s.size && r.data[p] == if Survives(s, p) then s.st.data[p] else original[p]
  {
    hide HoldsOwn, Survives, ApplyEntries;
    forall address | address in keys && InRange(address, |m[address]|, s.offset, s.size)
      ensures m[address] == Mid(s.st.data, address - s.offset, |m[address]|)
    {
      var k := EntryInRange(s, m, address);
    }
    ReachesIffSurvives(s, m, keys, p);
    ApplyEntriesAt(State(original, []), s.st.data, s.offset, m, keys, p);
  }

  /** The section, as applying the saved regions to a freshly read original leaves it. */
  ghost function Reopened(sections: seq<Placed>, i: nat, original: seq<Byte>, keys: seq<nat>): State
    requires i < |sections| && forall k: nat :: k in keys <==> k in SectionEntries(map[], sections)
  {
    ApplyEntries(State(original, []), sections[i].offset, sections[i].size, SectionEntries(map[], sections), keys)
  }

  /**
   Saving the regions and applying them to the original brings the edited data back exactly when
   every byte that differs lies in a region that is the last with its start and that ends before the
   end of the section.
   */
  lemma RestoredExactlyWhereRegionsSurvive(sections: seq<Placed>, i: nat, original: seq<Byte>, keys: seq<nat>)
    requires i < |sections| && LaidOut(sections)
    requires Tracks(original, sections[i].st) && |original| == |sections[i].st.data| == sections[i].size
    requires forall k: nat :: k in keys <==> k in SectionEntries(map[], sections)
    ensures Reopened(sections, i, original, keys).data == sections[i].st.data
      <==> forall p | 0 <= p < |original| && sections[i].st.data[p] != original[p] :: Survives(sections[i], p)
  {
    hide SectionEntries, ApplyEntries, Survives, HoldsOwn, Tracks;
    var s, m := sections[i], SectionEntries(map[], sections);
    SavedHoldsOwn(sections, i);
    var data := ApplyEntries(State(original, []), s.offset, s.size, m, keys).data;
    assert Reopened(sections, i, original, keys).data == data;
    if original == [] {
      ApplyEntriesToNothing(s.offset, m, keys);
    } else {
      RestoredAt(s, m, keys, original, 0);
    }
    assert |data| == |original|;
    forall p | 0 <= p < |original|
      ensures data[p] == if Survives(s, p) then s.st.data[p] else original[p]
    {
      RestoredAt(s, m, keys, original, p);
    }
    SameExactlyWhere(data, s.st.data, original, (p: nat) => Survives(s, p));
  }

  lemma SameExactlyWhere(result: seq<Byte>, data: seq<Byte>, original: seq<Byte>, kept: nat -> bool)
    requires |result| == |data| == |original|
    requires forall p | 0 <= p < |data| :: result[p] == if kept(p) then data[p] else original[p]
    ensures result == data <==> forall p | 0 <= p < |data| && data[p] != original[p] :: kept(p)
  {
  }

  lemma {:induction false} ApplyEntriesToNothing(offset: nat, m: RegionMap, keys: seq<nat>)
    requires forall k | k in keys :: k in m
    ensures ApplyEntries(State([], []), offset, 0, m, keys) == State([], [])
    decreases |keys|
  {
    if keys != [] {
      ApplyEntriesToNothing(offset, m, keys[1..]);
    }
  }

  // ---------------------------------------------------------------------------------------------
  // Through the project file
  // ---------------------------------------------------------------------------------------------

  /** A region of this section comes back: no later one has its start, and it ends before the section does. */
  ghost predicate ComesBack(s: Placed, original: seq<Byte>)
    requires |original| == |s.st.data|
  {
    forall p | 0 <= p < |original| && s.st.data[p] != original[p] :: Survives(s, p)
  }

  /** Addresses that are read back as the signed numbers that keys are taken for. */
  ghost predicate Readable(m: RegionMap) { forall a | a in m :: a < LONG_LONG_LIMIT }

  /** Writing the project: the regions of all objects, and the tags. */
  method SaveProject(objects: seq<seq<Section>>, tags: Tags, ghost all: seq<Placed>) returns (file: File)
    requires all == PlacedValues(Flattened(objects))
    ensures Saves(SectionEntries(map[], all), file.modifiedRegions, ToHex)
    ensures Saves(tags, file.addressTags, TagArray)
  {
    hide Saves, SectionEntries, PlacedValues, Flattened;
    ghost var sections := Flattened(objects);
    assert all == PlacedValues(sections);
    var m := SaveRegions(objects);
    assert all == PlacedValues(sections);
    file := Save(tags, m);
  }

  /** The addresses of a map in some order. */
  method KeysOf(m: RegionMap) returns (keys: seq<nat>)
    ensures forall k: nat :: k in keys <==> k in m
  {
    keys := [];
    var left := m.Keys;
    while left != {}
      invariant forall k: nat :: k in m <==> k in keys || k in left
      decreases |left|
    {
      var a :| a in left;
      keys := keys + [a];
      left := left - {a};
    }
  }

  /** Opening the project again: its regions are applied to the freshly read sections of the chosen object. */
  method OpenProject(file: File, keys: seq<string>, sections: seq<Section>) returns (ok: bool, ghost order: seq<nat>)
    requires Lists(keys, file.modifiedRegions)
    requires forall i, j | 0 <= i < j < |sections| :: sections[i] != sections[j]
    modifies sections
    ensures ok <==> LoadRegions(file.modifiedRegions, keys, map[]).Some?
    ensures ok ==> forall k: nat :: k in order <==> k in LoadRegions(file.modifiedRegions, keys, map[]).value
    ensures var m := LoadRegions(file.modifiedRegions, keys, map[]);
      ok ==> forall i | 0 <= i < |sections| ::
        sections[i].Value() == ApplyEntries(old(sections[i].Value()), sections[i].offset, sections[i].size, m.value, order)
  {
    hide LoadRegions, ApplyEntries;
    var m := LoadRegionMap(file.modifiedRegions, keys);
    ok, order := m.Some?, [];
    if ok {
      var addresses := KeysOf(m.value);
      var _ := ApplyModifiedRegions(sections, m.value, addresses);
      order := addresses;
    }
  }

  lemma ReadableExactlyWhen(m: RegionMap, obj: map<string, string>, keys: seq<string>)
    requires Saves(m, obj, ToHex) && Lists(keys, obj)
    ensures LoadRegions(obj, keys, map[]) == if Readable(m) then Some(m) else None
  {
    RegionsRoundTrip(m, obj, keys);
    if !Readable(m) {
      var a :| a in m && a >= LONG_LONG_LIMIT;
      LargeAddressUnreadable(m, obj, keys, map[], a);
    }
  }

  /** The section has been edited in any way since it was read as `original`, and lies in its own place. */
  ghost predicate IsEdited(s: Placed, original: seq<Byte>, edits: seq<Edit>) {
    && s.size == |original| && AllInBounds(State(original, []), edits) && s.st == Run(State(original, []), edits)
  }

  lemma SizeStays(s: Placed, original: seq<Byte>, edits: seq<Edit>)
    requires IsEdited(s, original, edits)
    ensures Tracks(original, s.st) && |original| == |s.st.data|
  {
    FreshTracks(original);
    RunTracks(original, State(original, []), edits);
  }

  /** The data of the section after the loaded regions have been applied to what was read. */
  function OpenedData(m: RegionMap, s: Placed, original: seq<Byte>, order: seq<nat>): seq<Byte>
    requires forall k | k in order :: k in m
  {
    ApplyEntries(State(original, []), s.offset, s.size, m, order).data
  }

  /**
   From any run of edits over the project file back to the section, for any order of the keys and addresses.
   The project can be read exactly when all addresses are signed; then the data of a section comes back
   exactly when every byte that differs lies in a region that is the last with its start and that ends
   before the end of the section.
   */
  lemma EditsSurviveProject(all: seq<Placed>, i: nat, original: seq<Byte>, edits: seq<Edit>, obj: map<string, string>,
                            keys: seq<string>, order: seq<nat>)
    requires i < |all| && LaidOut(all) && IsEdited(all[i], original, edits)
    requires Saves(SectionEntries(map[], all), obj, ToHex) && Lists(keys, obj)
    requires forall k: nat :: k in order <==> k in SectionEntries(map[], all)
    ensures |original| == |all[i].st.data|
    ensures LoadRegions(obj, keys, map[]).Some? <==> Readable(SectionEntries(map[], all))
    ensures Readable(SectionEntries(map[], all)) ==> LoadRegions(obj, keys, map[]) == Some(SectionEntries(map[], all))
    ensures Readable(SectionEntries(map[], all)) ==>
      (OpenedData(LoadRegions(obj, keys, map[]).value, all[i], original, order) == all[i].st.data
       <==> ComesBack(all[i], original))
  {
    hide SectionEntries, LoadRegions, Saves, Lists, LaidOut, Survives, ApplyEntries;
    SizeStays(all[i], original, edits);
    ReadableExactlyWhen(SectionEntries(map[], all), obj, keys);
    RestoredExactlyWhereRegionsSurvive(all, i, original, order);
  }

  /** Distinct starts and ends before the end of the section are enough. */
  lemma OrdinaryEditsComeBack(s: Placed, original: seq<Byte>, edits: seq<Edit>)
    requires IsEdited(s, original, edits)
    requires forall k, l | 0 <= k < l < |s.st.regions| :: s.st.regions[k].position != s.st.regions[l].position
    requires forall k | 0 <= k < |s.st.regions| :: s.st.regions[k].position + s.st.regions[k].size < |original|
    ensures |original| == |s.st.data| && ComesBack(s, original)
  {
    SizeStays(s, original, edits);
    forall p | 0 <= p < |original| && s.st.data[p] != original[p] ensures Survives(s, p) {
      assert Covers(s.st.regions, p);
      var k :| 0 <= k < |s.st.regions| && s.st.regions[k].Has(p);
      assert LastWithStart(s.st.regions, k);
    }
  }

  /** The sections of the chosen object are those of `all` from number `first` on, as they were read at first. */
  ghost predicate AreRead(now: seq<Placed>, all: seq<Placed>, first: nat, originals: seq<seq<Byte>>) {
    && first + |now| <= |all| && |originals| == |now|
    && forall i | 0 <= i < |now| :: now[i] == Placed(all[first + i].offset, all[first + i].size, State(originals[i], []))
  }

  lemma SectionSurvives(all: seq<Placed>, i: nat, original: seq<Byte>, edits: seq<Edit>, obj: map<string, string>,
                        keys: seq<string>, order: seq<nat>, st: State)
    requires i < |all| && LaidOut(all) && IsEdited(all[i], original, edits)
    requires Saves(SectionEntries(map[], all), obj, ToHex) && Lists(keys, obj) && Readable(SectionEntries(map[], all))
    requires forall k: nat :: k in order <==> k in SectionEntries(map[], all)
    requires st == ApplyEntries(State(original, []), all[i].offset, all[i].size, SectionEntries(map[], all), order)
    ensures |original| == |all[i].st.data|
    ensures st.data == all[i].st.data <==> ComesBack(all[i], original)
  {
    hide SectionEntries, LoadRegions, LaidOut, ComesBack, ApplyEntries, Readable, Saves, Lists, IsEdited;
    EditsSurviveProject(all, i, original, edits, obj, keys, order);
  }

  /** Saves the project, and opens it again on the sections of one object, which have been read anew. */
  method SaveAndOpen(objects: seq<seq<Section>>, tags: Tags, listing: map<string, string> -> seq<string>,
                     sections: seq<Section>, ghost all: seq<Placed>, ghost first: nat, ghost originals: seq<seq<Byte>>,
                     ghost edits: seq<seq<Edit>>)
    returns (ok: bool)
    requires all == PlacedValues(Flattened(objects)) && LaidOut(all)
    requires forall obj :: Lists(listing(obj), obj)
    requires forall i, j | 0 <= i < j < |sections| :: sections[i] != sections[j]
    requires AreRead(PlacedValues(sections), all, first, originals) && |edits| == |sections|
    requires forall i | 0 <= i < |sections| :: IsEdited(all[first + i], originals[i], edits[i])
    modifies sections
    ensures ok <==> Readable(SectionEntries(map[], all))
    ensures forall i | 0 <= i < |sections| :: |originals[i]| == |all[first + i].st.data|
    ensures ok ==> forall i | 0 <= i < |sections| ::
      (sections[i].data == all[first + i].st.data <==> ComesBack(all[first + i], originals[i]))
  {
    hide SectionEntries, LoadRegions, LaidOut, ComesBack, ApplyEntries, Readable, Saves, Lists, Flattened, IsEdited;
    forall i | 0 <= i < |sections| ensures |originals[i]| == |all[first + i].st.data| {
      SizeStays(all[first + i], originals[i], edits[i]);
    }
    var file := SaveProject(objects, tags, all);
    ghost var m := SectionEntries(map[], all);
    ReadableExactlyWhen(m, file.modifiedRegions, listing(file.modifiedRegions));
    ghost var order;
    ok, order := OpenProject(file, listing(file.modifiedRegions), sections);
    if ok {
      forall i | 0 <= i < |sections|
        ensures sections[i].data == all[first + i].st.data <==> ComesBack(all[first + i], originals[i])
      {
        assert old(PlacedValues(sections)[i]) == old(PlacedValue(sections[i]));
        SectionSurvives(all, first + i, originals[i], edits[i], file.modifiedRegions, listing(file.modifiedRegions),
                        order, sections[i].Value());
      }
    }
  }

  // ---------------------------------------------------------------------------------------------
  // What is lost
  // ---------------------------------------------------------------------------------------------

  /** Changing the last byte of a section: the region is saved, and never applied again. */
  lemma LastByteIsLost()
    ensures var s := Placed(0, 2, Run(State([0, 0], []), [Edit([1], 1)]));
      && s.st.data == [0, 1] && SectionEntries(map[], [s]) == map[1 := [1]]
      && Reopened([s], 0, [0, 0], [1]).data == [0, 0]
  {
    var blank, edit := State([0, 0], []), Edit([1], 1);
    assert blank.regions + [Region(1, 1)] == [Region(1, 1)];
    assert Run(Apply(blank, edit), []) == Run(blank, [edit]);
    var s := Placed(0, 2, Run(blank, [edit]));
    assert s.st == State([0, 1], [Region(1, 1)]);
    assert RegionEntries(map[1 := [1]], 0, s.st.data, []) == RegionEntries(map[], 0, s.st.data, [Region(1, 1)]);
    assert SectionEntries(RegionEntries(map[], 0, s.st.data, s.st.regions), []) == SectionEntries(map[], [s]);
  }

  /** A shorter edit with the start of a longer one takes its place: the longer one's tail is lost. */
  lemma ShorterEditReplacesLonger()
    ensures var s := Placed(0, 4, Run(State([0, 0, 0, 0], []), [Edit([1, 2], 0), Edit([3], 0)]));
      && s.st.data == [3, 2, 0, 0] && SectionEntries(map[], [s]) == map[0 := [3]]
      && Reopened([s], 0, [0, 0, 0, 0], [0]).data == [3, 0, 0, 0]
  {
    var blank, longer, shorter := State([0, 0, 0, 0], []), Edit([1, 2], 0), Edit([3], 0);
    var first, second := Region(0, 2), Region(0, 1);
    assert blank.regions + [first] == [first] && Pruned([first]) == [first];
    var next := Apply(blank, longer);
    assert next == State([1, 2, 0, 0], [first]);
    assert Pruned([first, second]) == [first, second] by {
      assert [first, second][1..] == [second] && Pruned([second]) == [second];
    }
    var last := Apply(next, shorter);
    assert last == State([3, 2, 0, 0], [first, second]);
    assert [longer, shorter][1..] == [shorter] && Run(next, [shorter]) == Run(last, []);
    var s := Placed(0, 4, last);
    ShorterEditReplacesLongerSaved(s);
  }

  lemma ShorterEditReplacesLongerSaved(s: Placed)
    requires s == Placed(0, 4, State([3, 2, 0, 0], [Region(0, 2), Region(0, 1)]))
    ensures SectionEntries(map[], [s]) == map[0 := [3]]
    ensures Reopened([s], 0, [0, 0, 0, 0], [0]).data == [3, 0, 0, 0]
  {
    var data := s.st.data;
    assert s.st.regions[1..] == [Region(0, 1)];
    assert Mid(data, 0, 2) == [3, 2] && Mid(data, 0, 1) == [3];
    var before: RegionMap, after: RegionMap := map[0 := [3, 2]], map[0 := [3]];
    assert before[0 := [3]] == after;
    assert RegionEntries(before, 0, data, [Region(0, 1)]) == RegionEntries(after, 0, data, []);
    assert [s][1..] == [];
    assert SectionEntries(map[], [s]) == map[0 := [3]];
    var st := State([0, 0, 0, 0], []);
    assert Splice(st.data, 0, [3]) == [3, 0, 0, 0];
    assert ApplyEntry(st, 0, 4, 0, [3]).data == [3, 0, 0, 0];
  }
}
