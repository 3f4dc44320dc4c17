/** Sections: bytes that are edited in place, and the log of the regions that were modified. */
module Sections {
  import opened Bytes

  /** Where and how much was changed; the source also keeps a hash, which no property here needs. */
  datatype Region = Region(position: nat, size: nat) {
    predicate Has(p: nat) { position <= p < position + size }

    predicate IsWithin(r: Region) { position >= r.position && position + size <= r.position + r.size }
  }

  datatype State = State(data: seq<Byte>, regions: seq<Region>)

  datatype Edit = Edit(sub: seq<Byte>, pos: int)

  // ---------------------------------------------------------------------------------------------
  // Pruning
  // ---------------------------------------------------------------------------------------------

  /** A region of `rs` contains `r`. */
  predicate ContainedIn(r: Region, rs: seq<Region>) {
    exists j | 0 <= j < |rs| :: r.IsWithin(rs[j])
  }

  /** Drops every region that a later one contains. */
  function Pruned(rs: seq<Region>): (r: seq<Region>)
    ensures |r| <= |rs|
  {
    if rs == [] then []
    else if ContainedIn(rs[0], rs[1..]) then Pruned(rs[1..])
    else [rs[0]] + Pruned(rs[1..])
  }

  ghost predicate Covers(rs: seq<Region>, p: nat) {
    exists i | 0 <= i < |rs| :: rs[i].Has(p)
  }

  /** The same elements in the same order, with some left out. */
  ghost predicate Subsequence<T>(a: seq<T>, b: seq<T>)
    decreases b
  {
    a == [] || (b != [] && ((a[0] == b[0] && Subsequence(a[1..], b[1..])) || Subsequence(a, b[1..])))
  }

  lemma {:induction false} PruningKeepsOrder(rs: seq<Region>)
    ensures Subsequence(Pruned(rs), rs)
  {
    if rs != [] {
      PruningKeepsOrder(rs[1..]);
    }
  }

  lemma {:induction false} PrunedIsFromList(rs: seq<Region>)
    ensures forall r | r in Pruned(rs) :: r in rs
  {
    if rs != [] {
      PrunedIsFromList(rs[1..]);
    }
  }

  lemma CoverSplit(rs: seq<Region>, p: nat)
    requires rs != []
    ensures Covers(rs, p) <==> rs[0].Has(p) || Covers(rs[1..], p)
  {
    if Covers(rs, p) && !rs[0].Has(p) {
      var i :| 0 <= i < |rs| && rs[i].Has(p);
      assert rs[1..][i - 1] == rs[i];
    }
    if Covers(rs[1..], p) {
      var i :| 0 <= i < |rs[1..]| && rs[1..][i].Has(p);
      assert rs[i + 1].Has(p);
    }
  }

  /** What the log covers does not change when it is pruned. */
  lemma {:induction false} PruningKeepsCover(rs: seq<Region>, p: nat)
    ensures Covers(Pruned(rs), p) <==> Covers(rs, p)
  {
    if rs != [] {
      PruningKeepsCover(rs[1..], p);
      CoverSplit(rs, p);
      if ContainedIn(rs[0], rs[1..]) {
        if rs[0].Has(p) {
          var j :| 0 <= j < |rs[1..]| && rs[0].IsWithin(rs[1..][j]);
          assert rs[1..][j].Has(p);
        }
      } else {
        assert Pruned(rs)[1..] == Pruned(rs[1..]);
        CoverSplit(Pruned(rs), p);
      }
    }
  }

  /** No region of a pruned log is contained in a later one. */
  lemma {:induction false} PrunedIsAntichain(rs: seq<Region>)
    ensures forall i, j | 0 <= i < j < |Pruned(rs)| :: !Pruned(rs)[i].IsWithin(Pruned(rs)[j])
  {
    if rs != [] {
      PrunedIsAntichain(rs[1..]);
      PrunedIsFromList(rs[1..]);
      var rest := Pruned(rs[1..]);
      if !ContainedIn(rs[0], rs[1..]) {
        forall j | 0 <= j < |rest| ensures !rs[0].IsWithin(rest[j]) {
          assert rest[j] in rs[1..];
        }
      }
    }
  }

  /** Pruning once is enough. */
  lemma {:induction false} PruningIsIdempotent(rs: seq<Region>)
    requires forall i, j | 0 <= i < j < |rs| :: !rs[i].IsWithin(rs[j])
    ensures Pruned(rs) == rs
  {
    if rs != [] {
      var rest := rs[1..];
      assert forall j | 0 <= j < |rest| :: rest[j] == rs[j + 1];
      PruningIsIdempotent(rest);
    }
  }

  lemma PrunedDrops(rs: seq<Region>, k: nat)
    requires k < |rs| && ContainedIn(rs[k], rs[k + 1..])
    ensures Pruned(rs[k..]) == Pruned(rs[k + 1..])
  {
    assert rs[k..][1..] == rs[k + 1..];
  }

  ghost predicate IsContainedIndices(remove: seq<nat>, rs: seq<Region>) {
    && (forall k | 0 <= k < |remove| :: remove[k] < |rs|)
    && (forall k, l | 0 <= k < l < |remove| :: remove[k] < remove[l])
    && (forall k | 0 <= k < |rs| :: k in remove <==> ContainedIn(rs[k], rs[k + 1..]))
  }

  /** Everything from here on is pruned when the indices from number `k` on have been removed. */
  ghost function Done(remove: seq<nat>, k: nat): nat
    requires k <= |remove|
  {
    if k == 0 then 0 else remove[k - 1] + 1
  }

  lemma KeptBefore(rs: seq<Region>, remove: seq<nat>, k: nat, end: nat)
    requires IsContainedIndices(remove, rs) && k <= |remove|
    requires end == if k == |remove| then |rs| else remove[k]
    ensures Done(remove, k) <= end
    ensures rs[..end] + Pruned(rs[end..]) == rs[..Done(remove, k)] + Pruned(rs[Done(remove, k)..])
    ensures end == |rs| ==> rs[..end] + Pruned(rs[end..]) == rs
  {
    hide Pruned, ContainedIn;
    var start := Done(remove, k);
    forall i | start <= i < end ensures !ContainedIn(rs[i], rs[i + 1..]) {
      assert forall l | 0 <= l < |remove| :: if l < k then remove[l] < start else remove[l] >= end;
    }
    PrunedKeeps(rs, start, end);
    assert rs[..end] == rs[..start] + rs[start..end];
  }

  /** A stretch of regions that are all kept stands in front of the rest. */
  lemma {:induction false} PrunedKeeps(rs: seq<Region>, lo: nat, hi: nat)
    requires lo <= hi <= |rs|
    requires forall k | lo <= k < hi :: !ContainedIn(rs[k], rs[k + 1..])
    ensures Pruned(rs[lo..]) == rs[lo..hi] + Pruned(rs[hi..])
    decreases hi - lo
  {
    if lo < hi {
      PrunedKeeps(rs, lo + 1, hi);
      assert rs[lo..][1..] == rs[lo + 1..];
      assert rs[lo..hi] == [rs[lo]] + rs[lo + 1..hi];
    } else {
      assert rs[lo..hi] == [];
    }
  }

  // ---------------------------------------------------------------------------------------------
  // Edits
  // ---------------------------------------------------------------------------------------------

  /** Whether setSubData takes the edit; otherwise it leaves the section alone. */
  predicate Accepted(data: seq<Byte>, e: Edit) {
    0 <= e.pos < |data| && |e.sub| <= |data|
  }

  function Apply(st: State, e: Edit): State {
    if !Accepted(st.data, e) then st
    else State(Splice(st.data, e.pos, e.sub), Pruned(st.regions + [Region(e.pos, |e.sub|)]))
  }

  function Run(st: State, edits: seq<Edit>): State
    decreases |edits|
  {
    if edits == [] then st else Run(Apply(st, edits[0]), edits[1..])
  }

  /** The edit stays inside the data. */
  predicate InBounds(st: State, e: Edit) {
    Accepted(st.data, e) ==> e.pos + |e.sub| <= |st.data|
  }

  predicate AllInBounds(st: State, edits: seq<Edit>)
    decreases |edits|
  {
    edits == [] || (InBounds(st, edits[0]) && AllInBounds(Apply(st, edits[0]), edits[1..]))
  }

  /**
   The log suffices to rebuild the data from `original`: regions lie in the data, no region is
   contained in a later one, and every byte that was added or differs is covered.
   */
  ghost predicate Tracks(original: seq<Byte>, st: State) {
    && |original| <= |st.data|
    && (forall i | 0 <= i < |st.regions| ::
          st.regions[i].position < |st.data| && st.regions[i].position + st.regions[i].size <= |st.data|)
    && (forall i, j | 0 <= i < j < |st.regions| :: !st.regions[i].IsWithin(st.regions[j]))
    && (forall p | 0 <= p < |st.data| && (p >= |original| || st.data[p] != original[p]) :: Covers(st.regions, p))
  }

  lemma ApplyTracks(original: seq<Byte>, st: State, e: Edit)
    requires Tracks(original, st)
    ensures Tracks(original, Apply(st, e))
    ensures InBounds(st, e) ==> |Apply(st, e).data| == |st.data|
  {
    if Accepted(st.data, e) {
      var region := Region(e.pos, |e.sub|);
      var log := st.regions + [region];
      var data := Splice(st.data, e.pos, e.sub);
      PrunedIsAntichain(log);
      PrunedIsFromList(log);
      forall i | 0 <= i < |Pruned(log)|
        ensures Pruned(log)[i].position < |data| && Pruned(log)[i].position + Pruned(log)[i].size <= |data|
      {
        assert Pruned(log)[i] in log;
      }
      forall p | 0 <= p < |data| && (p >= |original| || data[p] != original[p])
        ensures Covers(Pruned(log), p)
      {
        LoggedIsCovered(original, st, e, p);
        PruningKeepsCover(log, p);
      }
    }
  }

  lemma LoggedIsCovered(original: seq<Byte>, st: State, e: Edit, p: nat)
    requires Tracks(original, st) && Accepted(st.data, e)
    requires p < |Splice(st.data, e.pos, e.sub)|
    requires p >= |original| || Splice(st.data, e.pos, e.sub)[p] != original[p]
    ensures Covers(st.regions + [Region(e.pos, |e.sub|)], p)
  {
    var log := st.regions + [Region(e.pos, |e.sub|)];
    if e.pos <= p < e.pos + |e.sub| {
      assert log[|st.regions|].Has(p);
    } else {
      assert Covers(st.regions, p);
      var i :| 0 <= i < |st.regions| && st.regions[i].Has(p);
      assert log[i].Has(p);
    }
  }

  /** The log suffices after any run of edits, and edits in bounds keep the size. */
  lemma {:induction false} RunTracks(original: seq<Byte>, st: State, edits: seq<Edit>)
    requires Tracks(original, st)
    ensures Tracks(original, Run(st, edits))
    ensures AllInBounds(st, edits) ==> |Run(st, edits).data| == |st.data|
    decreases |edits|
  {
    if edits != [] {
      ApplyTracks(original, st, edits[0]);
      RunTracks(original, Apply(st, edits[0]), edits[1..]);
    }
  }

  lemma FreshTracks(original: seq<Byte>)
    ensures Tracks(original, State(original, []))
  {
  }

  // ---------------------------------------------------------------------------------------------
  // The section object
  // ---------------------------------------------------------------------------------------------

  class Section {
    const offset: nat
    const size: nat
    var data: seq<Byte>
    var modifiedRegions: seq<Region>

    function Value(): State
      reads this
    {
      State(data, modifiedRegions)
    }

    constructor (offset: nat, size: nat)
      ensures this.offset == offset && this.size == size && Value() == State([], [])
    {
      this.offset, this.size := offset, size;
      data, modifiedRegions := [], [];
    }

    method SetData(bytes: seq<Byte>)
      modifies this`data
      ensures data == bytes
    {
      data := bytes;
    }

    method SetSubData(subData: seq<Byte>, pos: int)
      modifies this
      ensures Value() == Apply(old(Value()), Edit(subData, pos))
    {
      if pos < 0 || pos > |data| - 1 || |subData| > |data| {
        return;
      }
      data := Splice(data, pos, subData);
      modifiedRegions := modifiedRegions + [Region(pos, |subData|)];
      Prune();
    }

    method Prune()
      modifies this`modifiedRegions
      ensures modifiedRegions == Pruned(old(modifiedRegions))
    {
      var remove := ContainedIndices();
      RemoveAll(remove);
    }

    /** The indices of the regions that a later one contains, in order. */
    method ContainedIndices() returns (remove: seq<nat>)
      ensures IsContainedIndices(remove, modifiedRegions)
    {
      remove := [];
      for i := 0 to |modifiedRegions|
        invariant forall k | 0 <= k < |remove| :: remove[k] < i
        invariant forall k, l | 0 <= k < l < |remove| :: remove[k] < remove[l]
        invariant forall k | 0 <= k < i ::
          k in remove <==> ContainedIn(modifiedRegions[k], modifiedRegions[k + 1..])
      {
        var contained := ContainedLater(i);
        if contained {
          remove := remove + [i];
        }
      }
    }

    /** Removes from the last index to the first, so that the others stay good. */
    method RemoveAll(remove: seq<nat>)
      requires IsContainedIndices(remove, modifiedRegions)
      modifies this`modifiedRegions
      ensures modifiedRegions == Pruned(old(modifiedRegions))
    {
      hide Pruned, ContainedIn;
      ghost var log := modifiedRegions;
      var k := |remove|;
      KeptBefore(log, remove, k, |log|);
      while k > 0
        invariant 0 <= k <= |remove|
        invariant modifiedRegions == log[..Done(remove, k)] + Pruned(log[Done(remove, k)..])
      {
        k := k - 1;
        modifiedRegions := modifiedRegions[..remove[k]] + modifiedRegions[remove[k] + 1..];
        PrunedDrops(log, remove[k]);
        KeptBefore(log, remove, k, remove[k]);
        assert modifiedRegions == log[..remove[k]] + Pruned(log[remove[k]..]);
      }
      assert log[0..] == log;
    }

    method ContainedLater(i: nat) returns (contained: bool)
      requires i < |modifiedRegions|
      ensures contained == ContainedIn(modifiedRegions[i], modifiedRegions[i + 1..])
    {
      var r := modifiedRegions[i];
      for j := i + 1 to |modifiedRegions|
        invariant forall k | i < k < j :: !r.IsWithin(modifiedRegions[k])
      {
        if r.IsWithin(modifiedRegions[j]) {
          assert modifiedRegions[i + 1..][j - i - 1] == modifiedRegions[j];
          return true;
        }
      }
      return false;
    }
  }
}
