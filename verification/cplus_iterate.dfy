/** Looking for the "__" between a function name and its signature, where there are several. */
module CplusIterate {
  import opened Options
  import opened GrowStrings

  // ---------------------------------------------------------------------------------------------
  // The work tables
  // ---------------------------------------------------------------------------------------------

  /** The numbers of a work_stuff that are no sizes of tables. */
  datatype Flags = Flags(options: int, constructors: int, destructors: int, staticType: int, tempStart: int,
                         typeQuals: int, dllImported: int, forgettingTypes: int, nrepeats: int)

  /** What the tables hold. */
  datatype Work = Work(flags: Flags, types: seq<string>, ktypes: seq<string>, btypes: seq<string>,
                       args: seq<string>, previous: Option<string>)

  /** The first `used` texts of a table; a table that has never been needed is missing. */
  function Used(v: array?<string>, used: nat): seq<string>
    requires if v == null then used == 0 else used <= v.Length
    reads v
  {
    if v == null then [] else v[..used]
  }

  /** The storage of a table. */
  ghost function Storage(v: array?<string>): set<object> {
    if v == null then {} else {v}
  }

  /** A table with storage of its own, and the same texts. */
  method CopyVec(v: array?<string>, used: nat) returns (r: array?<string>)
    requires if v == null then used == 0 else used <= v.Length
    ensures if r == null then used == 0 else used <= r.Length
    ensures Used(r, used) == Used(v, used) && fresh(Storage(r))
  {
    if v == null { return null; }
    var copy := new string[v.Length];
    for i := 0 to used
      invariant forall k | 0 <= k < i :: copy[k] == v[k]
    {
      copy[i] := v[i];
    }
    r := copy;
  }

  method CopyTwo(v: array?<string>, n: nat, w: array?<string>, m: nat) returns (r: array?<string>, q: array?<string>)
    requires if v == null then n == 0 else n <= v.Length
    requires if w == null then m == 0 else m <= w.Length
    ensures (if r == null then n == 0 else n <= r.Length) && (if q == null then m == 0 else m <= q.Length)
    ensures Used(r, n) == Used(v, n) && Used(q, m) == Used(w, m)
    ensures fresh(Storage(r)) && fresh(Storage(q)) && (r != null ==> r != q)
  {
    hide Used;
    r := CopyVec(v, n);
    q := CopyVec(w, m);
  }

  /** A table of the given texts, in the storage that is there when they fit. */
  method WriteVec(v: array?<string>, values: seq<string>) returns (r: array?<string>)
    modifies Storage(v)
    ensures r != null && |values| <= r.Length && Used(r, |values|) == values
    ensures r == v || fresh(r)
  {
    var target;
    if v == null || v.Length < |values| {
      target := new string[|values|];
    } else {
      target := v;
    }
    for i := 0 to |values|
      invariant forall k | 0 <= k < i :: target[k] == values[k]
    {
      target[i] := values[i];
    }
    r := target;
  }

  method WriteTwo(v: array?<string>, a: seq<string>, w: array?<string>, b: seq<string>)
    returns (r: array?<string>, q: array?<string>)
    requires v != null ==> v != w
    modifies Storage(v), Storage(w)
    ensures r != null && |a| <= r.Length && Used(r, |a|) == a && (r == v || fresh(r))
    ensures q != null && |b| <= q.Length && Used(q, |b|) == b && (q == w || fresh(q)) && r != q
  {
    hide Used;
    r := WriteVec(v, a);
    q := WriteVec(w, b);
  }

  /** A work_stuff as it lies in memory: numbers, and pointers to tables. */
  datatype Struct = Struct(flags: Flags, typevec: array?<string>, ntypes: nat, ktypevec: array?<string>, numk: nat,
                           btypevec: array?<string>, numb: nat, argvec: array?<string>, nargs: nat,
                           previous: Option<string>) {
    /** The tables are as long as they say, and no two of them are the same. */
    ghost predicate Valid() {
      && (if typevec == null then ntypes == 0 else ntypes <= typevec.Length)
      && (if ktypevec == null then numk == 0 else numk <= ktypevec.Length)
      && (if btypevec == null then numb == 0 else numb <= btypevec.Length)
      && (if argvec == null then nargs == 0 else nargs <= argvec.Length)
      && (typevec != null ==> typevec != ktypevec && typevec != btypevec && typevec != argvec)
      && (ktypevec != null ==> ktypevec != btypevec && ktypevec != argvec)
      && (btypevec != null ==> btypevec != argvec)
    }

    ghost function Tables(): set<object> {
      Storage(typevec) + Storage(ktypevec) + Storage(btypevec) + Storage(argvec)
    }

    function Value(): Work
      requires Valid()
      reads Tables()
    {
      Work(flags, Used(typevec, ntypes), Used(ktypevec, numk), Used(btypevec, numb), Used(argvec, nargs), previous)
    }
  }

  class WorkStuff {
    var s: Struct

    ghost predicate Valid()
      reads this
    {
      s.Valid()
    }

    ghost function Footprint(): set<object>
      reads this
    {
      {this} + s.Tables()
    }

    function Value(): Work
      requires Valid()
      reads this, s.Tables()
    {
      s.Value()
    }

    constructor (flags: Flags)
      ensures Valid() && fresh(Footprint()) && Value() == Work(flags, [], [], [], [], None)
    {
      s := Struct(flags, null, 0, null, 0, null, 0, null, 0, None);
    }

    /** A deep copy: what this object had is given up, and nothing is shared with the other one. */
    method CopyFrom(from: WorkStuff)
      requires Valid() && from.Valid() && from != this
      modifies this
      ensures Valid() && Value() == from.Value() && fresh(s.Tables())
    {
      hide Used;
      var copy := from.s;
      var t, k := CopyTwo(copy.typevec, copy.ntypes, copy.ktypevec, copy.numk);
      var b, a := CopyTwo(copy.btypevec, copy.numb, copy.argvec, copy.nargs);
      s := copy.(typevec := t, ktypevec := k, btypevec := b, argvec := a);
    }

    /** Changes in place to the given contents. */
    method Become(w: Work)
      requires Valid()
      modifies Footprint()
      ensures Valid() && Value() == w && fresh(Footprint() - old(Footprint()))
    {
      hide Used;
      var t, k := WriteTwo(s.typevec, w.types, s.ktypevec, w.ktypes);
      var b, a := WriteTwo(s.btypevec, w.btypes, s.argvec, w.args);
      s := Struct(w.flags, t, |w.types|, k, |w.ktypes|, b, |w.btypes|, a, |w.args|, w.previous);
    }
  }

  // ---------------------------------------------------------------------------------------------
  // The splits of a name
  // ---------------------------------------------------------------------------------------------

  /** The first "__" from `p` on, or the end. */
  function SkipToUnderscores(text: string, p: nat): (r: nat)
    requires p <= |text|
    ensures p <= r <= |text|
    ensures forall i | p <= i < r :: i + 1 == |text| || text[i] != '_' || text[i + 1] != '_'
    ensures r < |text| ==> r + 1 < |text| && text[r] == '_' && text[r + 1] == '_'
    decreases |text| - p
  {
    if p == |text| || (text[p] == '_' && p + 1 < |text| && text[p + 1] == '_') then p
    else SkipToUnderscores(text, p + 1)
  }

  /** Behind the underscores from `p` on. */
  function SkipUnderscores(text: string, p: nat): (r: nat)
    requires p <= |text|
    ensures p <= r <= |text| && forall i | p <= i < r :: text[i] == '_'
    ensures r < |text| ==> text[r] != '_'
    decreases |text| - p
  {
    if p < |text| && text[p] == '_' then SkipUnderscores(text, p + 1) else p
  }

  /** The last "__" of the next run of underscores; two before the end when there is none. */
  function NextScan(text: string, scan: nat): (r: nat)
    requires scan + 2 <= |text|
    ensures scan <= r && r + 2 <= |text|
    ensures r + 2 < |text| ==> r >= scan + 2
  {
    SkipUnderscores(text, SkipToUnderscores(text, scan + 2)) - 2
  }

  /** The name can end at `c`: there are two underscores, followed by something else. */
  predicate IsSplit(text: string, c: nat) {
    c + 2 < |text| && text[c] == '_' && text[c + 1] == '_' && text[c + 2] != '_'
  }

  /** The next guess is the first split behind this one; there is none when it is at the end. */
  lemma NextScanIsFirstSplit(text: string, scan: nat)
    requires scan + 2 <= |text|
    ensures NextScan(text, scan) + 2 < |text| ==> IsSplit(text, NextScan(text, scan))
    ensures forall c | scan + 2 <= c && IsSplit(text, c) :: NextScan(text, scan) <= c && NextScan(text, scan) + 2 < |text|
  {
    var p := SkipToUnderscores(text, scan + 2);
    var q := SkipUnderscores(text, p);
    forall c | scan + 2 <= c && IsSplit(text, c) ensures q - 2 <= c && q < |text| {
      assert p <= c;
    }
  }

  // ---------------------------------------------------------------------------------------------
  // The trials
  // ---------------------------------------------------------------------------------------------

  /** What a trial may change: the tables, the cursor in the name, the declaration so far. */
  datatype State = State(work: Work, pos: nat, decl: string)

  /** The two trials of a split: the function name, and then the signature. */
  datatype Trials = Trials(name: (State, nat) -> (bool, State), signature: State -> (bool, State)) {
    predicate Succeed(s: State, scan: nat) {
      name(s, scan).0 && signature(name(s, scan).1).0
    }

    function Result(s: State, scan: nat): State {
      signature(name(s, scan).1).1
    }
  }

  /** The splits are tried one after the other, each from the same state. */
  function Iterate(t: Trials, init: State, text: string, scan: nat): (bool, State)
    requires scan + 2 <= |text|
    decreases |text| - scan
  {
    if scan + 2 == |text| then (false, init)
    else if t.Succeed(init, scan) then (true, t.Result(init, scan))
    else
      var next := NextScan(text, scan);
      if next + 2 == |text| then (false, init) else Iterate(t, init, text, next)
  }

  /** A split that is tried: the first guess, or any split behind it. */
  predicate IsTried(text: string, first: nat, c: nat) {
    c + 2 < |text| && (c == first || (first + 2 <= c && IsSplit(text, c)))
  }

  /**
   The outcome is that of the leftmost split whose trials both succeed; when there is none, everything
   is as it was.
   */
  lemma {:induction false} LeftmostSplitWins(t: Trials, init: State, text: string, scan: nat)
    requires scan + 2 <= |text|
    ensures var (success, end) := Iterate(t, init, text, scan);
      && (success <==> exists c :: IsTried(text, scan, c) && t.Succeed(init, c))
      && (!success ==> end == init)
      && (success ==> exists c :: IsTried(text, scan, c) && t.Succeed(init, c) && end == t.Result(init, c)
                        && forall d | d < c && IsTried(text, scan, d) :: !t.Succeed(init, d))
    decreases |text| - scan
  {
    hide NextScan;
    if scan + 2 < |text| {
      if t.Succeed(init, scan) {
        assert IsTried(text, scan, scan);
      } else {
        var next := NextScan(text, scan);
        NextScanIsFirstSplit(text, scan);
        if next + 2 < |text| {
          LeftmostSplitWins(t, init, text, next);
          forall c ensures IsTried(text, scan, c) <==> c == scan || IsTried(text, next, c) {
            TriedFromNext(text, scan, c);
          }
        }
      }
    }
  }

  lemma TriedFromNext(text: string, scan: nat, c: nat)
    requires scan + 2 < |text| && NextScan(text, scan) + 2 < |text|
    ensures IsTried(text, scan, c) <==> c == scan || IsTried(text, NextScan(text, scan), c)
  {
    hide NextScan;
    var next := NextScan(text, scan);
    NextScanIsFirstSplit(text, scan);
    if c == next + 1 {
      assert text[next + 2] != '_';
    }
  }

  // ---------------------------------------------------------------------------------------------
  // The loop
  // ---------------------------------------------------------------------------------------------

  method CloneWork(work: WorkStuff) returns (r: WorkStuff)
    requires work.Valid()
    ensures r.Valid() && r.Value() == work.Value() && fresh(r.Footprint())
  {
    hide Used, Struct.Value, Struct.Valid, WorkStuff.Value, WorkStuff.Valid;
    r := new WorkStuff(work.s.flags);
    r.CopyFrom(work);
  }

  method CloneText(text: GrowString) returns (r: GrowString)
    requires text.Valid()
    ensures r.Valid() && r.Contents() == text.Contents() && fresh(r.Footprint())
  {
    r := new GrowString();
    r.Append(text.Contents());
    assert "" + text.Contents() == text.Contents();
  }

  method CloneBoth(work: WorkStuff, text: GrowString) returns (w: WorkStuff, t: GrowString)
    requires work.Valid() && text.Valid()
    ensures w.Valid() && w.Value() == work.Value() && fresh(w.Footprint())
    ensures t.Valid() && t.Contents() == text.Contents() && fresh(t.Footprint()) && w.Footprint() !! t.Footprint()
  {
    hide Used, GrowString.Valid, GrowString.Contents;
    w := CloneWork(work);
    t := CloneText(text);
  }

  /** What a demangler works on: its tables, its place in the mangled name, and the declaration. */
  class Demangling {
    const work: WorkStuff
    const decl: GrowString
    var pos: nat
    ghost var Repr: set<object>

    ghost predicate Valid()
      reads this, Repr
    {
      && this in Repr && work in Repr && decl in Repr
      && work.Footprint() <= Repr && decl.Footprint() <= Repr
      && work.Valid() && decl.Valid() && work.Footprint() !! decl.Footprint() !! {this as object}
    }

    function Value(): State
      requires Valid()
      reads this, Repr
    {
      State(work.Value(), pos, decl.Contents())
    }

    constructor (work: WorkStuff, decl: GrowString, pos: nat)
      requires work.Valid() && decl.Valid() && work.Footprint() !! decl.Footprint()
      ensures Valid() && Value() == old(State(work.Value(), pos, decl.Contents()))
      ensures Repr == {this} + work.Footprint() + decl.Footprint()
    {
      this.work, this.decl, this.pos := work, decl, pos;
      Repr := {this} + work.Footprint() + decl.Footprint();
    }

    /** Clears the declaration and appends the text. */
    method SetText(text: string)
      requires Valid()
      modifies Repr
      ensures Valid() && Value() == old(Value()).(decl := text) && fresh(Repr - old(Repr)) && this in Repr
    {
      hide Used, Struct.Value, Struct.Valid, WorkStuff.Value, WorkStuff.Valid, GrowString.Valid, GrowString.Contents;
      decl.SetLength(0);
      decl.Append(text);
      Repr := Repr + decl.Footprint();
    }

    method SetTables(w: Work)
      requires Valid()
      modifies Repr
      ensures Valid() && Value() == old(Value()).(work := w) && fresh(Repr - old(Repr)) && this in Repr
    {
      hide Used, Struct.Value, Struct.Valid, WorkStuff.Value, WorkStuff.Valid, GrowString.Valid, GrowString.Contents;
      work.Become(w);
      Repr := Repr + work.Footprint();
    }

    /** Any change at all, made in place. */
    method Become(state: State)
      requires Valid()
      modifies Repr
      ensures Valid() && Value() == state && fresh(Repr - old(Repr)) && this in Repr
    {
      SetTables(state.work);
      SetText(state.decl);
      pos := state.pos;
    }

    /** A copy that shares nothing with the original. */
    method Save() returns (saved: Demangling)
      requires Valid()
      ensures saved.Valid() && saved.Value() == Value() && fresh(saved.Repr) && saved in saved.Repr
    {
      hide Used, Struct.Valid, Struct.Value, Struct.Tables, Storage, WorkStuff.Value, GrowString.Valid, GrowString.Contents;
      var tables, text := CloneBoth(work, decl);
      saved := new Demangling(tables, text, pos);
    }

    /** Back to what was saved. */
    method Restore(saved: Demangling)
      requires Valid() && saved.Valid() && Repr !! saved.Repr
      modifies Repr
      ensures Valid() && Value() == saved.Value() && fresh(Repr - old(Repr)) && this in Repr
    {
      hide Used, Struct.Value, Struct.Valid, WorkStuff.Value, WorkStuff.Valid, GrowString.Valid, GrowString.Contents,
           Struct.Tables, Storage;
      pos := saved.pos;
      decl.SetLength(0);
      decl.Append(saved.decl.Contents());
      work.CopyFrom(saved.work);
      Repr := Repr + work.Footprint() + decl.Footprint();
    }

    method RunName(t: Trials, scan: nat) returns (ok: bool)
      requires Valid()
      modifies Repr
      ensures Valid() && fresh(Repr - old(Repr)) && this in Repr
      ensures (ok, Value()) == t.name(old(Value()), scan)
    {
      var (success, end) := t.name(Value(), scan);
      Become(end);
      ok := success;
    }

    method RunSignature(t: Trials) returns (ok: bool)
      requires Valid()
      modifies Repr
      ensures Valid() && fresh(Repr - old(Repr)) && this in Repr
      ensures (ok, Value()) == t.signature(old(Value()))
    {
      var (success, end) := t.signature(Value());
      Become(end);
      ok := success;
    }

    /** The name and, if it is one, the signature. */
    method RunBoth(t: Trials, scan: nat) returns (ok: bool)
      requires Valid()
      modifies Repr
      ensures Valid() && fresh(Repr - old(Repr)) && this in Repr
      ensures ok == t.Succeed(old(Value()), scan)
      ensures ok ==> Value() == t.Result(old(Value()), scan)
    {
      hide Value, Valid;
      ok := RunName(t, scan);
      if ok {
        ok := RunSignature(t);
      }
    }
  }

  /** Whether there is a "__" from `p` on. */
  predicate HasUnderscores(text: string, p: nat)
    requires p <= |text|
  {
    SkipToUnderscores(text, p) < |text|
  }

  /** The guess `scan` is a "__" of `text`; styles other than those of GNU are never tried again. */
  method IterateDemangleFunction(d: Demangling, t: Trials, text: string, scan: nat, otherStyle: bool)
    returns (success: bool)
    requires d.Valid() && scan + 2 <= |text|
    modifies d.Repr
    ensures d.Valid() && fresh(d.Repr - old(d.Repr))
    ensures scan + 2 == |text| ==> !success && d.Value() == old(d.Value())
    ensures scan + 2 < |text| && (otherStyle || !HasUnderscores(text, scan + 2)) ==>
      (success, d.Value()) == t.name(old(d.Value()), scan)
    ensures scan + 2 < |text| && !otherStyle && HasUnderscores(text, scan + 2) ==>
      (success, d.Value()) == Iterate(t, old(d.Value()), text, scan)
  {
    if scan + 2 == |text| { return false; }
    if otherStyle || !HasUnderscores(text, scan + 2) {
      success := d.RunName(t, scan);
      return;
    }
    success := TryAll(d, t, text, scan);
  }

  /** One split; when it is not the right one, everything is as it was saved. */
  method TrySplit(d: Demangling, saved: Demangling, t: Trials, scan: nat) returns (ok: bool)
    requires d.Valid() && saved.Valid() && d.Repr !! saved.Repr && d in d.Repr && saved in saved.Repr
    requires d.Value() == saved.Value()
    modifies d.Repr
    ensures d.Valid() && fresh(d.Repr - old(d.Repr)) && d in d.Repr
    ensures ok == t.Succeed(old(d.Value()), scan)
    ensures d.Value() == if ok then t.Result(old(d.Value()), scan) else old(d.Value())
  {
    hide Demangling.Value, Demangling.Valid;
    ok := d.RunBoth(t, scan);
    if !ok {
      d.Restore(saved);
    }
  }

  method TryAll(d: Demangling, t: Trials, text: string, first: nat) returns (success: bool)
    requires d.Valid() && first + 2 <= |text|
    modifies d.Repr
    ensures d.Valid() && fresh(d.Repr - old(d.Repr))
    ensures (success, d.Value()) == Iterate(t, old(d.Value()), text, first)
  {
    assert d in d.Repr;
    hide Demangling.Value, Demangling.Valid, NextScan, Iterate;
    var saved := d.Save();
    success := TryFrom(d, saved, t, text, first);
  }

  method TryFrom(d: Demangling, saved: Demangling, t: Trials, text: string, first: nat) returns (success: bool)
    requires d.Valid() && saved.Valid() && d.Repr !! saved.Repr && d in d.Repr && saved in saved.Repr
    requires d.Value() == saved.Value() && first + 2 <= |text|
    modifies d.Repr
    ensures d.Valid() && fresh(d.Repr - old(d.Repr))
    ensures (success, d.Value()) == Iterate(t, old(d.Value()), text, first)
  {
    hide Demangling.Value, Demangling.Valid, NextScan, Iterate, IsSplit, Trials.Succeed, Trials.Result;
    ghost var init := d.Value();
    var scan := first;
    success := false;
    while scan + 2 < |text|
      invariant scan + 2 <= |text| && d.Valid() && d in d.Repr && d.Value() == init
      invariant saved.Valid() && saved in saved.Repr && saved.Value() == init
      invariant d.Repr !! saved.Repr && fresh(d.Repr - old(d.Repr))
      invariant Iterate(t, init, text, first) == Iterate(t, init, text, scan)
      decreases |text| - scan
    {
      IterateStep(t, init, text, scan);
      success := TrySplit(d, saved, t, scan);
      if success { return; }
      scan := LeaveUnderscores(text, scan);
    }
    IterateEnd(t, init, text, scan);
  }

  lemma IterateStep(t: Trials, init: State, text: string, scan: nat)
    requires scan + 2 < |text|
    ensures Iterate(t, init, text, scan)
      == if t.Succeed(init, scan) then (true, t.Result(init, scan)) else Iterate(t, init, text, NextScan(text, scan))
    ensures NextScan(text, scan) + 2 == |text| || NextScan(text, scan) > scan
  {
    hide NextScan;
  }

  lemma IterateEnd(t: Trials, init: State, text: string, scan: nat)
    requires scan + 2 == |text|
    ensures Iterate(t, init, text, scan) == (false, init)
  {
  }

  /** Leaves this sequence of underscores and goes to the last "__" of the next one. */
  method LeaveUnderscores(text: string, at: nat) returns (scan: nat)
    requires at + 2 <= |text|
    ensures scan == NextScan(text, at)
  {
    scan := at + 2;
    while scan < |text| && (text[scan] != '_' || scan + 1 == |text| || text[scan + 1] != '_')
      invariant at + 2 <= scan <= |text|
      invariant SkipToUnderscores(text, at + 2) == SkipToUnderscores(text, scan)
    {
      scan := scan + 1;
    }
    ghost var p := scan;
    while scan < |text| && text[scan] == '_'
      invariant p <= scan <= |text|
      invariant SkipUnderscores(text, p) == SkipUnderscores(text, scan)
    {
      scan := scan + 1;
    }
    scan := scan - 2;
  }
}
