/**
 The recursive-descent parser of the Itanium C++ mangling over one mutable d_info: a cursor, a fixed
 component arena and a substitution table. Every production keeps an account of the components and
 substitutions it takes for the characters it consumes, so that the arena of 2 * len components and
 the table of len substitutions never run out.
 */
module ItaniumParser {
  import opened ItaniumTrees
  import opened ItaniumTypes
  import opened Numerals
  import opened Options

  /** What the front of a mangled string says about the rest. */
  datatype MangledKind = MangledFunction | GlobalCtors | GlobalDtors | PlainMangledType | NotMangled

  const GLOBAL_PREFIX := "_GLOBAL_"

  function KindOf(mangled: CStr, types: bool): (r: MangledKind)
    ensures r.GlobalCtors? || r.GlobalDtors? ==> |mangled| >= 11
  {
    if |mangled| >= 2 && mangled[0] == '_' && mangled[1] == 'Z' then MangledFunction
    else if && |mangled| >= 11 && mangled[..8] == GLOBAL_PREFIX
            && (mangled[8] == '.' || mangled[8] == '_' || mangled[8] == '$')
            && (mangled[9] == 'D' || mangled[9] == 'I') && mangled[10] == '_'
    then (if mangled[9] == 'I' then GlobalCtors else GlobalDtors)
    else if types then PlainMangledType
    else NotMangled
  }

  class Info {
    const input: CStr
    const verbose: bool
    const operators: OpTable
    const builtins: BuiltinTable
    var n: nat
    const comps: array<Comp>
    var nextComp: nat
    const subs: array<Ptr>
    var nextSub: nat
    var didSubs: nat
    var lastName: Ptr
    var expansion: int
    var isExpression: bool
    var isConversion: bool
    /** Set when a slot was asked for and none was left; the source returns NULL then. */
    ghost var exhausted: bool

    // -------------------------------------------------------------------------------------------
    // The account
    // -------------------------------------------------------------------------------------------

    /** Every pointer the parser holds on to is inside the arena. */
    ghost predicate Shape()
      reads this, comps, subs
    {
      && comps.Length == 2 * |input| && subs.Length == |input|
      && n <= |input| && nextComp <= comps.Length && nextSub <= subs.Length
      && InArena(lastName, comps.Length)
      && OperandsFit() && TableFits()
    }

    /** The operands of every component are in the arena. */
    ghost predicate OperandsFit()
      reads comps
    {
      forall i | 0 <= i < comps.Length :: OperandsInArena(comps[i], comps.Length)
    }

    /** Every candidate is a component that is in use. */
    ghost predicate TableFits()
      requires nextSub <= subs.Length
      reads this`nextSub, this`nextComp, subs
    {
      forall j | 0 <= j < nextSub :: subs[j].At? && subs[j].i < nextComp
    }

    /** At most two components and one substitution for every character consumed so far. */
    ghost predicate Valid()
      reads this, comps, subs
    {
      Shape() && nextComp <= 2 * n && nextSub <= n && !exhausted
    }

    /** Substitutions and the components below `lo` are still there, and the flags are restored. */
    twostate predicate GrewFrom(lo: nat)
      reads this, comps, subs
    {
      && old(n) <= n && old(nextComp) <= nextComp && old(nextSub) <= nextSub
      && isExpression == old(isExpression) && isConversion == old(isConversion)
      && old(nextSub) <= subs.Length && nextSub <= subs.Length && KeptBelow(old(Store()), Store(), lo)
    }

    /** All earlier components and substitutions are still there. */
    twostate predicate Grew()
      reads this, comps, subs
    {
      GrewFrom(old(nextComp))
    }

    /** 2k - kc components and k - ks substitutions for k characters. */
    twostate predicate Spent(kc: int, ks: int)
      reads this
    {
      && nextComp - old(nextComp) <= 2 * (n - old(n)) - kc
      && nextSub - old(nextSub) <= n - old(n) - ks
    }

    /** What a production promises: a success consumes text and leaves some of its allowance. */
    twostate predicate Produced(p: Ptr, kc: int, ks: int)
      reads this, comps, subs
    {
      && Grew() && Spent(0, 0)
      && (p.At? ==> p.i < nextComp && old(n) < n && Spent(kc, ks) && Known(old(Store()), p, old(nextComp)))
    }

    constructor (input: CStr, verbose: bool, operators: OpTable, builtins: BuiltinTable)
      ensures Valid() && this.input == input && this.verbose == verbose
      ensures this.operators == operators && this.builtins == builtins
      ensures n == 0 && nextComp == 0 && nextSub == 0 && didSubs == 0 && expansion == 0
      ensures lastName == Null && !isExpression && !isConversion
      ensures fresh(comps) && fresh(subs)
    {
      this.input, this.verbose := input, verbose;
      this.operators, this.builtins := operators, builtins;
      n, nextComp, nextSub, didSubs, expansion := 0, 0, 0, 0, 0;
      lastName, isExpression, isConversion, exhausted := Null, false, false, false;
      comps := new Comp[2 * |input|](_ => Unset);
      subs := new Ptr[|input|](_ => Null);
    }

    // -------------------------------------------------------------------------------------------
    // The trees that are built
    // -------------------------------------------------------------------------------------------

    ghost function Store(): (a: Arena)
      requires nextSub <= subs.Length
      reads this`nextSub, comps, subs
      ensures |a.subs| == nextSub && |a.comps| == comps.Length && a.builtins == builtins && a.verbose == verbose
    {
      Arena(comps[..], subs[..nextSub], builtins, verbose)
    }

    /** One slot was filled in, and nothing was registered. */
    twostate lemma StoreAdded(hi: nat)
      requires old(nextSub) == nextSub <= subs.Length && hi < comps.Length
      requires forall i | 0 <= i < comps.Length && i != hi :: comps[i] == old(comps[i])
      requires forall j | 0 <= j < nextSub :: subs[j] == old(subs[j])
      ensures Added(old(Store()), Store(), hi, comps[hi])
    {
      assert Store().comps == old(Store()).comps[hi := comps[hi]];
      assert Store().subs == old(Store()).subs;
    }

    /** A candidate was registered, and nothing else. */
    twostate lemma StoreRegistered(p: Ptr)
      requires nextSub == old(nextSub) + 1 <= subs.Length && subs[old(nextSub)] == p
      requires forall i | 0 <= i < comps.Length :: comps[i] == old(comps[i])
      requires forall j | 0 <= j < old(nextSub) :: subs[j] == old(subs[j])
      ensures Store() == old(Store()).(subs := old(Store()).subs + [p])
    {
      assert Store().comps == old(Store()).comps;
      assert Store().subs == old(Store()).subs + [p];
    }

    /** Nothing below slot `lo` was touched, and nothing was registered. */
    twostate lemma StoreKept(lo: nat)
      requires old(nextSub) == nextSub <= subs.Length
      requires forall i | 0 <= i < lo && i < comps.Length :: comps[i] == old(comps[i])
      requires forall j | 0 <= j < nextSub :: subs[j] == old(subs[j])
      ensures KeptBelow(old(Store()), Store(), lo)
    {
      assert Store().subs == old(Store()).subs;
      KeptWhole(old(Store()), Store(), lo);
    }

    lemma StoredComp(p: Ptr)
      requires nextSub <= subs.Length && p.At? && p.i < comps.Length
      ensures Store().comps[p.i] == comps[p.i]
    {
    }

    /** A component keeps its kind. */
    twostate lemma SlotStays(i: nat)
      requires Grew() && i < old(nextComp) && i < comps.Length
      ensures SameComp(old(comps[i]), comps[i])
    {
      hide KeptBelow, SameComp;
      NodeStays(old(Store()), Store(), i, old(nextComp));
    }

    twostate lemma StoreSame()
      requires nextSub == old(nextSub) <= subs.Length && comps[..] == old(comps[..])
      requires forall j | 0 <= j < nextSub :: subs[j] == old(subs[j])
      ensures Store() == old(Store())
    {
      assert Store().subs == old(Store()).subs;
    }

    /** Without a reference qualifier among the candidates all that was there is the same. */
    twostate lemma Restored()
      requires old(nextSub) == nextSub <= subs.Length && old(nextComp) == nextComp <= comps.Length
      requires KeptBelow(old(Store()), Store(), nextComp)
      ensures subs[..nextSub] == old(subs[..nextSub])
      ensures old(NoRefs(Store())) ==> comps[..nextComp] == old(comps[..nextComp])
    {
      if old(NoRefs(Store())) { NothingChanges(old(Store()), Store(), nextComp); }
      assert Store().subs == old(Store()).subs;
    }

    /** The end of the table was given up. */
    twostate lemma StoreCut()
      requires nextSub <= old(nextSub) <= subs.Length
      requires forall i | 0 <= i < comps.Length :: comps[i] == old(comps[i])
      requires forall j | 0 <= j < nextSub :: subs[j] == old(subs[j])
      ensures Store() == old(Store()).(subs := old(Store()).subs[..nextSub])
    {
      assert Store().comps == old(Store()).comps;
      assert Store().subs == old(Store()).subs[..nextSub];
    }

    twostate lemma TableFitsAgain()
      requires old(nextSub) == nextSub <= subs.Length && old(nextComp) == nextComp && old(TableFits())
      requires Store().subs == old(Store()).subs
      ensures TableFits()
    {
      forall j | 0 <= j < nextSub ensures subs[j] == old(subs[j]) {
        assert Store().subs[j] == old(Store()).subs[j];
      }
    }

    /** What was there when a production began is still there. */
    twostate lemma StoreGrew(lo: nat)
      requires Grew() && old(nextComp) <= comps.Length && old(TableFits())
      ensures Kept(old(Store()), Store(), lo, old(nextComp))
    {
      hide KeptBelow;
      BelowIsKept(old(Store()), Store(), lo, old(nextComp));
    }

    /** The text at the cursor spells the tree, and the candidates so far are of the plain kind. */
    ghost predicate AtText(t: Tree)
      requires nextSub <= subs.Length
      reads this, comps, subs
    {
      Spells(input, n, t, nextSub) && IsReady()
    }

    ghost predicate IsReady()
      requires nextSub <= subs.Length
      reads this`nextSub, this`nextComp, comps, subs
    {
      Plain(Store(), nextComp) && IsVoidTable(builtins)
    }

    /** The same, where template arguments may follow. */
    ghost predicate AtOpen(t: Tree)
      requires nextSub <= subs.Length
      reads this, comps, subs
    {
      SpellsOpen(input, n, t, nextSub) && IsReady()
    }

    /** What is promised of a name behind which template arguments may follow. */
    twostate predicate BuiltOpen(t: Tree, p: Ptr)
      reads this, comps, subs
    {
      old(nextSub <= subs.Length && AtOpen(t)) ==>
        && p.At? && n == old(n) + |Text(t)| && nextSub <= subs.Length
        && Has(Store(), p, t, PartCandidates(t), old(nextSub), old(nextComp), nextComp)
    }

    /** What a production promises of a tree whose text stands at the cursor. */
    twostate predicate Built(t: Tree, p: Ptr)
      reads this, comps, subs
    {
      old(nextSub <= subs.Length && AtText(t)) ==>
        && p.At? && n == old(n) + |Text(t)| && nextSub <= subs.Length
        && Has(Store(), p, t, Candidates(t), old(nextSub), old(nextComp), nextComp)
    }

    /** The same, before the tree itself is registered. */
    twostate predicate BuiltParts(t: Tree, p: Ptr)
      reads this, comps, subs
    {
      old(nextSub <= subs.Length && AtText(t)) ==>
        && p.At? && n == old(n) + |Text(t)| && nextSub <= subs.Length
        && Has(Store(), p, t, PartCandidates(t), old(nextSub), old(nextComp), nextComp)
    }

    // -------------------------------------------------------------------------------------------
    // Cursor and arena
    // -------------------------------------------------------------------------------------------

    function Peek(): char
      reads this
    {
      if n < |input| then input[n] else '\0'
    }

    /** Must not be asked at the end of the text. */
    function PeekNext(): char
      requires n < |input|
      reads this
    {
      if n + 1 < |input| then input[n + 1] else '\0'
    }

    function Get(p: Ptr): Comp
      requires p.At? && p.i < comps.Length
      reads comps
    {
      comps[p.i]
    }

    /** A component of this kind. */
    predicate IsNode(p: Ptr, kind: Kind)
      reads comps
    {
      p.At? && p.i < comps.Length && comps[p.i].Node? && comps[p.i].kind == kind
    }

    method CheckChar(c: char) returns (ok: bool)
      modifies this`n
      ensures ok <==> old(n) < |input| && input[old(n)] == c
      ensures n == old(n) + if ok then 1 else 0
    {
      ok := n < |input| && input[n] == c;
      if ok { n := n + 1; }
    }

    /** Stays put at the end of the text. */
    method NextChar() returns (c: char)
      modifies this`n
      ensures c == old(Peek())
      ensures n == old(n) + if old(n) < |input| then 1 else 0
    {
      c := Peek();
      if n < |input| { n := n + 1; }
    }

    method MakeEmpty() returns (p: Ptr)
      modifies this`nextComp, this`exhausted
      ensures old(nextComp) < comps.Length ==>
        p == At(old(nextComp)) && nextComp == old(nextComp) + 1 && exhausted == old(exhausted)
      ensures old(nextComp) >= comps.Length ==> p == Null && nextComp == old(nextComp) && exhausted
    {
      if nextComp >= comps.Length {
        exhausted := true;
        return Null;
      }
      p := At(nextComp);
      nextComp := nextComp + 1;
    }

    /** MakeEmpty, and then the component is filled in. */
    method Make(c: Comp) returns (p: Ptr)
      requires Shape() && OperandsInArena(c, comps.Length)
      modifies this`nextComp, this`exhausted, comps
      ensures old(nextComp) < comps.Length ==>
        p == At(old(nextComp)) && nextComp == old(nextComp) + 1 && exhausted == old(exhausted) && comps[p.i] == c
      ensures old(nextComp) >= comps.Length ==> p == Null && nextComp == old(nextComp) && exhausted
      ensures forall i | 0 <= i < comps.Length && i != old(nextComp) :: comps[i] == old(comps[i])
      ensures Shape() && Grew()
    {
      p := MakeEmpty();
      if p.At? { comps[p.i] := c; }
      StoreKept(old(nextComp));
    }

    method MakeComp(kind: Kind, left: Ptr, right: Ptr) returns (p: Ptr)
      requires Shape() && InArena(left, comps.Length) && InArena(right, comps.Length)
      modifies this`nextComp, this`exhausted, comps
      ensures p.At? <==> OperandsPresent(kind, left, right) && old(nextComp) < comps.Length
      ensures p.At? ==> p == At(old(nextComp)) && nextComp == old(nextComp) + 1 && comps[p.i] == Node(kind, left, right)
      ensures p.Null? ==> nextComp == old(nextComp)
      ensures exhausted == (old(exhausted) || (OperandsPresent(kind, left, right) && old(nextComp) >= comps.Length))
      ensures forall i | 0 <= i < comps.Length && i != old(nextComp) :: comps[i] == old(comps[i])
      ensures Shape() && Grew()
    {
      if !OperandsPresent(kind, left, right) { return Null; }
      p := Make(Node(kind, left, right));
    }

    /** A slot is taken even when the name is refused for being empty. */
    method MakeName(text: seq<char>) returns (p: Ptr)
      requires Shape()
      modifies this`nextComp, this`exhausted, comps
      ensures p.At? <==> text != [] && old(nextComp) < comps.Length
      ensures p.At? ==> p == At(old(nextComp)) && comps[p.i] == Name(text)
      ensures nextComp == old(nextComp) + if old(nextComp) < comps.Length then 1 else 0
      ensures exhausted == (old(exhausted) || old(nextComp) >= comps.Length)
      ensures forall i | 0 <= i < comps.Length && i != old(nextComp) :: comps[i] == old(comps[i])
      ensures Shape() && Grew()
    {
      p := MakeEmpty();
      if p.Null? || text == [] { return Null; }
      comps[p.i] := Name(text);
      StoreKept(old(nextComp));
    }

    method MakeExtendedOperator(args: int, name: Ptr) returns (p: Ptr)
      requires Shape() && InArena(name, comps.Length)
      modifies this`nextComp, this`exhausted, comps
      ensures p.At? <==> args >= 0 && name.At? && old(nextComp) < comps.Length
      ensures p.At? ==> p == At(old(nextComp)) && comps[p.i] == ExtendedOperator(args, name)
      ensures nextComp == old(nextComp) + if old(nextComp) < comps.Length then 1 else 0
      ensures exhausted == (old(exhausted) || old(nextComp) >= comps.Length)
      ensures forall i | 0 <= i < comps.Length && i != old(nextComp) :: comps[i] == old(comps[i])
      ensures Shape() && Grew()
    {
      p := MakeEmpty();
      if p.Null? || args < 0 || name.Null? { return Null; }
      comps[p.i] := ExtendedOperator(args, name);
      StoreKept(old(nextComp));
    }

    method SetComp(p: Ptr, c: Comp)
      requires Shape() && p.At? && p.i < comps.Length && OperandsInArena(c, comps.Length)
      modifies comps
      ensures Shape() && GrewFrom(p.i) && comps[p.i] == c
      ensures forall i | 0 <= i < comps.Length && i != p.i :: comps[i] == old(comps[i])
    {
      comps[p.i] := c;
      StoreKept(p.i);
    }

    method SetLeft(p: Ptr, left: Ptr)
      requires Shape() && p.At? && p.i < comps.Length && comps[p.i].Node? && InArena(left, comps.Length)
      modifies comps
      ensures Shape() && GrewFrom(p.i)
      ensures comps[p.i] == Node(old(comps[p.i]).kind, left, old(comps[p.i]).right)
      ensures forall i | 0 <= i < comps.Length && i != p.i :: comps[i] == old(comps[i])
    {
      comps[p.i] := Node(comps[p.i].kind, left, comps[p.i].right);
      StoreKept(p.i);
    }

    method SetRight(p: Ptr, right: Ptr)
      requires Shape() && p.At? && p.i < comps.Length && comps[p.i].Node? && InArena(right, comps.Length)
      modifies comps
      ensures Shape() && GrewFrom(p.i)
      ensures comps[p.i] == Node(old(comps[p.i]).kind, old(comps[p.i]).left, right)
      ensures forall i | 0 <= i < comps.Length && i != p.i :: comps[i] == old(comps[i])
    {
      comps[p.i] := Node(comps[p.i].kind, comps[p.i].left, right);
      StoreKept(p.i);
    }

    method AddSubstitution(p: Ptr, ghost lo: nat := 0) returns (ok: bool)
      requires Shape() && Known(Store(), p, lo)
      requires p.At? ==> p.i < nextComp
      modifies this`nextSub, this`exhausted, subs
      ensures Shape()
      ensures ok <==> p.At? && old(nextSub) < subs.Length
      ensures ok ==> nextSub == old(nextSub) + 1 && subs[old(nextSub)] == p
      ensures !ok ==> nextSub == old(nextSub)
      ensures exhausted == (old(exhausted) || (p.At? && old(nextSub) >= subs.Length))
      ensures GrewFrom(lo)
      ensures forall j | 0 <= j < old(nextSub) :: subs[j] == old(subs[j])
    {
      if p.Null? { return false; }
      if nextSub >= subs.Length {
        exhausted := true;
        return false;
      }
      subs[nextSub] := p;
      nextSub := nextSub + 1;
      ok := true;
    }

    // -------------------------------------------------------------------------------------------
    // Numbers and names
    // -------------------------------------------------------------------------------------------

    method Number() returns (v: int)
      requires n <= |input|
      modifies this`n
      ensures old(n) <= n <= |input|
      ensures (n, v) == NumberAt(input, old(n))
    {
      var negative := Peek() == 'n';
      if negative { n := n + 1; }
      ghost var start := n;
      var value: int := 0;
      while n < |input| && IsDigit(input[n])
        invariant start <= n <= |input| && value >= 0
        invariant DigitsAt(input, start, 0) == DigitsAt(input, n, value)
      {
        value := value * 10 + (input[n] as int - '0' as int);
        n := n + 1;
      }
      v := if negative then -value else value;
    }

    /** A number and '_', or just '_'; -1 when it is malformed. */
    method CompactNumber() returns (v: int)
      requires n <= |input|
      modifies this`n
      ensures old(n) <= n <= |input|
      ensures (n, v) == CompactAt(input, old(n))
    {
      if Peek() == '_' {
        v := 0;
      } else if Peek() == 'n' {
        return -1;
      } else {
        v := Number();
        v := v + 1;
      }
      var ok := CheckChar('_');
      if !ok { return -1; }
    }

    method NumberComponent() returns (p: Ptr)
      requires Shape()
      modifies this`n, this`nextComp, this`exhausted, comps
      ensures old(n) <= n <= |input|
      ensures old(nextComp) < comps.Length ==>
        p == At(old(nextComp)) && nextComp == old(nextComp) + 1 && exhausted == old(exhausted)
      ensures old(nextComp) >= comps.Length ==> p == Null && nextComp == old(nextComp) && exhausted
      ensures forall i | 0 <= i < comps.Length && i != old(nextComp) :: comps[i] == old(comps[i])
      ensures p.At? ==> comps[p.i] == Comp.Number(NumberAt(input, old(n)).1)
      ensures Shape() && Grew()
    {
      p := MakeEmpty();
      if p.At? {
        var v := Number();
        comps[p.i] := Comp.Number(v);
      }
      StoreKept(old(nextComp));
    }

    method Discriminator() returns (ok: bool)
      requires n <= |input|
      modifies this`n
      ensures old(n) <= n <= |input|
      ensures old(Peek()) != '_' ==> ok && n == old(n)
    {
      if Peek() != '_' { return true; }
      n := n + 1;
      var discrim := Number();
      ok := discrim >= 0;
    }

    method Identifier(len: nat) returns (p: Ptr)
      requires Valid() && 0 < len
      modifies this, comps, subs
      ensures Valid() && Produced(p, 1, 1)
      ensures p.At? ==> n == old(n) + len && nextComp == old(nextComp) + 1
      ensures nextSub == old(nextSub)
      ensures p.At? <==> old(n) + len <= |input|
      ensures p.At? ==> p.i == old(nextComp) && comps[p.i] == Name(NameText(input[old(n)..old(n) + len]))
      ensures forall i | 0 <= i < comps.Length && i != old(nextComp) :: comps[i] == old(comps[i])
      ensures forall j | 0 <= j < subs.Length :: subs[j] == old(subs[j])
    {
      hide OperandsFit, TableFits, Store, KeptBelow;
      KeptThrough(Store(), nextComp);
      var name := n;
      if |input| - name < len { return Null; }
      n := n + len;
      var text := input[name..name + len];
      if IsAnonymousNamespace(text) {
        expansion := expansion - (len - (|ANONYMOUS_NAMESPACE| + 1));
        p := MakeName(ANONYMOUS_NAMESPACE);
      } else {
        p := MakeName(text);
      }
    }

    method SourceName(ghost t: Tree := NoTree) returns (p: Ptr)
      requires Valid()
      modifies this, comps, subs
      ensures Valid() && Produced(p, 3, 2)
      ensures nextSub == old(nextSub) && (p.At? ==> lastName == p)
      ensures t.Source? ==> BuiltOpen(t, p)
    {
      hide OperandsFit, TableFits, SpellsOpen, Has, NumberAt, Store, Text, PartCandidates, NameText, KeptBelow;
      KeptThrough(Store(), nextComp);
      if AtOpen(t) && t.Source? { SpellsSource(input, n, t, nextSub); }
      var len := Number();
      if len <= 0 { return Null; }
      p := Identifier(len);
      lastName := p;
      if old(AtOpen(t)) && t.Source? {
        StoreAdded(p.i);
        LeafBuilt(old(Store()), Store(), t, nextSub, p.i, comps[p.i]);
      }
    }

    /** dc is wrapped in one TAGGED_NAME for every B <source-name>. */
    method AbiTags(dc: Ptr) returns (p: Ptr)
      requires Valid()
      requires dc.At? ==> dc.i < nextComp
      modifies this, comps, subs
      ensures Valid() && Grew() && Spent(0, 0)
      ensures old(Peek()) != 'B' ==> p == dc && n == old(n) && nextComp == old(nextComp)
      ensures old(Peek()) == 'B' && p.At? ==> old(nextComp) <= p.i && IsNode(p, TaggedName)
      ensures p.At? ==> dc.At? && p.i < nextComp
      ensures lastName == old(lastName) && nextSub == old(nextSub)
      ensures old(Peek()) == 'B' ==> old(n) < n
    {
      hide OperandsFit, TableFits, OperandsPresent, Store, KeptBelow, BuiltOpen;
      KeptThrough(Store(), nextComp);
      p := dc;
      var holdLastName := lastName;
      while Peek() == 'B'
        invariant Valid() && Grew() && Spent(0, 0) && nextSub == old(nextSub)
        invariant p.At? ==> dc.At? && p.i < nextComp
        invariant n == old(n) ==> p == dc && nextComp == old(nextComp)
        invariant n != old(n) ==> old(Peek()) == 'B' && (p.At? ==> old(nextComp) <= p.i && IsNode(p, TaggedName))
        invariant n == old(n) ==> Peek() == old(Peek())
        decreases |input| - n
      {
        n := n + 1;
        var tag := SourceName();
        BothNeeded(p, tag);
        p := MakeComp(TaggedName, p, tag);
      }
      lastName := holdLastName;
    }

    method MakeCtor(variant: char, name: Ptr) returns (p: Ptr)
      requires Shape() && InArena(name, comps.Length)
      modifies this`nextComp, this`exhausted, comps
      ensures p.At? <==> name.At? && old(nextComp) < comps.Length
      ensures p.At? ==> p == At(old(nextComp)) && comps[p.i] == Ctor(variant, name)
      ensures nextComp == old(nextComp) + if old(nextComp) < comps.Length then 1 else 0
      ensures exhausted == (old(exhausted) || old(nextComp) >= comps.Length)
      ensures forall i | 0 <= i < comps.Length && i != old(nextComp) :: comps[i] == old(comps[i])
      ensures Shape() && Grew()
    {
      p := MakeEmpty();
      if p.Null? || name.Null? { return Null; }
      comps[p.i] := Ctor(variant, name);
      StoreKept(old(nextComp));
    }

    method MakeDtor(variant: char, name: Ptr) returns (p: Ptr)
      requires Shape() && InArena(name, comps.Length)
      modifies this`nextComp, this`exhausted, comps
      ensures p.At? <==> name.At? && old(nextComp) < comps.Length
      ensures p.At? ==> p == At(old(nextComp)) && comps[p.i] == Dtor(variant, name)
      ensures nextComp == old(nextComp) + if old(nextComp) < comps.Length then 1 else 0
      ensures exhausted == (old(exhausted) || old(nextComp) >= comps.Length)
      ensures forall i | 0 <= i < comps.Length && i != old(nextComp) :: comps[i] == old(comps[i])
      ensures Shape() && Grew()
    {
      p := MakeEmpty();
      if p.Null? || name.Null? { return Null; }
      comps[p.i] := Dtor(variant, name);
      StoreKept(old(nextComp));
    }

    function LastNameLength(): nat
      requires Shape()
      reads this, comps, subs
    {
      if lastName.Null? then 0
      else match Get(lastName)
        case Name(text) => |text|
        case SubStd(text) => |text|
        case _ => 0
    }

    /** A constructor or destructor of the last name seen. */
    method CtorDtorName(ghost special: Special := Ordinary) returns (p: Ptr)
      requires Valid()
      modifies this, comps, subs
      ensures Valid() && Produced(p, 3, 2)
      ensures nextSub == old(nextSub)
      ensures old(AtSpecial(special)) ==> MadeSpecial(p, special)
    {
      hide OperandsFit, TableFits, Store, KeptBelow;
      KeptThrough(Store(), nextComp);
      expansion := expansion + LastNameLength();
      p := Null;
      if Peek() == 'C' {
        var variant := PeekNext();
        if '1' <= variant <= '5' {
          n := n + 2;
          p := MakeCtor(variant, lastName);
        }
      } else if Peek() == 'D' {
        var variant := PeekNext();
        if variant == '0' || variant == '1' || variant == '2' || variant == '4' || variant == '5' {
          n := n + 2;
          p := MakeDtor(variant, lastName);
        }
      }
    }

    method UnnamedType() returns (p: Ptr)
      requires Valid()
      modifies this, comps, subs
      ensures Valid() && Produced(p, 3, 2)
      ensures p.At? ==> old(n) + 2 <= |input| && comps[p.i] == Comp.UnnamedType(CompactAt(input, old(n) + 2).1)
    {
      hide OperandsFit, TableFits, Store, KeptBelow;
      KeptThrough(Store(), nextComp);
      p := Null;
      var ok := CheckChar('U');
      if !ok { return; }
      ok := CheckChar('t');
      if !ok { return; }
      var num := CompactNumber();
      if num < 0 { return; }
      p := Make(Comp.UnnamedType(num));
      ok := AddSubstitution(p, old(nextComp));
      if !ok { return Null; }
    }

    method TemplateParameter(ghost t: Tree := NoTree) returns (p: Ptr)
      requires Valid()
      modifies this, comps, subs
      ensures Valid() && Produced(p, 3, 2)
      ensures nextSub == old(nextSub)
      ensures t.Param? ==> BuiltParts(t, p)
    {
      hide OperandsFit, TableFits, Spells, Has, Text, PartCandidates, Store, CompactAt, KeptBelow, SameComp;
      KeptThrough(Store(), nextComp);
      if AtText(t) && t.Param? { SpellsParam(input, n, t, nextSub); }
      var ok := CheckChar('T');
      if !ok { return Null; }
      var param := CompactNumber();
      if param < 0 { return Null; }
      didSubs := didSubs + 1;
      p := Make(Comp.TemplateParam(param));
      if old(AtText(t)) && t.Param? {
        StoreAdded(p.i);
        LeafBuilt(old(Store()), Store(), t, nextSub, p.i, comps[p.i]);
      }
    }

    // -------------------------------------------------------------------------------------------
    // Substitutions
    // -------------------------------------------------------------------------------------------

    /** The base-36 number in front of '_' whose first digit `first` has been read; -1 if malformed. */
    method SeqId(first: char) returns (id: int)
      requires n <= |input|
      modifies this`n
      ensures old(n) <= n <= |input|
      ensures (n, id) == SeqIdAt(input, old(n), first, 0)
    {
      id := 0;
      var c := first;
      while true
        invariant old(n) <= n <= |input| && id >= 0
        invariant SeqIdAt(input, old(n), first, 0) == SeqIdAt(input, n, c, id)
        decreases |input| - n, c != '\0'
      {
        var next := SeqIdStep(id, c);
        if next < 0 { return -1; }
        id := next;
        c := NextChar();
        if c == '_' { return; }
      }
    }

    method Substitution(prefix: bool, ghost t: Tree := NoTree) returns (p: Ptr)
      requires Valid()
      modifies this, comps, subs
      ensures Valid() && Produced(p, 2, 2)
      ensures old(Peek()) == 'S' ==> old(n) < n
      ensures t.Sub? || (t.Std? && !prefix) ==> BuiltParts(t, p)
      ensures t.Sub? && old(AtText(t)) ==> OnlyRead(t.id, p)
    {
      hide OperandsFit, TableFits, Spells, Has, Text, PartCandidates, CandidateAt, Store, KeptBelow, IsReady;
      hide IsStandardSub;
      KeptThrough(Store(), nextComp);
      if AtText(t) && t.Sub? { SubNumber(t); }
      if AtText(t) && t.Std? { StdCode(t); }
      var ok := CheckChar('S');
      if !ok { return Null; }
      var c := NextChar();
      p := SubstitutionBehind(c, prefix, t);
    }

    /** The rest of a substitution, of which the character `c` has been read. */
    method SubstitutionBehind(c: char, prefix: bool, ghost t: Tree) returns (p: Ptr)
      requires Valid() && (c != '\0' ==> nextComp + 4 <= 2 * n && nextSub + 2 <= n)
      modifies this, comps, subs
      ensures Valid() && Grew() && Spent(if c == '\0' then 0 else -2, 0)
      ensures p.At? ==> c != '\0' && p.i < nextComp && Known(old(Store()), p, old(nextComp))
      ensures t.Sub? && old(AtNumber(c, t)) ==>
        && n == CandidateAt(input, old(n), c).0 && OnlyRead(t.id, p) && p.At? && nextSub <= subs.Length
        && Has(Store(), p, t, PartCandidates(t), old(nextSub), old(nextComp), nextComp)
      ensures !prefix && t == Std(c) && IsStandardSub(c) && c != '_' && old(Peek()) != 'B' && old(IsReady()) ==>
        && p.At? && n == old(n) && nextSub <= subs.Length
        && Has(Store(), p, t, PartCandidates(t), old(nextSub), old(nextComp), nextComp)
    {
      hide OperandsFit, TableFits, Has, PartCandidates, CandidateAt, Plain, IsVoidTable, Store, KeptBelow;
      hide RefQualKind;
      KeptThrough(Store(), nextComp);
      if c == '_' || IsDigit(c) || IsUpper(c) {
        p := Candidate(c);
        if t.Sub? && old(AtNumber(c, t)) { SubBuilt(Store(), p, t, nextComp, nextComp); }
      } else if IsStandardSub(c) {
        p := Abbreviation(c, prefix, t);
      } else {
        p := Null;
      }
    }

    /** The rest of the number of a registered candidate follows the character `c`. */
    ghost predicate AtNumber(c: char, t: Tree)
      requires t.Sub? && n <= |input| && nextSub <= subs.Length
      reads this, comps, subs
    {
      && (c == '_' || IsDigit(c) || IsUpper(c)) && t.id < nextSub && CandidateAt(input, n, c).1 == t.id && IsReady()
    }

    lemma StdCode(t: Tree)
      requires t.Std? && nextSub <= subs.Length && AtText(t)
      ensures n + 1 < |input| && input[n] == 'S' && input[n + 1] == t.code && |Text(t)| == 2
      ensures IsStandardSub(t.code) && t.code != '_' && (n + 2 < |input| ==> input[n + 2] != 'B')
    {
      hide Text;
      SpellsStd(input, n, t, nextSub);
    }

    lemma SubNumber(t: Tree)
      requires t.Sub? && nextSub <= subs.Length && AtText(t)
      ensures n + 1 < |input| && input[n] == 'S' && t.id < nextSub
      ensures input[n + 1] == '_' || IsDigit(input[n + 1]) || IsUpper(input[n + 1])
      ensures CandidateAt(input, n + 2, input[n + 1]) == (n + |Text(t)|, t.id)
    {
      hide SeqIdAt, Text;
      SpellsSub(input, n, t, nextSub);
    }

    /** The candidate whose number begins with `c`, if it is registered. */
    method Candidate(c: char) returns (p: Ptr)
      requires n <= |input| && nextSub <= subs.Length && TableFits()
      modifies this`n, this`didSubs
      ensures p.At? ==> p.i < nextComp && p in Store().subs
      ensures var (end, id) := CandidateAt(input, old(n), c);
        n == end && (p.At? <==> 0 <= id < nextSub) && (p.At? ==> p == subs[id] == Store().subs[id])
    {
      var id := 0;
      if c != '_' {
        id := SeqId(c);
        if id < 0 { return Null; }
        id := (id + 1) % 0x1_0000_0000;
      }
      if id >= nextSub { return Null; }
      didSubs := didSubs + 1;
      p := subs[id];
    }

    method ExpandedSub(text: seq<char>) returns (p: Ptr)
      requires Shape() && nextComp < comps.Length
      modifies this`nextComp, this`exhausted, this`expansion, comps
      ensures Shape() && Grew() && exhausted == old(exhausted)
      ensures p == At(old(nextComp)) && nextComp == old(nextComp) + 1 && comps[p.i] == SubStd(text)
      ensures expansion == old(expansion) + |text|
      ensures forall i | 0 <= i < comps.Length && i != old(nextComp) :: comps[i] == old(comps[i])
    {
      hide OperandsFit, TableFits;
      expansion := expansion + |text|;
      p := Make(SubStd(text));
    }

    /** An abbreviation, whose two characters have been read. */
    method Abbreviation(code: char, prefix: bool, ghost t: Tree) returns (p: Ptr)
      requires Valid() && IsStandardSub(code) && nextComp + 4 <= 2 * n && nextSub + 2 <= n
      modifies this, comps, subs
      ensures Valid() && Grew() && Spent(-2, 0)
      ensures p.At? ==> old(nextComp) <= p.i < nextComp
      ensures !prefix && t == Std(code) && old(Peek()) != 'B' && old(IsReady()) ==>
        && p.At? && n == old(n) && nextSub <= subs.Length
        && Has(Store(), p, t, PartCandidates(t), old(nextSub), old(nextComp), nextComp)
    {
      hide OperandsFit, TableFits, Has, PartCandidates, StandardSubFor, Plain, IsVoidTable, Store, KeptBelow;
      KeptThrough(Store(), nextComp);
      p := StandardSubstitution(code, verbose || (prefix && (Peek() == 'C' || Peek() == 'D')));
      if !prefix && t == Std(code) && old(Peek()) != 'B' && old(IsReady()) {
        StoreGrew(0);
        StaysReady(old(Store()), old(nextComp));
        StoredComp(p);
        StdStored(p, code, old(nextComp));
        StdBuilt(Store(), p, t, nextSub, old(nextComp), nextComp);
      }
    }

    lemma StdStored(p: Ptr, code: char, lo: nat)
      requires nextSub <= subs.Length && IsStandardSub(code) && p.At? && lo <= p.i < nextComp <= comps.Length
      requires comps[p.i] == SubStd(if verbose then StandardSubFor(code).full else StandardSubFor(code).simple)
      ensures RepStd(Store(), p, code, lo, nextComp)
    {
      hide StandardSubFor;
    }

    /** The rest of an abbreviation, after its two characters. */
    method StandardSubstitution(code: char, full: bool) returns (p: Ptr)
      requires Valid() && IsStandardSub(code) && nextComp + 4 <= 2 * n && nextSub + 2 <= n
      modifies this, comps, subs
      ensures Valid() && Grew() && Spent(-2, 0)
      ensures p.At? ==> old(nextComp) <= p.i < nextComp
      ensures old(Peek()) != 'B' ==>
        && p.At? && old(nextComp) <= p.i && n == old(n) && nextSub == old(nextSub)
        && comps[p.i] == SubStd(if full then StandardSubFor(code).full else StandardSubFor(code).simple)
        && lastName == (if StandardSubFor(code).lastName == [] then old(lastName) else At(old(nextComp)))
        && (StandardSubFor(code).lastName != [] ==> comps[old(nextComp)] == SubStd(StandardSubFor(code).lastName))
    {
      hide OperandsFit, TableFits, StandardSubFor, Store, KeptBelow;
      KeptThrough(Store(), nextComp);
      var sub := StandardSubFor(code);
      if sub.lastName != [] {
        lastName := Make(SubStd(sub.lastName));
      }
      p := ExpandedSub(if full then sub.full else sub.simple);
      if Peek() == 'B' {
        p := AbiTags(p);
        var _ := AddSubstitution(p, old(nextComp));
      }
    }

    // -------------------------------------------------------------------------------------------
    // Qualifiers
    // -------------------------------------------------------------------------------------------

    predicate AtCvQualifier()
      reads this
    {
      Peek() == 'r' || Peek() == 'V' || Peek() == 'K' || (Peek() == 'D' && PeekNext() == 'x')
    }

    /** The slots lo..hi hold a chain of qualifiers, each the left operand of the one before. */
    ghost predicate CvChain(lo: nat, hi: nat)
      reads this, comps
    {
      && lo <= hi <= comps.Length
      && forall i | lo <= i < hi ::
        && comps[i].Node? && !RefQualKind(comps[i].kind)
        && comps[i].left == (if i + 1 < hi then At(i + 1) else Null)
    }

    /** One step of the loop below: the chain lo..nextComp gets another link. */
    method CvQualifier(memberFn: bool, ghost lo: nat, last: Ptr) returns (q: Ptr)
      requires Valid() && AtCvQualifier()
      requires CvChain(lo, nextComp) && last == (if lo < nextComp then At(nextComp - 1) else Null)
      modifies this`n, this`expansion, this`nextComp, this`exhausted, comps
      ensures Valid() && GrewFrom(lo) && q == At(old(nextComp)) && nextComp == old(nextComp) + 1 && old(n) < n
      ensures CvChain(lo, nextComp)
      ensures forall i | 0 <= i < lo :: comps[i] == old(comps[i])
      ensures n == old(n) + if old(Peek()) == 'D' then 2 else 1
      ensures comps[q.i] == Node(CvKind(old(Peek()), memberFn), Null, Null)
      ensures forall i | lo <= i < old(nextComp) ::
        comps[i].Node? && comps[i].kind == old(comps[i].kind) && comps[i].right == old(comps[i].right)
    {
      hide KeptBelow, OperandsFit, TableFits, OperandsPresent, Store;
      KeptThrough(Store(), lo);
      var c := Peek();
      n := n + if c == 'D' then 2 else 1;
      expansion := expansion + CvSize(c);
      CvQualifiersNeedNothing(c, memberFn);
      q := MakeComp(CvKind(c, memberFn), Null, Null);
      if last.At? {
        SetLeft(last, q);
      }
    }

    /** The first and the last qualifier, if there is any; they take the next free slots. */
    method CvQualifiers(memberFn: bool, ghost quals: string := "") returns (ok: bool, head: Ptr, last: Ptr)
      requires Valid()
      modifies this`n, this`expansion, this`nextComp, this`exhausted, comps
      ensures Valid() && Grew() && nextSub == old(nextSub) && lastName == old(lastName)
      ensures nextComp - old(nextComp) <= n - old(n)
      ensures ok && CvChain(old(nextComp), nextComp)
      ensures old(nextComp) == nextComp ==> head == Null && last == Null
      ensures old(nextComp) < nextComp ==> head == At(old(nextComp)) && last == At(nextComp - 1)
      ensures old(AtCvQualifier()) ==> old(n) < n && old(nextComp) < nextComp
      ensures !old(AtCvQualifier()) ==> n == old(n) && comps[..] == old(comps[..])
      ensures forall i | 0 <= i < old(nextComp) :: comps[i] == old(comps[i])
      ensures !memberFn && old(AtQualifiers(quals)) ==> n == old(n) + |quals| && QualifierChain(quals, old(nextComp))
    {
      hide OperandsFit, TableFits, AreQualifiersAt, QualifierChain, KindsAre, CvChain, Store, KeptBelow;
      KeptThrough(Store(), nextComp);
      ok := true;
      ghost var lo := nextComp;
      head, last := PullQualifiers(memberFn, quals);
      if !memberFn && old(AtQualifiers(quals)) { ChainOfKinds(quals, lo); }
      if !memberFn && Peek() == 'F' && head.At? {
        QualifyThis(head.i, last.i);
      }
    }

    /** The qualifiers at the cursor, in the next free slots. */
    method PullQualifiers(memberFn: bool, ghost quals: string) returns (head: Ptr, last: Ptr)
      requires Valid()
      modifies this`n, this`expansion, this`nextComp, this`exhausted, comps
      ensures Valid() && Grew() && old(n) <= n && old(nextComp) <= nextComp <= old(nextComp) + (n - old(n))
      ensures CvChain(old(nextComp), nextComp)
      ensures old(nextComp) == nextComp ==> head == Null && last == Null && n == old(n)
      ensures old(nextComp) < nextComp ==> head == At(old(nextComp)) && last == At(nextComp - 1)
      ensures old(AtCvQualifier()) ==> old(n) < n && old(nextComp) < nextComp
      ensures !old(AtCvQualifier()) ==> n == old(n) && nextComp == old(nextComp) && comps[..] == old(comps[..])
      ensures forall i | 0 <= i < old(nextComp) :: comps[i] == old(comps[i])
      ensures !memberFn && old(AtQualifiers(quals)) ==>
        n == old(n) + |quals| == old(n) + (nextComp - old(nextComp)) && Peek() != 'F' && KindsAre(quals, old(nextComp), nextComp)
    {
      hide KeptBelow, Store, OperandsFit, TableFits, AreQualifiersAt, CvKind;
      KeptThrough(Store(), nextComp);
      head, last := Null, Null;
      ghost var lo, start := nextComp, n;
      ghost var spelled := !memberFn && AtQualifiers(quals);
      while AtCvQualifier()
        invariant Valid() && Grew() && lo <= nextComp <= lo + (n - start)
        invariant CvChain(lo, nextComp)
        invariant head == if lo == nextComp then Null else At(lo)
        invariant last == if lo == nextComp then Null else At(nextComp - 1)
        invariant lo == nextComp ==> n == start && forall i | 0 <= i < comps.Length :: comps[i] == old(comps[i])
        invariant lo < nextComp ==> old(AtCvQualifier())
        invariant forall i | 0 <= i < lo :: comps[i] == old(comps[i])
        invariant spelled ==> n == start + (nextComp - lo) <= start + |quals| && KindsAre(quals, lo, nextComp)
        decreases |input| - n
      {
        if spelled { NextQualifier(quals, start, n - start); }
        last := CvQualifier(memberFn, lo, last);
        if head.Null? { head := last; }
      }
      if spelled { NextQualifier(quals, start, n - start); }
    }

    /** These qualifiers stand at the cursor, and then something that is neither one nor a function. */
    ghost predicate AtQualifiers(quals: string)
      reads this
    {
      AreQualifiersAt(input, n, quals)
    }

    /** The slots lo..hi hold the first of these qualifiers. */
    ghost predicate KindsAre(quals: string, lo: nat, hi: nat)
      reads comps
    {
      && lo <= hi <= lo + |quals| && hi <= comps.Length
      && forall i | lo <= i < hi ::
        comps[i].Node? && comps[i].kind == CvKind(quals[i - lo], false) && comps[i].right.Null?
    }

    /** The slots from `lo` on hold these qualifiers, each the left operand of the one before. */
    ghost predicate QualifierChain(quals: string, lo: nat)
      requires nextSub <= subs.Length
      reads this, comps, subs
    {
      lo + |quals| == nextComp && Chain(Store(), quals, lo, Null)
    }

    lemma ChainOfKinds(quals: string, lo: nat)
      requires Shape() && CvChain(lo, nextComp) && KindsAre(quals, lo, nextComp) && nextComp == lo + |quals|
      ensures QualifierChain(quals, lo)
    {
    }

    lemma NextQualifier(quals: string, start: nat, k: nat)
      requires AreQualifiersAt(input, start, quals) && n == start + k && k <= |quals|
      ensures k < |quals| ==> Peek() == quals[k] && IsQualifierCode(Peek())
      ensures k == |quals| ==> !AtCvQualifier() && Peek() != 'F'
    {
      if k < |quals| {
        assert input[start..start + |quals|][k] == quals[k];
      }
    }

    /** The qualifiers of a function type apply to 'this': walks the chain from first to last. */
    method QualifyThis(first: nat, last: nat)
      requires Shape() && first <= last < nextComp && CvChain(first, last + 1)
      modifies comps
      ensures Shape() && GrewFrom(first) && CvChain(first, last + 1)
      ensures forall i | 0 <= i < comps.Length ::
        comps[i] == if first <= i <= last then AppliedToThis(old(comps[i])) else old(comps[i])
    {
      hide TableFits, AppliedToThis, KeptBelow, RefQualKind, OperandsInArena;
      var p := first;
      while true
        invariant first <= p <= last
        invariant forall i | 0 <= i < comps.Length ::
          comps[i] == if first <= i < p then AppliedToThis(old(comps[i])) else old(comps[i])
        decreases last - p
      {
        comps[p] := AppliedToThis(comps[p]);
        if p == last { break; }
        p := comps[p].left.i;
      }
      StoreKept(first);
    }

    /** A qualifier around `sub`, or just `sub`. */
    method RefQualifier(sub: Ptr) returns (p: Ptr)
      requires Valid() && InArena(sub, comps.Length)
      modifies this, comps
      ensures Valid() && Grew() && nextSub == old(nextSub) && lastName == old(lastName)
      ensures (p == sub && n == old(n) && nextComp == old(nextComp))
        || (n == old(n) + 1 && p == At(old(nextComp)) && nextComp == old(nextComp) + 1
            && comps[p.i] == Node(if old(Peek()) == 'R' then ReferenceThis else RvalueReferenceThis, sub, Null))
      ensures n == old(n) ==> comps[..] == old(comps[..])
      ensures forall i | 0 <= i < comps.Length && i != old(nextComp) :: comps[i] == old(comps[i])
      ensures n == old(n) <==> old(Peek()) != 'R' && old(Peek()) != 'O'
    {
      hide OperandsFit, TableFits, OperandsPresent, Store, KeptBelow;
      KeptThrough(Store(), nextComp);
      p := sub;
      if Peek() == 'R' {
        expansion := expansion + 2;
        n := n + 1;
        RefQualifiersNeedNothing(p);
        p := MakeComp(ReferenceThis, p, Null);
      } else if Peek() == 'O' {
        expansion := expansion + 3;
        n := n + 1;
        RefQualifiersNeedNothing(p);
        p := MakeComp(RvalueReferenceThis, p, Null);
      }
    }

    // -------------------------------------------------------------------------------------------
    // Encodings and names
    // -------------------------------------------------------------------------------------------

    /** Whether a function of this name carries a return type. The walk visits no slot twice. */
    function HasReturnType(dc: Ptr, fuel: nat): bool
      requires Shape() && InArena(dc, comps.Length)
      reads this, comps, subs
      decreases fuel
    {
      if dc.Null? || fuel == 0 then false
      else match Get(dc)
        case Node(kind, left, _) =>
          if kind.Template? then !IsCtorDtorOrConversion(left, comps.Length)
          else ThisKind(kind) && HasReturnType(left, fuel - 1)
        case _ => false
    }

    function IsCtorDtorOrConversion(dc: Ptr, fuel: nat): bool
      requires Shape() && InArena(dc, comps.Length)
      reads this, comps, subs
      decreases fuel
    {
      if dc.Null? || fuel == 0 then false
      else match Get(dc)
        case Node(kind, _, right) =>
          if kind.QualName? || kind.LocalName? then IsCtorDtorOrConversion(right, fuel - 1) else kind.Conversion?
        case Ctor(_, _) => true
        case Dtor(_, _) => true
        case _ => false
    }

    method MangledName(topLevel: bool, ghost e: Entity := NoEntity) returns (p: Ptr)
      requires Valid()
      modifies this, comps, subs
      ensures Valid() && Produced(p, 2, 1)
      ensures old(AtMangled(e)) ==> BuiltMangled(e, p)
      decreases |input| - n, 9
    {
      hide OperandsFit, TableFits, SpellsEntity, HasEntity, EntityText, Store, IsReady, KeptBelow;
      KeptThrough(Store(), nextComp);
      ghost var spelled := AtMangled(e);
      var ok := CheckChar('_');
      if !ok && topLevel { return Null; }
      ok := CheckChar('Z');
      if !ok { return Null; }
      p := Encoding(e);
      if spelled { EntityEnds(input, old(n) + 2, e, old(nextSub)); }
      if topLevel {
        p := CloneSuffixes(p);
      }
    }

    /** Any number of clone suffixes; nothing changes when there is none. */
    method CloneSuffixes(encoding: Ptr) returns (p: Ptr)
      requires Valid() && InArena(encoding, nextComp)
      modifies this, comps, subs
      ensures Valid() && Grew() && Spent(0, 0) && (p.At? ==> encoding.At? && p.i < nextComp && (p == encoding || old(nextComp) <= p.i))
      ensures !old(AtCloneSuffix()) ==>
        p == encoding && n == old(n) && nextComp == old(nextComp) && nextSub == old(nextSub) && Store() == old(Store())
    {
      hide OperandsFit, TableFits, Store, KeptBelow;
      KeptThrough(Store(), nextComp);
      p := encoding;
      while AtCloneSuffix()
        invariant Valid() && Grew() && Spent(0, 0)
        invariant p.At? ==> encoding.At? && p.i < nextComp && (p == encoding || old(nextComp) <= p.i)
        invariant !old(AtCloneSuffix()) ==>
          p == encoding && n == old(n) && nextComp == old(nextComp) && nextSub == old(nextSub) && Store() == old(Store())
        decreases |input| - n
      {
        p := CloneSuffix(p);
      }
    }

    /** The mangled name of this encoding stands at the cursor. */
    ghost predicate AtMangled(e: Entity)
      requires nextSub <= subs.Length
      reads this, comps, subs
    {
      && n + 2 <= |input| && input[n] == '_' && input[n + 1] == 'Z'
      && SpellsEntity(input, n + 2, e, nextSub) && IsReady()
    }

    twostate predicate BuiltMangled(e: Entity, p: Ptr)
      reads this, comps, subs
    {
      && p.At? && n == old(n) + 2 + |EntityText(e)| && nextSub <= subs.Length
      && HasEntity(Store(), p, e, old(nextSub), old(nextComp), nextComp)
    }

    predicate AtCloneSuffix()
      reads this
    {
      Peek() == '.' && (IsLower(PeekNext()) || PeekNext() == '_' || IsDigit(PeekNext()))
    }

    /** A name made of the clone suffix, next to the encoding. */
    method CloneSuffix(encoding: Ptr) returns (p: Ptr)
      requires Valid() && InArena(encoding, nextComp) && AtCloneSuffix()
      modifies this, comps, subs
      ensures Valid() && Grew() && nextSub == old(nextSub) && old(n) < n && Spent(2, 0)
      ensures p.At? ==> IsNode(p, Clone) && comps[p.i].left == encoding
      ensures p.At? ==> comps[p.i].right.At? && comps[p.i].right.i < comps.Length && comps[comps[p.i].right.i] == Name(input[old(n)..n])
      ensures p.At? ==> encoding.At? && old(nextComp) <= p.i < nextComp
    {
      hide OperandsFit, TableFits, OperandsPresent, Store, KeptBelow;
      KeptThrough(Store(), nextComp);
      var suffix := n;
      var pend := SuffixEnd(n);
      n := pend;
      var name := MakeName(input[suffix..pend]);
      BothNeeded(encoding, name);
      p := MakeComp(Clone, encoding, name);
    }

    /** The end of ". identifier" and any number of ". number" from `start`. */
    method SuffixEnd(start: nat) returns (pend: nat)
      requires start == n < |input| && AtCloneSuffix()
      ensures start + 2 <= pend <= |input|
    {
      pend := start;
      if IsLower(input[pend + 1]) || input[pend + 1] == '_' {
        pend := pend + 2;
        while pend < |input| && (IsLower(input[pend]) || input[pend] == '_')
          invariant start + 2 <= pend <= |input|
        {
          pend := pend + 1;
        }
      }
      while pend + 1 < |input| && input[pend] == '.' && IsDigit(input[pend + 1])
        invariant start <= pend <= |input|
        invariant pend == start ==> IsDigit(input[start + 1])
        invariant pend != start ==> start + 2 <= pend
      {
        pend := pend + 2;
        while pend < |input| && IsDigit(input[pend])
          invariant start + 2 <= pend <= |input|
        {
          pend := pend + 1;
        }
      }
    }

    method Encoding(ghost e: Entity := NoEntity) returns (p: Ptr)
      requires Valid()
      modifies this, comps, subs
      ensures Valid() && Produced(p, 0, 0)
      ensures BuiltEntity(e, p)
      decreases |input| - n, 6
    {
      hide OperandsFit, TableFits, Spells, SpellsAll, SpellsEntity, Has, HasEntity, Text, TextAll, EntityText;
      hide PartCandidates, Store, Plain, IsVoidTable, KeptBelow;
      KeptThrough(Store(), nextComp);
      if AtEntity(e) { EntityStarts(e); }
      if Peek() == 'G' || Peek() == 'T' {
        p := SpecialName();
        return;
      }
      p := NameProduction(if e.NoEntity? then NoTree else e.name);
      if old(AtEntity(e)) { EntityGoesOn(p, e, old(n), old(nextSub), old(nextComp)); }
      if p.Null? || Peek() == '\0' || Peek() == 'E' { return; }
      p := TypedEncoding(p, e, old(nextSub), old(nextComp));
    }

    /** The encoding stands at the cursor. */
    ghost predicate AtEntity(e: Entity)
      requires nextSub <= subs.Length
      reads this, comps, subs
    {
      SpellsEntity(input, n, e, nextSub) && IsReady()
    }

    twostate predicate BuiltEntity(e: Entity, p: Ptr)
      reads this, comps, subs
    {
      old(nextSub <= subs.Length && AtEntity(e)) ==>
        && p.At? && n == old(n) + |EntityText(e)| && nextSub <= subs.Length
        && HasEntity(Store(), p, e, old(nextSub), old(nextComp), nextComp)
    }

    lemma EntityStarts(e: Entity)
      requires nextSub <= subs.Length && AtEntity(e)
      ensures !e.NoEntity? && AtText(e.name) && IsNameTree(e.name) && Peek() != 'G' && Peek() != 'T'
    {
      hide SpellsEntity;
      if e.Variable? {
        VariableSpelled(input, n, e, nextSub);
      } else if e.Routine? {
        RoutineSpelled(input, n, e, nextSub);
      } else {
        EntityKind(e);
        TemplatedSpelled(input, n, e, nextSub);
      }
      SpellsFirst(input, n, e.name, nextSub);
      FirstChar(e.name);
    }

    lemma EntityKind(e: Entity)
      requires SpellsEntity(input, n, e, nextSub)
      ensures !e.NoEntity?
    {
    }

    /** Behind the name there are either the parameters or the end. */
    lemma EntityGoesOn(p: Ptr, e: Entity, start: nat, from: nat, lo: nat)
      requires nextSub <= subs.Length && SpellsEntity(input, start, e, from) && !e.NoEntity?
      requires n == start + |Text(e.name)| && IsVoidTable(builtins)
      requires Has(Store(), p, e.name, PartCandidates(e.name), from, lo, nextComp)
      ensures e.Variable? ==> Peek() == '\0' || Peek() == 'E'
      ensures e.Variable? ==> n == start + |EntityText(e)| && HasEntity(Store(), p, e, from, lo, nextComp)
      ensures e.Routine? ==> Peek() != '\0' && Peek() != 'E' && AtTyped(p, e, from, lo)
      ensures e.Routine? ==> n + |TextAll(Spelled(e.params))| == start + |EntityText(e)|
      ensures e.Templated? ==> Peek() != '\0' && Peek() != 'E' && AtTemplated(p, e, from, lo)
      ensures e.Templated? ==> n + |Text(e.ret)| + |TextAll(Spelled(e.params))| == start + |EntityText(e)|
    {
      hide Spells, Has, SpellsEntity, SpellsAll, Text, TextAll, PartCandidates, EntityText;
      HasCount(Store(), p, e.name, PartCandidates(e.name), from, lo, nextComp);
      if e.Variable? {
        VariableSpelled(input, start, e, from);
        VariableBuilt(Store(), p, e, from, lo, nextComp);
      } else if e.Routine? {
        RoutineSpelled(input, start, e, from);
        ParamsFirst(input, n, Spelled(e.params), nextSub);
        EntityNamePlain(p, e.name, from, lo);
      } else {
        TemplatedSpelled(input, start, e, from);
        SpelledIsNoEnd(input, n, e.ret, nextSub);
        InstancePlain(p, e.name, from, lo);
      }
    }

    lemma EntityNamePlain(p: Ptr, name: Tree, from: nat, lo: nat)
      requires nextSub <= subs.Length && IsEntityName(name)
      requires Has(Store(), p, name, PartCandidates(name), from, lo, nextComp)
      ensures IsPlainName(p)
    {
      EntityNameRoot(Store(), p, name, lo, nextComp);
    }

    /** A name, or a qualified one: functions of such a name carry no return type. */
    ghost predicate IsPlainName(p: Ptr)
      reads comps
    {
      p.At? && p.i < comps.Length
      && (comps[p.i].Name? || (comps[p.i].Node? && comps[p.i].kind.QualName?))
    }

    /** The name of the function has been read, and the parameters follow. */
    ghost predicate AtTyped(p: Ptr, e: Entity, from: nat, lo: nat)
      requires e.Routine? && nextSub <= subs.Length
      reads this, comps, subs
    {
      && AtParams(e.params) && nextSub == from + |PartCandidates(e.name)| && IsPlainName(p)
      && Has(Store(), p, e.name, PartCandidates(e.name), from, lo, nextComp)
    }

    lemma InstancePlain(p: Ptr, name: Tree, from: nat, lo: nat)
      requires nextSub <= subs.Length && name.Instance?
      requires Has(Store(), p, name, PartCandidates(name), from, lo, nextComp)
      ensures IsPlainTemplate(p)
    {
      InstanceRoot(Store(), p, name, lo, nextComp);
    }

    /** A template whose name is neither a constructor, a destructor nor a conversion. */
    ghost predicate IsPlainTemplate(p: Ptr)
      reads comps
    {
      && p.At? && p.i < comps.Length && comps[p.i].Node? && comps[p.i].kind.Template?
      && comps[p.i].left.At? && comps[p.i].left.i < comps.Length && comps[comps[p.i].left.i].Name?
    }

    /** The name of a function template has been read; the return type and the parameters follow. */
    ghost predicate AtTemplated(p: Ptr, e: Entity, from: nat, lo: nat)
      requires e.Templated? && nextSub <= subs.Length
      reads this, comps, subs
    {
      && AtSignature(Function(e.ret, e.params)) && nextSub == from + |PartCandidates(e.name)| && IsPlainTemplate(p)
      && Has(Store(), p, e.name, PartCandidates(e.name), from, lo, nextComp)
    }

    /** The name with the function type that follows it. */
    method TypedEncoding(name: Ptr, ghost e: Entity, ghost from: nat, ghost lo: nat) returns (p: Ptr)
      requires Valid() && name.At? && name.i < nextComp && lo <= nextComp && nextComp + 2 <= 2 * n
      modifies this, comps, subs
      ensures Valid() && Grew() && Spent(if p.At? then -2 else 0, 0)
      ensures p.At? ==> old(nextComp) <= p.i < nextComp && old(n) < n
      ensures e.Routine? && old(AtTyped(name, e, from, lo)) ==>
        && p.At? && n == old(n) + |TextAll(Spelled(e.params))| && nextSub <= subs.Length
        && HasEntity(Store(), p, e, from, lo, nextComp)
      ensures e.Templated? && old(AtTemplated(name, e, from, lo)) ==>
        && p.At? && n == old(n) + |Text(e.ret)| + |TextAll(Spelled(e.params))| && nextSub <= subs.Length
        && HasEntity(Store(), p, e, from, lo, nextComp)
      decreases |input| - n, 11
    {
      hide OperandsFit, TableFits, AtSignature, SpellsAll, Has, HasSignature, HasEntity, Text, TextAll;
      hide PartCandidates, Store, Kept, IsReady, KeptBelow, Spelled, AtParams, SameComp;
      KeptThrough(Store(), nextComp);
      var function_ := BareFunctionType(HasReturnType(name, comps.Length),
                                        if e.Templated? then Function(e.ret, e.params) else NoTree,
                                        if e.Routine? then e.params else []);
      StoreGrew(lo);
      p := NamedFunction(name, function_, e, old(Store()), from, lo, old(nextComp));
    }

    /** The name with its function type. */
    method NamedFunction(name: Ptr, function_: Ptr, ghost e: Entity, ghost a: Arena, ghost from: nat, ghost lo: nat,
                         ghost mid: nat) returns (p: Ptr)
      requires Valid() && name.At? && name.i < nextComp && InArena(function_, nextComp) && nextComp < 2 * n
      modifies this`nextComp, this`exhausted, comps
      ensures Valid() && Grew() && (p.At? <==> function_.At?)
      ensures p.At? ==> p == At(old(nextComp))
      ensures nextComp == old(nextComp) + if p.At? then 1 else 0
      ensures old(PartsRead(name, function_, e, a, from, lo, mid)) ==>
        p.At? && HasEntity(Store(), p, e, from, lo, nextComp)
    {
      hide OperandsFit, TableFits, OperandsPresent, Has, HasSignature, HasEntity, PartCandidates, Store, Added;
      hide Kept, KeptBelow;
      BothNeeded(name, function_);
      p := MakeComp(TypedName, name, function_);
      if old(PartsRead(name, function_, e, a, from, lo, mid)) {
        StoreAdded(p.i);
        if e.Routine? {
          RoutineBuilt(a, old(Store()), Store(), name, function_, e, from, lo, mid, p.i);
        } else {
          TemplatedBuilt(a, old(Store()), Store(), name, function_, e, from, lo, mid, p.i);
        }
      }
    }

    /** The name was read in the arena `a`, and the function type behind it. */
    ghost predicate PartsRead(name: Ptr, function_: Ptr, e: Entity, a: Arena, from: nat, lo: nat, mid: nat)
      requires nextSub <= subs.Length
      reads this, comps, subs
    {
      && (e.Routine? || e.Templated?) && lo <= mid <= nextComp && function_.At?
      && Has(a, name, e.name, PartCandidates(e.name), from, lo, mid) && Kept(a, Store(), lo, mid)
      && var k := from + |PartCandidates(e.name)|;
         if e.Routine? then HasSignature(Store(), function_, e.params, k, mid, nextComp)
         else Has(Store(), function_, Function(e.ret, e.params), PartCandidates(Function(e.ret, e.params)), k, mid, nextComp)
    }

    method NameProduction(ghost t: Tree := NoTree) returns (p: Ptr)
      requires Valid()
      modifies this, comps, subs
      ensures Valid() && Produced(p, 2, 2)
      ensures IsNameTree(t) ==> BuiltParts(t, p)
      decreases |input| - n, 4
    {
      hide OperandsFit, TableFits, Spells, SpellsOpen, SpellsArgs, Has, Text, TextAll, PartCandidates, Store;
      hide Plain, IsVoidTable, KeptBelow, SameComp;
      KeptThrough(Store(), nextComp);
      if IsNameTree(t) && AtText(t) { NameStart(t); }
      if Peek() == 'N' {
        p := NestedName(t);
      } else if Peek() == 'Z' {
        p := LocalNameProduction();
      } else if Peek() == 'U' {
        p := UnqualifiedName();
      } else if Peek() == 'S' {
        p := StdName(t);
      } else {
        p := UnqualifiedName(if t.Instance? then Source(t.name) else t);
        if t.Instance? && old(AtText(t)) { TemplateFollows(p, t, old(n), old(nextSub), old(nextComp)); }
        if Peek() == 'I' {
          KnownStays(old(Store()), Store(), p, old(nextComp));
          p := RegisteredTemplateOf(p, t, old(nextSub), old(nextComp));
        }
      }
    }

    /** The trees that stand for names. */
    predicate IsNameTree(t: Tree) {
      t.Source? || t.Nested? || t.Std? || t.InStd? || t.Instance?
    }

    /** The first character of a name tells which one it is, and no template arguments follow it. */
    lemma NameStart(t: Tree)
      requires IsNameTree(t) && nextSub <= subs.Length && AtText(t)
      ensures t.Nested? <==> Peek() == 'N'
      ensures t.Std? || t.InStd? <==> Peek() == 'S'
      ensures t.Source? || t.Instance? <==> IsDigit(Peek())
      ensures EndsAt(input, n + |Text(t)|)
      ensures t.Source? ==> AtOpen(t)
      ensures t.Instance? ==> AtOpen(Source(t.name))
    {
      hide Text;
      SpellsFirst(input, n, t, nextSub);
      FirstChar(t);
      if t.Instance? { SpellsInstance(input, n, t, nextSub); }
    }

    /** The name of a template has been read, and its arguments follow. */
    lemma TemplateFollows(p: Ptr, t: Tree, start: nat, from: nat, lo: nat)
      requires t.Instance? && nextSub <= subs.Length && Spells(input, start, t, from) && IsVoidTable(builtins)
      requires n == start + |Text(Source(t.name))|
      requires Has(Store(), p, Source(t.name), PartCandidates(Source(t.name)), from, lo, nextComp)
      ensures Peek() == 'I' && AtTemplate(p, t, from, lo)
      ensures n + 2 + |TextAll(t.args)| == start + |Text(t)|
    {
      hide Spells, SpellsArgs, Has, Text, TextAll, Plain;
      SpellsInstance(input, start, t, from);
      SourceParts(t.name);
      HasCount(Store(), p, Source(t.name), [], from, lo, nextComp);
      SourceIsWellFormed(input, start, t, from);
    }

    lemma SourceIsWellFormed(s: string, a: nat, t: Tree, k: nat)
      requires t.Instance? && Spells(s, a, t, k)
      ensures WellFormed(Source(t.name))
    {
    }

    /** A name that starts with a substitution or with "St". */
    method StdName(ghost t: Tree := NoTree) returns (p: Ptr)
      requires Valid()
      requires Peek() == 'S'
      modifies this, comps, subs
      ensures Valid() && Produced(p, 2, 2)
      ensures t.Std? || t.InStd? ==> BuiltParts(t, p)
      decreases |input| - n, 3
    {
      hide OperandsFit, TableFits, Spells, Has, Text, PartCandidates, Store, IsReady, KeptBelow, EndsAt;
      hide OnlyRead, RefQualKind;
      KeptThrough(Store(), nextComp);
      var subst;
      subst, p := StdStem(t);
      if Peek() == 'I' {
        KnownStays(old(Store()), Store(), p, old(nextComp));
        p := StdTemplate(p, subst, old(nextComp));
      }
    }

    /** A substitution or a name in namespace std, on its own. */
    method StdStem(ghost t: Tree) returns (subst: bool, p: Ptr)
      requires Valid()
      requires Peek() == 'S'
      modifies this, comps, subs
      ensures Valid() && Produced(p, 2, 2) && (subst <==> old(PeekNext()) != 't')
      ensures t.Std? || t.InStd? ==> BuiltParts(t, p) && (old(AtText(t)) ==> Peek() != 'I')
      decreases |input| - n, 3, 0
    {
      hide OperandsFit, TableFits, Spells, Has, Text, PartCandidates, Store, IsReady, KeptBelow, OnlyRead;
      hide RefQualKind;
      KeptThrough(Store(), nextComp);
      if AtText(t) { TextEnds(t); }
      if AtText(t) && t.Std? { SpellsStd(input, n, t, nextSub); }
      if AtText(t) && t.InStd? { SpellsInStd(input, n, t, nextSub); }
      subst := PeekNext() != 't';
      if subst {
        p := Substitution(false, t);
      } else {
        p := StdUnqualifiedName(t);
      }
    }

    /** A name that is a substitution already is not registered again. */
    method StdTemplate(name: Ptr, subst: bool, ghost lo: nat) returns (p: Ptr)
      requires Valid() && lo <= nextComp && Known(Store(), name, lo) && InArena(name, nextComp) && (name.At? ==> nextSub + 1 <= n) && Peek() == 'I'
      modifies this, comps, subs
      ensures Valid() && GrewFrom(lo) && Spent(0, -1) && (name.Null? ==> Spent(0, 0))
      ensures p.At? ==> name.At? && old(nextComp) <= p.i < nextComp && old(n) < n && Spent(2, 1)
      decreases |input| - n, 2, 0
    {
      hide OperandsFit, TableFits, Store, KeptBelow, AtArgumentsOf, AtTemplate, Has, PartCandidates, TextAll;
      KeptThrough(Store(), lo);
      if subst {
        p := TemplateOf(name);
      } else {
        p := RegisteredTemplateOf(name, NoTree, 0, lo);
      }
    }

    method StdUnqualifiedName(ghost t: Tree := NoTree) returns (p: Ptr)
      requires Valid()
      requires Peek() == 'S' && PeekNext() == 't'
      modifies this, comps, subs
      ensures Valid() && Produced(p, 3, 2)
      ensures t.InStd? ==> BuiltParts(t, p)
      decreases |input| - n, 2
    {
      hide OperandsFit, TableFits, Spells, Has, Text, PartCandidates, Store, Plain, IsVoidTable, Kept;
      hide KeptBelow, InArena;
      KeptThrough(Store(), nextComp);
      if AtText(t) && t.InStd? { SpellsInStd(input, n, t, nextSub); }
      n := n + 2;
      var std := StdComponent(t);
      p := NameInStd(std, t, old(nextComp));
      expansion := expansion + 3;
    }

    /** The component for "std", behind which the name follows. */
    method StdComponent(ghost t: Tree) returns (std: Ptr)
      requires Valid() && nextComp < 2 * n
      modifies this`nextComp, this`exhausted, comps
      ensures Valid() && Grew() && std == At(old(nextComp)) && nextComp == old(nextComp) + 1
      ensures t.InStd? && old(AtText(Source(t.name))) ==> AtInStd(std, t, old(nextComp))
    {
      hide OperandsFit, TableFits, Spells, Plain, IsVoidTable, Kept, KeptBelow;
      std := MakeName("std");
      if t.InStd? && old(AtText(Source(t.name))) {
        StoreAdded(std.i);
        AddedIsPlain(old(Store()), Store(), std.i, comps[std.i]);
      }
    }

    /** The name behind "std". */
    method NameInStd(std: Ptr, ghost t: Tree, ghost lo: nat) returns (p: Ptr)
      requires Valid() && std.At? && std.i < nextComp && nextComp + 3 <= 2 * n && nextSub + 2 <= n
      modifies this, comps, subs
      ensures Valid() && Grew() && Spent(0, 0)
      ensures p.At? ==> old(nextComp) <= p.i < nextComp && old(n) < n
      ensures t.InStd? && old(AtInStd(std, t, lo)) ==>
        && p.At? && n == old(n) + |Text(Source(t.name))| && nextSub <= subs.Length
        && Has(Store(), p, t, PartCandidates(t), old(nextSub), lo, nextComp)
      decreases |input| - n, 12
    {
      hide OperandsFit, TableFits, OperandsPresent, Spells, SpellsOpen, Has, Text, PartCandidates, Store;
      hide IsReady, Added, Kept, KeptBelow;
      KeptThrough(Store(), nextComp);
      if t.InStd? && AtInStd(std, t, lo) { TextIsOpen(Source(t.name)); }
      var name := UnqualifiedName(if t.InStd? then Source(t.name) else NoTree);
      StoreGrew(lo);
      label Read:
      BothNeeded(std, name);
      p := MakeComp(QualName, std, name);
      if t.InStd? && old(AtInStd(std, t, lo)) {
        StoreAdded@Read(p.i);
        SourceParts(t.name);
        InStdBuilt(old(Store()), old@Read(Store()), Store(), name, t, old(nextSub), lo, p.i);
      }
    }

    /** "std" has been read, and the name follows. */
    ghost predicate AtInStd(std: Ptr, t: Tree, lo: nat)
      requires t.InStd? && nextSub <= subs.Length
      reads this, comps, subs
    {
      std == At(lo) && nextComp == lo + 1 && Store().HasName(std, "std", lo, lo + 1) && AtText(Source(t.name))
    }

    /** The template `p` with the arguments that follow. */
    method TemplateOf(name: Ptr, ghost t: Tree := NoTree, ghost from: nat := 0, ghost lo: nat := 0) returns (p: Ptr)
      requires Valid() && InArena(name, nextComp) && Peek() == 'I'
      modifies this, comps, subs
      ensures Valid() && Grew() && Spent(0, 0)
      ensures p.At? ==> name.At? && old(nextComp) <= p.i < nextComp && old(n) < n && Spent(2, 2)
      ensures p.At? ==> comps[p.i].Node? && comps[p.i].kind.Template? && comps[p.i].left == name
      ensures t.Instance? && old(AtArgumentsOf(name, t, from, lo)) ==>
        && p.At? && n == old(n) + 2 + |TextAll(t.args)| && nextSub <= subs.Length
        && Has(Store(), p, t, PartCandidates(t), from, lo, nextComp)
      decreases |input| - n, 1, 0
    {
      hide OperandsFit, TableFits, OperandsPresent, SpellsArgs, Has, HasParams, TextAll, PartCandidates, Store;
      hide Added, Kept, IsReady, KeptBelow;
      KeptThrough(Store(), nextComp);
      var args := TemplateArgs(if t.Instance? then t.args else []);
      StoreGrew(lo);
      if t.Instance? && old(AtArgumentsOf(name, t, from, lo)) {
        SourceExists(old(Store()), name, t.name, [Source(t.name)], from, lo, old(nextComp));
      }
      label Read:
      BothNeeded(name, args);
      p := MakeComp(Template, name, args);
      if t.Instance? && old(AtArgumentsOf(name, t, from, lo)) {
        StoreAdded@Read(p.i);
        InstanceBuilt(old(Store()), old@Read(Store()), Store(), name, args, t, from, lo, old(nextComp), p.i);
      }
    }

    /** The name of a template has been registered, and the arguments follow. */
    ghost predicate AtArgumentsOf(name: Ptr, t: Tree, from: nat, lo: nat)
      requires t.Instance? && nextSub <= subs.Length
      reads this, comps, subs
    {
      && AtTemplateArgs(t.args) && nextSub == from + 1 && lo <= nextComp
      && Has(Store(), name, Source(t.name), [Source(t.name)], from, lo, nextComp)
    }

    /** The name of a template has been read, and the arguments follow. */
    ghost predicate AtTemplate(name: Ptr, t: Tree, from: nat, lo: nat)
      requires t.Instance? && nextSub <= subs.Length
      reads this, comps, subs
    {
      && n < |input| && input[n] == 'I' && SpellsArgs(input, n + 1, t.args, nextSub + 1) && IsReady()
      && nextSub == from && WellFormed(Source(t.name))
      && Has(Store(), name, Source(t.name), PartCandidates(Source(t.name)), from, lo, nextComp)
    }

    /** The template is a substitution candidate on its own. */
    method RegisteredTemplateOf(name: Ptr, ghost t: Tree := NoTree, ghost from: nat := 0, ghost lo: nat := 0) returns (p: Ptr)
      requires Valid() && lo <= nextComp && Known(Store(), name, lo) && InArena(name, nextComp) && (name.At? ==> nextSub + 1 <= n) && Peek() == 'I'
      modifies this, comps, subs
      ensures Valid() && GrewFrom(lo) && Spent(0, -1) && (name.Null? ==> Spent(0, 0))
      ensures p.At? ==> name.At? && old(nextComp) <= p.i < nextComp && old(n) < n && Spent(2, 1)
      ensures t.Instance? && old(AtTemplate(name, t, from, lo)) ==>
        && p.At? && n == old(n) + 2 + |TextAll(t.args)| && nextSub <= subs.Length
        && Has(Store(), p, t, PartCandidates(t), from, lo, nextComp)
      decreases |input| - n, 1, 1
    {
      hide OperandsFit, TableFits, SpellsArgs, Has, TextAll, PartCandidates, Store, Plain, IsVoidTable;
      hide WellFormed, KeptBelow;
      KeptThrough(Store(), lo);
      if t.Instance? && AtTemplate(name, t, from, lo) {
        SourceExists(Store(), name, t.name, PartCandidates(Source(t.name)), from, lo, nextComp);
      }
      p := Register(name, if t.Instance? then Source(t.name) else NoTree, from, lo);
      if p.Null? { return; }
      if t.Instance? && old(AtTemplate(name, t, from, lo)) {
        OnlySource(t.name);
        HasCount(Store(), p, Source(t.name), [Source(t.name)], from, lo, nextComp);
      }
      p := TemplateOf(name, t, from, lo);
    }

    method NestedName(ghost t: Tree := NoTree) returns (p: Ptr)
      requires Valid()
      modifies this, comps, subs
      ensures Valid() && Produced(p, 2, 2)
      ensures t.Nested? ==> BuiltParts(t, p)
      decreases |input| - n, 1
    {
      hide OperandsFit, TableFits, Spells, Has, Text, NamesText, PartCandidates, SpellsNames, Plain;
      hide IsVoidTable, Store, KeptBelow;
      KeptThrough(Store(), nextComp);
      if AtText(t) && t.Nested? { NestedSpelled(t); }
      var ok := CheckChar('N');
      if !ok { return Null; }
      p := QualifiedNames(t);
      if p.Null? { return; }
      ok := CheckChar('E');
      if !ok { return Null; }
    }

    /** The qualifiers of a member function, if any, and the prefix. */
    method QualifiedNames(ghost t: Tree) returns (p: Ptr)
      requires Valid()
      modifies this, comps, subs
      ensures Valid() && Produced(p, 0, 0)
      ensures t.Nested? && old(AtNames(t)) ==> BuiltNames(t, p)
      decreases |input| - n, 12
    {
      hide OperandsFit, TableFits, NamesText, SpellsNames, Has, Plain, IsVoidTable, Store, KeptBelow;
      KeptThrough(Store(), nextComp);
      if t.Nested? && AtNames(t) { NamesStart(t); }
      var ok, head, last := CvQualifiers(true);
      if !ok { return Null; }
      if t.Nested? && old(AtNames(t)) { StoreSame(); }
      p := QualifiedPrefix(head, last, old(nextComp), t);
    }

    lemma NestedSpelled(t: Tree)
      requires t.Nested? && nextSub <= subs.Length && AtText(t)
      ensures t.names != [] && n + 1 < |input| && input[n] == 'N' && IsDigit(input[n + 1])
      ensures SpellsNames(input, n + 1, t.names, t.special, 0)
      ensures |Text(t)| == 2 + |NamesText(t.names)| + |SpecialText(t.special)|
      ensures var e := n + 1 + |NamesText(t.names)| + |SpecialText(t.special)|; e < |input| && input[e] == 'E'
    {
      hide Text, NamesText;
      SpellsNested(input, n, t, nextSub);
      assert t.names[0..] == t.names;
      SpellsNamesStep(input, n + 1, t.names, t.special, 0, nextSub);
      TextAtBoth(input, n + 1, NamesText(t.names), SpecialText(t.special) + "E");
      SpecialEnds(input, n + 1 + |NamesText(t.names)|, t.special);
    }

    /** A prefix inside the reference qualifier, if any, and the qualifiers head..last from `lo` on. */
    method QualifiedPrefix(head: Ptr, last: Ptr, ghost lo: nat, ghost t: Tree := NoTree) returns (p: Ptr)
      requires Valid() && (head.At? <==> last.At?) && lo <= nextComp
      requires last.At? ==> lo <= head.i < nextComp && lo <= last.i < nextComp
      requires last.At? ==> comps[last.i].Node? && !RefQualKind(comps[last.i].kind)
      modifies this, comps, subs
      ensures Valid() && GrewFrom(lo) && Spent(0, 0)
      ensures p.At? ==> p.i < nextComp && old(n) < n && Known(old(Store()), p, lo)
      ensures head.Null? && t.Nested? && old(AtNames(t)) ==> BuiltNames(t, p)
      decreases |input| - n, 11
    {
      hide OperandsFit, TableFits, SpellsNames, NamesText, Has, Plain, IsVoidTable, Store, KeptBelow;
      hide RefQualKind;
      KeptThrough(Store(), lo);
      if t.Nested? && AtNames(t) { NamesStart(t); }
      var rqual := RefQualifier(Null);
      if t.Nested? && old(AtNames(t)) { StoreSame(); }
      if last.At? { SlotStays(last.i); }
      label Marked:
      var prefix := Prefix(t);
      if last.At? { SlotStays@Marked(last.i); }
      if rqual.At? { SlotStays@Marked(rqual.i); }
      label Read:
      p := AttachPrefix(head, last, rqual, prefix, lo);
      if head.Null? && t.Nested? && old(AtNames(t)) { StoreSame@Read(); }
    }

    /** The prefix inside the qualifiers and the reference qualifier, which are in the slots from `lo` on. */
    method AttachPrefix(head: Ptr, last: Ptr, rqual: Ptr, prefix: Ptr, ghost lo: nat) returns (p: Ptr)
      requires Valid() && (head.At? <==> last.At?) && InArena(head, nextComp) && InArena(prefix, nextComp)
      requires last.At? ==> lo <= head.i && lo <= last.i < nextComp && comps[last.i].Node?
      requires rqual.At? ==> lo <= rqual.i < nextComp && comps[rqual.i].Node?
      modifies comps
      ensures Valid() && GrewFrom(lo) && (p.At? ==> prefix.At? && p.i < nextComp && (p == prefix || lo <= p.i))
      ensures forall i | 0 <= i < lo && i < comps.Length :: comps[i] == old(comps[i])
      ensures head.Null? && rqual.Null? ==> p == prefix && comps[..] == old(comps[..])
    {
      hide OperandsFit, TableFits, KeptBelow, Store;
      KeptThrough(Store(), lo);
      if last.At? { SetLeft(last, prefix); }
      if prefix.Null? { return Null; }
      p := if head.At? then head else prefix;
      if rqual.At? {
        SetLeft(rqual, p);
        p := rqual;
      }
    }

    /** The names of a nested name, and its end, stand at the cursor. */
    ghost predicate AtNames(t: Tree)
      requires t.Nested? && nextSub <= subs.Length
      reads this, comps, subs
    {
      t.names != [] && SpellsNames(input, n, t.names, t.special, 0) && IsReady()
    }

    /** All names have been read and joined. */
    twostate predicate BuiltNames(t: Tree, p: Ptr)
      requires t.Nested?
      reads this, comps, subs
    {
      && p.At? && n == old(n) + |NamesText(t.names)| + |SpecialText(t.special)| && nextSub <= subs.Length
      && Has(Store(), p, t, PartCandidates(t), old(nextSub), old(nextComp), nextComp)
    }

    lemma NamesStart(t: Tree)
      requires t.Nested? && nextSub <= subs.Length && AtNames(t)
      ensures n < |input| && IsDigit(Peek())
    {
      SpellsNamesStep(input, n, t.names, t.special, 0, nextSub);
    }

    method Prefix(ghost t: Tree := NoTree) returns (p: Ptr)
      requires Valid()
      modifies this, comps, subs
      ensures Valid() && Produced(p, 1, 0)
      ensures t.Nested? && old(AtNames(t)) ==> BuiltNames(t, p)
      decreases |input| - n, 10
    {
      hide OperandsFit, TableFits, NamesText, SpellsNames, SpellsEnd, HasNames, Has, IsReady, Store, KeptBelow;
      KeptThrough(Store(), nextComp);
      p := Null;
      var more := true;
      ghost var k := 0;
      ghost var spelled := t.Nested? && AtNames(t);
      if spelled { NoNamesYet(t); }
      while more && Peek() != '\0' && Peek() != 'E'
        invariant Valid() && Grew() && Spent(0, 0)
        invariant p.At? ==> p.i < nextComp && old(n) < n && Spent(1, 0) && Known(old(Store()), p, old(nextComp))
        invariant !more ==> p.Null?
        invariant spelled ==> more && NamesRead(p, t, k, old(nextSub), old(nextComp), old(n))
        decreases more, |input| - n
      {
        if spelled { NameFollows(p, t, k, old(nextSub), old(nextComp), old(n)); }
        more, p := PrefixStep(p, t, k, old(nextSub), old(nextComp), old(n));
        if spelled { k := k + 1; }
      }
      if spelled { NamesAreOver(p, t, k, old(nextSub), old(nextComp), old(n)); }
      if Peek() == '\0' { return Null; }
    }

    /** The first `k` names have been read, and the others follow; or all of the nested name. */
    ghost predicate NamesRead(p: Ptr, t: Tree, k: nat, from: nat, lo: nat, start: nat)
      requires t.Nested? && nextSub <= subs.Length
      reads this, comps, subs
    {
      && lo <= nextComp && IsVoidTable(builtins)
      && if k <= |t.names| then
           && SpellsNames(input, n, t.names, t.special, k)
           && HasNames(Store(), p, t.names, t.special, k, from, lo, nextComp)
           && n + |NamesText(t.names[k..])| == start + |NamesText(t.names)|
           && (k > 0 ==> Store().HasName(lastName, NameText(t.names[k - 1]), lo, nextComp))
         else
           && p.At? && n < |input| && input[n] == 'E' && n == start + |NamesText(t.names)| + |SpecialText(t.special)|
           && Has(Store(), p, t, PartCandidates(t), from, lo, nextComp)
    }

    lemma NoNamesYet(t: Tree)
      requires t.Nested? && nextSub <= subs.Length && AtNames(t)
      ensures NamesRead(Null, t, 0, nextSub, nextComp, n)
    {
      assert t.names[0..] == t.names;
    }

    /** While the prefix goes on, another name or the constructor stands at the cursor. */
    lemma NameFollows(p: Ptr, t: Tree, k: nat, from: nat, lo: nat, start: nat)
      requires t.Nested? && nextSub <= subs.Length && NamesRead(p, t, k, from, lo, start) && Peek() != 'E'
      ensures AtName(p, t, k, from, lo, start) || AtConstructor(p, t, k, from, lo, start)
    {
      hide NamesText, RepNames, Registered, SourceText, Prefixes, PartCandidates;
      if k < |t.names| {
        SpellsNamesStep(input, n, t.names, t.special, k, nextSub);
      } else {
        NoNames(t.names, SpecialText(t.special) + "E");
        SpecialEnds(input, n, t.special);
      }
    }

    lemma NamesAreOver(p: Ptr, t: Tree, k: nat, from: nat, lo: nat, start: nat)
      requires t.Nested? && nextSub <= subs.Length && NamesRead(p, t, k, from, lo, start)
      requires Peek() == '\0' || Peek() == 'E'
      ensures Peek() == 'E' && p.At? && n == start + |NamesText(t.names)| + |SpecialText(t.special)|
      ensures Has(Store(), p, t, PartCandidates(t), from, lo, nextComp)
    {
      hide NamesText, RepNames, Registered, SourceText, Prefixes, Has, PartCandidates, HasNames;
      if k < |t.names| {
        SpellsNamesStep(input, n, t.names, t.special, k, nextSub);
      } else if k == |t.names| {
        NoNames(t.names, SpecialText(t.special) + "E");
        NoNames(t.names, "");
        SpecialEnds(input, n, t.special);
        NamesDone(Store(), p, t, from, lo, nextComp);
        NamesExist(Store(), p, t.names, t.special, from, lo, nextComp);
      }
    }

    /** The prefix `ret` with one more component; `more` is false when the source gives up. */
    method PrefixStep(ret: Ptr, ghost t: Tree, ghost k: nat, ghost from: nat, ghost lo: nat,
                      ghost start: nat) returns (more: bool, p: Ptr)
      requires Valid() && InArena(ret, nextComp) && Peek() != '\0' && Peek() != 'E'
      modifies this, comps, subs
      ensures Valid() && Grew() && Spent(0, 0)
      ensures p.At? ==> p.i < nextComp && (p == ret || Known(old(Store()), p, old(nextComp))) && old(n) < n && Spent(if ret.At? then 0 else 1, 0)
      ensures more ==> old(n) < n
      ensures !more ==> p.Null?
      ensures t.Nested? && old(AtName(ret, t, k, from, lo, start) || AtConstructor(ret, t, k, from, lo, start)) ==>
        more && NamesRead(p, t, k + 1, from, lo, start)
      decreases |input| - n, 9
    {
      hide OperandsFit, TableFits, Spells, SpellsEnd, Has, Text, PartCandidates, NamesText, SpellsNames;
      hide HasNames, OpenNames, Store, IsReady, KeptBelow, IsVoidTable;
      KeptThrough(Store(), nextComp);
      if t.Nested? && AtConstructor(ret, t, k, from, lo, start) { ConstructorFollows(ret, t, k, from, lo, start); }
      var peek := Peek();
      if (peek == 'M' || peek == 'I') && ret.Null? { return false, Null; }
      if peek == 'M' {
        n := n + 1;
        return true, ret;
      }
      more, p := NextPrefix(ret, t, k, from, lo, start);
      if !more { return; }
      if peek != 'S' && Peek() != 'E' {
        KnownStays(old(Store()), Store(), p, old(nextComp));
        more, p := RegisterPrefix(p, t, k + 1, from, lo, old(nextComp));
      } else if t.Nested? && old(AtName(ret, t, k, from, lo, start)) {
        AllNamesRead(Store(), p, t.names, t.special, from, lo, nextComp);
      }
    }

    /** One more component, joined to the prefix `ret`, but not yet registered. */
    method NextPrefix(ret: Ptr, ghost t: Tree, ghost k: nat, ghost from: nat, ghost lo: nat,
                      ghost start: nat) returns (known: bool, p: Ptr)
      requires Valid() && InArena(ret, nextComp) && (Peek() == 'I' ==> ret.At?)
      modifies this, comps, subs
      ensures Valid() && Grew() && Spent(0, 0)
      ensures p.At? ==> p.i < nextComp && Known(old(Store()), p, old(nextComp)) && old(n) < n && Spent(if ret.At? then 0 else 1, 1)
      ensures known && old(Peek()) == 'S' ==> old(n) < n
      ensures !known ==> p.Null?
      ensures t.Nested? && old(AtName(ret, t, k, from, lo, start)) ==> known && AfterName(p, t, k + 1, from, lo, start)
      ensures t.Nested? && old(AtConstructor(ret, t, k, from, lo, start)) ==>
        known && Peek() == 'E' && NamesRead(p, t, k + 1, from, lo, start)
      decreases |input| - n, 8, 2
    {
      hide OperandsFit, TableFits, Spells, SpellsEnd, Has, Text, PartCandidates, NamesText, SpellsNames;
      hide HasNames, OpenNames, Kept, Added, Store, IsReady, KeptBelow;
      KeptThrough(Store(), nextComp);
      var peek := Peek();
      var dc;
      known, dc := NamedComponent(ret, t, k, from, lo, start);
      if !known { return false, Null; }
      p := JoinPrefix(ret, dc, peek == 'I', t, k, from, lo, old(nextComp), old(Store()), lastName);
    }

    /** The component itself, which is a name or a constructor of the nested name. */
    method NamedComponent(ret: Ptr, ghost t: Tree, ghost k: nat, ghost from: nat, ghost lo: nat,
                          ghost start: nat) returns (known: bool, dc: Ptr)
      requires Valid() && InArena(ret, nextComp)
      modifies this, comps, subs
      ensures Valid() && Produced(dc, 1, 1)
      ensures known && old(Peek()) == 'S' ==> old(n) < n
      ensures t.Nested? && old(AtName(ret, t, k, from, lo, start)) ==>
        && known && old(Peek()) != 'I' && AtJoin(ret, dc, t, k, from, lo, old(nextComp), old(Store()))
        && NameWasRead(dc, t, k + 1, start)
      ensures t.Nested? && old(AtConstructor(ret, t, k, from, lo, start)) ==>
        && known && old(Peek()) != 'I' && AtJoinSpecial(ret, dc, t, from, lo, old(nextComp), old(Store()), lastName)
        && Peek() == 'E' && n == start + |NamesText(t.names)| + |SpecialText(t.special)|
      decreases |input| - n, 8, 1
    {
      hide OperandsFit, TableFits, Spells, SpellsEnd, Has, Text, PartCandidates, NamesText, SpellsNames;
      hide HasNames, OpenNames, Kept, Added, Store, IsReady, KeptBelow;
      KeptThrough(Store(), nextComp);
      ghost var name := t.Nested? && AtName(ret, t, k, from, lo, start);
      ghost var constructor_ := t.Nested? && AtConstructor(ret, t, k, from, lo, start);
      if constructor_ { ConstructorFollows(ret, t, k, from, lo, start); }
      known, dc := PrefixComponent(if name then Source(t.names[k]) else NoTree, if constructor_ then t.special else Ordinary);
      StoreGrew(lo);
      if name { NameIsRead(old(Store()), dc, t, k, old(n), old(nextComp)); }
      if constructor_ { StoreAdded(dc.i); }
    }

    /** Name number `k - 1` has just been read, and the others follow. */
    ghost predicate NameWasRead(dc: Ptr, t: Tree, k: nat, start: nat)
      requires t.Nested?
      reads this
    {
      && 0 < k <= |t.names| && IsVoidTable(builtins) && lastName == dc && SpellsNames(input, n, t.names, t.special, k)
      && n + |NamesText(t.names[k..])| == start + |NamesText(t.names)|
      && (Peek() == 'E' <==> k == |t.names| && t.special.Ordinary?)
    }

    /** The constructor begins with its letter, and is the end of the nested name. */
    lemma ConstructorFollows(p: Ptr, t: Tree, k: nat, from: nat, lo: nat, start: nat)
      requires t.Nested? && nextSub <= subs.Length && AtConstructor(p, t, k, from, lo, start) && Shape()
      ensures AtSpecial(t.special) && (Peek() == 'C' || Peek() == 'D') && p.At? && t.names != []
      ensures n == start + |NamesText(t.names)| && |SpecialText(t.special)| == 2 && n + 2 < |input| && input[n + 2] == 'E'
    {
      hide NamesText, RepNames, Registered, PartCandidates;
      NoNames(t.names, "");
      NamesExist(Store(), p, t.names, t.special, from, lo, nextComp);
    }

    /** A name has been read: what follows it, and where it is. */
    lemma NameIsRead(a: Arena, dc: Ptr, t: Tree, k: nat, at: nat, hi: nat)
      requires t.Nested? && nextSub <= subs.Length && k < |t.names| && SpellsNames(input, at, t.names, t.special, k)
      requires n == at + |Text(Source(t.names[k]))|
      requires Has(Store(), dc, Source(t.names[k]), PartCandidates(Source(t.names[k])), |a.subs|, hi, nextComp)
      ensures SpellsNames(input, n, t.names, t.special, k + 1)
      ensures n + |NamesText(t.names[k + 1..])| == at + |NamesText(t.names[k..])|
      ensures Peek() == 'E' <==> k + 1 == |t.names| && t.special.Ordinary?
      ensures Has(Store(), dc, Source(t.names[k]), [], |a.subs|, hi, nextComp)
    {
      hide Has, NamesText, SpellsNames, Text;
      SpellsNamesStep(input, at, t.names, t.special, k, 0);
      SourceParts(t.names[k]);
    }

    /** The first `k` names have been joined, and the others follow. */
    ghost predicate AfterName(p: Ptr, t: Tree, k: nat, from: nat, lo: nat, start: nat)
      requires t.Nested? && nextSub <= subs.Length
      reads this, comps, subs
    {
      && 0 < k <= |t.names| && lo <= nextComp && IsVoidTable(builtins) && p.At?
      && SpellsNames(input, n, t.names, t.special, k) && OpenNames(Store(), p, t.names, k, from, lo, nextComp)
      && n + |NamesText(t.names[k..])| == start + |NamesText(t.names)|
      && Store().HasName(lastName, NameText(t.names[k - 1]), lo, nextComp)
      && (Peek() == 'E' <==> k == |t.names| && t.special.Ordinary?)
    }

    /** A constructor or destructor stands at the cursor, and there is a last name. */
    ghost predicate AtSpecial(special: Special)
      reads this
    {
      !special.Ordinary? && SpellsEnd(input, n, special) && lastName.At?
    }

    /** The constructor or destructor of the last name, in the next slot. */
    twostate predicate MadeSpecial(p: Ptr, special: Special)
      reads this, comps, subs
    {
      && n == old(n) + 2 && nextSub == old(nextSub) && lastName == old(lastName)
      && nextComp == old(nextComp) + 1 && p == At(old(nextComp)) && nextComp <= comps.Length
      && comps[p.i] == SpecialComp(special, lastName)
      && (forall i | 0 <= i < comps.Length && i != p.i :: comps[i] == old(comps[i]))
      && (forall j | 0 <= j < subs.Length :: subs[j] == old(subs[j]))
    }

    /** Name number `k` stands at the cursor. */
    ghost predicate AtName(p: Ptr, t: Tree, k: nat, from: nat, lo: nat, start: nat)
      requires t.Nested? && nextSub <= subs.Length
      reads this, comps, subs
    {
      NamesRead(p, t, k, from, lo, start) && k < |t.names| && AtText(Source(t.names[k])) && IsDigit(Peek())
    }

    /** The constructor or destructor of the last name stands at the cursor. */
    ghost predicate AtConstructor(p: Ptr, t: Tree, k: nat, from: nat, lo: nat, start: nat)
      requires t.Nested? && nextSub <= subs.Length
      reads this, comps, subs
    {
      && NamesRead(p, t, k, from, lo, start) && k == |t.names| && !t.special.Ordinary?
      && SpellsEnd(input, n, t.special)
    }

    /** The name `dc` inside the prefix `ret`, or on its own when there is no prefix yet. */
    method JoinPrefix(ret: Ptr, dc: Ptr, template: bool, ghost t: Tree, ghost k: nat, ghost from: nat,
                      ghost lo: nat, ghost hi: nat, ghost a: Arena, ghost last: Ptr) returns (p: Ptr)
      requires Valid() && InArena(ret, nextComp) && InArena(dc, nextComp) && (dc.At? ==> nextComp < 2 * n)
      modifies this`nextComp, this`exhausted, comps
      ensures Valid() && Grew()
      ensures ret.Null? ==> p == dc && nextComp == old(nextComp)
      ensures ret.At? ==> (p.At? <==> dc.At?) && nextComp == old(nextComp) + if p.At? then 1 else 0
      ensures p.At? ==> p.i < nextComp && (p == dc || old(nextComp) <= p.i)
      ensures !template && t.Nested? && old(AtJoin(ret, dc, t, k, from, lo, hi, a)) ==>
        p.At? && OpenNames(Store(), p, t.names, k + 1, from, lo, nextComp)
        && Store().HasName(dc, NameText(t.names[k]), lo, nextComp)
      ensures !template && t.Nested? && old(AtJoinSpecial(ret, dc, t, from, lo, hi, a, last)) ==>
        p.At? && Has(Store(), p, t, PartCandidates(t), from, lo, nextComp)
    {
      hide OperandsFit, TableFits, OperandsPresent, Has, HasNames, OpenNames, Kept, Store, Added;
      hide PartCandidates, KeptBelow;
      KeptThrough(Store(), nextComp);
      p := dc;
      if ret.At? {
        BothNeeded(ret, dc);
        p := MakeComp(if template then Template else QualName, ret, dc);
      }
      if !template && t.Nested? && old(AtJoin(ret, dc, t, k, from, lo, hi, a)) {
        OneNameMore(a, old(Store()), ret, dc, t.names, t.special, k, from, lo, hi, old(nextComp));
        if ret.At? { StoreAdded(p.i); } else { StoreSame(); }
        NameJoined(a, old(Store()), Store(), ret, dc, p, t.names, t.special, k, from, lo, hi, old(nextComp));
        LastNameStays(old(Store()), Store(), dc, t.names[k], |a.subs|, lo, hi, old(nextComp), nextComp);
      }
      if !template && t.Nested? && old(AtJoinSpecial(ret, dc, t, from, lo, hi, a, last)) {
        NamesExist(a, ret, t.names, t.special, from, lo, hi);
        StoreAdded(p.i);
        SpecialBuilt(a, old(Store()), Store(), ret, last, t, from, lo, hi);
      }
    }

    /** The constructor or destructor has been read, and is to be joined to the names before it. */
    ghost predicate AtJoinSpecial(ret: Ptr, dc: Ptr, t: Tree, from: nat, lo: nat, hi: nat, a: Arena, last: Ptr)
      requires t.Nested? && nextSub <= subs.Length
      reads this, comps, subs
    {
      && !t.special.Ordinary? && lo <= hi && nextComp == hi + 1 && dc == At(hi)
      && HasNames(a, ret, t.names, t.special, |t.names|, from, lo, hi)
      && a.HasName(last, NameText(t.names[|t.names| - 1]), lo, hi)
      && Added(a, Store(), hi, SpecialComp(t.special, last))
    }

    /** The name has been read, and is to be joined to those before it. */
    ghost predicate AtJoin(ret: Ptr, dc: Ptr, t: Tree, k: nat, from: nat, lo: nat, hi: nat, a: Arena)
      requires t.Nested? && nextSub <= subs.Length
      reads this, comps, subs
    {
      && k < |t.names| && HasNames(a, ret, t.names, t.special, k, from, lo, hi) && Kept(a, Store(), lo, hi)
      && lo <= hi <= nextComp && Has(Store(), dc, Source(t.names[k]), [], |a.subs|, hi, nextComp)
    }

    /** A prefix is a substitution candidate; gives up when there is none. */
    method RegisterPrefix(prefix: Ptr, ghost t: Tree, ghost k: nat, ghost from: nat, ghost lo: nat, ghost hi: nat)
      returns (more: bool, p: Ptr)
      requires Valid() && Known(Store(), prefix, hi) && InArena(prefix, nextComp) && (prefix.At? ==> nextSub < n)
      modifies this`nextSub, this`exhausted, subs
      ensures Valid() && GrewFrom(hi) && p == prefix && nextSub == old(nextSub) + if p.At? then 1 else 0
      ensures more <==> p.At?
      ensures more ==> Store() == old(Store()).(subs := old(Store()).subs + [p])
      ensures t.Nested? && (k < |t.names| || !t.special.Ordinary?) && old(AtPrefix(prefix, t, k, from, lo)) ==>
        more && HasNames(Store(), p, t.names, t.special, k, from, lo, nextComp)
    {
      hide OperandsFit, TableFits, HasNames, OpenNames, Store, KeptBelow;
      KeptThrough(Store(), nextComp);
      p := prefix;
      more := AddSubstitution(p, hi);
      if !more { p := Null; }
      if more { StoreRegistered(p); }
      if t.Nested? && (k < |t.names| || !t.special.Ordinary?) && old(AtPrefix(prefix, t, k, from, lo)) {
        NameRegistered(old(Store()), Store(), p, t.names, t.special, k, from, lo, nextComp);
      }
    }

    /** The first `k` names have been joined. */
    ghost predicate AtPrefix(p: Ptr, t: Tree, k: nat, from: nat, lo: nat)
      requires t.Nested? && nextSub <= subs.Length
      reads this, comps, subs
    {
      p.At? && OpenNames(Store(), p, t.names, k, from, lo, nextComp)
    }

    /** One component of a prefix; `known` is false when the text cannot go on with one. */
    method PrefixComponent(ghost t: Tree := NoTree, ghost special: Special := Ordinary) returns (known: bool, p: Ptr)
      requires Valid()
      modifies this, comps, subs
      ensures Valid() && Produced(p, 1, 1)
      ensures known && old(Peek()) == 'S' ==> old(n) < n
      ensures t.Source? ==> BuiltParts(t, p) && (old(AtText(t)) ==> known && lastName == p)
      ensures old(AtSpecial(special)) ==> known && MadeSpecial(p, special)
      decreases |input| - n, 8, 0
    {
      hide OperandsFit, TableFits, Spells, SpellsOpen, Has, Text, PartCandidates, Store, IsReady, KeptBelow;
      hide WrapsFunction, Requalified, OnlyRead, LastCandidate, IsBuiltinLetter;
      KeptThrough(Store(), nextComp);
      if t.Source? && AtText(t) {
        TextIsOpen(t);
        SourceStarts(t);
      }
      known, p := true, Null;
      var peek := Peek();
      if peek == 'D' {
        if PeekNext() == 'T' || PeekNext() == 't' {
          p := Type();
        } else {
          p := UnqualifiedName(NoTree, special);
        }
      } else if IsDigit(peek) || IsLower(peek) || peek == 'C' || peek == 'U' || peek == 'L' {
        p := UnqualifiedName(t, special);
      } else if peek == 'S' {
        p := Substitution(true);
      } else if peek == 'I' {
        p := TemplateArgs();
      } else if peek == 'T' {
        p := TemplateParameter();
      } else {
        known := false;
      }
    }

    lemma TextIsOpen(t: Tree)
      requires nextSub <= subs.Length && AtText(t)
      ensures AtOpen(t)
    {
    }

    method UnqualifiedName(ghost t: Tree := NoTree, ghost special: Special := Ordinary) returns (p: Ptr)
      requires Valid()
      modifies this, comps, subs
      ensures Valid() && Produced(p, 3, 2)
      ensures t.Source? ==> BuiltOpen(t, p) && (old(AtOpen(t)) ==> lastName == p)
      ensures old(AtSpecial(special)) ==> MadeSpecial(p, special)
      decreases |input| - n, 3
    {
      hide OperandsFit, TableFits, SpellsOpen, Store, KeptBelow, IsNode, IsReady, Has, Text, PartCandidates;
      hide AtOpen, AtSpecial;
      KeptThrough(Store(), nextComp);
      var more;
      more, p := UntaggedName(t, special);
      if !more { return Null; }
      if t.Source? && old(AtOpen(t)) { NoTagFollows(t); }
      if old(AtSpecial(special)) { NoTagAfterSpecial(special); }
      if Peek() == 'B' {
        p := AbiTags(p);
      }
    }

    twostate lemma NoTagFollows(t: Tree)
      requires old(nextSub <= subs.Length && AtOpen(t)) && n == old(n) + |Text(t)|
      ensures Peek() != 'B'
    {
      hide Text, WellFormed, RefersBack;
    }

    twostate lemma NoTagAfterSpecial(special: Special)
      requires old(AtSpecial(special)) && n == old(n) + 2
      ensures Peek() != 'B'
    {
    }

    /** Neither a tag nor template arguments follow the text of a tree. */
    lemma TextEnds(t: Tree)
      requires nextSub <= subs.Length && AtText(t)
      ensures EndsAt(input, n + |Text(t)|)
    {
    }

    /** A name without tags; `more` is false where the source gives up at once. */
    method UntaggedName(ghost t: Tree := NoTree, ghost special: Special := Ordinary) returns (more: bool, p: Ptr)
      requires Valid()
      modifies this, comps, subs
      ensures Valid() && Produced(p, 3, 2)
      ensures !more ==> p.Null?
      ensures t.Source? ==> BuiltOpen(t, p) && (old(AtOpen(t)) ==> more && lastName == p)
      ensures old(AtSpecial(special)) ==> more && MadeSpecial(p, special)
      decreases |input| - n, 2
    {
      hide OperandsFit, TableFits, SpellsOpen, Has, Text, PartCandidates, Store, KeptBelow;
      KeptThrough(Store(), nextComp);
      if t.Source? && AtOpen(t) { SourceStarts(t); }
      more, p := true, Null;
      var peek := Peek();
      if IsDigit(peek) {
        p := SourceName(t);
      } else if IsLower(peek) {
        p := OperatorFunctionName();
      } else if peek == 'C' || peek == 'D' {
        p := CtorDtorName(special);
      } else if peek == 'L' {
        p := LocalSourceName();
        more := p.At?;
      } else if peek == 'U' && PeekNext() == 'l' {
        p := LambdaProduction();
      } else if peek == 'U' && PeekNext() == 't' {
        p := UnnamedType();
      } else {
        more := false;
      }
    }

    /** A source name begins with its length. */
    lemma SourceStarts(t: Tree)
      requires t.Source? && nextSub <= subs.Length && AtOpen(t)
      ensures IsDigit(Peek())
    {
      SourceRead(input, n, t.name);
    }

    method LocalSourceName() returns (p: Ptr)
      requires Peek() == 'L'
      requires Valid()
      modifies this, comps, subs
      ensures Valid() && Produced(p, 3, 2)
    {
      hide OperandsFit, TableFits, Store, KeptBelow, BuiltOpen;
      KeptThrough(Store(), nextComp);
      n := n + 1;
      p := SourceName();
      if p.At? {
        var ok := Discriminator();
        if !ok { return Null; }
      }
    }

    method OperatorFunctionName() returns (p: Ptr)
      requires Valid()
      modifies this, comps, subs
      ensures Valid() && Produced(p, 3, 2)
      decreases |input| - n, 1
    {
      hide OperandsFit, TableFits, OperandsPresent, Store, KeptBelow, BuiltOpen;
      KeptThrough(Store(), nextComp);
      p := OperatorName();
      if p.At? {
        match Get(p)
        case Operator(op) =>
          expansion := expansion + 7 + |op.name|;
          if HasCode(op, 'l', 'i') {
            var name := SourceName();
            BothNeeded(p, name);
            p := MakeComp(Unary, p, name);
          }
        case _ =>
      }
    }

    method OperatorName() returns (p: Ptr)
      requires Valid()
      modifies this, comps, subs
      ensures Valid() && Produced(p, 3, 2)
      ensures p.At? ==> old(n) + 1 < |input| && IsOperatorNode(p, input[old(n)], input[old(n) + 1], old(isExpression))
      decreases |input| - n, 0
    {
      hide OperandsFit, TableFits, Store, KeptBelow, IsOperatorNode;
      KeptThrough(Store(), nextComp);
      var c1 := NextChar();
      var c2 := NextChar();
      p := OperatorOf(c1, c2);
    }

    /** The operator whose two characters have been read. */
    method OperatorOf(c1: char, c2: char) returns (p: Ptr)
      requires Valid() && (c2 != '\0' ==> nextComp + 4 <= 2 * n)
      modifies this, comps, subs
      ensures Valid() && Grew() && Spent(if c2 == '\0' then 0 else -1, 0)
      ensures p.At? ==> c1 != '\0' && c2 != '\0' && old(nextComp) <= p.i < nextComp
      ensures p.At? ==> IsOperatorNode(p, c1, c2, old(isExpression))
      decreases |input| - n, if c2 == '\0' then 0 else 9, 0
    {
      hide OperandsFit, TableFits, Store, KeptBelow, BuiltOpen, SortedByCode, IsNode, SameComp;
      KeptThrough(Store(), nextComp);
      if c1 == 'v' && IsDigit(c2) {
        var name := SourceName();
        p := MakeExtendedOperator(c2 as int - '0' as int, name);
      } else if c1 == 'c' && c2 == 'v' {
        p := ConversionOperator();
      } else {
        var op := FindOperator(c1, c2);
        if op.None? { return Null; }
        p := Make(Operator(op.value));
      }
    }

    /** What the two characters of an operator stand for. */
    ghost predicate IsOperatorNode(p: Ptr, c1: char, c2: char, expression: bool)
      reads comps
    {
      && p.At? && p.i < comps.Length
      && if c1 == 'v' && IsDigit(c2) then
           comps[p.i].ExtendedOperator? && comps[p.i].args == c2 as int - '0' as int
         else if c1 == 'c' && c2 == 'v' then
           IsNode(p, if expression then Cast else Conversion)
         else
           comps[p.i].Operator? && comps[p.i].op in operators && HasCode(comps[p.i].op, c1, c2)
    }

    method ConversionOperator() returns (p: Ptr)
      requires Valid()
      modifies this, comps, subs
      ensures Valid() && Grew() && Spent(0, 0)
      ensures p.At? ==> old(nextComp) <= p.i < nextComp && Spent(0, 0)
      ensures p.At? ==> IsNode(p, if old(isExpression) then Cast else Conversion)
      decreases |input| - n, 8
    {
      hide OperandsFit, TableFits, OperandsPresent, Store, KeptBelow, Built, WrapsFunction, Requalified;
      hide OnlyRead, LastCandidate, IsBuiltinLetter;
      KeptThrough(Store(), nextComp);
      var wasConversion := isConversion;
      isConversion := !isExpression;
      var type_ := Type();
      TypesNeedLeft(type_);
      p := MakeComp(if isConversion then Conversion else Cast, type_, Null);
      isConversion := wasConversion;
    }

    method LambdaProduction() returns (p: Ptr)
      requires Valid()
      modifies this, comps, subs
      ensures Valid() && Produced(p, 3, 2)
      decreases |input| - n, 1
    {
      hide OperandsFit, TableFits, Store, KeptBelow, BuiltParams;
      KeptThrough(Store(), nextComp);
      var ok := CheckChar('U');
      if !ok { return Null; }
      ok := CheckChar('l');
      if !ok { return Null; }
      var parms := ParmList();
      if parms.Null? { return Null; }
      ok := CheckChar('E');
      if !ok { return Null; }
      p := NumberedLambda(parms);
    }

    method NumberedLambda(parms: Ptr) returns (p: Ptr)
      requires Valid() && InArena(parms, nextComp)
      modifies this, comps, subs
      ensures Valid() && Produced(p, 1, 0)
      ensures p.At? ==> comps[p.i] == Comp.Lambda(parms, CompactAt(input, old(n)).1)
    {
      hide OperandsFit, TableFits, Store, KeptBelow;
      KeptThrough(Store(), nextComp);
      var num := CompactNumber();
      if num < 0 { return Null; }
      p := Make(Comp.Lambda(parms, num));
      var ok := AddSubstitution(p, old(nextComp));
      if !ok { return Null; }
    }

    method LocalNameProduction() returns (p: Ptr)
      requires Valid()
      modifies this, comps, subs
      ensures Valid() && Produced(p, 2, 2)
      decreases |input| - n, 1
    {
      hide OperandsFit, TableFits, Store, KeptBelow, BuiltEntity, Peek, IsNode;
      KeptThrough(Store(), nextComp);
      var ok := CheckChar('Z');
      if !ok { return Null; }
      var function_ := Encoding();
      ok := CheckChar('E');
      if !ok { return Null; }
      if Peek() == 's' {
        p := LocalString(function_);
      } else {
        p := LocalEntity(function_);
      }
    }

    method LocalString(function_: Ptr) returns (p: Ptr)
      requires Valid() && InArena(function_, nextComp) && Peek() == 's'
      modifies this, comps, subs
      ensures Valid() && Grew() && Spent(0, 0) && nextSub == old(nextSub)
      ensures p.At? ==> IsNode(p, LocalName) && comps[p.i].left == function_
      ensures p.At? ==> old(nextComp) <= p.i < nextComp && old(n) < n
    {
      hide OperandsFit, TableFits, OperandsPresent, Store, KeptBelow;
      KeptThrough(Store(), nextComp);
      n := n + 1;
      var ok := Discriminator();
      if !ok { return Null; }
      var literal := MakeName("string literal");
      BothNeeded(function_, literal);
      p := MakeComp(LocalName, function_, literal);
    }

    method LocalEntity(function_: Ptr) returns (p: Ptr)
      requires Valid() && InArena(function_, nextComp)
      modifies this, comps, subs
      ensures Valid() && Produced(p, 1, 1)
      ensures p.At? ==> IsNode(p, LocalName) && comps[p.i].left == function_
      decreases |input| - n, 6
    {
      hide OperandsFit, TableFits, OperandsPresent, Store, KeptBelow;
      KeptThrough(Store(), nextComp);
      var num := -1;
      if Peek() == 'd' {
        n := n + 1;
        num := CompactNumber();
        if num < 0 { return Null; }
      }
      var name := EntityInFunction(num);
      BothNeeded(function_, name);
      p := MakeComp(LocalName, function_, name);
    }

    /** A name inside a function, which belongs to the default argument `num` unless that is negative. */
    method EntityInFunction(num: int) returns (p: Ptr)
      requires Valid() && (num >= 0 ==> nextComp + 1 <= 2 * n)
      modifies this, comps, subs
      ensures Valid() && Grew() && Spent(if num >= 0 then -1 else 0, 0)
      ensures p.At? ==> p.i < nextComp && (num < 0 ==> old(n) < n && Spent(2, 2))
      decreases |input| - n, 6, 0
    {
      hide OperandsFit, TableFits, Store, KeptBelow;
      KeptThrough(Store(), nextComp);
      var ok;
      ok, p := DiscriminatedName();
      if !ok { return Null; }
      if num >= 0 {
        p := Make(Comp.DefaultArg(p, num));
      }
    }

    /** Lambdas and unnamed types have discriminators of their own. */
    method DiscriminatedName() returns (ok: bool, p: Ptr)
      requires Valid()
      modifies this, comps, subs
      ensures Valid() && Produced(p, 2, 2)
      decreases |input| - n, 5
    {
      hide OperandsFit, TableFits, Store, KeptBelow, BuiltParts, IsNameTree;
      KeptThrough(Store(), nextComp);
      ok := true;
      p := NameProduction();
      if p.At? && !Get(p).Lambda? && !Get(p).UnnamedType? {
        ok := Discriminator();
      }
    }

    // -------------------------------------------------------------------------------------------
    // Types
    // -------------------------------------------------------------------------------------------

    method Type(ghost t: Tree := NoTree) returns (p: Ptr)
      requires Valid()
      modifies this, comps, subs
      ensures Valid() && Produced(p, 1, 1)
      ensures Built(t, p)
      ensures t.RefFunction? && old(AtText(t)) ==> WrapsFunction(p)
      decreases |input| - n, 7
      ensures IsBuiltinLetter(old(Peek())) ==> n == old(n) + 1
      ensures t.Sub? && old(AtText(t)) ==> OnlyRead(t.id, p)
      ensures old(AtText(t)) && IsCandidate(t) ==> LastCandidate(p)
      ensures t.Qualified? && t.of.Sub? && old(AtText(t)) ==> Requalified(t.of.id, At(old(nextComp)), old(nextComp), p)
    {
      hide OperandsFit, TableFits, Spells, Has, Text, Candidates, PartCandidates, Store, IsReady, WellFormed;
      hide IsCandidate, KeptBelow, WrapsFunction, Peek, Requalified, Known;
      KeptThrough(Store(), nextComp);
      if AtText(t) { TypeText(t); }
      if AtCvQualifier() {
        p := QualifiedType(t);
        return;
      }
      p := RegisteredType(t);
    }

    /** A type without leading qualifiers, which is registered unless it is a builtin type or a reference. */
    method RegisteredType(ghost t: Tree) returns (p: Ptr)
      requires Valid() && !AtCvQualifier()
      modifies this, comps, subs
      ensures Valid() && Produced(p, 1, 1)
      ensures Built(t, p)
      ensures t.RefFunction? && old(AtText(t)) ==> WrapsFunction(p)
      ensures IsBuiltinLetter(old(Peek())) ==> n == old(n) + 1
      ensures t.Sub? && old(AtText(t)) ==> OnlyRead(t.id, p)
      ensures old(AtText(t)) && IsCandidate(t) ==> LastCandidate(p)
      decreases |input| - n, 7, 0
    {
      hide OperandsFit, TableFits, Spells, Has, Text, Candidates, PartCandidates, Store, IsReady, WellFormed;
      hide SameComp, IsCandidate, KeptBelow, WrapsFunction, Peek, Known;
      KeptThrough(Store(), nextComp);
      if AtText(t) { TypeText(t); }
      var canSubst;
      p, canSubst := PlainType(t);
      if canSubst {
        KnownStays(old(Store()), Store(), p, old(nextComp));
        p := Register(p, t, old(nextSub), old(nextComp));
      } else if old(AtText(t)) {
        NoSelf(Store(), p, t, old(nextSub), old(nextComp), nextComp);
      }
    }

    /** A type begins with a qualifier exactly when it is a qualified one. */
    lemma TypeText(t: Tree)
      requires nextSub <= subs.Length && AtText(t)
      ensures AtCvQualifier() <==> t.Qualified?
      ensures WellFormed(t)
    {
      SpellsFirst(input, n, t, nextSub);
      FirstChar(t);
    }

    /** All qualifiers are pulled off at once: only the whole type is a substitution candidate. */
    method QualifiedType(ghost t: Tree := NoTree) returns (p: Ptr)
      requires Valid() && AtCvQualifier()
      modifies this, comps, subs
      ensures Valid() && Produced(p, 1, 1)
      ensures t.Qualified? ==> Built(t, p)
      ensures t.Qualified? && old(AtText(t)) && IsCandidate(t) ==> LastCandidate(p)
      ensures t.Qualified? && t.of.Sub? && old(AtText(t)) ==> Requalified(t.of.id, At(old(nextComp)), old(nextComp), p)
      decreases |input| - n, 0
    {
      hide OperandsFit, TableFits, Spells, Has, Text, Candidates, PartCandidates, Chain, AreQualifiersAt, Store;
      hide Kept, Plain, IsVoidTable, KeptBelow, Known;
      KeptThrough(Store(), nextComp);
      if AtText(t) && t.Qualified? { QualifiedText(t); }
      var ok, head, last := CvQualifiers(false, if t.Qualified? then t.quals else "");
      if !ok { return Null; }
      if old(AtText(t)) && t.Qualified? {
        StoreGrew(0);
        StaysReady(old(Store()), old(nextComp));
        PlainKept(old(Store()), Store(), old(nextComp), old(nextComp));
      }
      p := QualifiedWhole(head, last, t, old(nextSub), old(nextComp));
    }

    /** The type behind the qualifiers head..last, with them, as a candidate. */
    method QualifiedWhole(head: Ptr, last: Ptr, ghost t: Tree, ghost from: nat, ghost lo: nat) returns (p: Ptr)
      requires Valid() && head.At? && last.At? && lo <= head.i < nextComp && lo <= last.i < nextComp
      requires comps[last.i].Node? && !RefQualKind(comps[last.i].kind)
      modifies this, comps, subs
      ensures Valid() && GrewFrom(lo) && Spent(0, 0)
      ensures p.At? ==> p.i < nextComp && old(n) < n && Spent(1, 0) && Known(old(Store()), p, lo)
      ensures t.Qualified? && old(AtQualified(head, last, t, from, lo)) ==>
        && p.At? && n == old(n) + |Text(t.of)| && nextSub <= subs.Length && LastCandidate(p)
        && Has(Store(), p, t, Candidates(t), from, lo, nextComp)
        && (t.of.Sub? ==> Requalified(t.of.id, head, lo, p))
      decreases |input| - n, 10
    {
      hide OperandsFit, TableFits, Spells, Has, Text, Candidates, PartCandidates, Chain, IsReady, Store, Kept;
      hide KeptBelow, Plain, WellFormed, Known;
      KeptThrough(Store(), lo);
      p := QualifiedRest(head, last, t, from, lo);
      if p.Null? { return; }
      KnownStays(old(Store()), Store(), p, lo);
      p := Register(p, t, from, lo);
    }

    /** Makes a type a substitution candidate; gives up when there is none. */
    method Register(type_: Ptr, ghost t: Tree, ghost from: nat, ghost lo: nat) returns (p: Ptr)
      requires Valid() && Known(Store(), type_, lo) && InArena(type_, nextComp) && (type_.At? ==> nextSub < n)
      modifies this`nextSub, this`exhausted, subs
      ensures Valid() && GrewFrom(lo) && p == type_ && nextSub == old(nextSub) + if p.At? then 1 else 0
      ensures p.At? ==> nextSub <= subs.Length && subs[old(nextSub)] == p
      ensures type_.At? && old(AtRegister(type_, t, from, lo)) ==>
        Has(Store(), p, t, Candidates(t), from, lo, nextComp)
    {
      hide OperandsFit, TableFits, Has, Candidates, PartCandidates, WellFormed, IsCandidate, Store, KeptBelow;
      KeptThrough(Store(), nextComp);
      var ok := AddSubstitution(type_, lo);
      if !ok { return Null; }
      p := type_;
      if old(AtRegister(type_, t, from, lo)) {
        StoreRegistered(p);
        RegisterSelf(old(Store()), Store(), p, t, from, lo, nextComp);
      }
    }

    /** The tree has been built, and is still to be registered. */
    ghost predicate AtRegister(p: Ptr, t: Tree, from: nat, lo: nat)
      requires nextSub <= subs.Length
      reads this, comps, subs
    {
      IsCandidate(t) && WellFormed(t) && Has(Store(), p, t, PartCandidates(t), from, lo, nextComp)
    }

    /** More slots are in use, and the candidates are the same. */
    lemma StaysReady(a: Arena, hi: nat)
      requires Plain(a, hi) && IsVoidTable(builtins) && nextSub <= subs.Length
      requires Kept(a, Store(), 0, hi) && |a.subs| == nextSub && hi <= nextComp <= comps.Length
      ensures IsReady()
    {
      PlainKept(a, Store(), hi, nextComp);
    }

    lemma QualifiedText(t: Tree)
      requires t.Qualified? && nextSub <= subs.Length && AtText(t)
      ensures AtQualifiers(t.quals) && Spells(input, n + |t.quals|, t.of, nextSub)
      ensures |Text(t)| == |t.quals| + |Text(t.of)| && t.quals != "" && WellFormed(t)
      ensures IsCandidate(t) && WellFormed(t.of) && !IsFunction(t.of)
    {
      SpellsQualified(input, n, t, nextSub);
    }

    /** The type behind the qualifiers head..last, which are in the slots from `lo` on. */
    method QualifiedRest(head: Ptr, last: Ptr, ghost t: Tree, ghost from: nat, ghost lo: nat) returns (p: Ptr)
      requires Valid() && head.At? && last.At? && lo <= head.i < nextComp && lo <= last.i < nextComp
      requires comps[last.i].Node? && !RefQualKind(comps[last.i].kind)
      modifies this, comps, subs
      ensures Valid() && GrewFrom(lo) && Spent(0, 0)
      ensures p.At? ==> p.i < nextComp && old(n) < n && Spent(1, 1) && Known(old(Store()), p, lo)
      ensures t.Qualified? && old(AtQualified(head, last, t, from, lo)) ==>
        && p.At? && n == old(n) + |Text(t.of)| && nextSub <= subs.Length
        && Has(Store(), p, t, PartCandidates(t), from, lo, nextComp)
        && (t.of.Sub? ==> Requalified(t.of.id, head, lo, p))
      decreases |input| - n, 9
    {
      hide OperandsFit, TableFits, Spells, Has, Text, Candidates, PartCandidates, Chain, IsReady, Store, Kept;
      hide Added, KeptBelow, Plain, WellFormed, Spent;
      KeptThrough(Store(), lo);
      ghost var a, spelled := Store(), t.Qualified? && AtQualified(head, last, t, from, lo);
      StoredComp(last);
      if spelled && t.of.Sub? { CandidateBelow(t, lo); }
      var type_ := UnqualifiedType(if t.Qualified? then t.of else NoTree);
      StoreGrew(lo);
      NodeStays(a, Store(), last.i, old(nextComp));
      StoredComp(last);
      if spelled { ChainKept(a, Store(), t.quals, lo); }
      KnownStays(a, Store(), type_, lo);
      p := JoinQualifiers(head, last, type_, t, from, lo);
    }

    lemma CandidateBelow(t: Tree, lo: nat)
      requires t.Qualified? && t.of.Sub? && nextSub <= subs.Length && Plain(Store(), lo) && AtText(t.of)
      ensures t.of.id < nextSub && subs[t.of.id].At? && subs[t.of.id].i < lo
    {
      SpellsSub(input, n, t.of, nextSub);
      assert Store().subs[t.of.id] == subs[t.of.id];
    }

    /** The type inside the last of the qualifiers, or around them. */
    method JoinQualifiers(head: Ptr, last: Ptr, type_: Ptr, ghost t: Tree, ghost from: nat, ghost lo: nat) returns (p: Ptr)
      requires Valid() && head.At? && last.At? && lo <= head.i < nextComp && lo <= last.i < nextComp
      requires comps[last.i].Node? && !RefQualKind(comps[last.i].kind)
      requires InArena(type_, nextComp) && Known(Store(), type_, lo)
      modifies comps
      ensures Valid() && GrewFrom(lo)
      ensures p.At? ==> type_.At? && (p == type_ || p == head)
      ensures type_.At? && type_.i < lo ==> Attached(type_, head, lo, p)
      ensures t.Qualified? && old(AtJoinQualifiers(head, last, type_, t, from, lo)) ==>
        p.At? && Has(Store(), p, t, PartCandidates(t), from, lo, nextComp)
    {
      hide OperandsFit, TableFits, Has, Candidates, PartCandidates, Chain, Store, Added, KeptBelow, Plain;
      hide WellFormed, NodesOnly;
      KeptThrough(Store(), lo);
      ghost var spelled := t.Qualified? && AtJoinQualifiers(head, last, type_, t, from, lo);
      StoredComp(last);
      SetLeft(last, type_);
      KnownStays(old(Store()), Store(), type_, lo);
      if spelled {
        StoreAdded(last.i);
        QualifiedOrNot(old(Store()), Store(), type_, t, from, lo, nextComp, comps[last.i]);
      }
      if type_.Null? { return Null; }
      StoredComp(type_);
      label Joined:
      p := AttachQualifiers(head, last, type_, lo);
      if !old@Joined(IsRefQualified(comps[type_.i])) { StoreSame@Joined(); }
      if spelled { QualifiersJoined(old(Store()), old@Joined(Store()), p, type_, head, t, from, lo, last.i, old@Joined(comps[last.i])); }
    }

    /** The qualifiers and the type have been read. */
    ghost predicate AtJoinQualifiers(head: Ptr, last: Ptr, type_: Ptr, t: Tree, from: nat, lo: nat)
      requires t.Qualified? && nextSub <= subs.Length
      reads this, comps, subs
    {
      && t.quals != "" && head == At(lo) && last == At(lo + |t.quals| - 1) && lo + |t.quals| <= nextComp
      && Chain(Store(), t.quals, lo, Null) && WellFormed(t)
      && Has(Store(), type_, t.of, Candidates(t.of), from, lo + |t.quals|, nextComp)
    }

    lemma QualifiersJoined(a: Arena, m: Arena, p: Ptr, type_: Ptr, head: Ptr, t: Tree, from: nat, lo: nat, last: nat, c: Comp)
      requires t.Qualified? && nextSub <= subs.Length && head == At(lo)
      requires Has(a, type_, t.of, Candidates(t.of), from, lo + |t.quals|, nextComp) && Added(a, m, last, c) && c.Node?
      requires !IsRefSub(a, t.of) ==> Has(m, head, t, PartCandidates(t), from, lo, nextComp)
      requires if IsRefSub(a, t.of) then p == type_ && p.At? && p.i < comps.Length && IsRefQualified(comps[p.i]) && NodesOnly(m, Store())
               else p == head && Store() == m
      ensures Has(Store(), p, t, PartCandidates(t), from, lo, nextComp)
    {
      hide Has, Candidates, PartCandidates, Added, NodesOnly;
      if IsRefSub(a, t.of) {
        RequalifiedBuilt(a, m, Store(), p, t, from, lo, lo + |t.quals|, nextComp, last, c);
      }
    }

    /** The qualifiers have been pulled off, and the type that they apply to follows. */
    ghost predicate AtQualified(head: Ptr, last: Ptr, t: Tree, from: nat, lo: nat)
      requires t.Qualified? && nextSub <= subs.Length
      reads this, comps, subs
    {
      && t.quals != "" && head == At(lo) && last == At(lo + |t.quals| - 1)
      && lo + |t.quals| == nextComp && Chain(Store(), t.quals, lo, Null)
      && from == nextSub && AtText(t.of) && WellFormed(t) && !IsFunction(t.of) && Plain(Store(), lo)
    }

    /** The type was registered last. */
    ghost predicate LastCandidate(p: Ptr)
      reads this`nextSub, subs
    {
      0 < nextSub <= subs.Length && subs[nextSub - 1] == p
    }

    /** A reference is the candidate itself, and nothing else happens. */
    twostate predicate OnlyRead(id: nat, p: Ptr)
      reads this, comps, subs
    {
      && id < old(nextSub) <= subs.Length && p == old(subs[id]) && nextComp == old(nextComp)
      && forall i | 0 <= i < comps.Length :: comps[i] == old(comps[i])
    }

    /**
     The first qualifier `head` is joined to the older type `c`: below slot `lo` nothing changes but the type
     itself, and that exactly when it is a function type with a reference qualifier, which gets the
     qualifiers as its operand. Otherwise they are around the type.
     */
    twostate predicate Attached(c: Ptr, head: Ptr, lo: nat, p: Ptr)
      reads comps
    {
      && c.At? && c.i < lo <= comps.Length
      && var before := old(comps[c.i]);
         && p == (if IsRefQualified(before) then c else head)
         && (comps[c.i] != before <==> IsRefQualified(before) && before.left != head)
         && (IsRefQualified(before) ==> comps[c.i] == before.(left := head))
         && (forall i | 0 <= i < lo && i != c.i :: comps[i] == old(comps[i]))
    }

    /** Qualifiers of a reference to candidate `id`. */
    twostate predicate Requalified(id: nat, head: Ptr, lo: nat, p: Ptr)
      reads this, comps, subs
    {
      id < old(nextSub) <= subs.Length && Attached(old(subs[id]), head, lo, p)
    }

    /** Does not register a function type: its qualifiers belong to 'this'. */
    method UnqualifiedType(ghost t: Tree := NoTree) returns (p: Ptr)
      requires Valid()
      modifies this, comps, subs
      ensures Valid() && Produced(p, 1, 1)
      ensures !IsFunction(t) ==> Built(t, p)
      ensures t.Sub? && old(AtText(t)) ==> OnlyRead(t.id, p)
      decreases |input| - n, 8
    {
      hide OperandsFit, TableFits, Spells, Has, Text, Candidates, IsReady, Store, KeptBelow, WrapsFunction;
      hide Requalified, OnlyRead, LastCandidate, IsBuiltinLetter;
      KeptThrough(Store(), nextComp);
      if AtText(t) && !IsFunction(t) { IsNoFunction(t); }
      if Peek() == 'F' {
        p := FunctionTypeProduction();
      } else {
        p := Type(t);
      }
    }

    lemma IsNoFunction(t: Tree)
      requires nextSub <= subs.Length && AtText(t) && !IsFunction(t)
      ensures Peek() != 'F'
    {
      SpellsFirst(input, n, t, nextSub);
      FirstChar(t);
    }

    /**
     A reference qualifier of the type is moved outside the qualifiers head..last. When the type is an
     older one that a substitution stands for, that changes the older one, too.
     */
    method AttachQualifiers(head: Ptr, last: Ptr, type_: Ptr, ghost lo: nat) returns (p: Ptr)
      requires Valid() && head.At? && last.At? && type_.At? && lo <= head.i < nextComp && lo <= last.i < nextComp
      requires Known(Store(), type_, lo) && type_.i < nextComp && comps[last.i].Node? && !RefQualKind(comps[last.i].kind)
      modifies comps
      ensures Valid() && GrewFrom(lo) && p.At? && p.i < nextComp
      ensures !IsRefQualified(old(comps[type_.i])) ==> p == head && comps[..] == old(comps[..])
      ensures comps[type_.i] == old(comps[type_.i]) <==> !IsRefQualified(old(comps[type_.i])) || old(comps[type_.i].left) == head
      ensures NodesOnly(old(Store()), Store())
      ensures IsRefQualified(old(comps[type_.i])) ==>
        && p == type_ && comps[p.i] == old(comps[p.i]).(left := head)
        && comps[last.i] == old(comps[last.i]).(left := old(comps[type_.i]).left)
      ensures forall i | 0 <= i < comps.Length && i != type_.i && i != last.i :: comps[i] == old(comps[i])
    {
      hide TableFits, OperandsFit, RefQualKind, Store, KeptBelow, NodesOnly, Known;
      KeptThrough(Store(), lo);
      p := head;
      match Get(type_)
      case Node(kind, _, _) =>
        if RefQualKind(kind) {
          TurnInsideOut(head, last, type_, lo);
          p := type_;
        } else {
          NoChange(Store());
        }
      case _ =>
        NoChange(Store());
    }

    /** The reference qualifier `type_` around the qualifiers, and what it was around inside the last of them. */
    method TurnInsideOut(head: Ptr, last: Ptr, type_: Ptr, ghost lo: nat)
      requires Valid() && head.At? && last.At? && type_.At? && lo <= head.i < nextComp && lo <= last.i < nextComp
      requires Known(Store(), type_, lo) && type_.i < nextComp && comps[last.i].Node? && !RefQualKind(comps[last.i].kind)
      requires IsRefQualified(comps[type_.i])
      modifies comps
      ensures Valid() && GrewFrom(lo)
      ensures NodesOnly(old(Store()), Store())
      ensures comps[type_.i] == old(comps[type_.i]).(left := head)
      ensures comps[last.i] == old(comps[last.i]).(left := old(comps[type_.i]).left)
      ensures forall i | 0 <= i < comps.Length && i != type_.i && i != last.i :: comps[i] == old(comps[i])
    {
      hide TableFits, RefQualKind;
      var fn := Get(type_).left;
      SetLeft(type_, head);
      SetLeft(last, fn);
    }

    /** A type without leading qualifiers, and whether it is a substitution candidate. */
    method PlainType(ghost t: Tree) returns (p: Ptr, canSubst: bool)
      requires Valid() && !AtCvQualifier()
      modifies this, comps, subs
      ensures Valid() && Produced(p, 1, if canSubst then 2 else 1)
      ensures IsBuiltinLetter(old(Peek())) ==> n == old(n) + 1 && !canSubst
      ensures old(AtText(t)) ==> BuiltParts(t, p) && canSubst == IsCandidate(t)
      ensures t.RefFunction? && old(AtText(t)) ==> WrapsFunction(p)
      ensures t.Sub? && old(AtText(t)) ==> OnlyRead(t.id, p)
      decreases |input| - n, 6
    {
      hide OperandsFit, TableFits, Spells, Has, Text, PartCandidates, Store, IsReady, WellFormed, KeptBelow;
      KeptThrough(Store(), nextComp);
      if AtText(t) { PlainText(t); }
      var peek := Peek();
      canSubst := true;
      if IsBuiltinLetter(peek) {
        p := BuiltinType(t);
        canSubst := false;
      } else if peek == 'S' {
        p, canSubst := SubstitutedType(t);
      } else if peek == 'D' {
        p, canSubst := ExtensionType();
      } else if peek == 'F' {
        p := FunctionTypeProduction(t);
      } else if IsDigit(peek) || peek == 'N' || peek == 'Z' {
        p := NameProduction(t);
      } else if peek == 'A' {
        p := ArrayTypeProduction(t);
      } else if peek == 'M' {
        p := PointerToMemberType(t);
      } else if peek == 'T' {
        p := TypeParameter(t);
      } else if peek == 'u' {
        p := VendorTypeProduction();
      } else if peek == 'U' {
        p := VendorQualifiedType();
      } else {
        p := CompoundType(t);
      }
    }

    /** The first character of a type tells which one it is. */
    lemma PlainText(t: Tree)
      requires nextSub <= subs.Length && AtText(t) && !AtCvQualifier()
      ensures !t.Qualified? && !t.NoTree? && !t.Value?
      ensures t.Basic? <==> IsBuiltinLetter(Peek())
      ensures t.Sub? || t.Std? || t.InStd? <==> Peek() == 'S'
      ensures t.Param? <==> Peek() == 'T'
      ensures IsFunction(t) <==> Peek() == 'F'
      ensures t.Source? || t.Instance? <==> IsDigit(Peek())
      ensures t.Nested? <==> Peek() == 'N'
      ensures t.Array? <==> Peek() == 'A'
      ensures t.Member? <==> Peek() == 'M'
      ensures t.Compound? <==> Peek() in {'P', 'R', 'O', 'C', 'G'}
    {
      SpellsFirst(input, n, t, nextSub);
      FirstChar(t);
    }

    /** The arena always has a slot left here, so the source reads the length without a check. */
    method BuiltinType(ghost t: Tree := NoTree) returns (p: Ptr)
      requires Valid() && IsBuiltinLetter(Peek())
      modifies this, comps, subs
      ensures Valid() && Produced(p, 1, 1) && nextSub == old(nextSub)
      ensures n == old(n) + 1 && p.At? && comps[p.i] == Builtin(builtins[old(Peek()) as int - 'a' as int])
      ensures t.Basic? ==> BuiltParts(t, p)
    {
      hide OperandsFit, TableFits, Has, Text, PartCandidates, Store, KeptBelow;
      KeptThrough(Store(), nextComp);
      if AtText(t) && t.Basic? { BasicText(t); }
      var info := builtins[Peek() as int - 'a' as int];
      p := Make(Builtin(info));
      assert p.At?;
      expansion := expansion + |info.name|;
      n := n + 1;
      if old(AtText(t)) && t.Basic? {
        StoreAdded(p.i);
        LeafBuilt(old(Store()), Store(), t, nextSub, p.i, comps[p.i]);
      }
    }

    lemma BasicText(t: Tree)
      requires t.Basic? && nextSub <= subs.Length && AtText(t)
      ensures Peek() == t.code && |Text(t)| == 1
    {
      SpellsFirst(input, n, t, nextSub);
    }

    method VendorTypeProduction() returns (p: Ptr)
      requires Peek() == 'u'
      requires Valid()
      modifies this, comps, subs
      ensures Valid() && Produced(p, 2, 2)
      ensures p.At? ==> IsNode(p, VendorType)
    {
      hide OperandsFit, TableFits, OperandsPresent, Store, KeptBelow, BuiltOpen;
      KeptThrough(Store(), nextComp);
      n := n + 1;
      var name := SourceName();
      TypesNeedLeft(name);
      p := MakeComp(VendorType, name, Null);
    }

    /** Pointers, references, complex and imaginary types. */
    method CompoundType(ghost t: Tree := NoTree) returns (p: Ptr)
      requires Valid()
      modifies this, comps, subs
      ensures Valid() && Produced(p, 1, 2)
      ensures t.Compound? ==> BuiltParts(t, p)
      decreases |input| - n, 1
    {
      hide OperandsFit, TableFits, NeedsLeft, Spells, Has, Text, PartCandidates, Candidates, Store, Added;
      hide CompoundKind, IsReady, Kept, KeptBelow;
      CompoundsNeedLeft();
      KeptThrough(Store(), nextComp);
      if AtText(t) && t.Compound? {
        SpellsCompound(input, n, t, nextSub);
        CompoundCode(t);
      }
      var kind := if Peek() == 'P' then Pointer
                  else if Peek() == 'R' then Reference
                  else if Peek() == 'O' then RvalueReference
                  else if Peek() == 'C' then Complex
                  else Imaginary;
      if kind.Imaginary? && Peek() != 'G' { return Null; }
      assert old(AtText(t)) && t.Compound? ==> kind == CompoundKind(t.code);
      p := CompoundOf(kind, t);
    }

    /** The character of a compound type, and the type it applies to. */
    method CompoundOf(kind: Kind, ghost t: Tree) returns (p: Ptr)
      requires Valid() && Peek() != '\0' && NeedsLeft(kind)
      modifies this, comps, subs
      ensures Valid() && Produced(p, 1, 2)
      ensures t.Compound? && kind == CompoundKind(t.code) ==> BuiltParts(t, p)
      decreases |input| - n, 0
    {
      hide OperandsFit, TableFits, NeedsLeft, Spells, Has, Text, PartCandidates, Candidates, Store, Added;
      hide CompoundKind, IsReady, Kept, KeptBelow, WrapsFunction, Requalified, OnlyRead, LastCandidate;
      hide IsBuiltinLetter;
      KeptThrough(Store(), nextComp);
      if AtText(t) && t.Compound? { SpellsCompound(input, n, t, nextSub); }
      n := n + 1;
      var type_ := Type(if t.Compound? then t.of else NoTree);
      p := Wrap(kind, type_, t, old(nextSub), old(nextComp));
    }

    /** The component of a compound type around the type it applies to. */
    method Wrap(kind: Kind, type_: Ptr, ghost t: Tree, ghost from: nat, ghost lo: nat) returns (p: Ptr)
      requires Valid() && InArena(type_, nextComp) && lo <= nextComp && (type_.At? ==> nextComp < 2 * n)
      requires NeedsLeft(kind)
      modifies this, comps, subs
      ensures Valid() && Grew() && n == old(n) && nextSub == old(nextSub)
      ensures nextComp == old(nextComp) + if p.At? then 1 else 0
      ensures p.At? <==> type_.At?
      ensures p.At? ==> old(nextComp) <= p.i < nextComp
      ensures p.At? && old(AtWrap(kind, type_, t, from, lo)) ==>
        Has(Store(), p, t, PartCandidates(t), from, lo, nextComp)
    {
      hide OperandsFit, TableFits, OperandsPresent, NeedsLeft, Has, PartCandidates, Candidates, Store, Added;
      hide CompoundKind, KeptBelow;
      KeptThrough(Store(), nextComp);
      LeftIsEnough(kind, type_);
      p := MakeComp(kind, type_, Null);
      if p.At? && old(AtWrap(kind, type_, t, from, lo)) {
        StoreAdded(p.i);
        CompoundBuilt(old(Store()), Store(), type_, t, from, lo, p.i);
      }
    }

    /** The type that a compound type applies to has been read. */
    ghost predicate AtWrap(kind: Kind, type_: Ptr, t: Tree, from: nat, lo: nat)
      requires nextSub <= subs.Length
      reads this, comps, subs
    {
      && t.Compound? && kind == CompoundKind(t.code)
      && Has(Store(), type_, t.of, Candidates(t.of), from, lo, nextComp)
    }

    lemma CompoundCode(t: Tree)
      requires t.Compound? && nextSub <= subs.Length && AtText(t)
      ensures Peek() == t.code && IsCompoundCode(t.code)
      ensures CompoundKind(t.code) == (if t.code == 'P' then Pointer else if t.code == 'R' then Reference
                                       else if t.code == 'O' then RvalueReference
                                       else if t.code == 'C' then Complex else Imaginary)
    {
    }

    method VendorQualifiedType() returns (p: Ptr)
      requires Valid()
      requires Peek() == 'U'
      modifies this, comps, subs
      ensures Valid() && Produced(p, 1, 2)
      ensures p.At? ==> IsNode(p, VendorTypeQual)
      decreases |input| - n, 1
    {
      hide OperandsFit, TableFits, OperandsPresent, Store, KeptBelow, Built, WrapsFunction, Requalified;
      hide OnlyRead, LastCandidate, IsBuiltinLetter;
      KeptThrough(Store(), nextComp);
      var qual := VendorQualifier();
      var type_ := Type();
      BothNeeded(type_, qual);
      p := MakeComp(VendorTypeQual, type_, qual);
    }

    method VendorQualifier() returns (p: Ptr)
      requires Valid()
      requires Peek() == 'U'
      ensures old(n) < n
      modifies this, comps, subs
      ensures Valid() && Produced(p, 3, 2)
      decreases |input| - n, 0
    {
      hide OperandsFit, TableFits, Store, KeptBelow, AtArgumentsOf, BuiltOpen, Has, PartCandidates, TextAll;
      KeptThrough(Store(), nextComp);
      n := n + 1;
      p := SourceName();
      if Peek() == 'I' {
        p := TemplateOf(p);
      }
    }

    method TypeParameter(ghost t: Tree := NoTree) returns (p: Ptr)
      requires Valid()
      modifies this, comps, subs
      ensures Valid() && Produced(p, 2, 2)
      ensures t.Param? ==> BuiltParts(t, p)
      decreases |input| - n, 3
    {
      hide OperandsFit, TableFits, Spells, Has, Text, PartCandidates, Store, KeptBelow;
      KeptThrough(Store(), nextComp);
      if AtText(t) { TextEnds(t); }
      p := TemplateParameter(t);
      if Peek() == 'I' {
        KnownStays(old(Store()), Store(), p, old(nextComp));
        if isConversion {
          p := ConversionTemplate(p, old(nextComp));
        } else {
          p := RegisteredTemplateOf(p, NoTree, 0, old(nextComp));
        }
      }
    }

    /** In a conversion operator the arguments belong to the type only if others follow them. */
    method ConversionTemplate(param: Ptr, ghost lo: nat) returns (p: Ptr)
      requires Valid() && lo <= nextComp && Known(Store(), param, lo) && InArena(param, nextComp) && (param.At? ==> nextSub + 1 <= n) && Peek() == 'I'
      modifies this, comps, subs
      ensures Valid() && GrewFrom(lo) && Spent(0, -1) && (param.Null? ==> Spent(0, 0))
      ensures p.At? ==> param.At? && p.i < nextComp && (p == param || old(nextComp) <= p.i) && ((p == param && n == old(n) && Spent(0, 0)) || Spent(2, 1))
      decreases |input| - n, 2
    {
      hide OperandsFit, TableFits, OperandsPresent, Store, KeptBelow;
      KeptThrough(Store(), lo);
      var accepted, args := TrialTemplateArgs();
      if !accepted { return param; }
      KnownStays(old(Store()), Store(), param, lo);
      var ok := AddSubstitution(param, lo);
      if !ok { return Null; }
      BothNeeded(param, args);
      p := MakeComp(Template, param, args);
    }

    /**
     Parses template arguments on trial and backtracks unless others follow. After backtracking only
     the operand of a function qualifier can differ below the checkpoint; the last name survives a
     trial whose arguments were well formed.
     */
    method TrialTemplateArgs() returns (accepted: bool, args: Ptr)
      requires Valid() && Peek() == 'I'
      modifies this, comps, subs
      ensures Valid() && Grew() && Spent(0, 0)
      ensures accepted <==> Peek() == 'I' && old(n) < n
      ensures accepted && args.At? ==> args.i < nextComp && old(n) < n && Spent(3, 2)
      ensures !accepted ==> n == old(n) && nextComp == old(nextComp) && nextSub == old(nextSub)
      ensures !accepted ==> didSubs == old(didSubs) && expansion == old(expansion)
      ensures !accepted && old(NoRefs(Store())) ==> comps[..nextComp] == old(comps[..nextComp])
      ensures !accepted ==> subs[..nextSub] == old(subs[..nextSub])
      ensures args.At? ==> lastName == old(lastName)
      decreases |input| - n, 1
    {
      hide OperandsFit, Store, KeptBelow, AtTemplateArgs, HasParams, TextAll, TableFits;
      KeptThrough(Store(), nextComp);
      var checkpoint := TakeCheckpoint();
      args := TemplateArgs();
      accepted := Peek() == 'I';
      if !accepted {
        KeptCut(old(Store()), Store(), old(nextComp));
        label Parsed:
        Backtrack(checkpoint);
        StoreCut@Parsed();
        TableFitsAgain();
        Restored();
      }
    }

    function TakeCheckpoint(): Checkpoint
      reads this
    {
      Checkpoint(n, nextComp, nextSub, didSubs, expansion)
    }

    method Backtrack(checkpoint: Checkpoint)
      modifies this`n, this`nextComp, this`nextSub, this`didSubs, this`expansion
      ensures TakeCheckpoint() == checkpoint
    {
      n, nextComp, nextSub := checkpoint.n, checkpoint.nextComp, checkpoint.nextSub;
      didSubs, expansion := checkpoint.didSubs, checkpoint.expansion;
    }

    method SubstitutedType(ghost t: Tree := NoTree) returns (p: Ptr, canSubst: bool)
      requires Valid() && Peek() == 'S'
      modifies this, comps, subs
      ensures Valid() && Produced(p, 1, if canSubst then 2 else 1)
      ensures t.Sub? || t.Std? || t.InStd? ==> BuiltParts(t, p) && (old(AtText(t)) ==> canSubst == t.InStd?)
      ensures t.Sub? && old(AtText(t)) ==> OnlyRead(t.id, p)
      decreases |input| - n, 5
    {
      hide OperandsFit, TableFits, Spells, Has, Text, PartCandidates, Store, IsReady, KeptBelow;
      KeptThrough(Store(), nextComp);
      if AtText(t) && (t.Sub? || t.Std? || t.InStd?) { SubstitutionText(t); }
      var next := PeekNext();
      if IsDigit(next) || next == '_' || IsUpper(next) {
        p := Substitution(false, t);
        canSubst := Peek() == 'I';
        if canSubst {
          p := TemplateOf(p);
        }
      } else {
        p := NameProduction(t);
        canSubst := !(p.At? && Get(p).SubStd?);
        if old(AtText(t)) && (t.Std? || t.InStd?) { StdRoot(p, t, PartCandidates(t), old(nextSub), old(nextComp)); }
      }
    }

    /** The second character tells a reference from an abbreviation. */
    lemma SubstitutionText(t: Tree)
      requires (t.Sub? || t.Std? || t.InStd?) && nextSub <= subs.Length && AtText(t)
      ensures Peek() == 'S' && EndsAt(input, n + |Text(t)|)
      ensures var next := PeekNext(); t.Sub? <==> IsDigit(next) || next == '_' || IsUpper(next)
    {
      hide SeqIdAt, Text;
      TextEnds(t);
      if t.Sub? {
        SpellsSub(input, n, t, nextSub);
      } else if t.Std? {
        SpellsStd(input, n, t, nextSub);
      } else {
        SpellsInStd(input, n, t, nextSub);
      }
    }

    /** An abbreviation is kept as such, and any other name in namespace std is not. */
    lemma StdRoot(p: Ptr, t: Tree, ts: seq<Tree>, from: nat, lo: nat)
      requires (t.Std? || t.InStd?) && nextSub <= subs.Length && Has(Store(), p, t, ts, from, lo, nextComp)
      ensures p.At? && p.i < comps.Length && (comps[p.i].SubStd? <==> t.Std?)
    {
    }

    /** The types behind 'D'. */
    method ExtensionType() returns (p: Ptr, canSubst: bool)
      requires Valid() && Peek() == 'D' && !AtCvQualifier()
      modifies this, comps, subs
      ensures Valid() && Produced(p, 1, if canSubst then 2 else 1)
      decreases |input| - n, 2
    {
      hide OperandsFit, TableFits, Store, KeptBelow;
      KeptThrough(Store(), nextComp);
      var code := PeekNext();
      canSubst := code == 'T' || code == 't' || code == 'p' || code == 'v';
      if ExtensionIndex(code) != 0 {
        p := ExtensionBuiltin();
      } else if code == 'T' || code == 't' {
        p := DecltypeProduction();
      } else if code == 'p' {
        p := PackExpansionProduction();
      } else if code == 'a' {
        n := n + 2;
        p := MakeName("auto");
      } else if code == 'F' {
        p := FixedPointType();
      } else if code == 'v' {
        p := VectorTypeProduction();
      } else {
        n := n + 1;
        var _ := NextChar();
        p := Null;
      }
    }

    method ExtensionBuiltin() returns (p: Ptr)
      requires Valid() && Peek() == 'D' && ExtensionIndex(PeekNext()) != 0
      modifies this, comps, subs
      ensures Valid() && Produced(p, 3, 2) && nextSub == old(nextSub)
      ensures p.At? && comps[p.i] == Builtin(builtins[ExtensionIndex(old(PeekNext()))])
    {
      hide OperandsFit, TableFits, Store, KeptBelow;
      KeptThrough(Store(), nextComp);
      var info := builtins[ExtensionIndex(PeekNext())];
      n := n + 2;
      p := Make(Builtin(info));
      assert p.At?;
      expansion := expansion + |info.name|;
    }

    method PackExpansionProduction() returns (p: Ptr)
      requires Valid()
      requires Peek() == 'D' && PeekNext() == 'p'
      modifies this, comps, subs
      ensures Valid() && Produced(p, 3, 2)
      ensures p.At? ==> IsNode(p, PackExpansion)
      decreases |input| - n, 1
    {
      hide OperandsFit, TableFits, OperandsPresent, Store, KeptBelow, Built, WrapsFunction, Requalified;
      hide OnlyRead, LastCandidate, IsBuiltinLetter;
      KeptThrough(Store(), nextComp);
      n := n + 2;
      var type_ := Type();
      TypesNeedLeft(type_);
      p := MakeComp(PackExpansion, type_, Null);
    }

    method DecltypeProduction() returns (p: Ptr)
      requires Valid()
      requires Peek() == 'D' && (PeekNext() == 'T' || PeekNext() == 't')
      modifies this, comps, subs
      ensures Valid() && Produced(p, 3, 2)
      ensures p.At? ==> IsNode(p, Decltype)
      decreases |input| - n, 0
    {
      hide OperandsFit, TableFits, OperandsPresent, Store, KeptBelow;
      KeptThrough(Store(), nextComp);
      n := n + 2;
      var expr := Expression();
      TypesNeedLeft(expr);
      p := MakeComp(Decltype, expr, Null);
      if p.At? {
        var c := NextChar();
        if c != 'E' { p := Null; }
      }
    }

    /** The slot for the type itself is taken first; the source fills it in without a check. */
    method FixedPointType() returns (p: Ptr)
      requires Valid()
      requires Peek() == 'D' && PeekNext() == 'F'
      modifies this, comps, subs
      ensures Valid() && Produced(p, 3, 2)
      ensures p.At? ==> comps[p.i].FixedType?
      decreases |input| - n, 1
    {
      hide OperandsFit, TableFits, Store, KeptBelow, OperandsInArena;
      KeptThrough(Store(), nextComp);
      n := n + 2;
      var accum := IsDigit(Peek());
      p := Make(Comp.FixedType(Null, accum, false));
      assert p.At?;
      if accum { SkipNumber(); }
      var ok := FixedLength(p, accum);
      if !ok { return Null; }
    }

    /** The type that the length of a fixed-point type is read as, and what follows it. */
    method FixedLength(p: Ptr, accum: bool) returns (ok: bool)
      requires Valid() && p.At? && p.i < nextComp
      modifies this, comps, subs
      ensures Valid() && GrewFrom(p.i) && Spent(0, 0)
      ensures ok ==> comps[p.i].FixedType?
      decreases |input| - n, 8
    {
      hide OperandsFit, TableFits, Store, KeptBelow, Built, OperandsInArena, AtText, WrapsFunction, Requalified;
      hide OnlyRead, LastCandidate, IsBuiltinLetter;
      KeptThrough(Store(), p.i);
      var length := Type();
      SetComp(p, Comp.FixedType(length, accum, false));
      if length.Null? { return false; }
      FinishFixedType(p, length, accum);
      ok := true;
    }

    method FinishFixedType(p: Ptr, length: Ptr, accum: bool)
      requires Valid() && p.At? && p.i < nextComp && InArena(length, nextComp)
      modifies this`n, comps
      ensures Valid() && GrewFrom(p.i) && old(n) <= n
      ensures comps[p.i].FixedType? && comps[p.i].length == length && comps[p.i].accum == accum
      ensures forall i | 0 <= i < comps.Length && i != p.i :: comps[i] == old(comps[i])
    {
      hide TableFits;
      SkipNumber();
      var c := NextChar();
      comps[p.i] := Comp.FixedType(length, accum, c == 's');
      StoreKept(p.i);
    }

    method SkipNumber()
      requires n <= |input|
      modifies this`n
      ensures old(n) <= n <= |input| && n == NumberAt(input, old(n)).0
    {
      var _ := Number();
    }

    method VectorTypeProduction() returns (p: Ptr)
      requires Valid()
      requires Peek() == 'D' && PeekNext() == 'v'
      modifies this, comps, subs
      ensures Valid() && Produced(p, 3, 2)
      ensures p.At? ==> IsNode(p, VectorType)
      decreases |input| - n, 1
    {
      hide OperandsFit, TableFits, OperandsPresent, Store, KeptBelow, Built, WrapsFunction, Requalified;
      hide OnlyRead, LastCandidate, IsBuiltinLetter;
      KeptThrough(Store(), nextComp);
      var dim := VectorDimension();
      if dim.Null? { return Null; }
      var ok := CheckChar('_');
      if !ok { return Null; }
      var type_ := Type();
      BothNeeded(dim, type_);
      p := MakeComp(VectorType, dim, type_);
    }

    method VectorDimension() returns (p: Ptr)
      requires Valid()
      requires Peek() == 'D' && PeekNext() == 'v'
      modifies this, comps, subs
      ensures Valid() && Produced(p, 2, 1)
      decreases |input| - n, 0
    {
      hide OperandsFit, TableFits, Store, KeptBelow;
      KeptThrough(Store(), nextComp);
      n := n + 2;
      if Peek() == '_' {
        n := n + 1;
        p := Expression();
      } else {
        p := NumberComponent();
      }
    }

    /** The reference qualifier is taken even when the function type itself is malformed. */
    method FunctionTypeProduction(ghost t: Tree := NoTree) returns (p: Ptr)
      requires Valid()
      modifies this, comps, subs
      ensures Valid() && Produced(p, 2, 2)
      ensures IsFunction(t) ==> BuiltParts(t, p)
      ensures t.RefFunction? && old(AtText(t)) ==> WrapsFunction(p)
      decreases |input| - n, 0
    {
      hide OperandsFit, TableFits, Spells, SpellsAll, Has, Text, TextAll, Candidates, PartCandidates, Store;
      hide IsReady, IsSignature, KeptBelow, WrapsFunction, Spelled, HasSignature, SameComp;
      KeptThrough(Store(), nextComp);
      if AtText(t) && IsFunction(t) { FunctionSpelled(t); }
      var ok := CheckChar('F');
      if !ok { return Null; }
      if Peek() == 'Y' { n := n + 1; }
      p := FunctionTypeBehind(t);
    }

    /** A function type whose first letter has been read. */
    method FunctionTypeBehind(ghost t: Tree) returns (p: Ptr)
      requires Valid()
      modifies this, comps, subs
      ensures Valid() && Produced(p, 2, 1)
      ensures IsFunction(t) && old(AtFunction(t)) ==>
        && p.At? && n + 1 == old(n) + |Text(t)| && nextSub <= subs.Length
        && Has(Store(), p, t, PartCandidates(t), old(nextSub), old(nextComp), nextComp)
        && (t.RefFunction? ==> WrapsFunction(p))
      decreases |input| - n, 12
    {
      hide OperandsFit, TableFits, Has, Text, TextAll, PartCandidates, Store, AtSignature, KeptBelow;
      hide WrapsFunction, Spelled, HasSignature, SameComp;
      KeptThrough(Store(), nextComp);
      p := BareFunctionType(true, if IsFunction(t) then Function(t.ret, t.params) else NoTree);
      p := CloseFunctionType(p, t, old(nextSub), old(nextComp));
    }

    /** The rest of a function type follows. */
    ghost predicate AtFunction(t: Tree)
      requires IsFunction(t) && nextSub <= subs.Length
      reads this, comps, subs
    {
      && AtSignature(Function(t.ret, t.params)) && PartCandidates(Function(t.ret, t.params)) == PartCandidates(t)
      && var e := n + |Text(t.ret)| + |TextAll(Spelled(t.params))|;
         SpellsEndOf(input, e, t) && |Text(t)| == e + |EndText(t)| - n + 1
    }

    /** The reference qualifier and the end of a function type. */
    method CloseFunctionType(type_: Ptr, ghost t: Tree, ghost from: nat, ghost lo: nat) returns (p: Ptr)
      requires Valid() && InArena(type_, nextComp)
      modifies this, comps
      ensures Valid() && Grew() && Spent(0, 0) && nextSub == old(nextSub)
      ensures p.At? ==> (p == type_ || old(nextComp) <= p.i) && p.i < nextComp && old(n) < n && Spent(2, 1)
      ensures old(Peek()) == 'E' ==> p == type_ && n == old(n) + 1 && nextComp == old(nextComp) && Store() == old(Store())
      ensures t.RefFunction? && old(AtEndOf(type_, t, from, lo)) ==>
        && p.At? && n == old(n) + 2 && nextSub <= subs.Length && WrapsFunction(p)
        && Has(Store(), p, t, PartCandidates(t), from, lo, nextComp)
    {
      hide OperandsFit, TableFits, Store, KeptBelow, Has, PartCandidates, RefQualKind, WrapsFunction;
      p := FunctionQualifier(type_, t, from, lo);
      var ok := CheckChar('E');
      if !ok { return Null; }
    }

    /** Perhaps a reference qualifier around the function type. */
    method FunctionQualifier(type_: Ptr, ghost t: Tree, ghost from: nat, ghost lo: nat) returns (p: Ptr)
      requires Valid() && InArena(type_, nextComp)
      modifies this, comps
      ensures Valid() && Grew() && nextSub == old(nextSub)
      ensures (p == type_ && n == old(n) && nextComp == old(nextComp))
        || (p == At(old(nextComp)) && n == old(n) + 1 && nextComp == old(nextComp) + 1)
      ensures old(Peek()) == 'E' ==> p == type_ && n == old(n) && Store() == old(Store())
      ensures t.RefFunction? && old(AtEndOf(type_, t, from, lo)) ==>
        && p.At? && n == old(n) + 1 && nextSub <= subs.Length && WrapsFunction(p)
        && Has(Store(), p, t, PartCandidates(t), from, lo, nextComp)
    {
      hide OperandsFit, TableFits, Store, KeptBelow, Has, PartCandidates, Added, WrapsFunction;
      KeptThrough(Store(), nextComp);
      p := RefQualifier(type_);
      if old(Peek()) == 'E' { StoreSame(); }
      if t.RefFunction? && old(AtEndOf(type_, t, from, lo)) {
        StoreAdded(p.i);
        FunctionWrapped(old(Store()), p, type_, t, from, lo);
      }
    }

    lemma FunctionWrapped(a: Arena, p: Ptr, type_: Ptr, t: Tree, from: nat, lo: nat)
      requires t.RefFunction? && nextSub <= subs.Length && p.At? && lo <= p.i && p.i + 1 == nextComp
      requires Has(a, type_, Function(t.ret, t.params), PartCandidates(t), from, lo, p.i)
      requires Added(a, Store(), p.i, Node(ThisReference(t.code), type_, Null))
      ensures WrapsFunction(p) && Has(Store(), p, t, PartCandidates(t), from, lo, nextComp)
    {
      hide Has, PartCandidates;
      RefFunctionBuilt(a, Store(), type_, t, from, lo, p.i);
      FunctionIsNode(Store(), type_, t, lo, p.i + 1);
      StoredComp(type_);
      StoredComp(p);
    }

    /** The function type has been read, and its reference qualifier and the end mark follow. */
    ghost predicate AtEndOf(type_: Ptr, t: Tree, from: nat, lo: nat)
      requires t.RefFunction? && nextSub <= subs.Length
      reads this, comps, subs
    {
      && n + 1 < |input| && input[n] == t.code && (t.code == 'R' || t.code == 'O') && input[n + 1] == 'E'
      && lo <= nextComp && Has(Store(), type_, Function(t.ret, t.params), PartCandidates(t), from, lo, nextComp)
    }

    /** A reference qualifier around a function type. */
    ghost predicate WrapsFunction(p: Ptr)
      reads this`nextComp, comps
    {
      && p.At? && p.i < comps.Length && IsRefQualified(comps[p.i])
      && IsNode(comps[p.i].left, FunctionType) && comps[p.i].left.i < nextComp
    }

    lemma FunctionSpelled(t: Tree)
      requires IsFunction(t) && nextSub <= subs.Length && AtText(t)
      ensures n + 1 < |input| && input[n] == 'F' && input[n + 1] != 'Y' && IsSignature(Function(t.ret, t.params), n + 1)
      ensures PartCandidates(Function(t.ret, t.params)) == PartCandidates(t)
      ensures var e := n + 1 + |Text(t.ret)| + |TextAll(Spelled(t.params))|;
        SpellsEndOf(input, e, t) && |Text(t)| == e + |EndText(t)| - n
    {
      hide Text, TextAll, Spells, SpellsAll, SpellsEndOf, EndText, PartCandidates, Candidates, WellFormed;
      hide Spelled, IsReady;
      SpellsFunction(input, n, t, nextSub);
      SpelledIsNoEnd(input, n + 1, t.ret, nextSub);
      SpellsParts(input, n, t, nextSub);
      FunctionIsWellFormed(t);
      FunctionCandidates(t);
    }

    lemma FunctionCandidates(t: Tree)
      requires IsFunction(t)
      ensures PartCandidates(Function(t.ret, t.params)) == PartCandidates(t)
    {
    }

    lemma FunctionIsWellFormed(t: Tree)
      requires IsFunction(t) && WellFormed(t)
      ensures t.params != [Basic('v')]
    {
    }

    /** The text at `a` spells the return type and the parameters. */
    ghost predicate IsSignature(t: Tree, a: nat)
      requires t.Function?
      reads this`nextSub
    {
      && Spells(input, a, t.ret, nextSub) && t.params != [Basic('v')]
      && SpellsAll(input, a + |Text(t.ret)|, Spelled(t.params), nextSub + |Candidates(t.ret)|)
    }

    /** The return type and the parameters follow. */
    ghost predicate AtSignature(t: Tree)
      requires t.Function? && nextSub <= subs.Length
      reads this, comps, subs
    {
      IsSignature(t, n) && IsReady()
    }

    method BareFunctionType(hasReturnType: bool, ghost t: Tree := NoTree, ghost ps: seq<Tree> := []) returns (p: Ptr)
      requires Valid() && (!hasReturnType ==> nextComp + 1 <= 2 * n)
      modifies this, comps, subs
      ensures Valid() && Grew() && Spent(if hasReturnType then 0 else -1, 0)
      ensures p.Null? ==> Spent(0, 0)
      ensures p.At? ==> old(nextComp) <= p.i < nextComp && old(n) < n
      ensures hasReturnType && t.Function? && old(AtSignature(t)) ==>
        && p.At? && n == old(n) + |Text(t.ret)| + |TextAll(Spelled(t.params))| && nextSub <= subs.Length
        && Has(Store(), p, t, PartCandidates(t), old(nextSub), old(nextComp), nextComp)
      ensures !hasReturnType && old(AtParams(ps)) ==>
        && p.At? && n == old(n) + |TextAll(Spelled(ps))| && nextSub <= subs.Length
        && HasSignature(Store(), p, ps, old(nextSub), old(nextComp), nextComp)
      decreases |input| - n, 10
    {
      hide OperandsFit, TableFits, Spells, SpellsAll, Has, Text, TextAll, Candidates, PartCandidates, Store;
      hide IsReady, HasSignature, HasParams, Added, KeptBelow;
      KeptThrough(Store(), nextComp);
      if t.Function? && AtSignature(t) { SpelledIsNoEnd(input, n, t.ret, nextSub); }
      if AtParams(ps) { ParamsFirst(input, n, Spelled(ps), nextSub); }
      if Peek() == 'J' {
        n := n + 1;
        p := ReturningFunctionType();
      } else if hasReturnType {
        p := ReturningFunctionType(t);
      } else {
        p := Signature(ps);
      }
    }

    /** A function type that has parameters only. */
    method Signature(ghost ps: seq<Tree>) returns (p: Ptr)
      requires Valid() && nextComp + 1 <= 2 * n
      modifies this, comps, subs
      ensures Valid() && Grew() && Spent(if p.At? then -1 else 0, 0)
      ensures p.At? ==> old(nextComp) <= p.i < nextComp && old(n) < n
      ensures old(AtParams(ps)) ==>
        && p.At? && n == old(n) + |TextAll(Spelled(ps))| && nextSub <= subs.Length
        && HasSignature(Store(), p, ps, old(nextSub), old(nextComp), nextComp)
      decreases |input| - n, 9, 2
    {
      hide OperandsFit, TableFits, OperandsPresent, SpellsAll, TextAll, Store, IsReady, HasSignature, HasParams;
      hide Added, KeptBelow;
      KeptThrough(Store(), nextComp);
      var parms := ParmList(ps);
      if parms.Null? { return Null; }
      label Made:
      ListsNeedNothing(Null, parms);
      p := MakeComp(FunctionType, Null, parms);
      if old(AtParams(ps)) {
        StoreAdded@Made(p.i);
        SignatureBuilt(old@Made(Store()), Store(), parms, ps, old(nextSub), old(nextComp), p.i);
      }
    }

    method ReturningFunctionType(ghost t: Tree := NoTree) returns (p: Ptr)
      requires Valid()
      modifies this, comps, subs
      ensures Valid() && Produced(p, 0, 0) && (p.At? ==> old(nextComp) <= p.i)
      ensures t.Function? && old(AtSignature(t)) ==>
        && p.At? && n == old(n) + |Text(t.ret)| + |TextAll(Spelled(t.params))| && nextSub <= subs.Length
        && Has(Store(), p, t, PartCandidates(t), old(nextSub), old(nextComp), nextComp)
      decreases |input| - n, 8
    {
      hide OperandsFit, TableFits, Spells, SpellsAll, Has, Text, TextAll, Candidates, PartCandidates, Store;
      hide KeptBelow, WrapsFunction, Requalified, OnlyRead, LastCandidate, IsBuiltinLetter;
      KeptThrough(Store(), nextComp);
      var return_ := Type(if t.Function? then t.ret else NoTree);
      if return_.Null? { return Null; }
      if t.Function? && old(AtSignature(t)) {
        HasCount(Store(), return_, t.ret, Candidates(t.ret), old(nextSub), old(nextComp), nextComp);
      }
      p := FunctionOf(return_, t, old(nextSub), old(nextComp));
    }

    /** The parameters, after the return type. */
    method FunctionOf(return_: Ptr, ghost t: Tree, ghost from: nat, ghost lo: nat) returns (p: Ptr)
      requires Valid() && return_.At? && return_.i < nextComp && lo <= nextComp && nextComp + 1 <= 2 * n
      modifies this, comps, subs
      ensures Valid() && Grew() && Spent(if p.At? then -1 else 0, 0)
      ensures p.At? ==> old(nextComp) <= p.i < nextComp && old(n) < n
      ensures t.Function? && old(AtParameters(return_, t, from, lo)) ==>
        && p.At? && n == old(n) + |TextAll(Spelled(t.params))| && nextSub <= subs.Length
        && Has(Store(), p, t, PartCandidates(t), from, lo, nextComp)
      decreases |input| - n, 11
    {
      hide OperandsFit, TableFits, OperandsPresent, SpellsAll, Has, HasParams, TextAll, Candidates;
      hide PartCandidates, Store, Added, Kept, IsReady, KeptBelow;
      KeptThrough(Store(), nextComp);
      var parms := ParmList(if t.Function? then t.params else []);
      if parms.Null? { return Null; }
      StoreGrew(lo);
      label Made:
      ListsNeedNothing(return_, parms);
      p := MakeComp(FunctionType, return_, parms);
      if t.Function? && old(AtParameters(return_, t, from, lo)) {
        StoreAdded@Made(p.i);
        FunctionBuilt(old(Store()), old@Made(Store()), Store(), return_, parms, t, from, lo, old(nextComp), p.i);
      }
    }

    /** The return type has been read, and the parameters follow. */
    ghost predicate AtParameters(return_: Ptr, t: Tree, from: nat, lo: nat)
      requires t.Function? && nextSub <= subs.Length
      reads this, comps, subs
    {
      && AtParams(t.params) && nextSub == from + |Candidates(t.ret)|
      && Has(Store(), return_, t.ret, Candidates(t.ret), from, lo, nextComp)
    }

    /** Types of parameters; those of the list `ps`, if they stand at the cursor. */
    method ParmList(ghost ps: seq<Tree> := []) returns (p: Ptr)
      requires Valid()
      modifies this, comps, subs
      ensures Valid() && Produced(p, 0, 1)
      ensures BuiltParams(ps, p)
      decreases |input| - n, 9, 1
    {
      hide OperandsFit, TableFits, SpellsAll, Args, HasParams, Store, IsReady, TextAll, WellFormed, KeptBelow;
      KeptThrough(Store(), nextComp);
      ghost var nodes;
      if AtParams(ps) { FirstWellFormed(input, n, Spelled(ps), nextSub); }
      p, nodes := Parameters(ps);
      if old(AtParams(ps)) { FinishedList(Spelled(ps), nodes, old(nextSub), old(nextComp)); }
      label Listed:
      if p.At? && comps[p.i].right.Null? {
        OmitVoid(p);
      }
      if old(AtParams(ps)) {
        if ps == [] {
          StoreAdded@Listed(p.i);
          NoArgsDone(old@Listed(Store()), Store(), nodes, old(nextSub), old(nextComp), nextComp);
        } else {
          StoreSame@Listed();
          ArgsDone(Store(), Arglist, ps, nodes, old(nextSub), old(nextComp), nextComp);
        }
      }
    }

    /** The list before a single void is taken away, and the slots of its elements. */
    method Parameters(ghost ps: seq<Tree>) returns (p: Ptr, ghost nodes: seq<nat>)
      requires Valid()
      modifies this, comps, subs
      ensures Valid() && Produced(p, 0, 1)
      ensures p.At? ==> old(nextComp) <= p.i && comps[p.i].Node? && comps[p.i].kind.Arglist?
      ensures old(AtParams(ps)) ==>
        && p.At? && n == old(n) + |TextAll(Spelled(ps))| && nextSub <= subs.Length && IsVoidTable(builtins)
        && |nodes| > 0 && p == At(nodes[0])
        && Args(Store(), Arglist, Spelled(ps), nodes, old(nextSub), old(nextComp), nextComp)
      decreases |input| - n, 9, 0
    {
      hide OperandsFit, TableFits, SpellsAll, Args, Store, IsReady, TextAll, IsVoidTable, KeptBelow;
      KeptThrough(Store(), nextComp);
      p := Null;
      var last := Null;
      nodes := [];
      ghost var qs, k := Spelled(ps), 0;
      ghost var spelled := AtParams(ps);
      if spelled { NoParamsYet(ps); }
      while AtParameter()
        invariant Valid() && Grew() && Spent(0, 0)
        invariant (last.At? <==> p.At?)
        invariant p.At? ==> old(nextComp) <= p.i < nextComp && old(n) < n && Spent(0, 1)
        invariant last.At? ==> old(nextComp) <= last.i < nextComp
        invariant last.At? ==> comps[last.i].Node? && comps[last.i].kind.Arglist? && comps[p.i].Node? && comps[p.i].kind.Arglist?
        invariant spelled ==> ListBuilt(p, last, qs, k, nodes, old(nextSub), old(nextComp), old(n))
        decreases |input| - n
      {
        if spelled { ParamFollows(p, last, qs, k, nodes, old(nextSub), old(nextComp), old(n)); }
        p, last := AddParameter(p, last, qs, k, nodes, old(nextSub), old(nextComp), old(n));
        if p.Null? { return; }
        if spelled { k, nodes := k + 1, nodes + [last.i]; }
      }
      if spelled { ParamsAreOver(p, last, qs, k, nodes, old(nextSub), old(nextComp), old(n)); }
    }

    /** A list has a single element that is void exactly when it is spelled as such. */
    lemma FinishedList(qs: seq<Tree>, nodes: seq<nat>, from: nat, lo: nat)
      requires nextSub <= subs.Length && qs != [] && IsVoidTable(builtins) && nextComp <= comps.Length
      requires Args(Store(), Arglist, qs, nodes, from, lo, nextComp) && (|qs| == 1 ==> WellFormed(qs[0]))
      ensures |nodes| == |qs| && nodes[0] < comps.Length && comps[nodes[0]].Node? && comps[nodes[0]].kind.Arglist?
      ensures comps[nodes[0]].right.Null? <==> |qs| == 1
      ensures |qs| == 1 ==> (IsVoid(comps[nodes[0]].left) <==> qs == [Basic('v')])
    {
      var a := Store();
      assert ArgAt(a, Arglist, qs, nodes, from, lo, nextComp, 0);
      if |qs| == 1 {
        var type_ := a.Left(At(nodes[0]));
        KeptSelf(a, lo, nodes[0]);
        RepKept(a, a, type_, qs[0], lo, nodes[0], lo, nextComp);
        RootIsPlain(a, type_, qs[0], lo, nextComp);
      }
    }

    /** The text at the cursor spells these parameters. */
    ghost predicate AtParams(ps: seq<Tree>)
      requires nextSub <= subs.Length
      reads this, comps, subs
    {
      SpellsAll(input, n, Spelled(ps), nextSub) && IsReady() && ps != [Basic('v')]
    }

    twostate predicate BuiltParams(ps: seq<Tree>, p: Ptr)
      reads this, comps, subs
    {
      old(nextSub <= subs.Length && AtParams(ps)) ==>
        && p.At? && n == old(n) + |TextAll(Spelled(ps))| && nextSub <= subs.Length
        && HasParams(Store(), Arglist, p, ps, old(nextSub), old(nextComp), nextComp)
    }

    /** The first `k` parameters are in the slots `nodes`, and the others follow. */
    ghost predicate ListBuilt(p: Ptr, last: Ptr, qs: seq<Tree>, k: nat, nodes: seq<nat>, from: nat, lo: nat, start: nat)
      requires nextSub <= subs.Length
      reads this, comps, subs
    {
      && k <= |qs| && |nodes| == k && IsVoidTable(builtins)
      && SpellsAll(input, n, qs[k..], nextSub) && n + |TextAll(qs[k..])| == start + |TextAll(qs)|
      && Args(Store(), Arglist, qs[..k], nodes, from, lo, nextComp)
      && p == (if k == 0 then Null else At(nodes[0])) && last == (if k == 0 then Null else At(nodes[k - 1]))
    }

    lemma NoParamsYet(ps: seq<Tree>)
      requires nextSub <= subs.Length && AtParams(ps)
      ensures ListBuilt(Null, Null, Spelled(ps), 0, [], nextSub, nextComp, n)
    {
      var qs := Spelled(ps);
      assert qs[0..] == qs && qs[..0] == [];
      NoCandidates();
    }

    /** While the list goes on, another parameter is spelled at the cursor. */
    lemma ParamFollows(p: Ptr, last: Ptr, qs: seq<Tree>, k: nat, nodes: seq<nat>, from: nat, lo: nat, start: nat)
      requires nextSub <= subs.Length && ListBuilt(p, last, qs, k, nodes, from, lo, start) && AtParameter()
      ensures k < |qs| && AtText(qs[k])
    {
      hide Args, ArgAt, SpellsAll;
      if k < |qs| {
        NextSpelled(input, n, qs, k, nextSub);
        ArgsCount(Store(), Arglist, qs[..k], nodes, from, lo, nextComp);
      } else {
        NothingSpelled(input, n, qs, nextSub);
      }
    }

    /** When the list is over, so are the parameters. */
    lemma ParamsAreOver(p: Ptr, last: Ptr, qs: seq<Tree>, k: nat, nodes: seq<nat>, from: nat, lo: nat, start: nat)
      requires nextSub <= subs.Length && ListBuilt(p, last, qs, k, nodes, from, lo, start) && !AtParameter()
      ensures k == |qs| && n == start + |TextAll(qs)| && Args(Store(), Arglist, qs, nodes, from, lo, nextComp)
    {
      hide Args;
      if k < |qs| {
        NextSpelled(input, n, qs, k, nextSub);
        SpelledIsNoEnd(input, n, qs[k], nextSub);
      }
      assert qs[..|qs|] == qs && TextAll(qs[|qs|..]) == "";
    }

    /** One more parameter at the end of the list p..last. */
    method AddParameter(p: Ptr, last: Ptr, ghost qs: seq<Tree>, ghost k: nat, ghost nodes: seq<nat>,
                        ghost from: nat, ghost lo: nat, ghost start: nat) returns (head: Ptr, node: Ptr)
      requires Valid() && (last.At? <==> p.At?) && lo <= nextComp
      requires last.At? ==> lo <= last.i < nextComp && comps[last.i].Node? && comps[last.i].kind.Arglist?
      requires p.At? ==> lo <= p.i < nextComp && comps[p.i].Node? && comps[p.i].kind.Arglist?
      modifies this, comps, subs
      ensures Valid() && GrewFrom(lo) && Spent(0, 0)
      ensures head.At? <==> node.At?
      ensures head.At? ==> lo <= head.i < nextComp && lo <= node.i < nextComp && old(n) < n && Spent(0, 1)
      ensures head.At? ==> comps[head.i].Node? && comps[head.i].kind.Arglist? && comps[node.i].Node? && comps[node.i].kind.Arglist?
      ensures old(AtNext(p, last, qs, k, nodes, from, lo, start)) ==>
        head.At? && ListBuilt(head, node, qs, k + 1, nodes + [node.i], from, lo, start)
      decreases |input| - n, 8, 1
    {
      hide OperandsFit, TableFits, Spells, SpellsAll, Args, NewArgument, Store, Kept, Plain, Text, TextAll;
      hide Candidates, IsReady, KeptBelow;
      KeptThrough(Store(), lo);
      ghost var a := Store();
      if last.At? {
        StoredComp(p);
        StoredComp(last);
      }
      ghost var next := AtNext(p, last, qs, k, nodes, from, lo, start);
      node := Parameter(if k < |qs| then qs[k] else NoTree);
      if node.Null? { return Null, Null; }
      StoreGrew(lo);
      if last.At? {
        NodeStays(a, Store(), last.i, old(nextComp));
        NodeStays(a, Store(), p.i, old(nextComp));
        StoredComp(last);
        StoredComp(p);
      }
      label Made:
      head := p;
      if last.At? {
        SetRight(last, node);
      } else {
        head := node;
      }
      if next {
        if last.At? { StoreAdded@Made(last.i); }
        NextArgument(old(Store()), Arglist, old@Made(Store()), Store(), qs, k, nodes, node.i, from, lo, old(nextComp));
        NextSpelled(input, old(n), qs, k, old(nextSub));
      }
    }

    /** Parameter number `k` stands at the cursor. */
    ghost predicate AtNext(p: Ptr, last: Ptr, qs: seq<Tree>, k: nat, nodes: seq<nat>, from: nat, lo: nat, start: nat)
      requires nextSub <= subs.Length
      reads this, comps, subs
    {
      ListBuilt(p, last, qs, k, nodes, from, lo, start) && k < |qs| && AtText(qs[k])
    }

    /** Not the end of the list, and not a reference qualifier of the function. */
    predicate AtParameter()
      reads this
    {
      && Peek() != '\0' && Peek() != 'E' && Peek() != '.'
      && !((Peek() == 'R' || Peek() == 'O') && PeekNext() == 'E')
    }

    method Parameter(ghost t: Tree := NoTree) returns (p: Ptr)
      requires Valid()
      modifies this, comps, subs
      ensures Valid() && Produced(p, 0, 1)
      ensures p.At? ==> old(nextComp) <= p.i && comps[p.i].Node? && comps[p.i].kind.Arglist?
      ensures p.At? ==> p.i + 1 == nextComp && comps[p.i].right.Null?
      ensures old(AtText(t)) ==>
        && p.At? && n == old(n) + |Text(t)| && nextSub <= subs.Length
        && NewArgument(Store(), Arglist, p.i, t, old(nextSub), old(nextComp))
      decreases |input| - n, 8, 0
    {
      hide OperandsFit, TableFits, OperandsPresent, Spells, Has, Text, Candidates, Store, Added, NewArgument;
      hide IsReady, KeptBelow, WrapsFunction, Requalified, OnlyRead, LastCandidate, IsBuiltinLetter;
      KeptThrough(Store(), nextComp);
      var type_ := Type(t);
      if type_.Null? { return Null; }
      label Made:
      ListsNeedNothing(type_, Null);
      p := MakeComp(Arglist, type_, Null);
      if old(AtText(t)) {
        StoreAdded@Made(p.i);
        ArgumentBuilt(old@Made(Store()), Arglist, Store(), type_, t, old(nextSub), old(nextComp), p.i);
      }
    }

    predicate IsVoid(p: Ptr)
      reads comps
    {
      p.At? && p.i < comps.Length && comps[p.i].Builtin? && comps[p.i].info.isVoid
    }

    /** A single parameter of type void means that there is none. */
    method OmitVoid(p: Ptr)
      requires Valid() && p.At? && p.i < nextComp && comps[p.i].Node? && comps[p.i].kind.Arglist?
      modifies this`expansion, comps
      ensures Valid() && GrewFrom(p.i)
      ensures forall i | 0 <= i < comps.Length && i != p.i :: comps[i] == old(comps[i])
      ensures comps[p.i] == if old(IsVoid(comps[p.i].left)) then Node(Arglist, Null, old(comps[p.i]).right) else old(comps[p.i])
    {
      hide TableFits;
      var type_ := Get(p).left;
      if type_.At? {
        match Get(type_)
        case Builtin(info) =>
          if info.isVoid {
            expansion := expansion - |info.name|;
            SetLeft(p, Null);
          }
        case _ =>
      }
    }

    method ArrayTypeProduction(ghost t: Tree := NoTree) returns (p: Ptr)
      requires Valid()
      modifies this, comps, subs
      ensures Valid() && Produced(p, 2, 2)
      ensures t.Array? ==> BuiltParts(t, p)
      decreases |input| - n, 1
    {
      hide OperandsFit, TableFits, Spells, Has, Text, PartCandidates, Candidates, TextAt, AreDigits, Store;
      hide KeptBelow;
      KeptThrough(Store(), nextComp);
      if AtText(t) && t.Array? { SpellsArray(input, n, t, nextSub); }
      var ok := CheckChar('A');
      if !ok { return Null; }
      var dim;
      ok, dim := ArrayDimension(if t.Array? then t.dim else "");
      if !ok { return Null; }
      if old(AtText(t)) && t.Array? {
        StoreGrew(0);
        StaysReady(old(Store()), old(nextComp));
      }
      p := ArrayOf(dim, t, old(nextComp));
    }

    /** '_' and the element type, after a dimension in the slots from `lo` on. */
    method ArrayOf(dim: Ptr, ghost t: Tree, ghost lo: nat) returns (p: Ptr)
      requires Valid()
      requires InArena(dim, nextComp) && lo <= nextComp
      modifies this, comps, subs
      ensures Valid() && Produced(p, 2, 2)
      ensures t.Array? && old(AtElement(dim, t, lo)) ==>
        && p.At? && n == old(n) + 1 + |Text(t.of)| && nextSub <= subs.Length
        && Has(Store(), p, t, PartCandidates(t), old(nextSub), lo, nextComp)
      decreases |input| - n, 1
    {
      hide OperandsFit, TableFits, Spells, Has, Text, PartCandidates, Candidates, Store, Added, IsReady, Kept;
      hide SameComp, Requalified, OnlyRead, KeptBelow, WrapsFunction, IsBuiltinLetter, LastCandidate;
      hide HasDimension, IsRefQualified;
      KeptThrough(Store(), nextComp);
      ghost var element := t.Array? && AtElement(dim, t, lo);
      if element { DimensionStored(dim, t.dim, lo, nextComp); }
      var ok := CheckChar('_');
      if !ok { return Null; }
      var type_ := Type(if t.Array? then t.of else NoTree);
      StoreGrew(lo);
      if element && t.dim != "" { NameKept(old(Store()), Store(), dim, t.dim, lo, old(nextComp)); }
      p := WrapArray(dim, type_, t, old(nextSub), lo, old(nextComp));
    }

    method WrapArray(dim: Ptr, type_: Ptr, ghost t: Tree, ghost from: nat, ghost lo: nat, ghost mid: nat)
      returns (p: Ptr)
      requires Valid() && InArena(dim, nextComp) && InArena(type_, nextComp) && lo <= mid <= nextComp
      requires type_.At? ==> nextComp < 2 * n
      modifies this, comps, subs
      ensures Valid() && Grew() && n == old(n) && nextSub == old(nextSub)
      ensures nextComp == old(nextComp) + if p.At? then 1 else 0
      ensures p.At? <==> type_.At?
      ensures p.At? ==> old(nextComp) <= p.i < nextComp
      ensures p.At? && old(AtWrapArray(dim, type_, t, from, lo, mid)) ==>
        Has(Store(), p, t, PartCandidates(t), from, lo, nextComp)
    {
      hide OperandsFit, TableFits, OperandsPresent, Has, PartCandidates, Candidates, Store, Added, KeptBelow;
      KeptThrough(Store(), nextComp);
      RightNeeded(dim, type_);
      p := MakeComp(ArrayType, dim, type_);
      if p.At? && old(AtWrapArray(dim, type_, t, from, lo, mid)) {
        StoreAdded(p.i);
        ArrayBuilt(old(Store()), Store(), dim, type_, t, from, lo, mid, p.i);
      }
    }

    ghost predicate AtWrapArray(dim: Ptr, type_: Ptr, t: Tree, from: nat, lo: nat, mid: nat)
      requires nextSub <= subs.Length
      reads this, comps, subs
    {
      && t.Array? && Has(Store(), type_, t.of, Candidates(t.of), from, mid, nextComp)
      && if t.dim == "" then dim.Null? else Store().HasName(dim, t.dim, lo, mid)
    }

    /** The dimension has been read, and the element type follows. */
    ghost predicate AtElement(dim: Ptr, t: Tree, lo: nat)
      requires t.Array? && nextSub <= subs.Length
      reads this, comps, subs
    {
      && n < |input| && input[n] == '_' && Spells(input, n + 1, t.of, nextSub) && IsReady()
      && HasDimension(dim, t.dim, lo, nextComp)
    }

    /** A missing dimension, or one that is kept as a name. */
    ghost predicate HasDimension(dim: Ptr, d: string, lo: nat, hi: nat)
      reads comps
    {
      if d == "" then dim.Null? else dim.At? && lo <= dim.i < hi <= comps.Length && comps[dim.i] == Name(d)
    }

    lemma DimensionStored(dim: Ptr, d: string, lo: nat, hi: nat)
      requires HasDimension(dim, d, lo, hi) && nextSub <= subs.Length
      ensures if d == "" then dim.Null? else Store().HasName(dim, d, lo, hi)
    {
    }

    /** The dimension may be missing; `ok` is false when it is malformed. */
    method ArrayDimension(ghost d: string) returns (ok: bool, p: Ptr)
      requires Valid()
      modifies this, comps, subs
      ensures Valid() && Produced(p, 1, 0)
      ensures old(AtDimension(d)) ==>
        ok && n == old(n) + |d| && nextSub == old(nextSub) && HasDimension(p, d, old(nextComp), nextComp)
      decreases |input| - n, 11
    {
      hide OperandsFit, TableFits, TextAt, AreDigits, DigitsAt, Store, KeptBelow;
      KeptThrough(Store(), nextComp);
      if AtDimension(d) { DimensionRead(d); }
      if Peek() == '_' {
        return true, Null;
      }
      if IsDigit(Peek()) {
        var s := n;
        SkipDigits();
        p := MakeName(input[s..n]);
      } else {
        p := Expression();
      }
      ok := p.At?;
    }

    /** The digits of a dimension, perhaps none, and then '_'. */
    ghost predicate AtDimension(d: string)
      reads this
    {
      TextAt(input, n, d) && AreDigits(d) && n + |d| < |input| && input[n + |d|] == '_'
    }

    lemma DimensionRead(d: string)
      requires AtDimension(d)
      ensures DigitsAt(input, n, 0).0 == n + |d| && input[n..n + |d|] == d
      ensures if d == "" then Peek() == '_' else IsDigit(Peek())
    {
      DigitsRead(input, n, d, 0);
      if d != "" {
        assert d == [d[0]] + d[1..];
        TextAtChar(input, n, d[0], d[1..]);
      }
    }

    method SkipDigits()
      requires n <= |input|
      modifies this`n
      ensures old(n) <= n <= |input| && n == DigitsAt(input, old(n), 0).0
      ensures old(n) < |input| && IsDigit(input[old(n)]) ==> old(n) < n
    {
      ghost var value := 0;
      while n < |input| && IsDigit(input[n])
        invariant old(n) <= n <= |input| && value >= 0
        invariant DigitsAt(input, old(n), 0) == DigitsAt(input, n, value)
        invariant n == old(n) ==> value == 0
      {
        value := value * 10 + (input[n] as int - '0' as int);
        n := n + 1;
      }
    }

    method PointerToMemberType(ghost t: Tree := NoTree) returns (p: Ptr)
      requires Valid()
      modifies this, comps, subs
      ensures Valid() && Produced(p, 2, 2)
      ensures t.Member? ==> BuiltParts(t, p)
      decreases |input| - n, 1
    {
      hide OperandsFit, TableFits, Spells, Has, Text, PartCandidates, Candidates, Store, Added, KeptBelow;
      hide WrapsFunction, Requalified, OnlyRead, LastCandidate, IsBuiltinLetter, Plain;
      KeptThrough(Store(), nextComp);
      if AtText(t) && t.Member? { SpellsMember(input, n, t, nextSub); }
      var ok := CheckChar('M');
      if !ok { return Null; }
      var class_ := Type(if t.Member? then t.class_ else NoTree);
      if class_.Null? { return Null; }
      if old(AtText(t)) && t.Member? {
        HasCount(Store(), class_, t.class_, Candidates(t.class_), old(nextSub), old(nextComp), nextComp);
      }
      p := MemberOf(class_, t, old(nextSub), old(nextComp));
    }

    /** The type of a member, after its class. */
    method MemberOf(class_: Ptr, ghost t: Tree, ghost from: nat, ghost lo: nat) returns (p: Ptr)
      requires Valid() && class_.At? && class_.i < nextComp && lo <= nextComp
      modifies this, comps, subs
      ensures Valid() && Produced(p, 0, 1)
      ensures t.Member? && old(AtMember(class_, t, from, lo)) ==>
        && p.At? && n == old(n) + |Text(t.of)| && nextSub <= subs.Length
        && Has(Store(), p, t, PartCandidates(t), from, lo, nextComp)
      decreases |input| - n, 10
    {
      hide OperandsFit, TableFits, OperandsPresent, Spells, Has, Text, PartCandidates, Candidates, Store, Added;
      hide Kept, KeptBelow, WrapsFunction, Requalified, OnlyRead, LastCandidate, IsBuiltinLetter;
      KeptThrough(Store(), nextComp);
      var member := Type(if t.Member? then t.of else NoTree);
      if member.Null? { return Null; }
      StoreGrew(lo);
      label Made:
      BothNeeded(class_, member);
      p := MakeComp(PtrmemType, class_, member);
      if t.Member? && old(AtMember(class_, t, from, lo)) {
        StoreAdded@Made(p.i);
        MemberBuilt(old(Store()), old@Made(Store()), Store(), class_, member, t, from, lo, old(nextComp), p.i);
      }
    }

    /** The class has been read, and the type of the member follows. */
    ghost predicate AtMember(class_: Ptr, t: Tree, from: nat, lo: nat)
      requires t.Member? && nextSub <= subs.Length
      reads this, comps, subs
    {
      && Spells(input, n, t.of, nextSub) && nextSub == from + |Candidates(t.class_)| && IsReady()
      && Has(Store(), class_, t.class_, Candidates(t.class_), from, lo, nextComp)
    }

    // -------------------------------------------------------------------------------------------
    // Template arguments
    // -------------------------------------------------------------------------------------------

    /** The last name survives well-formed arguments. */
    method TemplateArgs(ghost ts: seq<Tree> := []) returns (p: Ptr)
      requires Valid()
      modifies this, comps, subs
      ensures Valid() && Produced(p, 3, 2)
      decreases |input| - n, 0
      ensures p.At? ==> lastName == old(lastName)
      ensures old(Peek()) == 'I' ==> old(n) < n
      ensures old(AtTemplateArgs(ts)) ==>
        && p.At? && n == old(n) + 2 + |TextAll(ts)| && nextSub <= subs.Length
        && HasParams(Store(), TemplateArglist, p, ts, old(nextSub), old(nextComp), nextComp)
    {
      hide OperandsFit, TableFits, SpellsArgs, HasParams, TextAll, Store, Plain, IsVoidTable, KeptBelow;
      KeptThrough(Store(), nextComp);
      if AtTemplateArgs(ts) { ArgsEnd(input, n + 1, ts, nextSub); }
      var holdLastName := lastName;
      if Peek() != 'I' && Peek() != 'J' { return Null; }
      n := n + 1;
      if Peek() == 'E' {
        p := NoTemplateArgs();
        return;
      }
      p := TemplateArgList(ts);
      if p.At? {
        lastName := holdLastName;
      }
    }

    /** An empty list of template arguments. */
    method NoTemplateArgs() returns (p: Ptr)
      requires Valid() && Peek() == 'E' && nextComp + 2 <= 2 * n
      modifies this`n, this`nextComp, this`exhausted, comps
      ensures Valid() && Grew() && p == At(old(nextComp)) && nextComp == old(nextComp) + 1 && n == old(n) + 1
      ensures forall i | 0 <= i < old(nextComp) :: comps[i] == old(comps[i])
      ensures old(IsReady()) ==> HasParams(Store(), TemplateArglist, p, [], nextSub, old(nextComp), nextComp)
    {
      hide OperandsFit, TableFits, OperandsPresent, HasParams, Store, Plain, IsVoidTable;
      n := n + 1;
      ListsNeedNothing(Null, Null);
      p := MakeComp(TemplateArglist, Null, Null);
      if old(IsReady()) {
        StoreAdded(p.i);
        NoArgumentsBuilt(old(Store()), Store(), nextSub, p.i);
      }
    }

    /** Template arguments stand at the cursor. */
    ghost predicate AtTemplateArgs(ts: seq<Tree>)
      requires nextSub <= subs.Length
      reads this, comps, subs
    {
      n < |input| && input[n] == 'I' && SpellsArgs(input, n + 1, ts, nextSub) && IsReady()
    }

    /** One or more arguments and 'E'. */
    method TemplateArgList(ghost ts: seq<Tree> := []) returns (p: Ptr)
      requires Valid()
      modifies this, comps, subs
      ensures Valid() && Produced(p, 2, 1)
      ensures old(AtArguments(ts)) ==>
        && p.At? && n == old(n) + |TextAll(ts)| + 1 && nextSub <= subs.Length
        && HasParams(Store(), TemplateArglist, p, ts, old(nextSub), old(nextComp), nextComp)
      decreases |input| - n, 11
    {
      hide OperandsFit, TableFits, ArgumentsBuilt, AtArgument, SpellsArgs, HasParams, Store, TextAll, IsReady;
      hide KeptBelow, InArena, SameComp, IsRefQualified;
      KeptThrough(Store(), nextComp);
      p := Null;
      var last := Null;
      ghost var nodes: seq<nat>, k, spelled := [], 0, AtArguments(ts);
      if spelled { NoArgumentsYet(ts); }
      while true
        invariant Valid() && Grew() && Spent(0, 0)
        invariant (last.At? <==> p.At?)
        invariant p.At? ==> old(nextComp) <= p.i < nextComp && old(n) < n
        invariant last.At? ==> old(nextComp) <= last.i < nextComp && comps[last.i].Node? && comps[last.i].kind.TemplateArglist?
        invariant spelled ==> k < |ts| && ArgumentsBuilt(p, last, ts, k, nodes, old(nextSub), old(nextComp), old(n))
        decreases |input| - n
      {
        p, last := ArgumentStep(p, last, ts, k, nodes, old(nextSub), old(nextComp), old(n));
        if p.Null? { return; }
        k, nodes := k + 1, nodes + [last.i];
        if Peek() == 'E' {
          n := n + 1;
          return;
        }
      }
    }

    /** One more argument at the end of the list, and whether the list ends behind it. */
    method ArgumentStep(p: Ptr, last: Ptr, ghost ts: seq<Tree>, ghost k: nat, ghost nodes: seq<nat>,
                        ghost from: nat, ghost lo: nat, ghost start: nat) returns (head: Ptr, node: Ptr)
      requires Valid() && (last.At? <==> p.At?) && lo <= nextComp
      requires last.At? ==> lo <= last.i < nextComp && comps[last.i].Node? && comps[last.i].kind.TemplateArglist?
      requires p.At? ==> lo <= p.i < nextComp
      modifies this, comps, subs
      ensures Valid() && GrewFrom(lo) && Spent(0, 0)
      ensures head.At? <==> node.At?
      ensures head.At? ==> lo <= head.i < nextComp && lo <= node.i < nextComp && old(n) < n
      ensures head.At? ==> comps[node.i].Node? && comps[node.i].kind.TemplateArglist?
      ensures k < |ts| && old(ArgumentsBuilt(p, last, ts, k, nodes, from, lo, start)) ==>
        && head.At? && ArgumentsBuilt(head, node, ts, k + 1, nodes + [node.i], from, lo, start)
        && (Peek() == 'E' <==> k + 1 == |ts|)
        && (k + 1 == |ts| ==> n == start + |TextAll(ts)| && HasParams(Store(), TemplateArglist, head, ts, from, lo, nextComp))
      decreases |input| - n, 10, 2
    {
      hide OperandsFit, TableFits, ArgumentsBuilt, AtArgument, HasParams, Store, TextAll, KeptBelow;
      ghost var spelled := k < |ts| && ArgumentsBuilt(p, last, ts, k, nodes, from, lo, start);
      if spelled { ArgumentFollows(p, last, ts, k, nodes, from, lo, start); }
      head, node := AddArgument(p, last, ts, k, nodes, from, lo, start);
      if spelled { ArgumentsEnd(head, node, ts, k + 1, nodes + [node.i], from, lo, start); }
    }

    /** One or more template arguments stand at the cursor. */
    ghost predicate AtArguments(ts: seq<Tree>)
      requires nextSub <= subs.Length
      reads this, comps, subs
    {
      ts != [] && SpellsArgs(input, n, ts, nextSub) && IsReady()
    }

    /** The first `k` template arguments are in the slots `nodes`, and the others follow. */
    ghost predicate ArgumentsBuilt(p: Ptr, last: Ptr, qs: seq<Tree>, k: nat, nodes: seq<nat>, from: nat, lo: nat, start: nat)
      requires nextSub <= subs.Length
      reads this, comps, subs
    {
      && k <= |qs| && |nodes| == k && IsVoidTable(builtins)
      && SpellsArgs(input, n, qs[k..], nextSub) && n + |TextAll(qs[k..])| == start + |TextAll(qs)|
      && Args(Store(), TemplateArglist, qs[..k], nodes, from, lo, nextComp)
      && p == (if k == 0 then Null else At(nodes[0])) && last == (if k == 0 then Null else At(nodes[k - 1]))
    }

    lemma NoArgumentsYet(ts: seq<Tree>)
      requires nextSub <= subs.Length && AtArguments(ts)
      ensures ArgumentsBuilt(Null, Null, ts, 0, [], nextSub, nextComp, n)
    {
      assert ts[0..] == ts && ts[..0] == [];
      NoCandidates();
    }

    lemma ArgumentFollows(p: Ptr, last: Ptr, qs: seq<Tree>, k: nat, nodes: seq<nat>, from: nat, lo: nat, start: nat)
      requires nextSub <= subs.Length && k < |qs| && ArgumentsBuilt(p, last, qs, k, nodes, from, lo, start)
      ensures AtArgument(qs[k])
    {
      hide Args, ArgAt, SpellsArgs;
      NextArgSpelled(input, n, qs, k, nextSub);
      ArgsCount(Store(), TemplateArglist, qs[..k], nodes, from, lo, nextComp);
    }

    /** The end mark stands at the cursor exactly when all arguments have been read. */
    lemma ArgumentsEnd(p: Ptr, last: Ptr, qs: seq<Tree>, k: nat, nodes: seq<nat>, from: nat, lo: nat, start: nat)
      requires nextSub <= subs.Length && 0 < k && ArgumentsBuilt(p, last, qs, k, nodes, from, lo, start)
      ensures Peek() == 'E' <==> k == |qs|
      ensures k == |qs| ==>
        n == start + |TextAll(qs)| && p.At? && HasParams(Store(), TemplateArglist, p, qs, from, lo, nextComp)
    {
      hide Args, SpellsArgs, HasParams;
      ArgsEnd(input, n, qs[k..], nextSub);
      if k == |qs| {
        assert qs[..|qs|] == qs;
        ArgsDone(Store(), TemplateArglist, qs, nodes, from, lo, nextComp);
      }
    }

    /** One more argument at the end of the list p..last. */
    method AddArgument(p: Ptr, last: Ptr, ghost qs: seq<Tree>, ghost k: nat, ghost nodes: seq<nat>,
                       ghost from: nat, ghost lo: nat, ghost start: nat) returns (head: Ptr, node: Ptr)
      requires Valid() && (last.At? <==> p.At?) && lo <= nextComp
      requires last.At? ==> lo <= last.i < nextComp && comps[last.i].Node? && comps[last.i].kind.TemplateArglist?
      requires p.At? ==> lo <= p.i < nextComp
      modifies this, comps, subs
      ensures Valid() && GrewFrom(lo) && Spent(0, 0)
      ensures head.At? <==> node.At?
      ensures head.At? ==> lo <= head.i < nextComp && lo <= node.i < nextComp && old(n) < n
      ensures head.At? ==> comps[node.i].Node? && comps[node.i].kind.TemplateArglist?
      ensures old(AtNextArgument(p, last, qs, k, nodes, from, lo, start)) ==>
        head.At? && ArgumentsBuilt(head, node, qs, k + 1, nodes + [node.i], from, lo, start)
      decreases |input| - n, 10, 1
    {
      hide OperandsFit, TableFits, SpellsArg, SpellsArgs, Args, NewArgument, Store, Kept, Plain, Text, TextAll;
      hide Candidates, IsReady, KeptBelow;
      KeptThrough(Store(), lo);
      ghost var a := Store();
      if last.At? { StoredComp(last); }
      ghost var next := AtNextArgument(p, last, qs, k, nodes, from, lo, start);
      node := TemplateArgNode(if k < |qs| then qs[k] else NoTree);
      if node.Null? { return Null, Null; }
      StoreGrew(lo);
      if last.At? {
        NodeStays(a, Store(), last.i, old(nextComp));
        StoredComp(last);
      }
      label Made:
      head := p;
      if last.At? {
        SetRight(last, node);
      } else {
        head := node;
      }
      if next {
        if last.At? { StoreAdded@Made(last.i); }
        NextArgument(old(Store()), TemplateArglist, old@Made(Store()), Store(), qs, k, nodes, node.i, from, lo, old(nextComp));
        NextArgSpelled(input, old(n), qs, k, old(nextSub));
      }
    }

    /** Argument number `k` stands at the cursor. */
    ghost predicate AtNextArgument(p: Ptr, last: Ptr, qs: seq<Tree>, k: nat, nodes: seq<nat>, from: nat, lo: nat, start: nat)
      requires nextSub <= subs.Length
      reads this, comps, subs
    {
      ArgumentsBuilt(p, last, qs, k, nodes, from, lo, start) && k < |qs| && AtArgument(qs[k])
    }

    /** The template argument stands at the cursor. */
    ghost predicate AtArgument(t: Tree)
      requires nextSub <= subs.Length
      reads this, comps, subs
    {
      SpellsArg(input, n, t, nextSub) && IsReady()
    }

    method TemplateArgNode(ghost t: Tree := NoTree) returns (p: Ptr)
      requires Valid()
      modifies this, comps, subs
      ensures Valid() && Produced(p, 0, 0)
      decreases |input| - n, 10, 0
      ensures p.At? ==> old(nextComp) <= p.i && comps[p.i].Node? && comps[p.i].kind.TemplateArglist?
      ensures p.At? ==> p.i + 1 == nextComp && comps[p.i].right.Null?
      ensures old(AtArgument(t)) ==>
        && p.At? && n == old(n) + |Text(t)| && nextSub <= subs.Length
        && NewArgument(Store(), TemplateArglist, p.i, t, old(nextSub), old(nextComp))
    {
      hide OperandsFit, TableFits, OperandsPresent, SpellsArg, Has, Text, Candidates, Store, Added, NewArgument;
      hide IsReady, KeptBelow;
      KeptThrough(Store(), nextComp);
      var arg := TemplateArg(t);
      if arg.Null? { return Null; }
      label Made:
      ListsNeedNothing(arg, Null);
      p := MakeComp(TemplateArglist, arg, Null);
      if old(AtArgument(t)) {
        StoreAdded@Made(p.i);
        ArgumentBuilt(old@Made(Store()), TemplateArglist, Store(), arg, t, old(nextSub), old(nextComp), p.i);
      }
    }

    method TemplateArg(ghost t: Tree := NoTree) returns (p: Ptr)
      requires Valid()
      modifies this, comps, subs
      ensures Valid() && Produced(p, 1, 0)
      ensures BuiltArgument(t, p)
      decreases |input| - n, 9
    {
      hide OperandsFit, TableFits, Spells, SpellsArg, Has, Text, Candidates, Store, Plain, IsVoidTable;
      hide KeptBelow, WrapsFunction, Requalified, OnlyRead, LastCandidate, IsBuiltinLetter;
      KeptThrough(Store(), nextComp);
      if AtArgument(t) { ArgumentText(t); }
      if Peek() == 'X' {
        n := n + 1;
        p := Expression();
        var ok := CheckChar('E');
        if !ok { return Null; }
      } else if Peek() == 'L' {
        p := ExprPrimary(t);
      } else if Peek() == 'I' || Peek() == 'J' {
        p := TemplateArgs();
      } else {
        p := Type(t);
      }
    }

    /** What is promised of a template argument. */
    twostate predicate BuiltArgument(t: Tree, p: Ptr)
      reads this, comps, subs
    {
      old(nextSub <= subs.Length && AtArgument(t)) ==>
        && p.At? && n == old(n) + |Text(t)| && nextSub <= subs.Length
        && Has(Store(), p, t, Candidates(t), old(nextSub), old(nextComp), nextComp)
    }

    /** The first character of an argument tells whether it is a type or a value. */
    lemma ArgumentText(t: Tree)
      requires nextSub <= subs.Length && AtArgument(t)
      ensures Peek() != 'X' && Peek() != 'I' && Peek() != 'J' && (Peek() == 'L' <==> t.Value?)
      ensures !t.Value? ==> AtText(t)
    {
      hide Text, IsArgument;
      NextArgStarts(input, n, t);
      if !t.Value? { SpellsType(input, n, t, nextSub); }
    }

    // -------------------------------------------------------------------------------------------
    // Expressions
    // -------------------------------------------------------------------------------------------

    method Expression() returns (p: Ptr)
      requires Valid()
      modifies this, comps, subs
      ensures Valid() && Produced(p, 1, 0)
      decreases |input| - n, 10
    {
      hide OperandsFit, TableFits, Store, KeptBelow;
      KeptThrough(Store(), nextComp);
      var wasExpression := isExpression;
      isExpression := true;
      p := Expression1();
      isExpression := wasExpression;
    }

    method Expression1() returns (p: Ptr)
      requires Valid()
      modifies this, comps, subs
      ensures Valid() && Produced(p, 1, 0)
      decreases |input| - n, 9
    {
      hide OperandsFit, TableFits, Store, KeptBelow, BuiltArgument, BuiltParts;
      KeptThrough(Store(), nextComp);
      var peek := Peek();
      if peek == 'L' {
        p := ExprPrimary();
      } else if peek == 'T' {
        p := TemplateParameter();
      } else if peek == 's' && PeekNext() == 'r' {
        p := ScopedExpression();
      } else if peek == 's' && PeekNext() == 'p' {
        p := PackExpression();
      } else if peek == 'f' && PeekNext() == 'p' {
        p := FunctionParameter();
      } else if IsDigit(peek) || (peek == 'o' && PeekNext() == 'n') {
        p := NameExpression();
      } else if (peek == 'i' || peek == 't') && PeekNext() == 'l' {
        p := InitializerListProduction();
      } else {
        p := Operation();
      }
    }

    method ScopedExpression() returns (p: Ptr)
      requires Valid()
      requires Peek() == 's' && PeekNext() == 'r'
      modifies this, comps, subs
      ensures Valid() && Produced(p, 3, 2)
      ensures p.At? ==> IsNode(p, QualName)
      decreases |input| - n, 1
    {
      hide OperandsFit, TableFits, OperandsPresent, Store, KeptBelow, Built, WrapsFunction, Requalified;
      hide OnlyRead, LastCandidate, IsBuiltinLetter;
      KeptThrough(Store(), nextComp);
      n := n + 2;
      var type_ := Type();
      var name := ExpressionName();
      BothNeeded(type_, name);
      p := MakeComp(QualName, type_, name);
    }

    /** An unqualified name with or without template arguments. */
    method ExpressionName() returns (p: Ptr)
      requires Valid()
      modifies this, comps, subs
      ensures Valid() && Produced(p, 2, 2)
      decreases |input| - n, 4
    {
      hide OperandsFit, TableFits, Store, KeptBelow, AtArgumentsOf, AtOpen, AtSpecial, BuiltOpen, Has;
      hide MadeSpecial, PartCandidates, TextAll;
      KeptThrough(Store(), nextComp);
      p := UnqualifiedName();
      if Peek() == 'I' {
        p := TemplateOf(p);
      }
    }

    method PackExpression() returns (p: Ptr)
      requires Valid()
      requires Peek() == 's' && PeekNext() == 'p'
      modifies this, comps, subs
      ensures Valid() && Produced(p, 3, 2)
      ensures p.At? ==> IsNode(p, PackExpansion)
      decreases |input| - n, 1
    {
      hide OperandsFit, TableFits, OperandsPresent, Store, KeptBelow;
      KeptThrough(Store(), nextComp);
      n := n + 2;
      var expr := Expression1();
      TypesNeedLeft(expr);
      p := MakeComp(PackExpansion, expr, Null);
    }

    method FunctionParameter() returns (p: Ptr)
      requires Peek() == 'f' && PeekNext() == 'p'
      requires Valid()
      modifies this, comps, subs
      ensures Valid() && Produced(p, 3, 2)
      ensures p.At? ==> old(n) + 2 <= |input| && comps[p.i] == Comp.FunctionParam(
        if old(n) + 2 < |input| && input[old(n) + 2] == 'T' then 0 else CompactAt(input, old(n) + 2).1 + 1)
    {
      hide OperandsFit, TableFits, Store, KeptBelow;
      KeptThrough(Store(), nextComp);
      n := n + 2;
      var index := 0;
      if Peek() == 'T' {
        n := n + 1;
      } else {
        index := CompactNumber();
        index := index + 1;
        if index == 0 { return Null; }
      }
      p := Make(Comp.FunctionParam(index));
    }

    method NameExpression() returns (p: Ptr)
      requires Valid()
      requires IsDigit(Peek()) || (Peek() == 'o' && PeekNext() == 'n')
      modifies this, comps, subs
      ensures Valid() && Produced(p, 2, 2)
      decreases |input| - n, 5
    {
      hide OperandsFit, TableFits, Store, KeptBelow, AtArgumentsOf, AtOpen, AtSpecial, BuiltOpen, Has;
      hide MadeSpecial, PartCandidates, TextAll;
      KeptThrough(Store(), nextComp);
      if Peek() == 'o' { n := n + 2; }
      p := UnqualifiedName();
      if p.At? && Peek() == 'I' {
        p := TemplateOf(p);
      }
    }

    /** A typed list is read as if its first letter were a type, as the source does. */
    method InitializerListProduction() returns (p: Ptr)
      requires Valid()
      requires (Peek() == 'i' || Peek() == 't') && PeekNext() == 'l'
      modifies this, comps, subs
      ensures Valid() && Produced(p, 1, 0)
      ensures p.At? ==> IsNode(p, InitializerList)
      decreases |input| - n, 8
    {
      hide OperandsFit, TableFits, Store, KeptBelow;
      KeptThrough(Store(), nextComp);
      var type_ := InitializerType();
      if PeekNext() == '\0' { return Null; }
      n := n + 2;
      p := InitializersOf(type_);
    }

    /** The elements of an initializer list, whose two letters have been read. */
    method InitializersOf(type_: Ptr) returns (p: Ptr)
      requires Valid() && InArena(type_, nextComp)
      modifies this, comps, subs
      ensures Valid() && Produced(p, 0, 0)
      ensures p.At? ==> IsNode(p, InitializerList)
      decreases |input| - n, 13
    {
      hide OperandsFit, TableFits, OperandsPresent, Store, KeptBelow;
      KeptThrough(Store(), nextComp);
      var list := ExprList('E');
      RightNeeded(type_, list);
      p := MakeComp(InitializerList, type_, list);
    }

    /** The type in front of an initializer list, of which the source reads one letter. */
    method InitializerType() returns (p: Ptr)
      requires Valid()
      requires (Peek() == 'i' || Peek() == 't') && PeekNext() == 'l'
      modifies this, comps, subs
      ensures Valid() && Grew() && Spent(0, 0) && n <= old(n) + 1
      ensures p.At? ==> p.i < nextComp
      decreases |input| - n, 8, 0
    {
      hide OperandsFit, TableFits, Store, KeptBelow, Built, AtText, WrapsFunction, Requalified, OnlyRead;
      hide LastCandidate, IsCandidate;
      KeptThrough(Store(), nextComp);
      p := Null;
      if Peek() == 't' {
        p := Type();
      }
    }

    /** Expressions up to the terminator. */
    method ExprList(terminator: char) returns (p: Ptr)
      requires terminator != '\0'
      requires Valid()
      modifies this, comps, subs
      ensures Valid() && Produced(p, 1, 0)
      ensures p.At? ==> IsNode(p, Arglist)
      decreases |input| - n, 12, 1
    {
      hide OperandsFit, TableFits, OperandsPresent, Store, KeptBelow;
      KeptThrough(Store(), nextComp);
      if Peek() == terminator {
        n := n + 1;
        ListsNeedNothing(Null, Null);
        p := MakeComp(Arglist, Null, Null);
        return;
      }
      p := ExprListItems(terminator);
    }

    /** One or more expressions and the terminator. */
    method ExprListItems(terminator: char) returns (p: Ptr)
      requires terminator != '\0'
      requires Valid()
      modifies this, comps, subs
      ensures Valid() && Produced(p, 1, 0)
      ensures p.At? ==> IsNode(p, Arglist)
      decreases |input| - n, 12, 0
    {
      hide OperandsFit, TableFits, Store, KeptBelow, IsNode;
      KeptThrough(Store(), nextComp);
      p := Null;
      var last := Null;
      while true
        invariant Valid() && Grew() && Spent(0, 0)
        invariant (last.At? <==> p.At?)
        invariant p.At? ==> old(nextComp) <= p.i < nextComp && old(n) < n
        invariant p.At? ==> IsNode(p, Arglist)
        invariant last.At? ==> old(nextComp) <= last.i < nextComp && IsNode(last, Arglist)
        decreases |input| - n
      {
        p, last := AddExpression(p, last, old(nextComp));
        if p.Null? { return; }
        if Peek() == terminator {
          n := n + 1;
          return;
        }
      }
    }

    /** One more expression at the end of the list. */
    method AddExpression(p: Ptr, last: Ptr, ghost lo: nat) returns (head: Ptr, node: Ptr)
      requires Valid() && (last.At? <==> p.At?) && lo <= nextComp
      requires p.At? ==> lo <= p.i < nextComp && lo <= last.i < nextComp && IsNode(p, Arglist) && IsNode(last, Arglist)
      modifies this, comps, subs
      ensures Valid() && GrewFrom(lo) && Spent(0, 0) && (head.At? <==> node.At?)
      ensures head.At? ==> old(n) < n && lo <= head.i < nextComp && lo <= node.i < nextComp
      ensures head.At? ==> IsNode(head, Arglist) && IsNode(node, Arglist)
      decreases |input| - n, 11, 1
    {
      hide OperandsFit, TableFits, Store, KeptBelow, InArena, RefQualKind;
      KeptThrough(Store(), lo);
      node := ExprNode();
      if node.Null? { return Null, Null; }
      head := p;
      if last.At? {
        SlotStays(last.i);
        SlotStays(p.i);
        SetRight(last, node);
      } else {
        head := node;
      }
    }

    method ExprNode() returns (p: Ptr)
      requires Valid()
      modifies this, comps, subs
      ensures Valid() && Produced(p, 0, 0)
      decreases |input| - n, 11, 0
      ensures p.At? ==> old(nextComp) <= p.i && comps[p.i].Node? && comps[p.i].kind.Arglist?
    {
      hide OperandsFit, TableFits, OperandsPresent, Store, KeptBelow;
      KeptThrough(Store(), nextComp);
      var arg := Expression();
      if arg.Null? { return Null; }
      ListsNeedNothing(arg, Null);
      p := MakeComp(Arglist, arg, Null);
    }

    /** An operator and as many operands as it takes. */
    method Operation() returns (p: Ptr)
      requires Valid()
      modifies this, comps, subs
      ensures Valid() && Produced(p, 1, 0)
      decreases |input| - n, 8
    {
      hide OperandsFit, TableFits, Store, KeptBelow, IsOperatorNode, IsNode, SameComp;
      KeptThrough(Store(), nextComp);
      var op := OperatorName();
      if op.Null? { return Null; }
      match Get(op)
      case Operator(info) =>
        expansion := expansion + |info.name| - 2;
        p := OperatorCall(op, info);
      case ExtendedOperator(args, _) =>
        p := ExtendedOperation(op, args);
      case Node(kind, _, _) =>
        if kind.Cast? {
          p := CastOperation(op);
        } else {
          p := Null;
        }
      case _ =>
        p := Null;
    }

    /** What an operator with its operands is kept as. */
    static function OperationKind(args: nat): Kind {
      if args == 0 then Nullary else if args == 1 then Unary else if args == 2 then Binary else Trinary
    }

    method OperatorCall(op: Ptr, info: OpInfo) returns (p: Ptr)
      requires Valid() && op.At? && op.i < nextComp
      requires nextComp + 3 <= 2 * n
      modifies this, comps, subs
      ensures Valid() && Grew() && Spent(if p.At? then -1 else 0, 0)
      ensures p.At? ==> old(nextComp) <= p.i < nextComp && comps[p.i].Node? && comps[p.i].left == op
      ensures p.At? ==> IsNode(p, if HasCode(info, 's', 't') then Unary else OperationKind(info.args))
      ensures p.At? ==> old(nextComp) <= p.i < nextComp
      decreases |input| - n, 16
    {
      hide OperandsFit, TableFits, OperandsPresent, Store, KeptBelow, Built, WrapsFunction, Requalified;
      hide OnlyRead, LastCandidate, IsBuiltinLetter;
      KeptThrough(Store(), nextComp);
      if HasCode(info, 's', 't') {
        var type_ := Type();
        BothNeeded(op, type_);
        p := MakeComp(Unary, op, type_);
      } else if info.args == 0 {
        ExpressionsNeedLeft(op, Null);
        p := MakeComp(Nullary, op, Null);
      } else if info.args == 1 {
        p := UnaryOperation(op, info);
      } else if info.args == 2 {
        p := BinaryOperation(op, info);
      } else if info.args == 3 {
        p := TrinaryOperation(op, info);
      } else {
        p := Null;
      }
    }

    /** Vendor operators with more than one operand are refused. */
    method ExtendedOperation(op: Ptr, args: int) returns (p: Ptr)
      requires Valid() && op.At? && op.i < nextComp
      requires nextComp + 3 <= 2 * n
      modifies this, comps, subs
      ensures Valid() && Grew() && Spent(if p.At? then -1 else 0, 0)
      ensures p.At? ==> IsNode(p, if args == 0 then Nullary else Unary) && comps[p.i].left == op && 0 <= args <= 1
      ensures p.At? ==> old(nextComp) <= p.i < nextComp
      decreases |input| - n, 10
    {
      hide OperandsFit, TableFits, OperandsPresent, Store, KeptBelow;
      KeptThrough(Store(), nextComp);
      if args == 0 {
        ExpressionsNeedLeft(op, Null);
        p := MakeComp(Nullary, op, Null);
      } else if args == 1 {
        var operand := Expression1();
        BothNeeded(op, operand);
        p := MakeComp(Unary, op, operand);
      } else {
        p := Null;
      }
    }

    method CastOperation(op: Ptr) returns (p: Ptr)
      requires Valid() && op.At? && op.i < nextComp
      requires nextComp + 3 <= 2 * n
      modifies this, comps, subs
      ensures Valid() && Grew() && Spent(if p.At? then -1 else 0, 0)
      ensures p.At? ==> IsNode(p, Unary) && comps[p.i].left == op
      ensures p.At? ==> old(nextComp) <= p.i < nextComp
      decreases |input| - n, 10
    {
      hide OperandsFit, TableFits, OperandsPresent, Store, KeptBelow;
      KeptThrough(Store(), nextComp);
      var operand;
      var list := CheckChar('_');
      if list {
        operand := ExprList('E');
      } else {
        operand := Expression1();
      }
      BothNeeded(op, operand);
      p := MakeComp(Unary, op, operand);
    }

    method UnaryOperation(op: Ptr, info: OpInfo) returns (p: Ptr)
      requires Valid() && op.At? && op.i < nextComp
      requires nextComp + 3 <= 2 * n
      modifies this, comps, subs
      ensures Valid() && Grew() && Spent(if p.At? then -1 else 0, 0)
      ensures p.At? ==> IsNode(p, Unary) && comps[p.i].left == op
      ensures p.At? ==> old(nextComp) <= p.i < nextComp
      decreases |input| - n, 11
    {
      hide OperandsFit, TableFits, OperandsPresent, Store, KeptBelow, InArena, RefQualKind;
      KeptThrough(Store(), nextComp);
      var suffix := false;
      if (info.c0 == 'p' || info.c0 == 'm') && info.c1 == info.c0 {
        var prefix := CheckChar('_');
        suffix := !prefix;
      }
      var operand := Expression1();
      if suffix {
        BothNeeded(operand, operand);
        operand := MakeComp(BinaryArgs, operand, operand);
      }
      BothNeeded(op, operand);
      p := MakeComp(Unary, op, operand);
    }

    method BinaryOperation(op: Ptr, info: OpInfo) returns (p: Ptr)
      requires Valid() && op.At? && op.i < nextComp
      requires nextComp + 3 <= 2 * n
      modifies this, comps, subs
      ensures Valid() && Grew() && Spent(if p.At? then -1 else 0, 0)
      ensures p.At? ==> IsNode(p, Binary) && comps[p.i].left == op && IsNode(comps[p.i].right, BinaryArgs)
      ensures p.At? ==> old(nextComp) <= p.i < nextComp
      decreases |input| - n, 14
    {
      hide OperandsFit, TableFits, OperandsPresent, Store, KeptBelow;
      KeptThrough(Store(), nextComp);
      var left := LeftOperand(info);
      var right := RightOperand(info);
      BothNeeded(left, right);
      var args := MakeComp(BinaryArgs, left, right);
      BothNeeded(op, args);
      p := MakeComp(Binary, op, args);
    }

    method LeftOperand(info: OpInfo) returns (p: Ptr)
      requires Valid()
      modifies this, comps, subs
      ensures Valid() && Produced(p, 1, 0)
      decreases |input| - n, 10
    {
      hide OperandsFit, TableFits, Store, KeptBelow, Built, WrapsFunction, Requalified, OnlyRead, LastCandidate;
      hide IsBuiltinLetter;
      KeptThrough(Store(), nextComp);
      if IsNewCast(info) {
        p := Type();
      } else {
        p := Expression1();
      }
    }

    method RightOperand(info: OpInfo) returns (p: Ptr)
      requires Valid()
      modifies this, comps, subs
      ensures Valid() && Produced(p, 1, 0)
      decreases |input| - n, 13
    {
      hide OperandsFit, TableFits, Store, KeptBelow;
      KeptThrough(Store(), nextComp);
      if HasCode(info, 'c', 'l') {
        p := ExprList('E');
      } else if HasCode(info, 'd', 't') || HasCode(info, 'p', 't') {
        p := ExpressionName();
      } else {
        p := Expression1();
      }
    }

    method TrinaryOperation(op: Ptr, info: OpInfo) returns (p: Ptr)
      requires Valid() && op.At? && op.i < nextComp
      requires nextComp + 3 <= 2 * n
      modifies this, comps, subs
      ensures Valid() && Grew() && Spent(if p.At? then -1 else 0, 0)
      ensures p.At? ==> IsNode(p, Trinary) && comps[p.i].left == op
      ensures p.At? ==> old(nextComp) <= p.i < nextComp
      decreases |input| - n, 15
    {
      hide OperandsFit, TableFits, Store, KeptBelow;
      KeptThrough(Store(), nextComp);
      var ok, first, second, third := TrinaryOperands(info);
      if !ok { return Null; }
      p := TrinaryNode(op, first, second, third);
    }

    /** Conditional expressions and new-expressions; nothing else takes three operands. */
    method TrinaryOperands(info: OpInfo) returns (ok: bool, first: Ptr, second: Ptr, third: Ptr)
      requires Valid()
      modifies this, comps, subs
      ensures Valid() && Grew() && Spent((if first.At? then 1 else 0) + (if second.At? then 1 else 0), 0)
      ensures InArena(first, nextComp) && InArena(second, nextComp) && InArena(third, nextComp)
      decreases |input| - n, 14
    {
      hide OperandsFit, TableFits, Store, KeptBelow, Built, WrapsFunction, Requalified, OnlyRead, LastCandidate;
      hide IsBuiltinLetter;
      KeptThrough(Store(), nextComp);
      ok, first, second, third := true, Null, Null, Null;
      if HasCode(info, 'q', 'u') {
        first := Expression1();
        second := Expression1();
        third := Expression1();
      } else if HasCode(info, 'n', 'w') || HasCode(info, 'n', 'a') {
        first := ExprList('_');
        second := Type();
        ok, third := NewInitializer();
      } else {
        ok := false;
      }
    }

    /** `ok` is false when neither the end nor an initializer follows. */
    method NewInitializer() returns (ok: bool, p: Ptr)
      requires Valid()
      modifies this, comps, subs
      ensures Valid() && Produced(p, 1, 0)
      decreases |input| - n, 10
    {
      hide OperandsFit, TableFits, Store, KeptBelow;
      KeptThrough(Store(), nextComp);
      ok, p := true, Null;
      if Peek() == 'E' {
        n := n + 1;
      } else if Peek() == 'p' && PeekNext() == 'i' {
        n := n + 2;
        p := ExprList('E');
      } else if Peek() == 'i' && PeekNext() == 'l' {
        p := Expression1();
      } else {
        ok := false;
      }
    }

    /** The third operand may be missing. */
    method TrinaryNode(op: Ptr, first: Ptr, second: Ptr, third: Ptr) returns (p: Ptr)
      requires Shape() && nextComp + 3 <= comps.Length && op.At? && InArena(op, nextComp)
      requires InArena(first, nextComp) && InArena(second, nextComp) && InArena(third, nextComp)
      modifies this`nextComp, this`exhausted, comps
      ensures Shape() && Grew() && exhausted == old(exhausted)
      ensures p.At? <==> first.At? && second.At?
      ensures p.At? ==> p == At(old(nextComp) + 2) && comps[p.i] == Node(Trinary, op, At(old(nextComp) + 1))
      ensures p.At? ==> comps[old(nextComp) + 1] == Node(TrinaryArg1, first, At(old(nextComp)))
      ensures p.At? ==> comps[old(nextComp)] == Node(TrinaryArg2, second, third)
      ensures p.At? ==> old(nextComp) <= p.i < nextComp
      ensures nextComp == old(nextComp) + if p.At? then 3 else if second.At? then 1 else 0
      ensures forall i | 0 <= i < old(nextComp) :: comps[i] == old(comps[i])
    {
      hide OperandsFit, TableFits, OperandsPresent, RefQualKind, KeptBelow, Store;
      KeptThrough(Store(), nextComp);
      p := TrinaryArguments(first, second, third);
      BothNeeded(op, p);
      p := MakeComp(Trinary, op, p);
    }

    method TrinaryArguments(first: Ptr, second: Ptr, third: Ptr) returns (p: Ptr)
      requires Shape() && nextComp + 2 <= comps.Length
      requires InArena(first, nextComp) && InArena(second, nextComp) && InArena(third, nextComp)
      modifies this`nextComp, this`exhausted, comps
      ensures Shape() && Grew() && exhausted == old(exhausted)
      ensures p.At? <==> first.At? && second.At?
      ensures p.At? ==> p == At(old(nextComp) + 1) && comps[p.i] == Node(TrinaryArg1, first, At(old(nextComp)))
      ensures p.At? ==> comps[old(nextComp)] == Node(TrinaryArg2, second, third)
      ensures nextComp == old(nextComp) + if p.At? then 2 else if second.At? then 1 else 0
      ensures forall i | 0 <= i < old(nextComp) :: comps[i] == old(comps[i])
    {
      hide OperandsFit, TableFits, OperandsPresent, RefQualKind, KeptBelow, Store;
      KeptThrough(Store(), nextComp);
      ExpressionsNeedLeft(second, third);
      p := MakeComp(TrinaryArg2, second, third);
      BothNeeded(first, p);
      p := MakeComp(TrinaryArg1, first, p);
    }

    /** A literal or a mangled name between 'L' and 'E'. */
    method ExprPrimary(ghost t: Tree := NoTree) returns (p: Ptr)
      requires Valid()
      modifies this, comps, subs
      ensures Valid() && Produced(p, 3, 2)
      ensures t.Value? ==> BuiltArgument(t, p)
      decreases |input| - n, 0
    {
      hide OperandsFit, TableFits, Spells, SpellsArg, SpellsDigits, Has, Text, Candidates, Store, IsReady;
      hide KeptBelow, IsRefQualified, SignText, AtMangled, BuiltMangled, SameComp;
      KeptThrough(Store(), nextComp);
      if AtArgument(t) && t.Value? { ValueSpelled(t); }
      var ok := CheckChar('L');
      if !ok { return Null; }
      if Peek() == '_' || Peek() == 'Z' {
        p := MangledName(false);
      } else {
        p := LiteralProduction(t);
      }
      ok := CheckChar('E');
      if !ok { return Null; }
    }

    lemma ValueSpelled(t: Tree)
      requires t.Value? && nextSub <= subs.Length && AtArgument(t)
      ensures n + 1 < |input| && input[n] == 'L' && input[n + 1] != '_' && input[n + 1] != 'Z'
      ensures Spells(input, n + 1, t.of, nextSub) && SpellsDigits(input, n + 1 + |Text(t.of)|, t)
      ensures var e := n + 1 + |Text(t.of)| + |SignText(t)| + |t.digits|;
        e < |input| && input[e] == 'E' && |Text(t)| == e + 1 - n
    {
      hide Text;
      SpellsValue(input, n, t, nextSub);
    }

    /** A literal value is kept as the text up to 'E'. */
    method LiteralProduction(ghost t: Tree := NoTree) returns (p: Ptr)
      requires Valid()
      modifies this, comps, subs
      ensures Valid() && Produced(p, 0, 1)
      ensures t.Value? && old(AtLiteral(t)) ==>
        && p.At? && n == old(n) + |Text(t.of)| + |SignText(t)| + |t.digits| && nextSub <= subs.Length
        && Has(Store(), p, t, Candidates(t), old(nextSub), old(nextComp), nextComp)
      decreases |input| - n, 8
    {
      hide OperandsFit, TableFits, Spells, SpellsDigits, Has, Text, Candidates, Store, IsReady, KeptBelow;
      hide WrapsFunction, Requalified, OnlyRead, LastCandidate, IsBuiltinLetter;
      KeptThrough(Store(), nextComp);
      var type_ := Type(if t.Value? then t.of else NoTree);
      if type_.Null? { return Null; }
      match Get(type_) {
        case Builtin(info) =>
          if !info.printsDefault { expansion := expansion - |info.name|; }
        case _ =>
      }
      p := LiteralValue(type_, t, old(nextSub), old(nextComp));
    }

    /** The type, the sign and the digits of a value stand at the cursor. */
    ghost predicate AtLiteral(t: Tree)
      requires t.Value? && nextSub <= subs.Length
      reads this, comps, subs
    {
      AtText(t.of) && SpellsDigits(input, n + |Text(t.of)|, t)
    }

    method LiteralValue(type_: Ptr, ghost t: Tree, ghost from: nat, ghost lo: nat) returns (p: Ptr)
      requires Valid() && type_.At? && type_.i < nextComp && nextComp + 1 <= 2 * n && lo <= nextComp
      modifies this, comps, subs
      ensures Valid() && Grew() && nextSub == old(nextSub)
      ensures nextComp - old(nextComp) <= if n == old(n) then 1 else 2
      ensures p.At? ==> old(nextComp) <= p.i < nextComp && old(n) < n
      ensures p.At? ==> comps[p.i].Node? && (comps[p.i].kind.Literal? || comps[p.i].kind.LiteralNeg?) && comps[p.i].left == type_
      ensures t.Value? && old(AtDigits(type_, t, from, lo)) ==>
        && p.At? && n == old(n) + |SignText(t)| + |t.digits| && nextSub <= subs.Length
        && Has(Store(), p, t, Candidates(t), from, lo, nextComp)
    {
      hide OperandsFit, TableFits, Has, Candidates, Store, Added, KeptBelow;
      KeptThrough(Store(), nextComp);
      var negative := CheckChar('n');
      var s := n;
      SkipToE();
      if Peek() == '\0' { return Null; }
      if t.Value? && old(AtDigits(type_, t, from, lo)) { DigitsAreRead(t, old(n), s); }
      p := LiteralOf(negative, type_, input[s..n], t, from, lo);
    }

    /** The value next to its type; an empty one is refused. */
    method LiteralOf(negative: bool, type_: Ptr, digits: string, ghost t: Tree, ghost from: nat, ghost lo: nat) returns (p: Ptr)
      requires Valid() && type_.At? && type_.i < nextComp && lo <= nextComp
      requires nextComp + (if digits == "" then 1 else 2) <= 2 * n
      modifies this`nextComp, this`exhausted, comps
      ensures Valid() && Grew()
      ensures nextComp - old(nextComp) <= if digits == "" then 1 else 2
      ensures p.At? ==> digits != "" && IsNode(p, if negative then LiteralNeg else Literal) && old(nextComp) <= p.i < nextComp
      ensures p.At? ==> comps[p.i].left == type_
      ensures t.Value? && digits == t.digits != "" && negative == t.negative && old(AtValue(type_, t, from, lo)) ==>
        p.At? && Has(Store(), p, t, Candidates(t), from, lo, nextComp)
    {
      hide OperandsFit, TableFits, OperandsPresent, Has, Candidates, Store, Added, KeptBelow;
      KeptThrough(Store(), nextComp);
      var text := MakeName(digits);
      if text.At? { StoreAdded(text.i); }
      label Named:
      BothNeeded(type_, text);
      p := MakeComp(if negative then LiteralNeg else Literal, type_, text);
      if t.Value? && digits == t.digits != "" && negative == t.negative && old(AtValue(type_, t, from, lo)) {
        StoreAdded@Named(p.i);
        ValueBuilt(old(Store()), old@Named(Store()), Store(), type_, t, from, lo, old(nextComp));
      }
    }

    /** The type of a value has been read. */
    ghost predicate AtValue(type_: Ptr, t: Tree, from: nat, lo: nat)
      requires t.Value? && nextSub <= subs.Length
      reads this, comps, subs
    {
      Has(Store(), type_, t.of, Candidates(t.of), from, lo, nextComp)
    }

    /** The type of a value has been read, and its digits follow. */
    ghost predicate AtDigits(type_: Ptr, t: Tree, from: nat, lo: nat)
      requires t.Value? && nextSub <= subs.Length
      reads this, comps, subs
    {
      SpellsDigits(input, n, t) && AtValue(type_, t, from, lo)
    }

    lemma DigitsAreRead(t: Tree, start: nat, s: nat)
      requires t.Value? && SpellsDigits(input, start, t) && s == start + (if t.negative then 1 else 0)
      requires s <= n <= |input| && Peek() == 'E' && forall i | s <= i < n :: input[i] != 'E'
      ensures n == start + |SignText(t)| + |t.digits| && input[s..n] == t.digits
    {
    }

    method SkipToE()
      requires n <= |input|
      modifies this`n
      ensures old(n) <= n <= |input| && (Peek() == 'E' || Peek() == '\0')
      ensures forall i | old(n) <= i < n :: input[i] != 'E'
    {
      while Peek() != 'E' && Peek() != '\0'
        invariant old(n) <= n <= |input|
        invariant forall i | old(n) <= i < n :: input[i] != 'E'
        decreases |input| - n
      {
        n := n + 1;
      }
    }

    // -------------------------------------------------------------------------------------------
    // Special names
    // -------------------------------------------------------------------------------------------

    /** What a special name is, by the letter behind 'T' or 'G'. */
    static predicate IsRuntimeKind(c: char, k: Kind) {
      match c
      case 'h' => k.Thunk?
      case 'v' => k.VirtualThunk?
      case 'c' => k.CovariantThunk?
      case 'C' => k.ConstructionVtable?
      case 'H' => k.TlsInit?
      case 'W' => k.TlsWrapper?
      case _ => (c == 'V' || c == 'T' || c == 'I' || c == 'S' || c == 'F' || c == 'J') && k == RuntimeTableKind(c)
    }

    static predicate IsGnuKind(c: char, k: Kind) {
      match c
      case 'V' => k.Guard?
      case 'R' => k.Reftemp?
      case 'A' => k.HiddenAlias?
      case 'T' => k.TransactionClone? || k.NontransactionClone?
      case 'r' => k.JavaResource?
      case _ => false
    }

    static lemma RuntimeKinds()
      ensures IsRuntimeKind('h', Thunk) && IsRuntimeKind('v', VirtualThunk) && IsRuntimeKind('c', CovariantThunk)
      ensures IsRuntimeKind('C', ConstructionVtable) && IsRuntimeKind('H', TlsInit) && IsRuntimeKind('W', TlsWrapper)
    {
    }

    static lemma TableKind(c: char)
      requires c == 'V' || c == 'T' || c == 'I' || c == 'S' || c == 'F' || c == 'J'
      ensures IsRuntimeKind(c, RuntimeTableKind(c))
    {
    }

    static lemma GnuKinds()
      ensures IsGnuKind('V', Guard) && IsGnuKind('R', Reftemp) && IsGnuKind('A', HiddenAlias)
      ensures IsGnuKind('T', TransactionClone) && IsGnuKind('T', NontransactionClone) && IsGnuKind('r', JavaResource)
    {
    }

    method SpecialName() returns (p: Ptr)
      requires Valid()
      modifies this, comps, subs
      ensures Valid() && Produced(p, 0, 0)
      ensures p.At? ==> old(n) + 1 < |input| && comps[p.i].Node? && (input[old(n)] == 'T' || input[old(n)] == 'G')
      ensures p.At? && input[old(n)] == 'T' ==> IsRuntimeKind(input[old(n) + 1], comps[p.i].kind)
      ensures p.At? && input[old(n)] == 'G' ==> IsGnuKind(input[old(n) + 1], comps[p.i].kind)
      decreases |input| - n, 5
    {
      hide OperandsFit, TableFits, Store, KeptBelow;
      KeptThrough(Store(), nextComp);
      expansion := expansion + 20;
      var c := Peek();
      if c == 'T' {
        n := n + 1;
        p := RuntimeTableName();
      } else if c == 'G' {
        n := n + 1;
        p := GnuSpecialName();
      } else {
        p := Null;
      }
    }

    /** Behind 'T'. */
    method RuntimeTableName() returns (p: Ptr)
      requires Valid()
      modifies this, comps, subs
      ensures Valid() && Produced(p, 0, 0)
      ensures p.At? ==> comps[p.i].Node? && IsRuntimeKind(old(Peek()), comps[p.i].kind)
      decreases |input| - n, 10
    {
      hide OperandsFit, TableFits, NeedsLeft, Store, KeptBelow, IsRuntimeKind, RuntimeTableKind;
      ThunksNeedLeft();
      SpecialNamesNeedLeft();
      RuntimeKinds();
      KeptThrough(Store(), nextComp);
      var c := NextChar();
      if c == 'h' || c == 'v' || c == 'c' {
        p := ThunkName(c);
      } else if c == 'C' {
        p := ConstructionVtableName();
      } else if c == 'H' {
        p := NodeOfName(TlsInit);
      } else if c == 'W' {
        p := NodeOfName(TlsWrapper);
      } else if c == 'V' || c == 'T' || c == 'I' || c == 'S' || c == 'F' || c == 'J' {
        expansion := expansion - (if c == 'V' then 5 else if c == 'T' then 10 else 0);
        TableKind(c);
        p := NodeOfType(RuntimeTableKind(c));
      } else {
        p := Null;
      }
    }

    method NodeOfType(kind: Kind) returns (p: Ptr)
      requires Valid()
      requires NeedsLeft(kind)
      modifies this, comps, subs
      ensures Valid() && Produced(p, 0, 1)
      ensures p.At? ==> IsNode(p, kind)
      decreases |input| - n, 8
    {
      hide OperandsFit, TableFits, OperandsPresent, Store, KeptBelow, Built, WrapsFunction, Requalified;
      hide OnlyRead, LastCandidate, IsBuiltinLetter;
      KeptThrough(Store(), nextComp);
      var type_ := Type();
      LeftIsEnough(kind, type_);
      p := MakeComp(kind, type_, Null);
    }

    method NodeOfName(kind: Kind) returns (p: Ptr)
      requires Valid()
      requires NeedsLeft(kind)
      modifies this, comps, subs
      ensures Valid() && Produced(p, 1, 2)
      ensures p.At? ==> IsNode(p, kind)
      decreases |input| - n, 5
    {
      hide OperandsFit, TableFits, OperandsPresent, Store, KeptBelow, BuiltParts, IsNameTree;
      KeptThrough(Store(), nextComp);
      var name := NameProduction();
      LeftIsEnough(kind, name);
      p := MakeComp(kind, name, Null);
    }

    method NodeOfEncoding(kind: Kind) returns (p: Ptr)
      requires Valid()
      requires NeedsLeft(kind)
      requires nextComp + 1 <= 2 * n
      modifies this, comps, subs
      ensures Valid() && Grew() && Spent(if p.At? then -1 else 0, 0)
      ensures p.At? ==> IsNode(p, kind)
      ensures p.At? ==> old(nextComp) <= p.i < nextComp && old(n) < n
      decreases |input| - n, 7
    {
      hide OperandsFit, TableFits, OperandsPresent, Store, KeptBelow, BuiltEntity;
      KeptThrough(Store(), nextComp);
      var encoding := Encoding();
      LeftIsEnough(kind, encoding);
      p := MakeComp(kind, encoding, Null);
    }

    /** One call offset, or two for a covariant return thunk, and the encoding of the target. */
    method ThunkName(c: char) returns (p: Ptr)
      requires Valid()
      requires (c == 'h' || c == 'v' || c == 'c') && nextComp + 2 <= 2 * n
      modifies this, comps, subs
      ensures Valid() && Grew() && Spent(if p.At? then -1 else 0, 0)
      ensures p.At? ==> IsNode(p, if c == 'h' then Thunk else if c == 'v' then VirtualThunk else CovariantThunk)
      ensures p.At? ==> old(nextComp) <= p.i < nextComp && old(n) < n
      decreases |input| - n, 8
    {
      hide OperandsFit, TableFits, NeedsLeft, Store, KeptBelow;
      ThunksNeedLeft();
      KeptThrough(Store(), nextComp);
      var ok := CallOffset(if c == 'c' then '\0' else c);
      if !ok { return Null; }
      if c == 'c' {
        ok := CallOffset('\0');
        if !ok { return Null; }
      }
      p := NodeOfEncoding(if c == 'h' then Thunk else if c == 'v' then VirtualThunk else CovariantThunk);
    }

    /** The kind is read from the text unless it has been read already. */
    method CallOffset(kind: char) returns (ok: bool)
      requires n <= |input|
      modifies this`n
      ensures old(n) <= n <= |input|
    {
      var c := kind;
      if c == '\0' { c := NextChar(); }
      if c == 'h' {
        SkipNumber();
      } else if c == 'v' {
        SkipNumber();
        ok := CheckChar('_');
        if !ok { return; }
        SkipNumber();
      } else {
        return false;
      }
      ok := CheckChar('_');
    }

    method ConstructionVtableName() returns (p: Ptr)
      requires Valid()
      modifies this, comps, subs
      ensures Valid() && Produced(p, 1, 0)
      ensures p.At? ==> IsNode(p, ConstructionVtable)
      decreases |input| - n, 9
    {
      hide OperandsFit, TableFits, Store, KeptBelow, Built, WrapsFunction, Requalified, OnlyRead, LastCandidate;
      hide IsBuiltinLetter;
      KeptThrough(Store(), nextComp);
      var derived := Type();
      var offset := Number();
      if offset < 0 { return Null; }
      p := VtableInDerived(derived);
    }

    method VtableInDerived(derived: Ptr) returns (p: Ptr)
      requires Valid()
      requires InArena(derived, nextComp)
      modifies this, comps, subs
      ensures Valid() && Produced(p, 2, 2)
      ensures p.At? ==> IsNode(p, ConstructionVtable) && comps[p.i].right == derived
      decreases |input| - n, 8
    {
      hide OperandsFit, TableFits, OperandsPresent, Store, KeptBelow, Built, WrapsFunction, Requalified;
      hide OnlyRead, LastCandidate, IsBuiltinLetter;
      KeptThrough(Store(), nextComp);
      var ok := CheckChar('_');
      if !ok { return Null; }
      var base := Type();
      expansion := expansion + 5;
      BothNeeded(base, derived);
      p := MakeComp(ConstructionVtable, base, derived);
    }

    /** Behind 'G'. */
    method GnuSpecialName() returns (p: Ptr)
      requires Valid()
      modifies this, comps, subs
      ensures Valid() && Produced(p, 0, 0)
      ensures p.At? ==> comps[p.i].Node? && IsGnuKind(old(Peek()), comps[p.i].kind)
      decreases |input| - n, 9
    {
      hide OperandsFit, TableFits, NeedsLeft, Store, KeptBelow, IsGnuKind;
      SpecialNamesNeedLeft();
      GnuKinds();
      KeptThrough(Store(), nextComp);
      var c := NextChar();
      if c == 'V' {
        p := NodeOfName(Guard);
      } else if c == 'R' {
        p := ReferenceTemporary();
      } else if c == 'A' {
        p := NodeOfEncoding(HiddenAlias);
      } else if c == 'T' {
        p := TransactionCloneName();
      } else if c == 'r' {
        p := JavaResourceName();
      } else {
        p := Null;
      }
    }

    method TransactionCloneName() returns (p: Ptr)
      requires Valid() && nextComp + 1 <= 2 * n
      modifies this, comps, subs
      ensures Valid() && Grew() && Spent(if p.At? then -1 else 0, 0)
      ensures p.At? ==> old(nextComp) <= p.i < nextComp && old(n) < n
      ensures p.At? ==> IsNode(p, if old(Peek()) == 'n' then NontransactionClone else TransactionClone)
      decreases |input| - n, 8
    {
      hide OperandsFit, TableFits, NeedsLeft, Store, KeptBelow;
      ClonesNeedLeft();
      KeptThrough(Store(), nextComp);
      var variant := NextChar();
      p := NodeOfEncoding(if variant == 'n' then NontransactionClone else TransactionClone);
    }

    method ReferenceTemporary() returns (p: Ptr)
      requires Valid()
      requires nextComp + 1 <= 2 * n
      modifies this, comps, subs
      ensures Valid() && Grew() && Spent(if p.At? then 0 else -1, 0)
      ensures p.At? ==> IsNode(p, Reftemp)
      ensures p.At? ==> old(nextComp) <= p.i < nextComp && old(n) < n
      decreases |input| - n, 5
    {
      hide OperandsFit, TableFits, OperandsPresent, Store, KeptBelow, BuiltParts, IsNameTree;
      KeptThrough(Store(), nextComp);
      var name := NameProduction();
      var number := NumberComponent();
      NamesNeedLeft(name, number);
      p := MakeComp(Reftemp, name, number);
    }

    method JavaResourceName() returns (p: Ptr)
      requires Valid()
      modifies this, comps, subs
      ensures Valid() && Produced(p, 0, 0)
      ensures p.At? ==> IsNode(p, JavaResource)
      ensures nextSub == old(nextSub)
    {
      hide OperandsFit, TableFits, OperandsPresent, Store, KeptBelow;
      KeptThrough(Store(), nextComp);
      p := Null;
      var len := Number();
      if len <= 1 { return; }
      var c := NextChar();
      if c != '_' { return; }
      p := JavaChunks(len - 1);
      NamesNeedLeft(p, Null);
      p := MakeComp(JavaResource, p, Null);
    }

    /** Escapes and plain stretches of text are chained up, at most two components for each. */
    method JavaChunks(size: int) returns (p: Ptr)
      requires 0 < size
      requires Valid()
      modifies this, comps, subs
      ensures Valid() && Produced(p, 1, 1)
      ensures nextSub == old(nextSub)
    {
      hide OperandsFit, TableFits, OperandsPresent, Store, KeptBelow;
      KeptThrough(Store(), nextComp);
      p := Null;
      var len := size;
      while len > 0
        invariant Valid() && Grew() && Spent(0, 0) && nextSub == old(nextSub)
        invariant p.At? ==> old(nextComp) <= p.i < nextComp && old(n) < n && Spent(1, 1)
        invariant p.Null? ==> len > 0
      {
        var next, used := JavaChunk(len);
        if next.Null? { return Null; }
        len := len - used;
        if p.Null? {
          p := next;
        } else {
          BothNeeded(p, next);
          p := MakeComp(CompoundName, p, next);
          if p.Null? { return; }
        }
      }
    }

    /** What an escaped character stands for. */
    static function JavaEscape(c: char): char { if c == 'S' then '/' else if c == '_' then '.' else '$' }

    method JavaChunk(len: int) returns (p: Ptr, used: nat)
      requires len > 0
      requires Valid()
      modifies this, comps, subs
      ensures Valid() && Produced(p, 1, 1)
      ensures p.At? ==> comps[p.i] == if old(Peek()) == '$' then Character(JavaEscape(input[n - 1])) else Name(input[old(n)..n])
      ensures p.At? ==> 0 < used && p == At(old(nextComp)) && n == old(n) + used && nextComp == old(nextComp) + 1
      ensures nextSub == old(nextSub)
    {
      hide OperandsFit, TableFits, Store, KeptBelow;
      KeptThrough(Store(), nextComp);
      p, used := Null, 0;
      if n == |input| { return; }
      if Peek() == '$' {
        var code := PeekNext();
        if code != 'S' && code != '_' && code != '$' { return; }
        p := Make(Character(JavaEscape(code)));
        used := 2;
      } else {
        while used < len && n + used < |input| && input[n + used] != '$'
          invariant used <= len && n + used <= |input|
          invariant unchanged(this, comps, subs)
        {
          used := used + 1;
        }
        p := MakeName(input[n..n + used]);
      }
      n := n + used;
    }

    // -------------------------------------------------------------------------------------------
    // Tables
    // -------------------------------------------------------------------------------------------

    /** Binary search; any table finds only what it holds, a sorted one finds everything it holds. */
    method FindOperator(c1: char, c2: char) returns (r: Option<OpInfo>)
      ensures r.Some? ==> r.value in operators && HasCode(r.value, c1, c2) && c1 != '\0' && c2 != '\0'
      ensures SortedByCode(operators) && r.None? ==> forall i | 0 <= i < |operators| :: !HasCode(operators[i], c1, c2)
    {
      var low, high := 0, |operators|;
      while true
        invariant 0 <= low < high <= |operators|
        invariant SortedByCode(operators) ==>
          forall i | 0 <= i < |operators| && HasCode(operators[i], c1, c2) :: low <= i < high
        decreases high - low
      {
        var i := low + (high - low) / 2;
        var op := operators[i];
        if HasCode(op, c1, c2) { return Some(op); }
        if CodeLess(c1, c2, op.c0, op.c1) {
          high := i;
        } else {
          low := i + 1;
        }
        if low == high { return None; }
      }
    }

    // -------------------------------------------------------------------------------------------
    // Entry points
    // -------------------------------------------------------------------------------------------

    /** Behind the prefix of a global constructor or destructor: an encoding or a plain name. */
    method GlobalEntity() returns (p: Ptr)
      requires Valid() && nextComp + 2 <= 2 * n
      modifies this, comps, subs
      ensures Valid() && Grew() && nextComp - old(nextComp) <= 2 * (n - old(n)) + 1
      ensures p.At? ==> p.i < nextComp
    {
      hide OperandsFit, TableFits, Store, KeptBelow, BuiltEntity;
      KeptThrough(Store(), nextComp);
      if n + 1 < |input| && Peek() == '_' && PeekNext() == 'Z' {
        n := n + 2;
        p := Encoding();
      } else {
        p := MakeName(input[n..]);
      }
    }

    /** The parse of the whole text from its start; without a result unless it was consumed to its end. */
    method ParseWhole(kind: MangledKind, ghost e: Entity, ghost t: Tree) returns (dc: Ptr)
      requires Valid() && n == nextComp == nextSub == 0
      requires !kind.NotMangled? && (kind.GlobalCtors? || kind.GlobalDtors? ==> |input| >= 11)
      modifies this, comps, subs
      ensures Valid() && (dc.At? ==> dc.i < nextComp && n == |input|)
      ensures kind.MangledFunction? && old(AtMangled(e)) && |input| == 2 + |EntityText(e)| ==>
        dc.At? && HasEntity(Store(), dc, e, 0, 0, nextComp)
      ensures kind.PlainMangledType? && old(AtText(t)) && |input| == |Text(t)| ==>
        dc.At? && Has(Store(), dc, t, Candidates(t), 0, 0, nextComp)
    {
      hide OperandsFit, TableFits, OperandsPresent, Store, IsReady, Has, HasEntity, Spells, SpellsEntity;
      hide Candidates, EntityText, Text, WrapsFunction, Requalified, OnlyRead, LastCandidate, IsBuiltinLetter;
      if kind.MangledFunction? {
        dc := MangledName(true, e);
      } else if kind.PlainMangledType? {
        dc := Type(t);
      } else {
        n := 11;
        dc := GlobalEntity();
        NamesNeedLeft(dc, Null);
        dc := MakeComp(if kind.GlobalCtors? then GlobalConstructors else GlobalDestructors, dc, Null);
        n := |input|;
      }
      if n < |input| { dc := Null; }
    }
  }

  /** A function with a parameter of type void () &, and another of that type with a qualifier. */
  const REQUALIFIED := "_Z1fFvvREKS_"

  const REF_FUNCTION := RefFunction('R', Basic('v'), [])

  const REQUALIFYING := Routine(Source("f"), [REF_FUNCTION, Qualified("K", Sub(0))])

  lemma RequalifiedText()
    ensures Text(Source("f")) == "1f" && Text(REF_FUNCTION) == "FvvRE" && Text(Qualified("K", Sub(0))) == "KS_"
    ensures EntityText(REQUALIFYING) == "1fFvvREKS_"
  {
    assert Decimal(1) == "1";
    var ps := REQUALIFYING.params;
    assert TextAll(ps[1..][1..]) == "" && TextAll(ps[1..]) == "KS_" && TextAll(ps) == "FvvREKS_";
  }

  lemma RequalifyingCandidates()
    ensures Candidates(REF_FUNCTION) == [REF_FUNCTION] && |Candidates(REQUALIFYING.params[1])| == 1
  {
    assert Candidates(Basic('v')) == [] && AllCandidates([]) == [];
    assert PartCandidates(REF_FUNCTION) == [];
  }

  lemma RequalifyingIsEntity()
    ensures Candidates(REF_FUNCTION) == [REF_FUNCTION] && |Candidates(REQUALIFYING.params[1])| == 1
    ensures IsEntity(REQUALIFYING, 0)
  {
    hide Candidates, AllCandidates, AllWellFormed, AllReferBack;
    RequalifyingCandidates();
    assert WellFormed(Basic('v')) && RefersBack(Basic('v'), 0);
    NoneIsWellFormed(0 + |Candidates(Basic('v'))|);
    assert WellFormed(REF_FUNCTION) && RefersBack(REF_FUNCTION, 0);
    TwoAreWellFormed(REF_FUNCTION, Qualified("K", Sub(0)), 0);
  }

  lemma NoneIsWellFormed(k: nat)
    ensures AllWellFormed([]) && AllReferBack([], k)
  {
  }

  lemma TwoAreWellFormed(t: Tree, u: Tree, k: nat)
    requires WellFormed(t) && WellFormed(u) && RefersBack(t, k) && RefersBack(u, k + |Candidates(t)|)
    ensures AllWellFormed([t, u]) && AllReferBack([t, u], k)
  {
    hide WellFormed, RefersBack, Candidates;
    assert [t, u][1..] == [u] && [u][1..] == [];
    NoneIsWellFormed(k + |Candidates(t)| + |Candidates(u)|);
    assert AllWellFormed([u]) && AllReferBack([u], k + |Candidates(t)|);
  }

  /** An empty arena, and a table in which 'v' is void, are ready for any tree. */
  lemma StartsReady(di: Info)
    requires di.nextComp == 0 && di.nextSub == 0 && IsVoidTable(di.builtins)
    ensures di.IsReady()
  {
  }

  /** A string that consists of the mangled form of an encoding. */
  predicate IsMangledEntity(mangled: CStr, e: Entity) {
    IsEntity(e, 0) && mangled == "_Z" + EntityText(e)
  }

  /** A string that consists of the mangled form of a type. */
  predicate IsMangledType(mangled: CStr, t: Tree) {
    WellFormed(t) && RefersBack(t, 0) && mangled == Text(t)
  }

  lemma MangledEntityAt(mangled: CStr, e: Entity)
    requires IsMangledEntity(mangled, e)
    ensures |mangled| >= 2 && mangled[0] == '_' && mangled[1] == 'Z' && SpellsEntity(mangled, 2, e, 0)
    ensures |mangled| == 2 + |EntityText(e)| && KindOf(mangled, false).MangledFunction? && KindOf(mangled, true).MangledFunction?
  {
    hide EntityText, IsEntity;
    assert mangled[2..2 + |EntityText(e)|] == EntityText(e);
  }

  lemma MangledTypeAt(mangled: CStr, t: Tree)
    requires IsMangledType(mangled, t)
    ensures |mangled| == |Text(t)| && Spells(mangled, 0, t, 0) && KindOf(mangled, true).PlainMangledType?
  {
    hide Text, WellFormed, RefersBack;
    assert mangled[0..0 + |Text(t)|] == Text(t);
    FirstChar(t);
    assert GLOBAL_PREFIX[0] == '_';
    if |mangled| >= 8 { assert mangled[..8][0] == mangled[0]; }
  }

  /**
   The parse of a whole mangled string. The arena of 2 * len components and the table of len
   substitutions are enough for every string; a component is returned only for a string that was
   consumed to its end. The mangled form of an encoding or of a type yields its tree, and leaves the
   candidates of the tree in the table.
   */
  method ParseMangled(mangled: CStr, types: bool, verbose: bool, operators: OpTable, builtins: BuiltinTable,
                      ghost e: Entity := NoEntity, ghost t: Tree := NoTree)
    returns (di: Info?, dc: Ptr)
    ensures di == null <==> KindOf(mangled, types).NotMangled?
    ensures di != null ==> fresh(di) && di.input == mangled && di.builtins == builtins && di.Valid()
    ensures di != null ==> di.comps.Length == 2 * |mangled| && di.subs.Length == |mangled| && !di.exhausted
    ensures di != null && dc.At? ==> dc.i < di.nextComp && di.n == |mangled|
    ensures di == null ==> dc.Null?
    ensures IsVoidTable(builtins) && IsMangledEntity(mangled, e) ==>
      di != null && dc.At? && HasEntity(di.Store(), dc, e, 0, 0, di.nextComp)
    ensures types && IsVoidTable(builtins) && IsMangledType(mangled, t) ==>
      di != null && dc.At? && Has(di.Store(), dc, t, Candidates(t), 0, 0, di.nextComp)
  {
    hide Info.Store, Info.IsReady, Has, HasEntity, Spells, SpellsEntity, IsVoidTable, Candidates, IsMangledType;
    hide IsMangledEntity, EntityText, Text, KindOf;
    var kind := KindOf(mangled, types);
    if IsMangledEntity(mangled, e) { MangledEntityAt(mangled, e); }
    if IsMangledType(mangled, t) { MangledTypeAt(mangled, t); }
    if kind.NotMangled? { return null, Null; }
    var info := new Info(mangled, verbose, operators, builtins);
    if IsVoidTable(builtins) { StartsReady(info); }
    dc := info.ParseWhole(kind, e, t);
    di := info;
  }

  lemma RequalifiedParts()
    ensures IsMangledEntity(REQUALIFIED, REQUALIFYING) && |REQUALIFIED| == 12
    ensures Spells(REQUALIFIED, 2, Source("f"), 0) && Spells(REQUALIFIED, 4, REF_FUNCTION, 0)
    ensures Spells(REQUALIFIED, 9, Qualified("K", Sub(0)), 1)
  {
    hide Spells, SpellsAll, SpellsEntity, EntityText, Text, TextAll, IsEntity, Candidates;
    RequalifiedText();
    RequalifyingIsEntity();
    MangledEntityAt(REQUALIFIED, REQUALIFYING);
    RoutineSpelled(REQUALIFIED, 2, REQUALIFYING, 0);
    SourceParts("f");
    var ps := REQUALIFYING.params;
    SpellsAllStep(REQUALIFIED, 4, ps, 0);
    SpellsAllStep(REQUALIFIED, 9, ps[1..], 1);
  }

  /** The name and the first parameter have been read: candidate number 0 is a function type with a qualifier. */
  method ReadCandidate(operators: OpTable, builtins: BuiltinTable) returns (di: Info, c: Ptr)
    requires IsVoidTable(builtins)
    ensures fresh(di) && fresh(di.comps) && fresh(di.subs) && di.input == REQUALIFIED && di.Valid() && di.n == 9
    ensures di.nextSub == 1 && di.subs[0] == c && di.WrapsFunction(c) && di.AtText(Qualified("K", Sub(0)))
  {
    hide Spells, Has, Text, Candidates, PartCandidates, Plain, IsVoidTable, KeptBelow, Info.Store;
    hide Info.OperandsFit, Info.TableFits, Info.WrapsFunction;
    RequalifiedParts();
    RequalifiedText();
    RequalifyingIsEntity();
    SourceParts("f");
    di := new Info(REQUALIFIED, true, operators, builtins);
    StartsReady(di);
    di.n := 2;
    var name := di.NameProduction(Source("f"));
    HasCount(di.Store(), name, Source("f"), [], 0, 0, di.nextComp);
    ghost var lo := di.nextComp;
    c := di.Type(REF_FUNCTION);
    HasCount(di.Store(), c, REF_FUNCTION, [REF_FUNCTION], 0, lo, di.nextComp);
  }

  /**
   A registered type does not always stay as it is. The whole text is accepted; the productions that read
   the name and the two parameters one after the other leave another operand in the candidate.
   */
  method RegisteredTypeChanges(operators: OpTable, builtins: BuiltinTable)
    returns (accepted: Ptr, di: Info, c: Ptr, before: Comp, after: Comp)
    requires IsVoidTable(builtins)
    ensures accepted.At?
    ensures fresh(di) && di.input == REQUALIFIED && di.Valid() && di.n == |REQUALIFIED| && di.nextSub == 2
    ensures c.At? && c.i < di.comps.Length && di.comps[c.i] == after
    ensures before.Node? && IsRefQualified(before) && after.Node? && after == before.(left := after.left)
    ensures after.left != before.left
  {
    hide Info.Store, Has, HasEntity, Spells, Text, IsMangledEntity, Candidates, Plain, IsVoidTable, KeptBelow;
    hide Info.OperandsFit, Info.TableFits;
    RequalifiedParts();
    RequalifiedText();
    RequalifyingIsEntity();
    var _, whole := ParseMangled(REQUALIFIED, false, true, operators, builtins, REQUALIFYING);
    accepted := whole;
    di, c := ReadCandidate(operators, builtins);
    before := di.Get(c);
    ghost var lo := di.nextComp;
    var again := di.Type(Qualified("K", Sub(0)));
    HasCount(di.Store(), again, Qualified("K", Sub(0)), Candidates(Qualified("K", Sub(0))), 1, lo, di.nextComp);
    after := di.Get(c);
  }
}
