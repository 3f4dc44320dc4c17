/**
 Types and names as trees, their spelling in the Itanium C++ mangling, and the substitution
 candidates that they leave behind.
 */
module ItaniumTrees {
  import opened ItaniumTypes
  import opened Numerals

  datatype Tree =
    | NoTree
    /** A type of one letter. */
    | Basic(code: char)
    /** P, R, O, C or G. */
    | Compound(code: char, of: Tree)
    /** Qualifiers r, V, K in the order of the text. */
    | Qualified(quals: string, of: Tree)
    /** The dimension in digits; empty when there is none. */
    | Array(dim: string, of: Tree)
    | Member(class_: Tree, of: Tree)
    /** No parameters at all are spelled as one of type void. */
    | Function(ret: Tree, params: seq<Tree>)
    /** A function type with the reference qualifier R or O. */
    | RefFunction(code: char, ret: Tree, params: seq<Tree>)
    | Source(name: string)
    /** Names, and perhaps a constructor or destructor of the last one. */
    | Nested(names: seq<string>, special: Special)
    /** What was registered as candidate number `id`. */
    | Sub(id: nat)
    /** A template parameter. */
    | Param(num: nat)
    /** An abbreviation of a name in namespace std. */
    | Std(code: char)
    | InStd(name: string)
    /** A template with its arguments, which are types and values. */
    | Instance(name: string, args: seq<Tree>)
    | Value(of: Tree, negative: bool, digits: string)

  datatype Special =
    | Ordinary
    | Constructs(variant: char)
    | Destroys(variant: char)

  // ---------------------------------------------------------------------------------------------
  // Spelling
  // ---------------------------------------------------------------------------------------------

  function SourceText(name: string): string { Decimal(|name|) + name }

  function NamesText(names: seq<string>): string {
    if names == [] then "" else SourceText(names[0]) + NamesText(names[1..])
  }

  function SeqDigit(d: nat): char
    requires d < 36
  {
    if d < 10 then '0' + d as char else 'A' + (d - 10) as char
  }

  /** Base 36, with digits and upper-case letters. */
  function SeqIdText(n: nat): (r: string)
    ensures r != ""
  {
    if n < 36 then [SeqDigit(n)] else SeqIdText(n / 36) + [SeqDigit(n % 36)]
  }

  /** The first candidate has no number, the second one has number 0. */
  function SubText(id: nat): string { if id == 0 then "S_" else "S" + SeqIdText(id - 1) + "_" }

  /** A number that is shifted by one, so that '_' stands for zero. */
  function CompactText(n: nat): string { if n == 0 then "_" else Decimal(n - 1) + "_" }

  function SpecialText(special: Special): string {
    match special
    case Ordinary => ""
    case Constructs(v) => ['C', v]
    case Destroys(v) => ['D', v]
  }

  function Text(t: Tree): string
    decreases t, 0
  {
    match t
    case NoTree => ""
    case Basic(c) => [c]
    case Compound(c, u) => [c] + Text(u)
    case Qualified(q, u) => q + Text(u)
    case Array(d, u) => "A" + d + ("_" + Text(u))
    case Member(c, u) => "M" + (Text(c) + Text(u))
    case Function(r, ps) => "F" + (Text(r) + (ParamsText(ps) + "E"))
    case RefFunction(c, r, ps) => "F" + (Text(r) + (ParamsText(ps) + ([c] + "E")))
    case Source(name) => SourceText(name)
    case Nested(names, special) => "N" + (NamesText(names) + (SpecialText(special) + "E"))
    case Sub(id) => SubText(id)
    case Param(n) => "T" + CompactText(n)
    case Std(c) => ['S', c]
    case InStd(name) => "St" + SourceText(name)
    case Instance(name, args) => SourceText(name) + ("I" + (TextAll(args) + "E"))
    case Value(u, negative, d) => "L" + (Text(u) + ((if negative then "n" else "") + (d + "E")))
  }

  function TextAll(ts: seq<Tree>): string
    decreases ts, 0
  {
    if ts == [] then "" else Text(ts[0]) + TextAll(ts[1..])
  }

  function ParamsText(ts: seq<Tree>): string
    decreases ts, 1
  {
    if ts == [] then "v" else TextAll(ts)
  }

  /** What stands behind the parameters of a function type. */
  function EndText(t: Tree): string { if t.RefFunction? then [t.code] + "E" else "E" }

  predicate IsFunction(t: Tree) { t.Function? || t.RefFunction? }

  /** The parameters as they are spelled. */
  function Spelled(ts: seq<Tree>): seq<Tree> { if ts == [] then [Basic('v')] else ts }

  // ---------------------------------------------------------------------------------------------
  // Which trees can be spelled
  // ---------------------------------------------------------------------------------------------

  predicate IsCompoundCode(c: char) { c == 'P' || c == 'R' || c == 'O' || c == 'C' || c == 'G' }

  function CompoundKind(c: char): Kind {
    if c == 'P' then Pointer
    else if c == 'R' then Reference
    else if c == 'O' then RvalueReference
    else if c == 'C' then Complex
    else Imaginary
  }

  predicate IsQualifierCode(c: char) { c == 'r' || c == 'V' || c == 'K' }

  predicate AreDigits(s: string) { forall i | 0 <= i < |s| :: IsDigit(s[i]) }

  predicate AreQualifiers(s: string) { forall i | 0 <= i < |s| :: IsQualifierCode(s[i]) }

  /** An identifier does not begin with a digit. */
  predicate IsIdentifier(s: string) { s != "" && !IsDigit(s[0]) }

  predicate AreIdentifiers(names: seq<string>) { forall i | 0 <= i < |names| :: IsIdentifier(names[i]) }

  /**
   Trees whose text is read as themselves: all qualifiers are pulled off at once, those of a function
   type belong to 'this', and a single parameter of type void stands for none.
   */
  predicate WellFormed(t: Tree)
    decreases t, 0
  {
    match t
    case NoTree => false
    case Basic(c) => IsBuiltinLetter(c)
    case Compound(c, u) => IsCompoundCode(c) && WellFormed(u)
    case Qualified(q, u) => q != "" && AreQualifiers(q) && WellFormed(u) && !u.Qualified? && !IsFunction(u)
    case Array(d, u) => AreDigits(d) && WellFormed(u)
    case Member(c, u) => WellFormed(c) && WellFormed(u)
    case Function(r, ps) => WellFormed(r) && AllWellFormed(ps) && ps != [Basic('v')]
    case RefFunction(c, r, ps) =>
      (c == 'R' || c == 'O') && WellFormed(r) && AllWellFormed(ps) && ps != [Basic('v')]
    case Source(name) => IsIdentifier(name)
    case Nested(names, special) => names != [] && AreIdentifiers(names) && IsSpecial(special)
    case Sub(id) => id < 0x1_0000_0000
    case Param(_) => true
    case Std(c) => IsStandardSub(c) && c != 't'
    case InStd(name) => IsIdentifier(name)
    case Instance(name, args) => IsIdentifier(name) && AllArguments(args)
    case Value(_, _, _) => false
  }

  predicate IsSpecial(special: Special) {
    match special
    case Ordinary => true
    case Constructs(v) => '1' <= v <= '5'
    case Destroys(v) => v == '0' || v == '1' || v == '2' || v == '4' || v == '5'
  }

  /** A template argument: a type, or a value of a type. */
  predicate IsArgument(t: Tree)
    decreases t, 1
  {
    if t.Value? then WellFormed(t.of) && t.digits != "" && AreDigits(t.digits) else WellFormed(t)
  }

  predicate AllArguments(ts: seq<Tree>)
    decreases ts, 0
  {
    ts == [] || (IsArgument(ts[0]) && AllArguments(ts[1..]))
  }

  predicate AllWellFormed(ts: seq<Tree>)
    decreases ts, 0
  {
    ts == [] || (WellFormed(ts[0]) && AllWellFormed(ts[1..]))
  }

  // ---------------------------------------------------------------------------------------------
  // Substitution candidates
  // ---------------------------------------------------------------------------------------------

  /** The proper prefixes of a nested name. */
  function Prefixes(names: seq<string>): (r: seq<Tree>)
    ensures |r| == if names == [] then 0 else |names| - 1
  {
    if |names| <= 1 then [] else Prefixes(names[..|names| - 1]) + [Nested(names[..|names| - 1], Ordinary)]
  }

  predicate IsCandidate(t: Tree) { !t.NoTree? && !t.Basic? && !t.Sub? && !t.Std? && !t.Value? }

  /** The candidates that the parts of a tree leave, in the order of the table. */
  function PartCandidates(t: Tree): seq<Tree>
    decreases t, 0
  {
    match t
    case Compound(_, u) => Candidates(u)
    case Qualified(_, u) => Candidates(u)
    case Array(_, u) => Candidates(u)
    case Member(c, u) => Candidates(c) + Candidates(u)
    case Function(r, ps) => Candidates(r) + AllCandidates(ps)
    case RefFunction(_, r, ps) => Candidates(r) + AllCandidates(ps)
    case Nested(names, special) => Prefixes(names) + if special.Ordinary? then [] else [Nested(names, Ordinary)]
    case Instance(name, args) => [Source(name)] + AllCandidates(args)
    case Value(u, _, _) => Candidates(u)
    case _ => []
  }

  function Candidates(t: Tree): seq<Tree>
    decreases t, 1
  {
    PartCandidates(t) + if IsCandidate(t) then [t] else []
  }

  function AllCandidates(ts: seq<Tree>): seq<Tree>
    decreases ts, 0
  {
    if ts == [] then [] else Candidates(ts[0]) + AllCandidates(ts[1..])
  }

  /** Every reference is to a candidate that is there by then, when `k` are there at first. */
  predicate RefersBack(t: Tree, k: nat)
    decreases t, 0
  {
    match t
    case Compound(_, u) => RefersBack(u, k)
    case Qualified(_, u) => RefersBack(u, k)
    case Array(_, u) => RefersBack(u, k)
    case Member(c, u) => RefersBack(c, k) && RefersBack(u, k + |Candidates(c)|)
    case Function(r, ps) => RefersBack(r, k) && AllReferBack(ps, k + |Candidates(r)|)
    case RefFunction(_, r, ps) => RefersBack(r, k) && AllReferBack(ps, k + |Candidates(r)|)
    case Sub(id) => id < k
    case Instance(_, args) => AllReferBack(args, k + 1)
    case Value(u, _, _) => RefersBack(u, k)
    case _ => true
  }

  predicate AllReferBack(ts: seq<Tree>, k: nat)
    decreases ts, 0
  {
    ts == [] || (RefersBack(ts[0], k) && AllReferBack(ts[1..], k + |Candidates(ts[0])|))
  }

  /** What a name is kept as: gcc's encoding of an anonymous namespace is replaced. */
  function NameText(name: string): string {
    if IsAnonymousNamespace(name) then ANONYMOUS_NAMESPACE else name
  }

  // ---------------------------------------------------------------------------------------------
  // Text that spells a tree
  // ---------------------------------------------------------------------------------------------

  predicate TextAt(s: string, a: nat, text: string) {
    a + |text| <= |s| && s[a..a + |text|] == text
  }

  /** Neither template arguments nor an ABI tag follow. */
  predicate EndsAt(s: string, b: nat) {
    b <= |s| && (b < |s| ==> s[b] != 'I' && s[b] != 'B')
  }

  /** The text at `a` spells the tree, when `k` candidates are there already. */
  predicate Spells(s: string, a: nat, t: Tree, k: nat) {
    WellFormed(t) && RefersBack(t, k) && TextAt(s, a, Text(t)) && EndsAt(s, a + |Text(t)|)
  }

  lemma TextAtBoth(s: string, a: nat, x: string, y: string)
    requires TextAt(s, a, x + y)
    ensures TextAt(s, a, x) && TextAt(s, a + |x|, y)
  {
    assert s[a..a + |x + y|][..|x|] == x && s[a..a + |x + y|][|x|..] == y;
  }

  lemma TextAtChar(s: string, a: nat, c: char, y: string)
    requires TextAt(s, a, [c] + y)
    ensures a < |s| && s[a] == c && TextAt(s, a + 1, y)
  {
    TextAtBoth(s, a, [c], y);
    assert s[a..a + 1][0] == c;
  }

  lemma {:induction false} DecimalStarts(n: nat)
    ensures IsDigit(Decimal(n)[0])
  {
    DecimalIsDigits(n);
  }

  /** No type begins like template arguments, a tag, or an end. */
  lemma FirstChar(t: Tree)
    requires WellFormed(t)
    ensures Text(t) != "" && Text(t)[0] != 'I' && Text(t)[0] != 'B' && Text(t)[0] != 'E' && Text(t)[0] != '.'
    ensures Text(t)[0] !in {'_', 'J', 'Y', 'L', 'X', 'Z', '\0'}
    ensures Text(t)[0] == match t
      case Basic(c) => c
      case Compound(c, _) => c
      case Qualified(q, _) => q[0]
      case Array(_, _) => 'A'
      case Member(_, _) => 'M'
      case Function(_, _) => 'F'
      case RefFunction(_, _, _) => 'F'
      case Nested(_, _) => 'N'
      case Sub(_) => 'S'
      case Std(_) => 'S'
      case InStd(_) => 'S'
      case Param(_) => 'T'
      case _ => Text(t)[0]
    ensures t.Source? || t.Instance? ==> IsDigit(Text(t)[0])
  {
    if t.Source? || t.Instance? { DecimalStarts(|t.name|); }
    if t.Qualified? { assert IsQualifierCode(t.quals[0]); }
  }

  // ---------------------------------------------------------------------------------------------
  // Numbers
  // ---------------------------------------------------------------------------------------------

  /** The value that `acc` has when these digits have been read after it. */
  function Horner(d: string, acc: nat): nat
    requires AreDigits(d)
    decreases |d|
  {
    if d == "" then acc else Horner(d[1..], acc * 10 + (d[0] as int - '0' as int))
  }

  lemma {:induction false} DigitsRead(s: CStr, a: nat, d: string, acc: nat)
    requires AreDigits(d) && TextAt(s, a, d) && (a + |d| < |s| ==> !IsDigit(s[a + |d|]))
    ensures DigitsAt(s, a, acc) == (a + |d|, Horner(d, acc))
    decreases |d|
  {
    if d != "" {
      assert d == [d[0]] + d[1..];
      TextAtChar(s, a, d[0], d[1..]);
      DigitsRead(s, a + 1, d[1..], acc * 10 + (d[0] as int - '0' as int));
    }
  }

  lemma {:induction false} HornerAppend(d: string, c: char, acc: nat)
    requires AreDigits(d) && IsDigit(c)
    ensures AreDigits(d + [c]) && Horner(d + [c], acc) == Horner(d, acc) * 10 + (c as int - '0' as int)
    decreases |d|
  {
    if d == "" {
      assert d + [c] == [c] && [c][1..] == "";
    } else {
      HornerAppend(d[1..], c, acc * 10 + (d[0] as int - '0' as int));
      assert (d + [c])[1..] == d[1..] + [c];
    }
  }

  lemma {:induction false} HornerDecimal(n: nat)
    ensures AreDigits(Decimal(n)) && Horner(Decimal(n), 0) == n
  {
    DecimalIsDigits(n);
    if n < 10 {
      assert Decimal(n) == [DigitChar(n)] && Decimal(n)[1..] == "";
    } else {
      HornerDecimal(n / 10);
      HornerAppend(Decimal(n / 10), DigitChar(n % 10), 0);
    }
  }

  /** A decimal numeral is read as its number. */
  lemma NumberRead(s: CStr, a: nat, n: nat)
    requires TextAt(s, a, Decimal(n)) && (a + |Decimal(n)| < |s| ==> !IsDigit(s[a + |Decimal(n)|]))
    ensures NumberAt(s, a) == (a + |Decimal(n)|, n)
  {
    HornerDecimal(n);
    DigitsRead(s, a, Decimal(n), 0);
    DecimalStarts(n);
    assert s[a] == Decimal(n)[0];
  }

  // ---------------------------------------------------------------------------------------------
  // Substitution numbers
  // ---------------------------------------------------------------------------------------------

  function SeqDigitValue(c: char): nat
    requires IsDigit(c) || IsUpper(c)
  {
    if IsDigit(c) then c as int - '0' as int else c as int - 'A' as int + 10
  }

  predicate AreSeqDigits(d: string) { forall i | 0 <= i < |d| :: IsDigit(d[i]) || IsUpper(d[i]) }

  function Horner36(d: string, acc: nat): (r: nat)
    requires AreSeqDigits(d)
    ensures r >= acc
    decreases |d|
  {
    if d == "" then acc else Horner36(d[1..], acc * 36 + SeqDigitValue(d[0]))
  }

  lemma {:induction false} SeqDigitsRead(s: CStr, a: nat, d: string, id: nat)
    requires d != "" && AreSeqDigits(d) && TextAt(s, a, d + "_") && Horner36(d, id) < 0x1_0000_0000
    ensures SeqIdAt(s, a + 1, d[0], id) == (a + |d| + 1, Horner36(d, id))
    decreases |d|
  {
    var next := id * 36 + SeqDigitValue(d[0]);
    assert Horner36(d, id) == Horner36(d[1..], next);
    assert SeqIdStep(id, d[0]) == next;
    assert d + "_" == [d[0]] + (d[1..] + "_");
    TextAtChar(s, a, d[0], d[1..] + "_");
    if |d| == 1 {
      assert d[1..] + "_" == ['_'] + "";
      TextAtChar(s, a + 1, '_', "");
    } else {
      SeqDigitsRead(s, a + 1, d[1..], next);
      assert d[1..] + "_" == [d[1]] + (d[2..] + "_");
      TextAtChar(s, a + 1, d[1], d[2..] + "_");
    }
  }

  lemma {:induction false} Horner36Append(d: string, c: char, acc: nat)
    requires AreSeqDigits(d) && (IsDigit(c) || IsUpper(c))
    ensures AreSeqDigits(d + [c]) && Horner36(d + [c], acc) == Horner36(d, acc) * 36 + SeqDigitValue(c)
    decreases |d|
  {
    if d == "" {
      assert d + [c] == [c] && [c][1..] == "";
    } else {
      Horner36Append(d[1..], c, acc * 36 + SeqDigitValue(d[0]));
      assert (d + [c])[1..] == d[1..] + [c];
    }
  }

  lemma {:induction false} Horner36SeqId(n: nat)
    ensures AreSeqDigits(SeqIdText(n)) && Horner36(SeqIdText(n), 0) == n
  {
    if n < 36 {
      assert SeqIdText(n) == [SeqDigit(n)] && SeqIdText(n)[1..] == "";
    } else {
      Horner36SeqId(n / 36);
      Horner36Append(SeqIdText(n / 36), SeqDigit(n % 36), 0);
    }
  }

  /** The number of a substitution is read back from its base-36 digits. */
  lemma SeqIdRead(s: CStr, a: nat, n: nat)
    requires TextAt(s, a, SeqIdText(n) + "_") && n < 0x1_0000_0000
    ensures a < |s| && (IsDigit(s[a]) || IsUpper(s[a]))
    ensures SeqIdAt(s, a + 1, s[a], 0) == (a + |SeqIdText(n)| + 1, n)
  {
    hide Horner36, SeqIdText, SeqIdAt;
    var d := SeqIdText(n);
    Horner36SeqId(n);
    SeqDigitsRead(s, a, d, 0);
    assert d + "_" == [d[0]] + (d[1..] + "_");
    TextAtChar(s, a, d[0], d[1..] + "_");
  }

  // ---------------------------------------------------------------------------------------------
  // The parts of a spelled tree
  // ---------------------------------------------------------------------------------------------

  lemma SpellsFirst(s: string, a: nat, t: Tree, k: nat)
    requires Spells(s, a, t, k)
    ensures a < |s| && s[a] == Text(t)[0]
  {
    FirstChar(t);
    assert Text(t) == [Text(t)[0]] + Text(t)[1..];
    TextAtChar(s, a, Text(t)[0], Text(t)[1..]);
  }

  lemma SpellsCompound(s: string, a: nat, t: Tree, k: nat)
    requires Spells(s, a, t, k) && t.Compound?
    ensures a < |s| && s[a] == t.code && Spells(s, a + 1, t.of, k) && |Text(t)| == 1 + |Text(t.of)|
  {
    TextAtChar(s, a, t.code, Text(t.of));
  }

  lemma SpellsMember(s: string, a: nat, t: Tree, k: nat)
    requires Spells(s, a, t, k) && t.Member?
    ensures a < |s| && s[a] == 'M' && Spells(s, a + 1, t.class_, k)
    ensures Spells(s, a + 1 + |Text(t.class_)|, t.of, k + |Candidates(t.class_)|)
    ensures |Text(t)| == 1 + |Text(t.class_)| + |Text(t.of)|
  {
    hide Text, WellFormed, RefersBack, Candidates;
    var x, y := Text(t.class_), Text(t.of);
    MemberParts(t, k);
    TextAtChar(s, a, 'M', x + y);
    TextAtBoth(s, a + 1, x, y);
    NextStarts(s, a + 1 + |x|, t.of);
  }

  lemma MemberParts(t: Tree, k: nat)
    requires t.Member? && WellFormed(t) && RefersBack(t, k)
    ensures WellFormed(t.class_) && WellFormed(t.of)
    ensures RefersBack(t.class_, k) && RefersBack(t.of, k + |Candidates(t.class_)|)
    ensures Text(t) == "M" + (Text(t.class_) + Text(t.of))
  {
  }

  /** Where another type begins, neither template arguments nor a tag follow. */
  lemma NextStarts(s: string, b: nat, t: Tree)
    requires WellFormed(t) && TextAt(s, b, Text(t))
    ensures EndsAt(s, b) && b < |s| && s[b] == Text(t)[0]
  {
    FirstChar(t);
    assert Text(t) == [Text(t)[0]] + Text(t)[1..];
    TextAtChar(s, b, Text(t)[0], Text(t)[1..]);
  }

  lemma SpellsArray(s: string, a: nat, t: Tree, k: nat)
    requires Spells(s, a, t, k) && t.Array?
    ensures a < |s| && s[a] == 'A' && TextAt(s, a + 1, t.dim) && AreDigits(t.dim)
    ensures a + 1 + |t.dim| < |s| && s[a + 1 + |t.dim|] == '_'
    ensures Spells(s, a + 2 + |t.dim|, t.of, k) && |Text(t)| == 2 + |t.dim| + |Text(t.of)|
  {
    hide Text, WellFormed, RefersBack;
    var u := Text(t.of);
    ArrayParts(t, k);
    TextAtChar(s, a, 'A', t.dim + (['_'] + u));
    TextAtBoth(s, a + 1, t.dim, ['_'] + u);
    TextAtChar(s, a + 1 + |t.dim|, '_', u);
  }

  lemma ArrayParts(t: Tree, k: nat)
    requires t.Array? && WellFormed(t) && RefersBack(t, k)
    ensures WellFormed(t.of) && RefersBack(t.of, k) && AreDigits(t.dim)
    ensures Text(t) == ['A'] + (t.dim + (['_'] + Text(t.of)))
  {
  }

  lemma SpellsQualified(s: string, a: nat, t: Tree, k: nat)
    requires Spells(s, a, t, k) && t.Qualified?
    ensures TextAt(s, a, t.quals) && AreQualifiers(t.quals) && t.quals != ""
    ensures Spells(s, a + |t.quals|, t.of, k) && |Text(t)| == |t.quals| + |Text(t.of)|
    ensures var b := a + |t.quals|;
      b < |s| && !IsQualifierCode(s[b]) && s[b] != 'F' && s[b] != 'D'
  {
    TextAtBoth(s, a, t.quals, Text(t.of));
    NextStarts(s, a + |t.quals|, t.of);
    FirstChar(t.of);
    BasicIsNoQualifier(t.of);
  }

  /** These qualifiers, and then something that is neither a qualifier nor a function. */
  predicate AreQualifiersAt(s: string, a: nat, quals: string) {
    && TextAt(s, a, quals) && AreQualifiers(quals)
    && (var b := a + |quals|;
        b < |s| ==> !IsQualifierCode(s[b]) && s[b] != 'F' && s[b] != 'D')
  }

  /** A type that is not qualified, and not a function, does not begin like one. */
  lemma BasicIsNoQualifier(t: Tree)
    requires WellFormed(t) && !t.Qualified? && !IsFunction(t)
    ensures Text(t) != "" && !IsQualifierCode(Text(t)[0]) && Text(t)[0] != 'F' && Text(t)[0] != 'D'
  {
    FirstChar(t);
  }

  lemma SpellsSource(s: CStr, a: nat, t: Tree, k: nat)
    requires SpellsOpen(s, a, t, k) && t.Source?
    ensures var d := |Decimal(|t.name|)|;
      && NumberAt(s, a) == (a + d, |t.name|) && |t.name| > 0
      && TextAt(s, a + d, t.name) && |Text(t)| == d + |t.name|
  {
    SourceRead(s, a, t.name);
  }

  lemma SourceRead(s: CStr, a: nat, name: string)
    requires TextAt(s, a, SourceText(name)) && IsIdentifier(name)
    ensures var d := |Decimal(|name|)|;
      NumberAt(s, a) == (a + d, |name|) && TextAt(s, a + d, name) && a < |s| && IsDigit(s[a])
  {
    hide Decimal;
    var number := Decimal(|name|);
    TextAtBoth(s, a, number, name);
    assert name == [name[0]] + name[1..];
    TextAtChar(s, a + |number|, name[0], name[1..]);
    NumberRead(s, a, |name|);
    DecimalStarts(|name|);
    assert number == [number[0]] + number[1..];
    TextAtChar(s, a, number[0], number[1..]);
  }

  lemma SpellsSub(s: CStr, a: nat, t: Tree, k: nat)
    requires Spells(s, a, t, k) && t.Sub?
    ensures a + 1 < |s| && s[a] == 'S' && t.id < k && t.id < 0x1_0000_0000
    ensures t.id == 0 ==> s[a + 1] == '_' && |Text(t)| == 2
    ensures t.id > 0 ==> IsDigit(s[a + 1]) || IsUpper(s[a + 1])
    ensures t.id > 0 ==> SeqIdAt(s, a + 2, s[a + 1], 0) == (a + |Text(t)|, t.id - 1)
  {
    hide SeqIdAt;
    if t.id == 0 {
      assert Text(t) == ['S'] + (['_'] + "");
      TextAtChar(s, a, 'S', ['_'] + "");
      TextAtChar(s, a + 1, '_', "");
    } else {
      var d := SeqIdText(t.id - 1);
      assert Text(t) == ['S'] + (d + "_");
      TextAtChar(s, a, 'S', d + "_");
      SeqIdRead(s, a + 1, t.id - 1);
    }
  }

  lemma SpellsParam(s: CStr, a: nat, t: Tree, k: nat)
    requires Spells(s, a, t, k) && t.Param?
    ensures a < |s| && s[a] == 'T' && CompactAt(s, a + 1) == (a + |Text(t)|, t.num)
  {
    if t.num == 0 {
      assert Text(t) == ['T'] + (['_'] + "");
      TextAtChar(s, a, 'T', ['_'] + "");
      TextAtChar(s, a + 1, '_', "");
    } else {
      hide Decimal;
      var d := Decimal(t.num - 1);
      assert Text(t) == ['T'] + (d + "_");
      TextAtChar(s, a, 'T', d + "_");
      CompactRead(s, a + 1, t.num - 1);
    }
  }

  lemma CompactRead(s: CStr, a: nat, n: nat)
    requires TextAt(s, a, Decimal(n) + "_")
    ensures CompactAt(s, a) == (a + |Decimal(n)| + 1, n + 1)
  {
    hide Decimal;
    var d := Decimal(n);
    TextAtBoth(s, a, d, "_");
    assert "_" == ['_'] + "";
    TextAtChar(s, a + |d|, '_', "");
    NumberRead(s, a, n);
    DecimalStarts(n);
    assert d == [d[0]] + d[1..];
    TextAtChar(s, a, d[0], d[1..]);
  }

  lemma SpellsStd(s: string, a: nat, t: Tree, k: nat)
    requires Spells(s, a, t, k) && t.Std?
    ensures a + 1 < |s| && s[a] == 'S' && s[a + 1] == t.code && |Text(t)| == 2
    ensures IsStandardSub(t.code) && t.code != 't' && !IsDigit(t.code) && !IsUpper(t.code) && t.code != '_'
  {
    assert Text(t) == ['S'] + ([t.code] + "");
    TextAtChar(s, a, 'S', [t.code] + "");
    TextAtChar(s, a + 1, t.code, "");
  }

  lemma SpellsInStd(s: string, a: nat, t: Tree, k: nat)
    requires Spells(s, a, t, k) && t.InStd?
    ensures a + 1 < |s| && s[a] == 'S' && s[a + 1] == 't' && |Text(t)| == 2 + |Text(Source(t.name))|
    ensures Spells(s, a + 2, Source(t.name), k)
  {
    assert Text(t) == ['S'] + (['t'] + SourceText(t.name));
    TextAtChar(s, a, 'S', ['t'] + SourceText(t.name));
    TextAtChar(s, a + 1, 't', SourceText(t.name));
  }

  // ---------------------------------------------------------------------------------------------
  // Template arguments
  // ---------------------------------------------------------------------------------------------

  /** The text at `a` spells the tree, behind which template arguments may follow. */
  predicate SpellsOpen(s: string, a: nat, t: Tree, k: nat) {
    && WellFormed(t) && RefersBack(t, k) && TextAt(s, a, Text(t))
    && (a + |Text(t)| < |s| ==> s[a + |Text(t)|] != 'B')
  }

  /** The text at `a` spells the template argument. */
  predicate SpellsArg(s: string, a: nat, t: Tree, k: nat) {
    IsArgument(t) && RefersBack(t, k) && TextAt(s, a, Text(t)) && EndsAt(s, a + |Text(t)|)
  }

  /** The text at `a` spells these template arguments and the end mark. */
  predicate SpellsArgs(s: string, a: nat, ts: seq<Tree>, k: nat) {
    && AllArguments(ts) && AllReferBack(ts, k) && TextAt(s, a, TextAll(ts))
    && a + |TextAll(ts)| < |s| && s[a + |TextAll(ts)|] == 'E'
  }

  lemma SpellsInstance(s: string, a: nat, t: Tree, k: nat)
    requires Spells(s, a, t, k) && t.Instance?
    ensures SpellsOpen(s, a, Source(t.name), k)
    ensures var b := a + |Text(Source(t.name))|;
      && b < |s| && s[b] == 'I' && SpellsArgs(s, b + 1, t.args, k + 1)
      && |Text(t)| == |Text(Source(t.name))| + 2 + |TextAll(t.args)|
  {
    hide SourceText, TextAll, AllArguments, AllReferBack;
    var x, y := SourceText(t.name), TextAll(t.args);
    assert Text(Source(t.name)) == x;
    TextAtBoth(s, a, x, ['I'] + (y + "E"));
    TextAtChar(s, a + |x|, 'I', y + "E");
    TextAtBoth(s, a + |x| + 1, y, "E");
    assert "E" == ['E'] + "";
    TextAtChar(s, a + |x| + 1 + |y|, 'E', "");
  }

  lemma SpellsArgsStep(s: string, a: nat, ts: seq<Tree>, k: nat)
    requires SpellsArgs(s, a, ts, k) && ts != []
    ensures SpellsArg(s, a, ts[0], k)
    ensures SpellsArgs(s, a + |Text(ts[0])|, ts[1..], k + |Candidates(ts[0])|)
    ensures |TextAll(ts)| == |Text(ts[0])| + |TextAll(ts[1..])|
  {
    hide *;
    ArgsParts(s, a, ts, k);
    var b := a + |Text(ts[0])|;
    TextAtBoth(s, a, Text(ts[0]), TextAll(ts[1..]));
    RestOfArgsStarts(s, b, ts[1..]);
    SpellsArgIs(s, a, ts[0], k);
    SpellsArgsIs(s, b, ts[1..], k + |Candidates(ts[0])|);
  }

  lemma ArgsParts(s: string, a: nat, ts: seq<Tree>, k: nat)
    requires SpellsArgs(s, a, ts, k) && ts != []
    ensures IsArgument(ts[0]) && RefersBack(ts[0], k)
    ensures AllArguments(ts[1..]) && AllReferBack(ts[1..], k + |Candidates(ts[0])|)
    ensures TextAll(ts) == Text(ts[0]) + TextAll(ts[1..]) && TextAt(s, a, TextAll(ts))
    ensures var e := a + |Text(ts[0])| + |TextAll(ts[1..])|; e < |s| && s[e] == 'E'
  {
    hide Text, TextAll, IsArgument, AllArguments, RefersBack, AllReferBack, Candidates;
    FirstArgument(ts);
    FirstRefersBack(ts, k);
    FirstText(ts);
  }

  lemma FirstArgument(ts: seq<Tree>)
    requires AllArguments(ts) && ts != []
    ensures IsArgument(ts[0]) && AllArguments(ts[1..])
  {
    hide IsArgument;
  }

  lemma FirstRefersBack(ts: seq<Tree>, k: nat)
    requires AllReferBack(ts, k) && ts != []
    ensures RefersBack(ts[0], k) && AllReferBack(ts[1..], k + |Candidates(ts[0])|)
  {
    hide RefersBack, Candidates;
  }

  lemma FirstText(ts: seq<Tree>)
    requires ts != []
    ensures TextAll(ts) == Text(ts[0]) + TextAll(ts[1..])
  {
    hide Text;
  }

  lemma RestOfArgsStarts(s: string, b: nat, ts: seq<Tree>)
    requires AllArguments(ts) && TextAt(s, b, TextAll(ts))
    requires var e := b + |TextAll(ts)|; e < |s| && s[e] == 'E'
    ensures EndsAt(s, b)
  {
    if ts != [] {
      hide Text, IsArgument;
      TextAtBoth(s, b, Text(ts[0]), TextAll(ts[1..]));
      NextArgStarts(s, b, ts[0]);
    }
  }

  lemma SpellsArgIs(s: string, a: nat, t: Tree, k: nat)
    requires IsArgument(t) && RefersBack(t, k) && TextAt(s, a, Text(t)) && EndsAt(s, a + |Text(t)|)
    ensures SpellsArg(s, a, t, k)
  {
  }

  lemma SpellsArgsIs(s: string, a: nat, ts: seq<Tree>, k: nat)
    requires AllArguments(ts) && AllReferBack(ts, k) && TextAt(s, a, TextAll(ts))
    requires var e := a + |TextAll(ts)|; e < |s| && s[e] == 'E'
    ensures SpellsArgs(s, a, ts, k)
  {
  }

  lemma NextArgStarts(s: string, b: nat, t: Tree)
    requires IsArgument(t) && TextAt(s, b, Text(t))
    ensures EndsAt(s, b) && b < |s| && s[b] !in {'E', 'I', 'J', 'X', '\0'} && (s[b] == 'L' <==> t.Value?)
  {
    if !t.Value? { FirstChar(t); }
    assert Text(t) == [Text(t)[0]] + Text(t)[1..];
    TextAtChar(s, b, Text(t)[0], Text(t)[1..]);
  }

  lemma SpellsType(s: string, a: nat, t: Tree, k: nat)
    requires SpellsArg(s, a, t, k) && !t.Value?
    ensures Spells(s, a, t, k)
  {
  }

  /** A value: its type, a sign and digits up to the end mark. */
  lemma SpellsValue(s: string, a: nat, t: Tree, k: nat)
    requires SpellsArg(s, a, t, k) && t.Value?
    ensures a + 1 < |s| && s[a] == 'L' && s[a + 1] != '_' && s[a + 1] != 'Z' && Spells(s, a + 1, t.of, k)
    ensures SpellsDigits(s, a + 1 + |Text(t.of)|, t)
    ensures |Text(t)| == 1 + |Text(t.of)| + |SignText(t)| + |t.digits| + 1
  {
    hide SpellsDigits;
    var u := SignText(t) + (t.digits + "E");
    assert Text(t) == ['L'] + (Text(t.of) + u);
    TextAtChar(s, a, 'L', Text(t.of) + u);
    TextAtBoth(s, a + 1, Text(t.of), u);
    DigitsEnd(s, a + 1 + |Text(t.of)|, t);
    NextStarts(s, a + 1, t.of);
    FirstChar(t.of);
  }

  function SignText(t: Tree): string
    requires t.Value?
  {
    if t.negative then "n" else ""
  }

  predicate SpellsDigits(s: string, b: nat, t: Tree)
    requires t.Value?
  {
    var c := b + |SignText(t)|;
    && c + |t.digits| < |s| && (s[b] == 'n' <==> t.negative) && TextAt(s, c, t.digits) && s[c + |t.digits|] == 'E'
    && t.digits != "" && EndsAt(s, b) && forall i | c <= i < c + |t.digits| :: s[i] != 'E' && s[i] != '\0'
  }

  lemma DigitsEnd(s: string, b: nat, t: Tree)
    requires t.Value? && t.digits != "" && AreDigits(t.digits) && TextAt(s, b, SignText(t) + (t.digits + "E"))
    ensures SpellsDigits(s, b, t)
  {
    var c := b + |SignText(t)|;
    TextAtBoth(s, b, SignText(t), t.digits + "E");
    TextAtBoth(s, c, t.digits, "E");
    assert "E" == ['E'] + "";
    TextAtChar(s, c + |t.digits|, 'E', "");
    forall i | c <= i < c + |t.digits| ensures IsDigit(s[i]) {
      assert s[c..c + |t.digits|][i - c] == t.digits[i - c];
    }
    if t.negative { assert s[b..b + 1][0] == 'n'; }
  }

  // ---------------------------------------------------------------------------------------------
  // Trees in an arena
  // ---------------------------------------------------------------------------------------------

  /** The components, the substitution candidates that are registered, and the builtin types. */
  datatype Arena = Arena(comps: seq<Comp>, subs: seq<Ptr>, builtins: BuiltinTable, verbose: bool) {
    predicate HasSlot(p: Ptr, lo: nat, hi: nat) { p.At? && lo <= p.i < hi <= |comps| }

    predicate HasName(p: Ptr, text: string, lo: nat, hi: nat) { HasSlot(p, lo, hi) && comps[p.i] == Name(text) }

    predicate HasNode(p: Ptr, kind: Kind, lo: nat, hi: nat) {
      HasSlot(p, lo, hi) && comps[p.i].Node? && comps[p.i].kind == kind
    }

    function Left(p: Ptr): Ptr { if p.At? && p.i < |comps| && comps[p.i].Node? then comps[p.i].left else Null }

    function Right(p: Ptr): Ptr { if p.At? && p.i < |comps| && comps[p.i].Node? then comps[p.i].right else Null }
  }

  /**
   The component at `p` is the root of the tree, all of it in the slots lo..hi, but for references,
   which are whatever the substitution table holds. Qualifiers of a reference to a function type with
   a reference qualifier end up inside the candidate itself, so that such a type keeps no more than its root.
   */
  predicate Rep(a: Arena, p: Ptr, t: Tree, lo: nat, hi: nat)
    decreases t, 0
  {
    match t
    case NoTree => false
    case Basic(c) => RepBasic(a, p, c, lo, hi)
    case Compound(c, u) =>
      a.HasNode(p, CompoundKind(c), lo, hi) && a.Right(p).Null? && Rep(a, a.Left(p), u, lo, hi)
    case Qualified(q, u) =>
      (u.Sub? ==> u.id < |a.subs|) && if IsRefSub(a, u) then p == a.subs[u.id] else RepQualified(a, p, q, u, lo, hi)
    case Array(d, u) =>
      && a.HasNode(p, ArrayType, lo, hi)
      && (if d == "" then a.Left(p).Null? else a.HasName(a.Left(p), d, lo, hi))
      && Rep(a, a.Right(p), u, lo, hi)
    case Member(c, u) =>
      a.HasNode(p, PtrmemType, lo, hi) && Rep(a, a.Left(p), c, lo, hi) && Rep(a, a.Right(p), u, lo, hi)
    case Function(r, ps) =>
      a.HasNode(p, FunctionType, lo, hi) && Rep(a, a.Left(p), r, lo, hi) && RepParams(a, Arglist, a.Right(p), ps, lo, hi)
    case RefFunction(c, _, _) => a.HasNode(p, ThisReference(c), lo, hi)
    case Source(name) => a.HasName(p, NameText(name), lo, hi)
    case Nested(names, special) =>
      if special.Ordinary? then RepNames(a, p, names, lo, hi)
      else
        && names != [] && a.HasNode(p, QualName, lo, hi) && RepNames(a, a.Left(p), names, lo, hi)
        && RepSpecial(a, a.Right(p), special, names[|names| - 1], lo, hi)
    case Sub(id) => id < |a.subs| && p == a.subs[id]
    case Param(n) => a.HasSlot(p, lo, hi) && a.comps[p.i] == TemplateParam(n)
    case Std(c) => RepStd(a, p, c, lo, hi)
    case InStd(name) => RepInStd(a, p, name, lo, hi)
    case Instance(name, args) =>
      && a.HasNode(p, Template, lo, hi) && a.HasName(a.Left(p), NameText(name), lo, hi)
      && RepParams(a, TemplateArglist, a.Right(p), args, lo, hi)
    case Value(u, negative, d) =>
      && a.HasNode(p, if negative then LiteralNeg else Literal, lo, hi)
      && Rep(a, a.Left(p), u, lo, hi) && a.HasName(a.Right(p), d, lo, hi)
  }

  function ThisReference(c: char): Kind { if c == 'R' then ReferenceThis else RvalueReferenceThis }

  /** A reference to a candidate that is a function type with a reference qualifier. */
  predicate IsRefSub(a: Arena, t: Tree) { t.Sub? && t.id < |a.subs| && IsRefAt(a, a.subs[t.id]) }

  predicate IsRefAt(a: Arena, p: Ptr) { p.At? && p.i < |a.comps| && IsRefQualified(a.comps[p.i]) }

  predicate RepStd(a: Arena, p: Ptr, c: char, lo: nat, hi: nat) {
    && a.HasSlot(p, lo, hi) && IsStandardSub(c)
    && a.comps[p.i] == SubStd(if a.verbose then StandardSubFor(c).full else StandardSubFor(c).simple)
  }

  predicate RepInStd(a: Arena, p: Ptr, name: string, lo: nat, hi: nat) {
    && a.HasNode(p, QualName, lo, hi) && a.HasName(a.Left(p), "std", lo, hi)
    && a.HasName(a.Right(p), NameText(name), lo, hi)
  }

  /** A constructor or destructor of the name. */
  predicate RepSpecial(a: Arena, p: Ptr, special: Special, name: string, lo: nat, hi: nat) {
    && a.HasSlot(p, lo, hi)
    && match a.comps[p.i] {
         case Ctor(v, q) => special == Constructs(v) && a.HasName(q, NameText(name), lo, hi)
         case Dtor(v, q) => special == Destroys(v) && a.HasName(q, NameText(name), lo, hi)
         case _ => false
       }
  }

  /** Lists of parameters and of template arguments. */
  predicate IsListKind(k: Kind) { k.Arglist? || k.TemplateArglist? }

  /** A list of the parameter types; one without a type when there are none. */
  predicate RepParams(a: Arena, kind: Kind, p: Ptr, ps: seq<Tree>, lo: nat, hi: nat)
    decreases ps, 3
  {
    if ps == [] then IsListKind(kind) && a.HasNode(p, kind, lo, hi) && a.Left(p).Null? && a.Right(p).Null?
    else RepArgs(a, kind, p, ps, lo, hi)
  }

  predicate RepArgs(a: Arena, kind: Kind, p: Ptr, ps: seq<Tree>, lo: nat, hi: nat)
    decreases ps, 2
  {
    && ps != [] && IsListKind(kind) && a.HasNode(p, kind, lo, hi) && Rep(a, a.Left(p), ps[0], lo, hi)
    && if |ps| == 1 then a.Right(p).Null? else RepArgs(a, kind, a.Right(p), ps[1..], lo, hi)
  }

  predicate RepBasic(a: Arena, p: Ptr, c: char, lo: nat, hi: nat) {
    a.HasSlot(p, lo, hi) && 'a' <= c <= 'z' && a.comps[p.i] == Builtin(a.builtins[c as int - 'a' as int])
  }

  /** Each qualifier around the next one, and the last one around the type. */
  predicate RepQualified(a: Arena, p: Ptr, quals: string, of: Tree, lo: nat, hi: nat)
    decreases of, |quals| + 1
  {
    if quals == "" then Rep(a, p, of, lo, hi)
    else
      && a.HasNode(p, CvKind(quals[0], false), lo, hi) && a.Right(p).Null?
      && RepQualified(a, a.Left(p), quals[1..], of, lo, hi)
  }

  /** A name, or a name qualified by those before it. */
  predicate RepNames(a: Arena, p: Ptr, names: seq<string>, lo: nat, hi: nat)
    decreases |names|
  {
    if names == [] then false
    else
      var last := NameText(names[|names| - 1]);
      if |names| == 1 then a.HasName(p, last, lo, hi)
      else
        && a.HasNode(p, QualName, lo, hi)
        && RepNames(a, a.Left(p), names[..|names| - 1], lo, hi) && a.HasName(a.Right(p), last, lo, hi)
  }

  /** The candidates from number `from` on are the roots of these trees. */
  predicate Registered(a: Arena, ts: seq<Tree>, from: nat, lo: nat, hi: nat) {
    |a.subs| == from + |ts| && forall j | 0 <= j < |ts| :: Rep(a, a.subs[from + j], ts[j], lo, hi)
  }

  /** The same component, except that a function qualifier may have got another operand. */
  predicate SameComp(a: Comp, b: Comp) {
    a == b || (a.Node? && b.Node? && a.kind == b.kind && RefQualKind(a.kind))
  }

  /**
   Below slot `lo` nothing has changed but operands of registered reference qualifiers, and whatever is
   registered now from below `lo` was registered before.
   */
  ghost predicate KeptBelow(a: Arena, b: Arena, lo: nat) {
    && a.builtins == b.builtins && a.verbose == b.verbose && |a.comps| == |b.comps| && a.subs <= b.subs
    && (forall i | 0 <= i < lo && i < |a.comps| && a.comps[i] != b.comps[i] ::
          SameComp(a.comps[i], b.comps[i]) && At(i) in a.subs)
    && (forall j | |a.subs| <= j < |b.subs| :: Known(a, b.subs[j], lo))
  }

  /** A component from below slot `lo` is a registered one. */
  ghost predicate Known(a: Arena, p: Ptr, lo: nat) { p.At? && p.i < lo ==> p in a.subs }

  lemma KnownBefore(a: Arena, b: Arena, p: Ptr, lo: nat, mid: nat)
    requires KeptBelow(a, b, lo) && Known(b, p, mid) && lo <= mid
    ensures Known(a, p, lo)
  {
    if p.At? && p.i < lo {
      var j :| 0 <= j < |b.subs| && b.subs[j] == p;
      if j >= |a.subs| { assert Known(a, b.subs[j], lo); }
    }
  }

  lemma KeptTwice(a: Arena, b: Arena, c: Arena, lo: nat, mid: nat)
    requires KeptBelow(a, b, lo) && KeptBelow(b, c, mid) && lo <= mid
    ensures KeptBelow(a, c, lo)
  {
    forall i: nat | i < lo && i < |a.comps| && a.comps[i] != c.comps[i]
      ensures SameComp(a.comps[i], c.comps[i]) && At(i) in a.subs
    {
      if a.comps[i] == b.comps[i] { KnownBefore(a, b, At(i), lo, mid); }
    }
    forall j | |a.subs| <= j < |c.subs| ensures Known(a, c.subs[j], lo) {
      if j < |b.subs| {
        assert c.subs[j] == b.subs[j];
      } else {
        KnownBefore(a, b, c.subs[j], lo, mid);
      }
    }
  }

  /** One step after the other keeps what is below `lo`. */
  lemma KeptThrough(a: Arena, lo: nat)
    ensures KeptBelow(a, a, lo)
    ensures forall b, c, k: nat, mid: nat {:trigger KeptBelow(a, b, k), KeptBelow(b, c, mid)} ::
      KeptBelow(a, b, k) && KeptBelow(b, c, mid) && k <= mid ==> KeptBelow(a, c, k)
    ensures forall b, p, k: nat, mid: nat {:trigger KeptBelow(a, b, k), Known(b, p, mid)} ::
      KeptBelow(a, b, k) && Known(b, p, mid) && k <= mid ==> Known(a, p, k)
  {
    forall b, c, k: nat, mid: nat | KeptBelow(a, b, k) && KeptBelow(b, c, mid) && k <= mid ensures KeptBelow(a, c, k) {
      KeptTwice(a, b, c, k, mid);
    }
    forall b, p, k: nat, mid: nat | KeptBelow(a, b, k) && Known(b, p, mid) && k <= mid ensures Known(a, p, k) {
      KnownBefore(a, b, p, k, mid);
    }
  }

  /** No candidate is a function type with a reference qualifier. */
  predicate NoRefs(a: Arena) { forall j | 0 <= j < |a.subs| :: !IsRefAt(a, a.subs[j]) }

  /** When no candidate is a function type with a reference qualifier, nothing changes below slot `lo`. */
  lemma NothingChanges(a: Arena, b: Arena, lo: nat)
    requires KeptBelow(a, b, lo) && NoRefs(a)
    ensures forall i | 0 <= i < lo && i < |a.comps| :: b.comps[i] == a.comps[i]
  {
    forall i | 0 <= i < lo && i < |a.comps| ensures b.comps[i] == a.comps[i] {
      if a.comps[i] != b.comps[i] {
        var j :| 0 <= j < |a.subs| && a.subs[j] == At(i);
        assert IsRefAt(a, a.subs[j]);
      }
    }
  }

  lemma KnownStays(a: Arena, b: Arena, p: Ptr, lo: nat)
    requires Known(a, p, lo) && KeptBelow(a, b, lo)
    ensures Known(b, p, lo)
  {
    if p.At? && p.i < lo {
      var j :| 0 <= j < |a.subs| && a.subs[j] == p;
      assert b.subs[j] == p;
    }
  }

  /** A component keeps its kind, and everything else unless it is a reference qualifier. */
  lemma NodeStays(a: Arena, b: Arena, i: nat, lo: nat)
    requires KeptBelow(a, b, lo) && i < lo && i < |a.comps|
    ensures i < |b.comps| && SameComp(a.comps[i], b.comps[i])
  {
  }

  /** What a trial has registered is forgotten again. */
  lemma KeptCut(a: Arena, b: Arena, lo: nat)
    requires KeptBelow(a, b, lo)
    ensures b.subs[..|a.subs|] == a.subs && KeptBelow(a, b.(subs := a.subs), lo)
  {
    assert b.subs[..|a.subs|] == a.subs;
  }

  /** Nothing below `lo` was touched, and nothing was registered. */
  lemma KeptWhole(a: Arena, b: Arena, lo: nat)
    requires a.builtins == b.builtins && a.verbose == b.verbose && |a.comps| == |b.comps| && a.subs == b.subs
    requires forall i | 0 <= i < lo && i < |a.comps| :: a.comps[i] == b.comps[i]
    ensures KeptBelow(a, b, lo)
  {
  }

  /** The slots lo..hi and the candidates are still there. */
  ghost predicate Kept(a: Arena, b: Arena, lo: nat, hi: nat) {
    && a.builtins == b.builtins && a.verbose == b.verbose && a.subs <= b.subs && hi <= |a.comps| == |b.comps|
    && (forall i | lo <= i < hi :: SameComp(a.comps[i], b.comps[i]))
    && RefsKept(a, b)
  }

  /** The candidates that were function types with a reference qualifier are so still. */
  ghost predicate RefsKept(a: Arena, b: Arena) { forall j | 0 <= j < |a.subs| :: IsRefAt(a, a.subs[j]) == IsRefAt(b, a.subs[j]) }

  /** What is below slot `hi` is kept, and so are the candidates, which are there. */
  lemma BelowIsKept(a: Arena, b: Arena, lo: nat, hi: nat)
    requires KeptBelow(a, b, hi) && hi <= |a.comps|
    requires forall j | 0 <= j < |a.subs| :: a.subs[j].At? && a.subs[j].i < hi
    ensures Kept(a, b, lo, hi)
  {
    forall j | 0 <= j < |a.subs| ensures IsRefAt(a, a.subs[j]) == IsRefAt(b, a.subs[j]) {
      NodeStays(a, b, a.subs[j].i, hi);
    }
  }

  /** A tree stays where it is while the slots and candidates that were there do. */
  lemma {:induction false} RepKept(a: Arena, b: Arena, p: Ptr, t: Tree, lo: nat, hi: nat, lo2: nat, hi2: nat)
    requires Rep(a, p, t, lo, hi) && Kept(a, b, lo, hi) && lo2 <= lo && hi <= hi2 <= |b.comps|
    ensures Rep(b, p, t, lo2, hi2)
    decreases t, 1
  {
    hide Rep, Kept;
    if t.Compound? {
      CompoundKept(a, b, p, t, lo, hi, lo2, hi2);
    } else if t.Qualified? {
      QualifiedKept(a, b, p, t, lo, hi, lo2, hi2);
    } else if t.Array? {
      ArrayKept(a, b, p, t, lo, hi, lo2, hi2);
    } else if t.Member? {
      MemberKept(a, b, p, t, lo, hi, lo2, hi2);
    } else if t.Function? {
      FunctionKept(a, b, p, t, lo, hi, lo2, hi2);
    } else if t.Instance? || t.Value? {
      RepArgumentKept(a, b, p, t, lo, hi, lo2, hi2);
    } else {
      RepLeafKept(a, b, p, t, lo, hi, lo2, hi2);
    }
  }

  lemma {:induction false} CompoundKept(a: Arena, b: Arena, p: Ptr, t: Tree, lo: nat, hi: nat, lo2: nat, hi2: nat)
    requires t.Compound? && Rep(a, p, t, lo, hi) && Kept(a, b, lo, hi) && lo2 <= lo && hi <= hi2 <= |b.comps|
    ensures Rep(b, p, t, lo2, hi2)
    decreases t, 0
  {
    hide Kept;
    SlotKept(a, b, p, lo, hi);
    RepKept(a, b, a.Left(p), t.of, lo, hi, lo2, hi2);
  }

  lemma {:induction false} QualifiedKept(a: Arena, b: Arena, p: Ptr, t: Tree, lo: nat, hi: nat, lo2: nat, hi2: nat)
    requires t.Qualified? && Rep(a, p, t, lo, hi) && Kept(a, b, lo, hi) && lo2 <= lo && hi <= hi2 <= |b.comps|
    ensures Rep(b, p, t, lo2, hi2)
    decreases t, 0
  {
    hide Kept, RepQualified, IsRefSub;
    RefSubKept(a, b, t.of, lo, hi);
    if !IsRefSub(a, t.of) { RepQualifiedKept(a, b, p, t.quals, t.of, lo, hi, lo2, hi2); }
  }

  lemma {:induction false} ArrayKept(a: Arena, b: Arena, p: Ptr, t: Tree, lo: nat, hi: nat, lo2: nat, hi2: nat)
    requires t.Array? && Rep(a, p, t, lo, hi) && Kept(a, b, lo, hi) && lo2 <= lo && hi <= hi2 <= |b.comps|
    ensures Rep(b, p, t, lo2, hi2)
    decreases t, 0
  {
    hide Kept;
    SlotKept(a, b, p, lo, hi);
    SlotKept(a, b, a.Left(p), lo, hi);
    RepKept(a, b, a.Right(p), t.of, lo, hi, lo2, hi2);
  }

  lemma {:induction false} MemberKept(a: Arena, b: Arena, p: Ptr, t: Tree, lo: nat, hi: nat, lo2: nat, hi2: nat)
    requires t.Member? && Rep(a, p, t, lo, hi) && Kept(a, b, lo, hi) && lo2 <= lo && hi <= hi2 <= |b.comps|
    ensures Rep(b, p, t, lo2, hi2)
    decreases t, 0
  {
    hide Kept;
    SlotKept(a, b, p, lo, hi);
    RepKept(a, b, a.Left(p), t.class_, lo, hi, lo2, hi2);
    RepKept(a, b, a.Right(p), t.of, lo, hi, lo2, hi2);
  }

  lemma {:induction false} FunctionKept(a: Arena, b: Arena, p: Ptr, t: Tree, lo: nat, hi: nat, lo2: nat, hi2: nat)
    requires t.Function? && Rep(a, p, t, lo, hi) && Kept(a, b, lo, hi) && lo2 <= lo && hi <= hi2 <= |b.comps|
    ensures Rep(b, p, t, lo2, hi2)
    decreases t, 0
  {
    hide Kept, RepParams;
    SlotKept(a, b, p, lo, hi);
    RepKept(a, b, a.Left(p), t.ret, lo, hi, lo2, hi2);
    RepParamsKept(a, b, Arglist, a.Right(p), t.params, lo, hi, lo2, hi2);
  }

  lemma {:induction false} RepArgumentKept(a: Arena, b: Arena, p: Ptr, t: Tree, lo: nat, hi: nat, lo2: nat, hi2: nat)
    requires t.Instance? || t.Value?
    requires Rep(a, p, t, lo, hi) && Kept(a, b, lo, hi) && lo2 <= lo && hi <= hi2 <= |b.comps|
    ensures Rep(b, p, t, lo2, hi2)
    decreases t, 0
  {
    hide RepArgs, Kept;
    SlotKept(a, b, p, lo, hi);
    SlotKept(a, b, a.Left(p), lo, hi);
    SlotKept(a, b, a.Right(p), lo, hi);
    if t.Instance? {
      RepParamsKept(a, b, TemplateArglist, a.Right(p), t.args, lo, hi, lo2, hi2);
    } else {
      RepKept(a, b, a.Left(p), t.of, lo, hi, lo2, hi2);
    }
  }

  lemma RepLeafKept(a: Arena, b: Arena, p: Ptr, t: Tree, lo: nat, hi: nat, lo2: nat, hi2: nat)
    requires t.NoTree? || t.Basic? || t.RefFunction? || t.Source? || t.Nested? || t.Sub? || t.Param? || t.Std? || t.InStd?
    requires Rep(a, p, t, lo, hi) && Kept(a, b, lo, hi) && lo2 <= lo && hi <= hi2 <= |b.comps|
    ensures Rep(b, p, t, lo2, hi2)
  {
    hide RepNames, Kept;
    if t.Nested? {
      RepNestedKept(a, b, p, t.names, t.special, lo, hi, lo2, hi2);
    } else {
      SlotKept(a, b, p, lo, hi);
      SlotKept(a, b, a.Left(p), lo, hi);
      SlotKept(a, b, a.Right(p), lo, hi);
    }
  }

  lemma RefSubKept(a: Arena, b: Arena, u: Tree, lo: nat, hi: nat)
    requires Kept(a, b, lo, hi)
    ensures u.Sub? && u.id < |a.subs| ==> u.id < |b.subs| && a.subs[u.id] == b.subs[u.id] && IsRefSub(a, u) == IsRefSub(b, u)
    ensures !u.Sub? ==> !IsRefSub(a, u) && !IsRefSub(b, u)
  {
  }

  /** No builtin type. */
  predicate IsPlain(c: Comp) { !c.Builtin? }

  predicate IsRefQualified(c: Comp) { c.Node? && RefQualKind(c.kind) }

  /** What is in a slot that is kept; the same, unless it is a function qualifier. */
  lemma SlotKept(a: Arena, b: Arena, p: Ptr, lo: nat, hi: nat)
    requires Kept(a, b, lo, hi)
    ensures a.builtins == b.builtins && a.verbose == b.verbose && a.subs <= b.subs
    ensures a.HasSlot(p, lo, hi) ==> b.HasSlot(p, lo, hi) && SameComp(a.comps[p.i], b.comps[p.i])
  {
  }

  lemma NameKept(a: Arena, b: Arena, p: Ptr, text: string, lo: nat, hi: nat)
    requires Kept(a, b, lo, hi) && a.HasName(p, text, lo, hi)
    ensures b.HasName(p, text, lo, hi)
  {
  }

  lemma {:induction false} RepParamsKept(a: Arena, b: Arena, kind: Kind, p: Ptr, ps: seq<Tree>, lo: nat, hi: nat, lo2: nat, hi2: nat)
    requires RepParams(a, kind, p, ps, lo, hi) && Kept(a, b, lo, hi) && lo2 <= lo && hi <= hi2 <= |b.comps|
    ensures RepParams(b, kind, p, ps, lo2, hi2)
    decreases ps, 3
  {
    hide RepArgs, Kept;
    SlotKept(a, b, p, lo, hi);
    if ps != [] { RepArgsKept(a, b, kind, p, ps, lo, hi, lo2, hi2); }
  }

  lemma {:induction false} RepArgsKept(a: Arena, b: Arena, kind: Kind, p: Ptr, ps: seq<Tree>, lo: nat, hi: nat, lo2: nat, hi2: nat)
    requires RepArgs(a, kind, p, ps, lo, hi) && Kept(a, b, lo, hi) && lo2 <= lo && hi <= hi2 <= |b.comps|
    ensures RepArgs(b, kind, p, ps, lo2, hi2)
    decreases ps, 2
  {
    hide Rep;
    RepKept(a, b, a.Left(p), ps[0], lo, hi, lo2, hi2);
    if |ps| > 1 {
      RepArgsKept(a, b, kind, a.Right(p), ps[1..], lo, hi, lo2, hi2);
    }
  }

  lemma {:induction false} RepQualifiedKept(a: Arena, b: Arena, p: Ptr, q: string, u: Tree,
                                            lo: nat, hi: nat, lo2: nat, hi2: nat)
    requires RepQualified(a, p, q, u, lo, hi) && Kept(a, b, lo, hi) && lo2 <= lo && hi <= hi2 <= |b.comps|
    ensures RepQualified(b, p, q, u, lo2, hi2)
    decreases u, |q| + 2
  {
    if q == "" {
      RepKept(a, b, p, u, lo, hi, lo2, hi2);
    } else {
      RepQualifiedKept(a, b, a.Left(p), q[1..], u, lo, hi, lo2, hi2);
    }
  }

  lemma {:induction false} RepNamesKept(a: Arena, b: Arena, p: Ptr, names: seq<string>, lo: nat, hi: nat, lo2: nat, hi2: nat)
    requires RepNames(a, p, names, lo, hi) && Kept(a, b, lo, hi) && lo2 <= lo && hi <= hi2 <= |b.comps|
    ensures RepNames(b, p, names, lo2, hi2)
    decreases |names|
  {
    if |names| > 1 {
      RepNamesKept(a, b, a.Left(p), names[..|names| - 1], lo, hi, lo2, hi2);
    }
  }

  lemma RepNestedKept(a: Arena, b: Arena, p: Ptr, names: seq<string>, special: Special,
                      lo: nat, hi: nat, lo2: nat, hi2: nat)
    requires Rep(a, p, Nested(names, special), lo, hi) && Kept(a, b, lo, hi) && lo2 <= lo && hi <= hi2 <= |b.comps|
    ensures Rep(b, p, Nested(names, special), lo2, hi2)
  {
    hide RepNames, Kept;
    if special.Ordinary? {
      RepNamesKept(a, b, p, names, lo, hi, lo2, hi2);
    } else {
      var q := a.Right(p);
      SlotKept(a, b, p, lo, hi);
      SlotKept(a, b, q, lo, hi);
      SlotKept(a, b, a.comps[q.i].name, lo, hi);
      RepNamesKept(a, b, a.Left(p), names, lo, hi, lo2, hi2);
    }
  }

  lemma RegisteredKept(a: Arena, b: Arena, ts: seq<Tree>, from: nat, lo: nat, hi: nat, lo2: nat, hi2: nat)
    requires Registered(a, ts, from, lo, hi) && Kept(a, b, lo, hi) && lo2 <= lo && hi <= hi2 <= |b.comps|
    requires b.subs == a.subs
    ensures Registered(b, ts, from, lo2, hi2)
  {
    forall j | 0 <= j < |ts| ensures Rep(b, b.subs[from + j], ts[j], lo2, hi2) {
      RepKept(a, b, a.subs[from + j], ts[j], lo, hi, lo2, hi2);
    }
  }

  /** The candidates of one part after those of another. */
  lemma RegisteredBoth(a: Arena, b: Arena, ts: seq<Tree>, us: seq<Tree>, from: nat, lo: nat, hi: nat, lo2: nat, hi2: nat)
    requires Registered(a, ts, from, lo, hi) && Kept(a, b, lo, hi) && lo <= lo2 && hi <= hi2 <= |b.comps|
    requires Registered(b, us, from + |ts|, lo2, hi2)
    ensures Registered(b, ts + us, from, lo, hi2)
  {
    hide Rep;
    forall j | 0 <= j < |ts + us| ensures Rep(b, b.subs[from + j], (ts + us)[j], lo, hi2) {
      if j < |ts| {
        RepKept(a, b, a.subs[from + j], ts[j], lo, hi, lo, hi2);
      } else {
        KeptSelf(b, lo2, hi2);
        RepKept(b, b, b.subs[from + |ts| + (j - |ts|)], us[j - |ts|], lo2, hi2, lo, hi2);
      }
    }
  }

  lemma KeptSelf(a: Arena, lo: nat, hi: nat)
    requires hi <= |a.comps|
    ensures Kept(a, a, lo, hi)
  {
  }

  // ---------------------------------------------------------------------------------------------
  // How trees are built
  // ---------------------------------------------------------------------------------------------

  /** All candidates are plain, and lie below slot `hi`. */
  predicate Plain(a: Arena, hi: nat) {
    hi <= |a.comps| && forall j | 0 <= j < |a.subs| :: a.subs[j].At? && a.subs[j].i < hi && IsPlain(a.comps[a.subs[j].i])
  }

  /** The tree is built in the slots lo..hi, and the candidates from number `from` on are `ts`. */
  predicate Has(a: Arena, p: Ptr, t: Tree, ts: seq<Tree>, from: nat, lo: nat, hi: nat) {
    Plain(a, hi) && Rep(a, p, t, lo, hi) && Registered(a, ts, from, lo, hi)
  }

  /** The root of a tree is plain, too, unless it is a builtin type. */
  lemma RootIsPlain(a: Arena, p: Ptr, t: Tree, lo: nat, hi: nat)
    requires Plain(a, hi) && Rep(a, p, t, lo, hi) && WellFormed(t)
    ensures p.At? && p.i < hi && (IsPlain(a.comps[p.i]) <==> !t.Basic?)
    ensures !t.Qualified? ==> (IsRefQualified(a.comps[p.i]) <==> t.RefFunction? || IsRefSub(a, t))
  {
    hide Rep, Plain, WellFormed;
    if t.Sub? {
      SubIsPlain(a, p, t, lo, hi);
    } else if t.Qualified? {
      QualifiedIsPlain(a, p, t, lo, hi);
    } else if t.Nested? {
      NestedIsPlain(a, p, t, lo, hi);
    } else {
      OtherIsPlain(a, p, t, lo, hi);
    }
  }

  lemma QualifiedIsPlain(a: Arena, p: Ptr, t: Tree, lo: nat, hi: nat)
    requires t.Qualified? && Plain(a, hi) && Rep(a, p, t, lo, hi) && WellFormed(t)
    ensures p.At? && p.i < hi <= |a.comps| && IsPlain(a.comps[p.i])
  {
    hide Plain;
    if IsRefSub(a, t.of) { SubIsPlain(a, p, t.of, lo, hi); }
  }

  lemma NestedIsPlain(a: Arena, p: Ptr, t: Tree, lo: nat, hi: nat)
    requires t.Nested? && Rep(a, p, t, lo, hi)
    ensures p.At? && p.i < hi <= |a.comps| && IsPlain(a.comps[p.i]) && !IsRefQualified(a.comps[p.i])
  {
    hide RepNames, RepSpecial;
    if t.special.Ordinary? { NamesRootIsPlain(a, p, t.names, lo, hi); }
  }

  lemma OtherIsPlain(a: Arena, p: Ptr, t: Tree, lo: nat, hi: nat)
    requires !t.Sub? && !t.Qualified? && !t.Nested? && Rep(a, p, t, lo, hi)
    ensures p.At? && p.i < hi <= |a.comps| && (IsPlain(a.comps[p.i]) <==> !t.Basic?)
    ensures IsRefQualified(a.comps[p.i]) <==> t.RefFunction?
  {
    if t.Compound? || t.Array? || t.Member? || t.Function? || t.Instance? || t.Value? {
      NodeIsPlain(a, p, t, lo, hi);
    } else {
      hide NameText;
    }
  }

  lemma NodeIsPlain(a: Arena, p: Ptr, t: Tree, lo: nat, hi: nat)
    requires t.Compound? || t.Array? || t.Member? || t.Function? || t.Instance? || t.Value?
    requires Rep(a, p, t, lo, hi)
    ensures a.HasSlot(p, lo, hi) && IsPlain(a.comps[p.i]) && !IsRefQualified(a.comps[p.i])
  {
    hide RepParams, NameText;
  }

  lemma SubIsPlain(a: Arena, p: Ptr, t: Tree, lo: nat, hi: nat)
    requires t.Sub? && Plain(a, hi) && Rep(a, p, t, lo, hi)
    ensures p.At? && p.i < hi <= |a.comps| && IsPlain(a.comps[p.i])
    ensures IsRefQualified(a.comps[p.i]) <==> IsRefSub(a, t)
  {
  }

  /** One more component has been taken from the arena. */
  predicate Added(a: Arena, b: Arena, hi: nat, c: Comp) {
    hi < |a.comps| && b == a.(comps := a.comps[hi := c])
  }

  lemma AddedKeeps(a: Arena, b: Arena, lo: nat, hi: nat, c: Comp)
    requires Added(a, b, hi, c) && Plain(a, hi)
    ensures Kept(a, b, lo, hi)
  {
  }

  lemma HasKept(a: Arena, b: Arena, p: Ptr, t: Tree, ts: seq<Tree>, from: nat, lo: nat, hi: nat, c: Comp)
    requires Has(a, p, t, ts, from, lo, hi) && Added(a, b, hi, c)
    ensures Has(b, p, t, ts, from, lo, hi + 1)
  {
    hide Rep, Registered;
    AddedKeeps(a, b, lo, hi, c);
    RepKept(a, b, p, t, lo, hi, lo, hi + 1);
    RegisteredKept(a, b, ts, from, lo, hi, lo, hi + 1);
    AddedIsPlain(a, b, hi, c);
  }

  lemma AddedIsPlain(a: Arena, b: Arena, hi: nat, c: Comp)
    requires Plain(a, hi) && Added(a, b, hi, c)
    ensures Plain(b, hi + 1)
  {
  }

  lemma CompoundBuilt(a: Arena, b: Arena, q: Ptr, t: Tree, from: nat, lo: nat, hi: nat)
    requires t.Compound? && Has(a, q, t.of, Candidates(t.of), from, lo, hi) && lo <= hi
    requires Added(a, b, hi, Node(CompoundKind(t.code), q, Null))
    ensures Has(b, At(hi), t, PartCandidates(t), from, lo, hi + 1)
  {
    HasKept(a, b, q, t.of, Candidates(t.of), from, lo, hi, Node(CompoundKind(t.code), q, Null));
  }

  lemma LeafBuilt(a: Arena, b: Arena, t: Tree, from: nat, hi: nat, c: Comp)
    requires t.Basic? || t.Source? || t.Param?
    requires Added(a, b, hi, c) && |a.subs| == from && Plain(a, hi)
    requires t.Basic? ==> 'a' <= t.code <= 'z' && c == Builtin(a.builtins[t.code as int - 'a' as int])
    requires t.Source? ==> c == Name(NameText(t.name))
    requires t.Param? ==> c == TemplateParam(t.num)
    ensures Has(b, At(hi), t, PartCandidates(t), from, hi, hi + 1)
  {
  }

  lemma RegisterSelf(a: Arena, b: Arena, p: Ptr, t: Tree, from: nat, lo: nat, hi: nat)
    requires Has(a, p, t, PartCandidates(t), from, lo, hi) && IsCandidate(t) && WellFormed(t)
    requires b == a.(subs := a.subs + [p])
    ensures Has(b, p, t, Candidates(t), from, lo, hi)
  {
    hide Rep;
    var ts := PartCandidates(t);
    RegisteringKeeps(a, b, p, lo, hi);
    RootIsPlain(a, p, t, lo, hi);
    RepKept(a, b, p, t, lo, hi, lo, hi);
    RegisterOne(a, b, p, t, ts, from, lo, hi);
  }

  lemma NoSelf(a: Arena, p: Ptr, t: Tree, from: nat, lo: nat, hi: nat)
    requires Has(a, p, t, PartCandidates(t), from, lo, hi) && !IsCandidate(t)
    ensures Has(a, p, t, Candidates(t), from, lo, hi)
  {
    assert PartCandidates(t) + [] == PartCandidates(t);
  }

  lemma SubBuilt(a: Arena, p: Ptr, t: Tree, lo: nat, hi: nat)
    requires t.Sub? && t.id < |a.subs| && p == a.subs[t.id] && Plain(a, hi)
    ensures Has(a, p, t, PartCandidates(t), |a.subs|, lo, hi)
  {
  }

  lemma StdBuilt(a: Arena, p: Ptr, t: Tree, from: nat, lo: nat, hi: nat)
    requires t.Std? && RepStd(a, p, t.code, lo, hi) && Plain(a, hi) && |a.subs| == from
    ensures Has(a, p, t, PartCandidates(t), from, lo, hi)
  {
  }

  lemma InStdBuilt(a: Arena, m: Arena, b: Arena, q: Ptr, t: Tree, from: nat, lo: nat, hi: nat)
    requires t.InStd? && lo < hi && a.HasName(At(lo), "std", lo, lo + 1) && Kept(a, m, lo, lo + 1)
    requires Has(m, q, Source(t.name), [], from, lo + 1, hi) && Added(m, b, hi, Node(QualName, At(lo), q))
    ensures Has(b, At(hi), t, PartCandidates(t), from, lo, hi + 1)
  {
    hide IsAnonymousNamespace;
    AddedIsPlain(m, b, hi, Node(QualName, At(lo), q));
  }

  /** A template, whose name has been registered, and its arguments. */
  lemma InstanceBuilt(a: Arena, m: Arena, b: Arena, r: Ptr, q: Ptr, t: Tree, from: nat, lo: nat, mid: nat, hi: nat)
    requires t.Instance? && Has(a, r, Source(t.name), [Source(t.name)], from, lo, mid) && Kept(a, m, lo, mid)
    requires HasParams(m, TemplateArglist, q, t.args, from + 1, mid, hi) && lo <= mid <= hi
    requires Added(m, b, hi, Node(Template, r, q))
    ensures Has(b, At(hi), t, PartCandidates(t), from, lo, hi + 1)
  {
    hide Registered, Rep, RepParams, AllCandidates, Plain, Kept, NameText;
    var xs, ys := [Source(t.name)], AllCandidates(t.args);
    RegisteredBoth(a, m, xs, ys, from, lo, mid, mid, hi);
    AddedKeeps(m, b, lo, hi, Node(Template, r, q));
    AddedKeeps(m, b, mid, hi, Node(Template, r, q));
    RegisteredKept(m, b, xs + ys, from, lo, hi, lo, hi + 1);
    RepParamsKept(m, b, TemplateArglist, q, t.args, mid, hi, lo, hi + 1);
    AddedIsPlain(m, b, hi, Node(Template, r, q));
    SourceIsName(a, r, t.name, lo, mid);
    NameKept(a, m, r, NameText(t.name), lo, mid);
    NameKept(m, b, r, NameText(t.name), lo, hi);
    RepOfInstance(b, At(hi), t, lo, hi + 1);
  }

  lemma SourceIsName(a: Arena, p: Ptr, name: string, lo: nat, hi: nat)
    requires Rep(a, p, Source(name), lo, hi)
    ensures a.HasName(p, NameText(name), lo, hi)
  {
    hide NameText;
  }

  lemma RepOfInstance(a: Arena, p: Ptr, t: Tree, lo: nat, hi: nat)
    requires t.Instance?
    requires a.HasNode(p, Template, lo, hi) && a.HasName(a.Left(p), NameText(t.name), lo, hi)
    requires RepParams(a, TemplateArglist, a.Right(p), t.args, lo, hi)
    ensures Rep(a, p, t, lo, hi) && PartCandidates(t) == [Source(t.name)] + AllCandidates(t.args)
  {
    hide RepParams, NameText, AllCandidates;
  }

  lemma ValueBuilt(a: Arena, m: Arena, b: Arena, p: Ptr, t: Tree, from: nat, lo: nat, hi: nat)
    requires t.Value? && Has(a, p, t.of, Candidates(t.of), from, lo, hi) && lo <= hi
    requires Added(a, m, hi, Name(t.digits))
    requires Added(m, b, hi + 1, Node(if t.negative then LiteralNeg else Literal, p, At(hi)))
    ensures Has(b, At(hi + 1), t, Candidates(t), from, lo, hi + 2)
  {
    hide Registered;
    HasKept(a, m, p, t.of, Candidates(t.of), from, lo, hi, Name(t.digits));
    HasKept(m, b, p, t.of, Candidates(t.of), from, lo, hi + 1, Node(if t.negative then LiteralNeg else Literal, p, At(hi)));
    assert Candidates(t.of) + [] == Candidates(t.of);
  }

  lemma NoArgumentsBuilt(a: Arena, b: Arena, from: nat, hi: nat)
    requires Plain(a, hi) && |a.subs| == from && Added(a, b, hi, Node(TemplateArglist, Null, Null))
    ensures HasParams(b, TemplateArglist, At(hi), [], from, hi, hi + 1)
  {
    AddedIsPlain(a, b, hi, Node(TemplateArglist, Null, Null));
  }

  lemma ArrayBuilt(a: Arena, b: Arena, d: Ptr, q: Ptr, t: Tree, from: nat, lo: nat, mid: nat, hi: nat)
    requires t.Array? && Has(a, q, t.of, Candidates(t.of), from, mid, hi) && lo <= mid <= hi
    requires if t.dim == "" then d.Null? else a.HasName(d, t.dim, lo, mid)
    requires Added(a, b, hi, Node(ArrayType, d, q))
    ensures Has(b, At(hi), t, PartCandidates(t), from, lo, hi + 1)
  {
    var c, ts := Node(ArrayType, d, q), Candidates(t.of);
    AddedKeeps(a, b, mid, hi, c);
    RepKept(a, b, q, t.of, mid, hi, lo, hi + 1);
    RegisteredKept(a, b, ts, from, mid, hi, lo, hi + 1);
    AddedIsPlain(a, b, hi, c);
  }

  lemma MemberBuilt(a: Arena, m: Arena, b: Arena, p: Ptr, q: Ptr, t: Tree, from: nat, lo: nat, mid: nat, hi: nat)
    requires t.Member? && Has(a, p, t.class_, Candidates(t.class_), from, lo, mid) && Kept(a, m, lo, mid)
    requires Has(m, q, t.of, Candidates(t.of), from + |Candidates(t.class_)|, mid, hi) && lo <= mid <= hi
    requires Added(m, b, hi, Node(PtrmemType, p, q))
    ensures Has(b, At(hi), t, PartCandidates(t), from, lo, hi + 1)
  {
    hide Registered, Plain, Kept, Candidates;
    var ts := Candidates(t.class_) + Candidates(t.of);
    RegisteredBoth(a, m, Candidates(t.class_), Candidates(t.of), from, lo, mid, mid, hi);
    AddedKeeps(m, b, lo, hi, Node(PtrmemType, p, q));
    AddedKeeps(m, b, mid, hi, Node(PtrmemType, p, q));
    RegisteredKept(m, b, ts, from, lo, hi, lo, hi + 1);
    RepKept(a, m, p, t.class_, lo, mid, lo, hi);
    RepKept(m, b, p, t.class_, lo, hi, lo, hi + 1);
    RepKept(m, b, q, t.of, mid, hi, lo, hi + 1);
    AddedIsPlain(m, b, hi, Node(PtrmemType, p, q));
  }

  lemma HasCount(a: Arena, p: Ptr, t: Tree, ts: seq<Tree>, from: nat, lo: nat, hi: nat)
    requires Has(a, p, t, ts, from, lo, hi)
    ensures |a.subs| == from + |ts| && Plain(a, hi)
  {
  }

  // ---------------------------------------------------------------------------------------------
  // Qualified types
  // ---------------------------------------------------------------------------------------------

  /** The slots from `lo` on hold these qualifiers, each around the next one, and the last around `end`. */
  predicate Chain(a: Arena, quals: string, lo: nat, end: Ptr) {
    && lo + |quals| <= |a.comps|
    && forall i | 0 <= i < |quals| ::
         a.comps[lo + i] == Node(CvKind(quals[i], false), if i + 1 < |quals| then At(lo + i + 1) else end, Null)
  }

  lemma {:induction false} ChainRep(a: Arena, quals: string, k: nat, lo: nat, p: Ptr, u: Tree, hi: nat)
    requires k <= |quals| && Chain(a, quals, lo, p) && lo + |quals| <= hi <= |a.comps| && Rep(a, p, u, lo, hi)
    ensures RepQualified(a, if k < |quals| then At(lo + k) else p, quals[k..], u, lo, hi)
    decreases |quals| - k
  {
    hide Rep;
    if k < |quals| {
      ChainRep(a, quals, k + 1, lo, p, u, hi);
      assert quals[k..][0] == quals[k] && quals[k..][1..] == quals[k + 1..];
    }
  }

  lemma RepOfQualified(a: Arena, p: Ptr, t: Tree, lo: nat, hi: nat)
    requires t.Qualified? && !IsRefSub(a, t.of) && (t.of.Sub? ==> t.of.id < |a.subs|)
    ensures Rep(a, p, t, lo, hi) <==> RepQualified(a, p, t.quals, t.of, lo, hi)
  {
  }

  lemma SubInRange(a: Arena, p: Ptr, t: Tree, lo: nat, hi: nat)
    requires Rep(a, p, t, lo, hi)
    ensures t.Sub? ==> t.id < |a.subs| && p == a.subs[t.id]
  {
  }

  /** The last qualifier of the chain gets the type, which lies behind the chain. */
  lemma QualifiedBuilt(a: Arena, b: Arena, p: Ptr, t: Tree, from: nat, lo: nat, hi: nat)
    requires t.Qualified? && t.quals != "" && WellFormed(t.of) && !IsRefSub(a, t.of)
    requires var mid := lo + |t.quals|;
      && Chain(a, t.quals, lo, Null) && Has(a, p, t.of, Candidates(t.of), from, mid, hi) && mid <= hi
      && b == a.(comps := a.comps[mid - 1 := Node(CvKind(t.quals[|t.quals| - 1], false), p, Null)])
    ensures Has(b, At(lo), t, PartCandidates(t), from, lo, hi)
  {
    hide Rep, Registered, Kept, Chain, Candidates, Plain, IsRefSub, RepQualified;
    var mid := lo + |t.quals|;
    ChainIsFilled(a, b, p, t, lo, hi);
    RefSubKept(a, b, t.of, mid, hi);
    SubInRange(a, p, t.of, mid, hi);
    RepOfQualified(b, At(lo), t, lo, hi);
    RepKept(a, b, p, t.of, mid, hi, lo, hi);
    RegisteredKept(a, b, Candidates(t.of), from, mid, hi, lo, hi);
    ChainRep(b, t.quals, 0, lo, p, t.of, hi);
    assert t.quals[0..] == t.quals;
    QualifiedParts(t);
  }

  lemma QualifiedParts(t: Tree)
    requires t.Qualified?
    ensures PartCandidates(t) == Candidates(t.of)
  {
  }

  lemma ChainIsFilled(a: Arena, b: Arena, p: Ptr, t: Tree, lo: nat, hi: nat)
    requires t.Qualified? && t.quals != "" && Chain(a, t.quals, lo, Null) && Plain(a, hi)
    requires var mid := lo + |t.quals|;
      mid <= hi && b == a.(comps := a.comps[mid - 1 := Node(CvKind(t.quals[|t.quals| - 1], false), p, Null)])
    ensures Kept(a, b, lo + |t.quals|, hi) && Chain(b, t.quals, lo, p) && Plain(b, hi)
  {
    var last := lo + |t.quals| - 1;
    assert a.comps[last] == Node(CvKind(t.quals[|t.quals| - 1], false), Null, Null);
  }

  // ---------------------------------------------------------------------------------------------
  // Parameters
  // ---------------------------------------------------------------------------------------------

  /** A list of types ends with the text, before an end mark or a suffix, or before the qualifier of its function. */
  predicate ListEnds(s: string, b: nat) {
    b <= |s| && (b < |s| ==> s[b] == 'E' || s[b] == '.' || IsMarkOf(s, b))
  }

  /** A reference qualifier in front of the end mark. */
  predicate IsMarkOf(s: string, b: nat) { b + 1 < |s| && (s[b] == 'R' || s[b] == 'O') && s[b + 1] == 'E' }

  /** The text at `a` spells these types, one after the other, and then the list ends. */
  predicate SpellsAll(s: string, a: nat, ts: seq<Tree>, k: nat) {
    AllWellFormed(ts) && AllReferBack(ts, k) && TextAt(s, a, TextAll(ts)) && ListEnds(s, a + |TextAll(ts)|)
  }

  lemma SpellsAllStep(s: string, a: nat, ts: seq<Tree>, k: nat)
    requires SpellsAll(s, a, ts, k) && ts != []
    ensures Spells(s, a, ts[0], k)
    ensures SpellsAll(s, a + |Text(ts[0])|, ts[1..], k + |Candidates(ts[0])|)
    ensures |TextAll(ts)| == |Text(ts[0])| + |TextAll(ts[1..])|
  {
    hide *;
    AllParts(s, a, ts, k);
    TextAtBoth(s, a, Text(ts[0]), TextAll(ts[1..]));
    var b := a + |Text(ts[0])|;
    RestStarts(s, b, ts[1..]);
    SpellsIs(s, a, ts[0], k);
    SpellsAllIs(s, b, ts[1..], k + |Candidates(ts[0])|);
  }

  lemma AllParts(s: string, a: nat, ts: seq<Tree>, k: nat)
    requires SpellsAll(s, a, ts, k) && ts != []
    ensures WellFormed(ts[0]) && RefersBack(ts[0], k)
    ensures AllWellFormed(ts[1..]) && AllReferBack(ts[1..], k + |Candidates(ts[0])|)
    ensures TextAll(ts) == Text(ts[0]) + TextAll(ts[1..]) && TextAt(s, a, TextAll(ts))
    ensures ListEnds(s, a + |Text(ts[0])| + |TextAll(ts[1..])|)
  {
    hide Text, WellFormed, RefersBack, Candidates, TextAt, ListEnds;
    FirstSpelled(ts, k);
  }

  lemma FirstSpelled(ts: seq<Tree>, k: nat)
    requires AllWellFormed(ts) && AllReferBack(ts, k) && ts != []
    ensures WellFormed(ts[0]) && RefersBack(ts[0], k)
    ensures AllWellFormed(ts[1..]) && AllReferBack(ts[1..], k + |Candidates(ts[0])|)
    ensures TextAll(ts) == Text(ts[0]) + TextAll(ts[1..])
  {
    hide Text, WellFormed, RefersBack, Candidates;
  }

  lemma SpellsIs(s: string, a: nat, t: Tree, k: nat)
    requires WellFormed(t) && RefersBack(t, k) && TextAt(s, a, Text(t)) && EndsAt(s, a + |Text(t)|)
    ensures Spells(s, a, t, k)
  {
  }

  lemma SpellsAllIs(s: string, a: nat, ts: seq<Tree>, k: nat)
    requires AllWellFormed(ts) && AllReferBack(ts, k) && TextAt(s, a, TextAll(ts)) && ListEnds(s, a + |TextAll(ts)|)
    ensures SpellsAll(s, a, ts, k)
  {
  }

  lemma RestStarts(s: string, b: nat, ts: seq<Tree>)
    requires AllWellFormed(ts) && TextAt(s, b, TextAll(ts)) && ListEnds(s, b + |TextAll(ts)|)
    ensures EndsAt(s, b)
  {
    if ts != [] {
      ParamsStart(s, b, ts);
    }
  }

  /** A type that is spelled is no end of a list of types. */
  lemma SpelledIsNoEnd(s: string, a: nat, t: Tree, k: nat)
    requires Spells(s, a, t, k)
    ensures a < |s| && s[a] != '\0' && s[a] != 'E' && s[a] != '.' && s[a] != 'J' && s[a] != 'Y'
    ensures s[a] == 'R' || s[a] == 'O' ==> a + 1 < |s| && s[a + 1] != 'E'
  {
    SpellsFirst(s, a, t, k);
    FirstChar(t);
    if s[a] == 'R' || s[a] == 'O' {
      SpellsCompound(s, a, t, k);
      SpellsFirst(s, a + 1, t.of, k);
      FirstChar(t.of);
    }
  }

  lemma SpellsFunction(s: string, a: nat, t: Tree, k: nat)
    requires Spells(s, a, t, k) && (t.Function? || t.RefFunction?)
    ensures a < |s| && s[a] == 'F' && Spells(s, a + 1, t.ret, k)
    ensures var ps := Spelled(t.params);
      var b := a + 1 + |Text(t.ret)|;
      && SpellsAll(s, b, ps, k + |Candidates(t.ret)|)
      && SpellsEndOf(s, b + |TextAll(ps)|, t)
      && |Text(t)| == 1 + |Text(t.ret)| + |TextAll(ps)| + |EndText(t)|
  {
    hide *;
    FunctionText(s, a, t, k);
    var x, y := Text(t.ret), TextAll(Spelled(t.params));
    var b := a + 1 + |x|;
    ListEndsHere(s, b + |y|, t);
    RestStarts(s, b, Spelled(t.params));
    SpellsIs(s, a + 1, t.ret, k);
    SpellsAllIs(s, b, Spelled(t.params), k + |Candidates(t.ret)|);
  }

  /** The reference qualifier, if there is one, and the end mark. */
  predicate SpellsEndOf(s: string, b: nat, t: Tree) {
    && b + |EndText(t)| <= |s| && s[b + |EndText(t)| - 1] == 'E'
    && (t.RefFunction? ==> s[b] == t.code && (t.code == 'R' || t.code == 'O'))
  }

  lemma FunctionText(s: string, a: nat, t: Tree, k: nat)
    requires Spells(s, a, t, k) && (t.Function? || t.RefFunction?)
    ensures WellFormed(t.ret) && RefersBack(t.ret, k)
    ensures AllWellFormed(Spelled(t.params)) && AllReferBack(Spelled(t.params), k + |Candidates(t.ret)|)
    ensures var x, y := Text(t.ret), TextAll(Spelled(t.params));
      var b := a + 1 + |x|;
      && a < |s| && s[a] == 'F' && TextAt(s, a + 1, x) && TextAt(s, b, y)
      && SpellsEndOf(s, b + |y|, t) && |Text(t)| == 1 + |x| + |y| + |EndText(t)|
  {
    hide *;
    SpellsParts(s, a, t, k);
    FunctionParts(t, k);
    BracketedText(s, a, Text(t.ret), TextAll(Spelled(t.params)), t);
  }

  lemma SpellsParts(s: string, a: nat, t: Tree, k: nat)
    requires Spells(s, a, t, k)
    ensures WellFormed(t) && RefersBack(t, k) && TextAt(s, a, Text(t))
  {
  }

  lemma BracketedText(s: string, a: nat, x: string, y: string, t: Tree)
    requires TextAt(s, a, ['F'] + (x + (y + EndText(t)))) && (t.RefFunction? ==> t.code == 'R' || t.code == 'O')
    ensures a < |s| && s[a] == 'F' && TextAt(s, a + 1, x) && TextAt(s, a + 1 + |x|, y)
    ensures SpellsEndOf(s, a + 1 + |x| + |y|, t)
  {
    var e := a + 1 + |x| + |y|;
    TextAtChar(s, a, 'F', x + (y + EndText(t)));
    TextAtBoth(s, a + 1, x, y + EndText(t));
    TextAtBoth(s, a + 1 + |x|, y, EndText(t));
    if t.RefFunction? { TextAtChar(s, e, t.code, "E"); }
    assert "E" == ['E'] + "";
    TextAtChar(s, e + |EndText(t)| - 1, 'E', "");
  }

  lemma ListEndsHere(s: string, b: nat, t: Tree)
    requires SpellsEndOf(s, b, t)
    ensures ListEnds(s, b)
  {
  }

  lemma FunctionParts(t: Tree, k: nat)
    requires (t.Function? || t.RefFunction?) && WellFormed(t) && RefersBack(t, k)
    ensures WellFormed(t.ret) && RefersBack(t.ret, k) && (t.RefFunction? ==> t.code == 'R' || t.code == 'O')
    ensures Spelled(t.params) != [] && AllWellFormed(Spelled(t.params))
    ensures AllReferBack(Spelled(t.params), k + |Candidates(t.ret)|)
    ensures Text(t) == ['F'] + (Text(t.ret) + (TextAll(Spelled(t.params)) + EndText(t)))
  {
    assert TextAll([Basic('v')]) == "v";
  }

  lemma ParamsStart(s: string, b: nat, ps: seq<Tree>)
    requires ps != [] && AllWellFormed(ps) && TextAt(s, b, TextAll(ps))
    ensures EndsAt(s, b)
  {
    hide Text, WellFormed;
    TextAtBoth(s, b, Text(ps[0]), TextAll(ps[1..]));
    NextStarts(s, b, ps[0]);
  }

  /** A part in the slots lo..hi, and its candidates from number `from` on. */
  predicate PartHas(a: Arena, p: Ptr, t: Tree, from: nat, lo: nat, hi: nat) {
    && Rep(a, p, t, lo, hi) && from + |Candidates(t)| <= |a.subs|
    && forall i | 0 <= i < |Candidates(t)| :: Rep(a, a.subs[from + i], Candidates(t)[i], lo, hi)
  }

  lemma PartKept(a: Arena, b: Arena, p: Ptr, t: Tree, from: nat, lo: nat, hi: nat)
    requires PartHas(a, p, t, from, lo, hi) && Kept(a, b, lo, hi)
    ensures PartHas(b, p, t, from, lo, hi)
  {
    hide Rep, Candidates;
    RepKept(a, b, p, t, lo, hi, lo, hi);
    forall i | 0 <= i < |Candidates(t)| ensures Rep(b, b.subs[from + i], Candidates(t)[i], lo, hi) {
      RepKept(a, b, a.subs[from + i], Candidates(t)[i], lo, hi, lo, hi);
    }
  }

  /** Parameter `j` of the list that the slots `nodes` make up. */
  predicate ArgAt(a: Arena, kind: Kind, ps: seq<Tree>, nodes: seq<nat>, from: nat, lo: nat, hi: nat, j: nat)
    requires j < |ps| == |nodes|
  {
    var first := if j == 0 then lo else nodes[j - 1] + 1;
    && IsListKind(kind) && first <= nodes[j] < hi <= |a.comps|
    && a.comps[nodes[j]] == Node(kind, a.Left(At(nodes[j])), if j + 1 < |nodes| then At(nodes[j + 1]) else Null)
    && PartHas(a, a.Left(At(nodes[j])), ps[j], from + |AllCandidates(ps[..j])|, first, nodes[j])
  }

  predicate Args(a: Arena, kind: Kind, ps: seq<Tree>, nodes: seq<nat>, from: nat, lo: nat, hi: nat) {
    && |nodes| == |ps| && |a.subs| == from + |AllCandidates(ps)| && Plain(a, hi)
    && forall j | 0 <= j < |ps| :: ArgAt(a, kind, ps, nodes, from, lo, hi, j)
  }

  lemma {:induction false} AllCandidatesAppend(ts: seq<Tree>, t: Tree)
    ensures AllCandidates(ts + [t]) == AllCandidates(ts) + Candidates(t)
  {
    if ts == [] {
      assert ts + [t] == [t] && [t][1..] == [];
    } else {
      assert (ts + [t])[0] == ts[0] && (ts + [t])[1..] == ts[1..] + [t];
      AllCandidatesAppend(ts[1..], t);
      Joined(Candidates(ts[0]), AllCandidates(ts[1..]), Candidates(t));
    }
  }

  lemma Joined<T>(a: seq<T>, b: seq<T>, c: seq<T>)
    ensures a + (b + c) == a + b + c
  {
  }

  /** The list of parameters with one more; `last` points to it, if there is one before it. */
  predicate Linked(m: Arena, kind: Kind, b: Arena, nodes: seq<nat>, q: nat) {
    if nodes == [] then b == m
    else
      var last := nodes[|nodes| - 1];
      IsListKind(kind) && last < |m.comps| && b == m.(comps := m.comps[last := Node(kind, m.Left(At(last)), At(q))])
  }

  lemma ArgsExtend(a: Arena, kind: Kind, m: Arena, b: Arena, ps: seq<Tree>, t: Tree, nodes: seq<nat>, q: nat,
                   from: nat, lo: nat, hi: nat)
    requires IsListKind(kind)
    requires Args(a, kind, ps, nodes, from, lo, hi) && Kept(a, m, lo, hi) && lo <= hi <= q && Linked(m, kind, b, nodes, q)
    requires q < |m.comps| && m.comps[q] == Node(kind, m.Left(At(q)), Null) && Plain(m, q + 1)
    requires Has(m, m.Left(At(q)), t, Candidates(t), from + |AllCandidates(ps)|, hi, q)
    ensures Args(b, kind, ps + [t], nodes + [q], from, lo, q + 1)
  {
    hide Rep, PartHas, Plain, Has, Registered, AllCandidates, RefsKept;
    AllCandidatesAppend(ps, t);
    LinkedCount(m, kind, b, t, nodes, q, from + |AllCandidates(ps)|, hi);
    LinkedRefs(a, kind, m, b, ps, nodes, q, from, lo, hi);
    var qs, ns, hi2 := ps + [t], nodes + [q], q + 1;
    forall j: nat | j < |qs| ensures ArgAt(b, kind, qs, ns, from, lo, hi2, j) {
      if j < |ps| {
        OldArgument(a, kind, m, b, ps, t, nodes, q, from, lo, hi, j);
      } else {
        LastArgument(a, kind, m, b, ps, t, nodes, q, from, lo, hi);
      }
    }
  }

  lemma OldArgument(a: Arena, kind: Kind, m: Arena, b: Arena, ps: seq<Tree>, t: Tree, nodes: seq<nat>, q: nat,
                    from: nat, lo: nat, hi: nat, j: nat)
    requires IsListKind(kind) && Args(a, kind, ps, nodes, from, lo, hi) && j < |ps| && lo <= hi <= q < |m.comps|
    requires Kept(a, m, lo, hi) && Linked(m, kind, b, nodes, q) && RefsKept(m, b)
    ensures ArgAt(b, kind, ps + [t], nodes + [q], from, lo, q + 1, j)
  {
    hide Rep, PartHas, Plain, AllCandidates, RefsKept, Kept;
    assert ArgAt(a, kind, ps, nodes, from, lo, hi, j);
    assert (ps + [t])[..j] == ps[..j];
    NodesAscend(a, kind, ps, nodes, from, lo, hi, j);
    if j > 0 { NodesAbove(a, kind, ps, nodes, from, lo, hi, j - 1); }
    ArgKept(a, kind, m, b, ps, nodes, q, from, lo, hi, j);
  }

  lemma LastArgument(a: Arena, kind: Kind, m: Arena, b: Arena, ps: seq<Tree>, t: Tree, nodes: seq<nat>, q: nat,
                     from: nat, lo: nat, hi: nat)
    requires IsListKind(kind) && Args(a, kind, ps, nodes, from, lo, hi) && lo <= hi <= q < |m.comps|
    requires Linked(m, kind, b, nodes, q) && RefsKept(m, b) && m.comps[q] == Node(kind, m.Left(At(q)), Null)
    requires Has(m, m.Left(At(q)), t, Candidates(t), from + |AllCandidates(ps)|, hi, q)
    ensures ArgAt(b, kind, ps + [t], nodes + [q], from, lo, q + 1, |ps|)
  {
    hide Rep, PartHas, Plain, Has, AllCandidates, RefsKept;
    assert (ps + [t])[..|ps|] == ps;
    if ps != [] { NodesAbove(a, kind, ps, nodes, from, lo, hi, |ps| - 1); }
    NewArg(m, kind, b, t, nodes, q, from + |AllCandidates(ps)|, hi);
    NewPart(b, b.Left(At(q)), t, from + |AllCandidates(ps)|, hi, if nodes == [] then lo else nodes[|nodes| - 1] + 1, q);
  }

  /** An element of a list is no function type, and its kind stays. */
  lemma LinkedRefs(a: Arena, kind: Kind, m: Arena, b: Arena, ps: seq<Tree>, nodes: seq<nat>, q: nat, from: nat, lo: nat, hi: nat)
    requires Args(a, kind, ps, nodes, from, lo, hi) && Kept(a, m, lo, hi) && Linked(m, kind, b, nodes, q)
    ensures RefsKept(m, b)
  {
    hide PartHas;
    if ps != [] {
      assert ArgAt(a, kind, ps, nodes, from, lo, hi, |ps| - 1);
      NodesAbove(a, kind, ps, nodes, from, lo, hi, |ps| - 1);
      assert SameComp(a.comps[nodes[|ps| - 1]], m.comps[nodes[|ps| - 1]]);
    }
  }

  /** The slots of a list of parameters are in order. */
  lemma {:induction false} NodesAscend(a: Arena, kind: Kind, ps: seq<Tree>, nodes: seq<nat>, from: nat, lo: nat, hi: nat, j: nat)
    requires Args(a, kind, ps, nodes, from, lo, hi) && j < |nodes|
    ensures nodes[j] <= nodes[|nodes| - 1] < hi && (j + 1 < |nodes| ==> nodes[j] < nodes[|nodes| - 1])
    decreases |nodes| - j
  {
    hide PartHas;
    assert ArgAt(a, kind, ps, nodes, from, lo, hi, j);
    if j + 1 < |nodes| {
      assert ArgAt(a, kind, ps, nodes, from, lo, hi, j + 1);
      NodesAscend(a, kind, ps, nodes, from, lo, hi, j + 1);
    }
  }

  lemma {:induction false} NodesAbove(a: Arena, kind: Kind, ps: seq<Tree>, nodes: seq<nat>, from: nat, lo: nat, hi: nat, j: nat)
    requires Args(a, kind, ps, nodes, from, lo, hi) && j < |nodes|
    ensures lo <= nodes[j] < hi
  {
    hide PartHas;
    assert ArgAt(a, kind, ps, nodes, from, lo, hi, j);
    if j > 0 {
      NodesAbove(a, kind, ps, nodes, from, lo, hi, j - 1);
    }
  }

  /** A parameter that was there: only the last one changes, and that only in what follows it. */
  lemma ArgKept(a: Arena, kind: Kind, m: Arena, b: Arena, ps: seq<Tree>, nodes: seq<nat>, q: nat, from: nat, lo: nat, hi: nat, j: nat)
    requires j < |ps| == |nodes| && ArgAt(a, kind, ps, nodes, from, lo, hi, j)
    requires Kept(a, m, lo, hi) && Linked(m, kind, b, nodes, q) && hi <= q < |m.comps|
    requires nodes[j] <= nodes[|nodes| - 1] < hi && (j + 1 < |nodes| ==> nodes[j] < nodes[|nodes| - 1])
    requires (j > 0 ==> lo <= nodes[j - 1]) && RefsKept(m, b)
    ensures var first := if j == 0 then lo else nodes[j - 1] + 1;
      && b.comps[nodes[j]] == Node(kind, a.Left(At(nodes[j])), At(if j + 1 < |nodes| then nodes[j + 1] else q))
      && PartHas(b, a.Left(At(nodes[j])), ps[j], from + |AllCandidates(ps[..j])|, first, nodes[j])
  {
    hide Rep, PartHas, AllCandidates;
    var first := if j == 0 then lo else nodes[j - 1] + 1;
    assert Kept(a, b, first, nodes[j]);
    PartKept(a, b, a.Left(At(nodes[j])), ps[j], from + |AllCandidates(ps[..j])|, first, nodes[j]);
  }

  lemma NewArg(m: Arena, kind: Kind, b: Arena, t: Tree, nodes: seq<nat>, q: nat, from: nat, hi: nat)
    requires Linked(m, kind, b, nodes, q) && hi <= q < |m.comps| && (nodes != [] ==> nodes[|nodes| - 1] < hi)
    requires m.comps[q] == Node(kind, m.Left(At(q)), Null) && RefsKept(m, b)
    requires Has(m, m.Left(At(q)), t, Candidates(t), from, hi, q)
    ensures b.comps[q] == Node(kind, b.Left(At(q)), Null) && PartHas(b, b.Left(At(q)), t, from, hi, q)
  {
    hide Rep, Candidates;
    assert Kept(m, b, hi, q);
    PartKept(m, b, m.Left(At(q)), t, from, hi, q);
  }

  lemma NewPart(b: Arena, p: Ptr, t: Tree, from: nat, hi: nat, lo: nat, q: nat)
    requires PartHas(b, p, t, from, hi, q) && lo <= hi && q <= |b.comps|
    ensures PartHas(b, p, t, from, lo, q)
  {
    hide Rep, Candidates;
    KeptSelf(b, hi, q);
    RepKept(b, b, p, t, hi, q, lo, q);
    forall i | 0 <= i < |Candidates(t)| ensures Rep(b, b.subs[from + i], Candidates(t)[i], lo, q) {
      RepKept(b, b, b.subs[from + i], Candidates(t)[i], hi, q, lo, q);
    }
  }

  lemma LinkedCount(m: Arena, kind: Kind, b: Arena, t: Tree, nodes: seq<nat>, q: nat, from: nat, hi: nat)
    requires Linked(m, kind, b, nodes, q) && Plain(m, q + 1) && q < |m.comps|
    requires Has(m, m.Left(At(q)), t, Candidates(t), from, hi, q)
    ensures |b.subs| == from + |Candidates(t)| && Plain(b, q + 1)
  {
  }

  /** A whole list of parameters is what a function type needs, and leaves the candidates of all of them. */
  lemma {:induction false} ArgsRep(a: Arena, kind: Kind, ps: seq<Tree>, nodes: seq<nat>, from: nat, lo: nat, hi: nat, k: nat)
    requires Args(a, kind, ps, nodes, from, lo, hi) && k < |ps|
    ensures RepArgs(a, kind, At(nodes[k]), ps[k..], lo, hi)
    decreases |ps| - k
  {
    hide Rep, Candidates;
    assert ArgAt(a, kind, ps, nodes, from, lo, hi, k);
    NodesAbove(a, kind, ps, nodes, from, lo, hi, k);
    if k > 0 { NodesAbove(a, kind, ps, nodes, from, lo, hi, k - 1); }
    var first := if k == 0 then lo else nodes[k - 1] + 1;
    KeptSelf(a, first, nodes[k]);
    RepKept(a, a, a.Left(At(nodes[k])), ps[k], first, nodes[k], lo, hi);
    assert ps[k..][0] == ps[k] && ps[k..][1..] == ps[k + 1..];
    if k + 1 < |ps| {
      ArgsRep(a, kind, ps, nodes, from, lo, hi, k + 1);
    }
  }

  lemma {:induction false} ArgsRegistered(a: Arena, kind: Kind, ps: seq<Tree>, nodes: seq<nat>, from: nat, lo: nat, hi: nat, k: nat, i: nat)
    requires Args(a, kind, ps, nodes, from, lo, hi) && k <= |ps| && i < |AllCandidates(ps[..k])|
    ensures from + i < |a.subs| && Rep(a, a.subs[from + i], AllCandidates(ps[..k])[i], lo, hi)
    decreases k
  {
    hide Rep, Candidates, AllCandidates, Args;
    NoCandidates();
    assert ps[..0] == [];
    if k > 0 {
      var n := |AllCandidates(ps[..k - 1])|;
      assert ps[..k] == ps[..k - 1] + [ps[k - 1]];
      AllCandidatesAppend(ps[..k - 1], ps[k - 1]);
      if i < n {
        ArgsRegistered(a, kind, ps, nodes, from, lo, hi, k - 1, i);
      } else {
        ArgRegistered(a, kind, ps, nodes, from, lo, hi, k - 1, i - n);
      }
    }
  }

  lemma ArgRegistered(a: Arena, kind: Kind, ps: seq<Tree>, nodes: seq<nat>, from: nat, lo: nat, hi: nat, k: nat, i: nat)
    requires Args(a, kind, ps, nodes, from, lo, hi) && k < |ps| && i < |Candidates(ps[k])|
    ensures var n := from + |AllCandidates(ps[..k])|;
      n + i < |a.subs| && Rep(a, a.subs[n + i], Candidates(ps[k])[i], lo, hi)
  {
    hide Rep, Candidates, AllCandidates, Plain, IsListKind;
    assert ArgAt(a, kind, ps, nodes, from, lo, hi, k);
    NodesAbove(a, kind, ps, nodes, from, lo, hi, k);
    if k > 0 { NodesAbove(a, kind, ps, nodes, from, lo, hi, k - 1); }
    var first := if k == 0 then lo else nodes[k - 1] + 1;
    KeptSelf(a, first, nodes[k]);
    RepKept(a, a, a.subs[from + |AllCandidates(ps[..k])| + i], Candidates(ps[k])[i], first, nodes[k], lo, hi);
  }

  lemma NoCandidates()
    ensures AllCandidates([]) == []
  {
  }

  /** The parameters, and the candidates that they leave. */
  predicate HasParams(a: Arena, kind: Kind, p: Ptr, ps: seq<Tree>, from: nat, lo: nat, hi: nat) {
    Plain(a, hi) && RepParams(a, kind, p, ps, lo, hi) && Registered(a, AllCandidates(ps), from, lo, hi)
  }

  lemma ArgsDone(a: Arena, kind: Kind, ps: seq<Tree>, nodes: seq<nat>, from: nat, lo: nat, hi: nat)
    requires Args(a, kind, ps, nodes, from, lo, hi) && ps != []
    ensures HasParams(a, kind, At(nodes[0]), ps, from, lo, hi)
  {
    hide Rep, AllCandidates, RepArgs;
    ArgsRep(a, kind, ps, nodes, from, lo, hi, 0);
    assert ps[0..] == ps && ps[..|ps|] == ps;
    forall i: nat | i < |AllCandidates(ps)| ensures Rep(a, a.subs[from + i], AllCandidates(ps)[i], lo, hi) {
      ArgsRegistered(a, kind, ps, nodes, from, lo, hi, |ps|, i);
    }
  }

  /** A single parameter of type void has been taken away. */
  lemma NoArgsDone(a: Arena, b: Arena, nodes: seq<nat>, from: nat, lo: nat, hi: nat)
    requires Args(a, Arglist, [Basic('v')], nodes, from, lo, hi) && |nodes| == 1 && nodes[0] < |a.comps|
    requires b == a.(comps := a.comps[nodes[0] := Node(Arglist, Null, Null)])
    ensures HasParams(b, Arglist, At(nodes[0]), [], from, lo, hi)
  {
    hide Rep;
    var ps := [Basic('v')];
    assert ArgAt(a, Arglist, ps, nodes, from, lo, hi, 0);
    assert ps == [] + ps;
    AllCandidatesAppend([], Basic('v'));
    assert Candidates(Basic('v')) == [];
  }

  lemma FunctionBuilt(a: Arena, m: Arena, b: Arena, r: Ptr, q: Ptr, t: Tree, from: nat, lo: nat, mid: nat, hi: nat)
    requires t.Function? && Has(a, r, t.ret, Candidates(t.ret), from, lo, mid) && Kept(a, m, lo, mid)
    requires HasParams(m, Arglist, q, t.params, from + |Candidates(t.ret)|, mid, hi) && lo <= mid <= hi
    requires Added(m, b, hi, Node(FunctionType, r, q))
    ensures Has(b, At(hi), t, PartCandidates(t), from, lo, hi + 1)
  {
    hide Registered, Rep, RepParams;
    var xs, ys := Candidates(t.ret), AllCandidates(t.params);
    RegisteredBoth(a, m, xs, ys, from, lo, mid, mid, hi);
    AddedKeeps(m, b, lo, hi, Node(FunctionType, r, q));
    AddedKeeps(m, b, mid, hi, Node(FunctionType, r, q));
    RegisteredKept(m, b, xs + ys, from, lo, hi, lo, hi + 1);
    RepKept(a, m, r, t.ret, lo, mid, lo, hi);
    RepKept(m, b, r, t.ret, lo, hi, lo, hi + 1);
    RepParamsKept(m, b, Arglist, q, t.params, mid, hi, lo, hi + 1);
    AddedIsPlain(m, b, hi, Node(FunctionType, r, q));
    RepOfFunction(b, At(hi), t, lo, hi + 1);
  }

  /** The reference qualifier around a function type. */
  lemma RefFunctionBuilt(a: Arena, b: Arena, q: Ptr, t: Tree, from: nat, lo: nat, hi: nat)
    requires t.RefFunction? && lo <= hi
    requires Has(a, q, Function(t.ret, t.params), PartCandidates(t), from, lo, hi)
    requires Added(a, b, hi, Node(ThisReference(t.code), q, Null))
    ensures Has(b, At(hi), t, PartCandidates(t), from, lo, hi + 1)
    ensures Rep(b, q, Function(t.ret, t.params), lo, hi + 1)
  {
    hide Registered, PartCandidates;
    HasKept(a, b, q, Function(t.ret, t.params), PartCandidates(t), from, lo, hi, Node(ThisReference(t.code), q, Null));
  }

  lemma RepOfFunction(a: Arena, p: Ptr, t: Tree, lo: nat, hi: nat)
    requires t.Function?
    ensures Rep(a, p, t, lo, hi) == (
      a.HasNode(p, FunctionType, lo, hi) && Rep(a, a.Left(p), t.ret, lo, hi)
      && RepParams(a, Arglist, a.Right(p), t.params, lo, hi))
  {
  }

  // ---------------------------------------------------------------------------------------------
  // Nested names
  // ---------------------------------------------------------------------------------------------

  lemma SpellsNested(s: string, a: nat, t: Tree, k: nat)
    requires Spells(s, a, t, k) && t.Nested?
    ensures t.names != [] && AreIdentifiers(t.names) && IsSpecial(t.special) && a < |s| && s[a] == 'N'
    ensures TextAt(s, a + 1, NamesText(t.names) + (SpecialText(t.special) + "E"))
    ensures |Text(t)| == 2 + |NamesText(t.names)| + |SpecialText(t.special)|
  {
    TextAtChar(s, a, 'N', NamesText(t.names) + (SpecialText(t.special) + "E"));
  }

  /** The names from number `k` on, and then the end of the nested name. */
  predicate SpellsNames(s: string, a: nat, names: seq<string>, special: Special, k: nat) {
    && k <= |names| && AreIdentifiers(names) && IsSpecial(special)
    && TextAt(s, a, NamesText(names[k..]) + (SpecialText(special) + "E"))
  }

  /** The constructor or destructor, if any, and the end mark. */
  predicate SpellsEnd(s: string, a: nat, special: Special) {
    && IsSpecial(special) && TextAt(s, a, SpecialText(special)) && a + |SpecialText(special)| < |s|
    && s[a + |SpecialText(special)|] == 'E'
    && s[a] == (if special.Ordinary? then 'E' else if special.Constructs? then 'C' else 'D')
    && (!special.Ordinary? ==> s[a + 1] == special.variant)
  }

  lemma SpecialEnds(s: string, a: nat, special: Special)
    requires IsSpecial(special) && TextAt(s, a, SpecialText(special) + "E")
    ensures SpellsEnd(s, a, special)
  {
    TextAtBoth(s, a, SpecialText(special), "E");
    assert "E" == ['E'] + "";
    TextAtChar(s, a + |SpecialText(special)|, 'E', "");
    if !special.Ordinary? {
      var text := SpecialText(special);
      assert s[a..a + 2][0] == text[0] && s[a..a + 2][1] == text[1];
    }
  }

  /** One more name, behind which another one or the end follows. */
  lemma SpellsNamesStep(s: CStr, a: nat, names: seq<string>, special: Special, k: nat, subs: nat)
    requires SpellsNames(s, a, names, special, k) && k < |names|
    ensures Spells(s, a, Source(names[k]), subs) && a < |s| && IsDigit(s[a])
    ensures var b := a + |SourceText(names[k])|;
      && SpellsNames(s, b, names, special, k + 1) && |NamesText(names[k..])| == |SourceText(names[k])| + |NamesText(names[k + 1..])|
      && b < |s| && (if k + 1 < |names| then IsDigit(s[b]) else SpellsEnd(s, b, special))
  {
    hide SourceText, NamesText, SpecialText, SpellsEnd;
    var b, end := a + |SourceText(names[k])|, SpecialText(special) + "E";
    NamesParts(names, k);
    Joined(SourceText(names[k]), NamesText(names[k + 1..]), end);
    TextAtBoth(s, a, SourceText(names[k]), NamesText(names[k + 1..]) + end);
    hide TextAt;
    SourceRead(s, a, names[k]);
    if k + 1 < |names| {
      NameStarts(s, b, names, k + 1, end);
    } else {
      NoNames(names, end);
      SpecialEnds(s, b, special);
      EndIsEnd(s, b, special);
    }
    SourceSpelled(s, a, names[k], subs);
  }

  lemma NameStarts(s: CStr, b: nat, names: seq<string>, k: nat, end: string)
    requires k < |names| && IsIdentifier(names[k]) && TextAt(s, b, NamesText(names[k..]) + end)
    ensures b < |s| && IsDigit(s[b])
  {
    hide SourceText, NamesText;
    NamesParts(names, k);
    Joined(SourceText(names[k]), NamesText(names[k + 1..]), end);
    TextAtBoth(s, b, SourceText(names[k]), NamesText(names[k + 1..]) + end);
    SourceRead(s, b, names[k]);
  }

  lemma EndIsEnd(s: string, b: nat, special: Special)
    requires SpellsEnd(s, b, special)
    ensures EndsAt(s, b) && b < |s|
  {
  }

  lemma NamesParts(names: seq<string>, k: nat)
    requires k < |names|
    ensures NamesText(names[k..]) == SourceText(names[k]) + NamesText(names[k + 1..])
  {
    assert names[k..][1..] == names[k + 1..];
  }

  lemma NoNames(names: seq<string>, end: string)
    ensures NamesText(names[|names|..]) + end == end
  {
  }

  lemma SourceSpelled(s: string, a: nat, name: string, subs: nat)
    requires IsIdentifier(name) && TextAt(s, a, SourceText(name)) && EndsAt(s, a + |SourceText(name)|)
    ensures Spells(s, a, Source(name), subs)
  {
  }

  /** The first `k` names have been read, and those before the last one registered. */
  predicate OpenNames(a: Arena, p: Ptr, names: seq<string>, k: nat, from: nat, lo: nat, hi: nat) {
    && 0 < k <= |names| && Plain(a, hi)
    && RepNames(a, p, names[..k], lo, hi) && Registered(a, Prefixes(names[..k]), from, lo, hi)
  }

  /** The first `k` names of a nested name have been read, and registered unless they are all of it. */
  predicate HasNames(a: Arena, p: Ptr, names: seq<string>, special: Special, k: nat, from: nat, lo: nat, hi: nat) {
    && k <= |names| && names != [] && Plain(a, hi) && (k == 0 ==> p.Null?)
    && (k > 0 ==> p.At? && RepNames(a, p, names[..k], lo, hi))
    && Registered(a, if k < |names| then Prefixes(names[..k + 1]) else PartCandidates(Nested(names, special)), from, lo, hi)
  }

  /** The first name stands for itself, and every other one is joined to those before it. */
  lemma NameJoined(a: Arena, m: Arena, b: Arena, ret: Ptr, dc: Ptr, p: Ptr, names: seq<string>, special: Special, k: nat,
                   from: nat, lo: nat, hi: nat, mid: nat)
    requires k < |names| && HasNames(a, ret, names, special, k, from, lo, hi) && Kept(a, m, lo, hi) && lo <= hi <= mid
    requires Has(m, dc, Source(names[k]), [], |a.subs|, hi, mid)
    requires if k == 0 then b == m && p == dc else Added(m, b, mid, Node(QualName, ret, dc)) && p == At(mid)
    ensures OpenNames(b, p, names, k + 1, from, lo, if k == 0 then mid else mid + 1)
  {
    hide HasNames, Registered, Prefixes, RepNames, IsAnonymousNamespace;
    var next := if k == 0 then mid else mid + 1;
    NamesSoFar(a, ret, names, special, k, from, lo, hi);
    RegisteredNothing(m, |a.subs|, hi, mid);
    NewName(m, dc, names[k], |a.subs|, hi, mid);
    SameSubs(a, m, Prefixes(names[..k + 1]), from, lo, hi);
    RegisteredKept(a, m, Prefixes(names[..k + 1]), from, lo, hi, lo, mid);
    if k > 0 {
      AddedKeeps(m, b, lo, mid, Node(QualName, ret, dc));
      AddedIsPlain(m, b, mid, Node(QualName, ret, dc));
      RegisteredKept(m, b, Prefixes(names[..k + 1]), from, lo, mid, lo, next);
      RepNamesKept(a, m, ret, names[..k], lo, hi, lo, mid);
      RepNamesKept(m, b, ret, names[..k], lo, mid, lo, next);
      QualifiedName(b, ret, dc, names, k, lo, mid);
    } else {
      FirstName(m, dc, names, hi, mid, lo);
    }
  }

  lemma NamesSoFar(a: Arena, p: Ptr, names: seq<string>, special: Special, k: nat, from: nat, lo: nat, hi: nat)
    requires k < |names| && HasNames(a, p, names, special, k, from, lo, hi)
    ensures Plain(a, hi) && Registered(a, Prefixes(names[..k + 1]), from, lo, hi)
    ensures k > 0 ==> RepNames(a, p, names[..k], lo, hi)
  {
    hide RepNames, Registered, Prefixes;
  }

  lemma NewName(m: Arena, p: Ptr, name: string, from: nat, lo: nat, hi: nat)
    requires Has(m, p, Source(name), [], from, lo, hi)
    ensures Plain(m, hi) && m.HasName(p, NameText(name), lo, hi) && |m.subs| == from
  {
    hide IsAnonymousNamespace;
  }

  lemma QualifiedName(b: Arena, ret: Ptr, dc: Ptr, names: seq<string>, k: nat, lo: nat, mid: nat)
    requires 0 < k < |names| && RepNames(b, ret, names[..k], lo, mid + 1) && mid < |b.comps| && lo <= mid
    requires b.comps[mid] == Node(QualName, ret, dc) && b.HasName(dc, NameText(names[k]), lo, mid + 1)
    ensures RepNames(b, At(mid), names[..k + 1], lo, mid + 1)
  {
    hide IsAnonymousNamespace;
    assert names[..k + 1][..k] == names[..k] && names[..k + 1][k] == names[k];
  }

  lemma FirstName(m: Arena, dc: Ptr, names: seq<string>, hi: nat, mid: nat, lo: nat)
    requires names != [] && lo <= hi && m.HasName(dc, NameText(names[0]), hi, mid)
    ensures RepNames(m, dc, names[..1], lo, mid)
  {
    hide IsAnonymousNamespace;
  }

  lemma OneNameMore(a: Arena, m: Arena, ret: Ptr, dc: Ptr, names: seq<string>, special: Special, k: nat,
                    from: nat, lo: nat, hi: nat, mid: nat)
    requires k < |names| && HasNames(a, ret, names, special, k, from, lo, hi)
    requires Has(m, dc, Source(names[k]), [], |a.subs|, hi, mid)
    ensures (ret.Null? <==> k == 0) && dc.At?
  {
    hide RepNames, Registered, Plain;
  }

  lemma AllNamesRead(a: Arena, p: Ptr, names: seq<string>, special: Special, from: nat, lo: nat, hi: nat)
    requires OpenNames(a, p, names, |names|, from, lo, hi) && special.Ordinary?
    ensures HasNames(a, p, names, special, |names|, from, lo, hi)
  {
    hide IsAnonymousNamespace;
    assert names[..|names|] == names && Prefixes(names) + [] == Prefixes(names);
    NamesRootIsPlain(a, p, names, lo, hi);
  }

  lemma SourceParts(name: string)
    ensures PartCandidates(Source(name)) == [] && Text(Source(name)) == SourceText(name)
  {
  }

  lemma SourceExists(a: Arena, p: Ptr, name: string, ts: seq<Tree>, from: nat, lo: nat, hi: nat)
    requires Has(a, p, Source(name), ts, from, lo, hi)
    ensures p.At?
  {
  }

  lemma OnlySource(name: string)
    ensures Candidates(Source(name)) == [Source(name)]
  {
  }

  lemma RegisteredNothing(a: Arena, from: nat, lo: nat, hi: nat)
    ensures Registered(a, [], from, lo, hi) <==> |a.subs| == from
  {
  }

  lemma SameSubs(a: Arena, m: Arena, ts: seq<Tree>, from: nat, lo: nat, hi: nat)
    requires Registered(a, ts, from, lo, hi) && a.subs <= m.subs
    ensures |a.subs| == from + |ts| && (|m.subs| == |a.subs| ==> m.subs == a.subs)
  {
  }

  lemma NameRegistered(a: Arena, b: Arena, p: Ptr, names: seq<string>, special: Special, k: nat, from: nat, lo: nat, hi: nat)
    requires OpenNames(a, p, names, k, from, lo, hi) && (k < |names| || !special.Ordinary?) && b == a.(subs := a.subs + [p])
    ensures HasNames(b, p, names, special, k, from, lo, hi)
  {
    hide RepNames, Registered, Prefixes, PartCandidates, Kept;
    var ts := Prefixes(names[..k]);
    OneMorePrefix(names, special, k);
    RegisteringKeeps(a, b, p, lo, hi);
    NamesRootIsPlain(a, p, names[..k], lo, hi);
    RepNamesKept(a, b, p, names[..k], lo, hi, lo, hi);
    RegisterOne(a, b, p, Nested(names[..k], Ordinary), ts, from, lo, hi);
  }

  lemma OneMorePrefix(names: seq<string>, special: Special, k: nat)
    requires 0 < k <= |names| && (k < |names| || !special.Ordinary?)
    ensures (if k < |names| then Prefixes(names[..k + 1]) else PartCandidates(Nested(names, special)))
      == Prefixes(names[..k]) + [Nested(names[..k], Ordinary)]
    ensures k == |names| ==> names[..k] == names
  {
    if k < |names| {
      assert names[..k + 1][..k] == names[..k];
    } else {
      assert names[..k] == names;
    }
  }

  /** Nothing is touched when a candidate is registered. */
  lemma RegisteringKeeps(a: Arena, b: Arena, p: Ptr, lo: nat, hi: nat)
    requires b == a.(subs := a.subs + [p]) && hi <= |a.comps|
    ensures Kept(a, b, lo, hi)
  {
  }

  lemma NamesRootIsPlain(a: Arena, p: Ptr, names: seq<string>, lo: nat, hi: nat)
    requires RepNames(a, p, names, lo, hi)
    ensures p.At? && p.i < hi <= |a.comps| && IsPlain(a.comps[p.i]) && !IsRefQualified(a.comps[p.i])
  {
  }

  lemma RegisterOne(a: Arena, b: Arena, p: Ptr, t: Tree, ts: seq<Tree>, from: nat, lo: nat, hi: nat)
    requires Registered(a, ts, from, lo, hi) && Kept(a, b, lo, hi) && b.subs == a.subs + [p] && Rep(b, p, t, lo, hi)
    ensures Registered(b, ts + [t], from, lo, hi)
  {
    hide Rep;
    forall j | 0 <= j < |ts + [t]| ensures Rep(b, b.subs[from + j], (ts + [t])[j], lo, hi) {
      if j < |ts| {
        RepKept(a, b, a.subs[from + j], ts[j], lo, hi, lo, hi);
      }
    }
  }

  lemma NamesDone(a: Arena, p: Ptr, t: Tree, from: nat, lo: nat, hi: nat)
    requires t.Nested? && t.special.Ordinary? && HasNames(a, p, t.names, t.special, |t.names|, from, lo, hi)
    ensures Has(a, p, t, PartCandidates(t), from, lo, hi)
  {
    hide RepNames, Registered, PartCandidates;
    assert t.names[..|t.names|] == t.names;
  }

  lemma NamesExist(a: Arena, p: Ptr, names: seq<string>, special: Special, from: nat, lo: nat, hi: nat)
    requires HasNames(a, p, names, special, |names|, from, lo, hi)
    ensures p.At?
  {
    hide RepNames, Registered, PartCandidates;
  }

  lemma LastNameStays(m: Arena, b: Arena, p: Ptr, name: string, from: nat, lo: nat, hi: nat, mid: nat, next: nat)
    requires Has(m, p, Source(name), [], from, hi, mid) && lo <= hi && mid <= next <= |b.comps|
    requires b == m || exists c :: Added(m, b, mid, c)
    ensures b.HasName(p, NameText(name), lo, next)
  {
    hide IsAnonymousNamespace;
  }

  function SpecialComp(special: Special, name: Ptr): Comp {
    match special
    case Destroys(v) => Dtor(v, name)
    case Constructs(v) => Ctor(v, name)
    case Ordinary => Unset
  }

  /** A constructor or destructor behind the names; all of them are registered by then. */
  lemma SpecialBuilt(a: Arena, m: Arena, b: Arena, ret: Ptr, last: Ptr, t: Tree, from: nat, lo: nat, hi: nat)
    requires t.Nested? && !t.special.Ordinary? && HasNames(a, ret, t.names, t.special, |t.names|, from, lo, hi) && lo <= hi
    requires a.HasName(last, NameText(t.names[|t.names| - 1]), lo, hi)
    requires Added(a, m, hi, SpecialComp(t.special, last)) && Added(m, b, hi + 1, Node(QualName, ret, At(hi)))
    ensures Has(b, At(hi + 1), t, PartCandidates(t), from, lo, hi + 2)
  {
    hide RepNames, Registered, PartCandidates, IsAnonymousNamespace;
    var c, d := SpecialComp(t.special, last), Node(QualName, ret, At(hi));
    assert t.names[..|t.names|] == t.names;
    AddedKeeps(a, m, lo, hi, c);
    AddedKeeps(m, b, lo, hi + 1, d);
    RepNamesKept(a, m, ret, t.names, lo, hi, lo, hi + 1);
    RepNamesKept(m, b, ret, t.names, lo, hi + 1, lo, hi + 2);
    RegisteredKept(a, m, PartCandidates(t), from, lo, hi, lo, hi + 1);
    RegisteredKept(m, b, PartCandidates(t), from, lo, hi + 1, lo, hi + 2);
    AddedIsPlain(a, m, hi, c);
    AddedIsPlain(m, b, hi + 1, d);
  }

  /** The last qualifier got the type as its operand. */
  lemma LastQualifier(a: Arena, b: Arena, p: Ptr, t: Tree, from: nat, lo: nat, hi: nat, c: Comp)
    requires t.Qualified? && WellFormed(t) && !IsRefSub(a, t.of) && lo + |t.quals| <= hi
    requires Chain(a, t.quals, lo, Null) && Has(a, p, t.of, Candidates(t.of), from, lo + |t.quals|, hi)
    requires var last := lo + |t.quals| - 1;
      && Added(a, b, last, c) && a.comps[last].Node? && c == Node(a.comps[last].kind, p, a.comps[last].right)
    ensures Has(b, At(lo), t, PartCandidates(t), from, lo, hi)
    ensures p.At? && p.i < hi <= |b.comps| && !IsRefQualified(b.comps[p.i])
  {
    hide Rep, Registered;
    var last := lo + |t.quals| - 1;
    assert a.comps[last] == Node(CvKind(t.quals[|t.quals| - 1], false), Null, Null);
    QualifiedBuilt(a, b, p, t, from, lo, hi);
    RootIsPlain(a, p, t.of, lo + |t.quals|, hi);
  }

  /** Nothing was registered, and what has changed are nodes. */
  predicate NodesOnly(a: Arena, b: Arena) {
    && a.subs == b.subs && |a.comps| == |b.comps|
    && forall i | 0 <= i < |a.comps| && a.comps[i] != b.comps[i] :: b.comps[i].Node?
  }

  lemma NoChange(a: Arena)
    ensures NodesOnly(a, a)
  {
  }

  /** The type is a candidate with a reference qualifier, and has got the qualifiers itself. */
  lemma RequalifiedBuilt(a: Arena, m: Arena, b: Arena, p: Ptr, t: Tree, from: nat, lo: nat, mid: nat, hi: nat, last: nat, c: Comp)
    requires t.Qualified? && IsRefSub(a, t.of) && Has(a, p, t.of, Candidates(t.of), from, mid, hi)
    requires Added(a, m, last, c) && c.Node? && NodesOnly(m, b) && IsRefAt(b, p)
    ensures Has(b, p, t, PartCandidates(t), from, lo, hi)
  {
    assert Candidates(t.of) == [];
  }

  /** The last qualifier got the type as its operand, which is a candidate with a reference qualifier or none at all. */
  lemma QualifiedOrNot(a: Arena, b: Arena, p: Ptr, t: Tree, from: nat, lo: nat, hi: nat, c: Comp)
    requires t.Qualified? && WellFormed(t) && lo + |t.quals| <= hi
    requires Chain(a, t.quals, lo, Null) && Has(a, p, t.of, Candidates(t.of), from, lo + |t.quals|, hi)
    requires var last := lo + |t.quals| - 1;
      && Added(a, b, last, c) && a.comps[last].Node? && c == Node(a.comps[last].kind, p, a.comps[last].right)
    ensures !IsRefSub(a, t.of) ==> Has(b, At(lo), t, PartCandidates(t), from, lo, hi)
    ensures p.At? && p.i < hi <= |b.comps| && (IsRefQualified(b.comps[p.i]) <==> IsRefSub(a, t.of))
  {
    hide Rep, Registered, RefersBack;
    if !IsRefSub(a, t.of) {
      LastQualifier(a, b, p, t, from, lo, hi, c);
    } else {
      var last := lo + |t.quals| - 1;
      assert a.comps[last] == Node(CvKind(t.quals[|t.quals| - 1], false), Null, Null);
      RootIsPlain(a, p, t.of, lo + |t.quals|, hi);
    }
  }

  lemma FunctionIsNode(a: Arena, p: Ptr, t: Tree, lo: nat, hi: nat)
    requires t.RefFunction? && Rep(a, p, Function(t.ret, t.params), lo, hi)
    ensures a.HasNode(p, FunctionType, lo, hi)
  {
  }

  lemma ChainKept(a: Arena, b: Arena, quals: string, lo: nat)
    requires Chain(a, quals, lo, Null) && Kept(a, b, lo, lo + |quals|)
    ensures Chain(b, quals, lo, Null)
  {
    forall i | 0 <= i < |quals|
      ensures b.comps[lo + i] == Node(CvKind(quals[i], false), if i + 1 < |quals| then At(lo + i + 1) else Null, Null)
    {
      assert SameComp(a.comps[lo + i], b.comps[lo + i]);
    }
  }

  lemma PlainKept(a: Arena, b: Arena, hi: nat, hi2: nat)
    requires Plain(a, hi) && Kept(a, b, 0, hi) && |b.subs| == |a.subs| && hi <= hi2 <= |b.comps|
    ensures Plain(b, hi2)
  {
    assert b.subs == a.subs;
    forall j | 0 <= j < |b.subs| ensures b.subs[j].At? && b.subs[j].i < hi2 && IsPlain(b.comps[b.subs[j].i]) {
      assert SameComp(a.comps[a.subs[j].i], b.comps[a.subs[j].i]);
    }
  }

  /** An element of a parameter list, whose type is in the slots from `hi` on. */
  predicate NewArgument(m: Arena, kind: Kind, q: nat, t: Tree, from: nat, hi: nat) {
    && IsListKind(kind) && hi <= q < |m.comps| && m.comps[q] == Node(kind, m.Left(At(q)), Null) && Plain(m, q + 1)
    && Has(m, m.Left(At(q)), t, Candidates(t), from, hi, q)
  }

  lemma ArgumentBuilt(a: Arena, kind: Kind, b: Arena, p: Ptr, t: Tree, from: nat, lo: nat, hi: nat)
    requires IsListKind(kind)
    requires Has(a, p, t, Candidates(t), from, lo, hi) && Added(a, b, hi, Node(kind, p, Null)) && lo <= hi
    ensures NewArgument(b, kind, hi, t, from, lo)
  {
    hide Rep, Registered;
    AddedKeeps(a, b, lo, hi, Node(kind, p, Null));
    RepKept(a, b, p, t, lo, hi, lo, hi);
    RegisteredKept(a, b, Candidates(t), from, lo, hi, lo, hi);
    AddedIsPlain(a, b, hi, Node(kind, p, Null));
    assert Plain(b, hi);
  }

  lemma NextArgument(a: Arena, kind: Kind, m: Arena, b: Arena, qs: seq<Tree>, k: nat, nodes: seq<nat>, q: nat,
                     from: nat, lo: nat, hi: nat)
    requires k < |qs| && Args(a, kind, qs[..k], nodes, from, lo, hi) && Kept(a, m, lo, hi) && lo <= hi
    requires NewArgument(m, kind, q, qs[k], |a.subs|, hi) && Linked(m, kind, b, nodes, q)
    ensures Args(b, kind, qs[..k + 1], nodes + [q], from, lo, q + 1)
    ensures |m.subs| == |a.subs| + |Candidates(qs[k])|
  {
    hide Has, Plain, ArgAt;
    HasCount(m, m.Left(At(q)), qs[k], Candidates(qs[k]), |a.subs|, hi, q);
    ArgsExtend(a, kind, m, b, qs[..k], qs[k], nodes, q, from, lo, hi);
    assert qs[..k] + [qs[k]] == qs[..k + 1];
  }

  /** The next parameter, and those behind it. */
  lemma NextSpelled(s: string, a: nat, qs: seq<Tree>, k: nat, subs: nat)
    requires k < |qs| && SpellsAll(s, a, qs[k..], subs)
    ensures Spells(s, a, qs[k], subs) && |TextAll(qs[k..])| == |Text(qs[k])| + |TextAll(qs[k + 1..])|
    ensures SpellsAll(s, a + |Text(qs[k])|, qs[k + 1..], subs + |Candidates(qs[k])|)
  {
    hide SpellsAll;
    SpellsAllStep(s, a, qs[k..], subs);
    assert qs[k..][0] == qs[k] && qs[k..][1..] == qs[k + 1..];
  }

  lemma ArgsCount(a: Arena, kind: Kind, ps: seq<Tree>, nodes: seq<nat>, from: nat, lo: nat, hi: nat)
    requires Args(a, kind, ps, nodes, from, lo, hi)
    ensures |a.subs| == from + |AllCandidates(ps)| && Plain(a, hi)
  {
  }

  lemma NothingSpelled(s: string, a: nat, qs: seq<Tree>, subs: nat)
    requires SpellsAll(s, a, qs[|qs|..], subs)
    ensures ListEnds(s, a)
  {
    assert TextAll(qs[|qs|..]) == "";
  }

  lemma FirstWellFormed(s: string, a: nat, qs: seq<Tree>, subs: nat)
    requires SpellsAll(s, a, qs, subs) && qs != []
    ensures WellFormed(qs[0])
  {
  }

  /** A function type without a return type: the signature of an encoding. */
  predicate HasSignature(a: Arena, p: Ptr, ps: seq<Tree>, from: nat, lo: nat, hi: nat) {
    && a.HasNode(p, FunctionType, lo, hi) && a.Left(p).Null? && RepParams(a, Arglist, a.Right(p), ps, lo, hi)
    && Plain(a, hi) && Registered(a, AllCandidates(ps), from, lo, hi)
  }

  lemma SignatureBuilt(a: Arena, b: Arena, q: Ptr, ps: seq<Tree>, from: nat, lo: nat, hi: nat)
    requires HasParams(a, Arglist, q, ps, from, lo, hi) && Added(a, b, hi, Node(FunctionType, Null, q)) && lo <= hi
    ensures HasSignature(b, At(hi), ps, from, lo, hi + 1)
  {
    hide RepParams, Registered;
    AddedKeeps(a, b, lo, hi, Node(FunctionType, Null, q));
    RepParamsKept(a, b, Arglist, q, ps, lo, hi, lo, hi + 1);
    RegisteredKept(a, b, AllCandidates(ps), from, lo, hi, lo, hi + 1);
    AddedIsPlain(a, b, hi, Node(FunctionType, Null, q));
  }

  lemma ParamsFirst(s: string, a: nat, ps: seq<Tree>, subs: nat)
    requires SpellsAll(s, a, ps, subs) && ps != []
    ensures a < |s| && s[a] != 'J' && s[a] != 'E' && s[a] != '\0'
  {
    SpellsAllStep(s, a, ps, subs);
    SpelledIsNoEnd(s, a, ps[0], subs);
  }

  /** What a reference stands for is the tree of that candidate. */
  lemma ReferenceIsCandidate(a: Arena, p: Ptr, id: nat, ts: seq<Tree>, lo: nat, hi: nat)
    requires Registered(a, ts, 0, lo, hi) && Rep(a, p, Sub(id), lo, hi)
    ensures id < |ts| && Rep(a, p, ts[id], lo, hi)
  {
    hide Rep;
    SubIs(a, p, id, lo, hi);
    assert Rep(a, a.subs[0 + id], ts[id], lo, hi);
  }

  lemma SubIs(a: Arena, p: Ptr, id: nat, lo: nat, hi: nat)
    requires Rep(a, p, Sub(id), lo, hi)
    ensures id < |a.subs| && p == a.subs[id]
  {
  }

  // ---------------------------------------------------------------------------------------------
  // Encodings
  // ---------------------------------------------------------------------------------------------

  datatype Entity =
    | NoEntity
    | Variable(name: Tree)
    | Routine(name: Tree, params: seq<Tree>)
    /** A function template with its arguments; only such a function spells its return type. */
    | Templated(name: Tree, ret: Tree, params: seq<Tree>)

  function EntityText(e: Entity): string {
    match e
    case NoEntity => ""
    case Variable(name) => Text(name)
    case Routine(name, ps) => Text(name) + ParamsText(ps)
    case Templated(name, r, ps) => Text(name) + (Text(r) + ParamsText(ps))
  }

  /** A name on its own or with parameters, whose references are to candidates `k` and before, or its own. */
  predicate IsEntity(e: Entity, k: nat) {
    match e
    case NoEntity => false
    case Variable(name) => IsEntityName(name)
    case Routine(name, ps) =>
      && IsEntityName(name) && AllWellFormed(ps) && ps != [Basic('v')]
      && AllReferBack(ps, k + |PartCandidates(name)|)
    case Templated(name, r, ps) =>
      && name.Instance? && WellFormed(name) && RefersBack(name, k)
      && WellFormed(r) && RefersBack(r, k + |PartCandidates(name)|)
      && AllWellFormed(ps) && ps != [Basic('v')] && AllReferBack(ps, k + |PartCandidates(name)| + |Candidates(r)|)
  }

  predicate IsEntityName(t: Tree) { (t.Source? || t.Nested? || t.InStd?) && WellFormed(t) }

  /** The candidates of an encoding; the whole name is not one of them. */
  function EntityCandidates(e: Entity): seq<Tree> {
    match e
    case NoEntity => []
    case Variable(name) => PartCandidates(name)
    case Routine(name, ps) => PartCandidates(name) + AllCandidates(ps)
    case Templated(name, r, ps) => PartCandidates(name) + PartCandidates(Function(r, ps))
  }

  /** The text at `a` spells the encoding, up to the end of the text or an end mark. */
  predicate SpellsEntity(s: string, a: nat, e: Entity, k: nat) {
    IsEntity(e, k) && TextAt(s, a, EntityText(e)) && MarkEnds(s, a + |EntityText(e)|)
  }

  predicate MarkEnds(s: string, b: nat) { b <= |s| && (b < |s| ==> s[b] == 'E') }

  lemma EntityEnds(s: string, a: nat, e: Entity, k: nat)
    requires SpellsEntity(s, a, e, k)
    ensures MarkEnds(s, a + |EntityText(e)|)
  {
  }

  /** The tree of an encoding: a typed name around the name and a function type without a result. */
  predicate RepEntity(a: Arena, p: Ptr, e: Entity, lo: nat, hi: nat) {
    match e
    case NoEntity => false
    case Variable(name) => Rep(a, p, name, lo, hi)
    case Routine(name, ps) =>
      && a.HasNode(p, TypedName, lo, hi) && Rep(a, a.Left(p), name, lo, hi)
      && a.HasNode(a.Right(p), FunctionType, lo, hi) && a.Left(a.Right(p)).Null?
      && RepParams(a, Arglist, a.Right(a.Right(p)), ps, lo, hi)
    case Templated(name, r, ps) =>
      && a.HasNode(p, TypedName, lo, hi) && Rep(a, a.Left(p), name, lo, hi)
      && Rep(a, a.Right(p), Function(r, ps), lo, hi)
  }

  predicate HasEntity(a: Arena, p: Ptr, e: Entity, from: nat, lo: nat, hi: nat) {
    Plain(a, hi) && RepEntity(a, p, e, lo, hi) && Registered(a, EntityCandidates(e), from, lo, hi)
  }

  lemma VariableSpelled(s: string, a: nat, e: Entity, k: nat)
    requires SpellsEntity(s, a, e, k) && e.Variable?
    ensures Spells(s, a, e.name, k) && IsEntityName(e.name)
    ensures MarkEnds(s, a + |Text(e.name)|) && |EntityText(e)| == |Text(e.name)|
  {
    hide Text, WellFormed, RefersBack;
    EntityNameRefers(e.name, k);
  }

  /** The name of an encoding, and its parameters. */
  lemma RoutineSpelled(s: string, a: nat, e: Entity, k: nat)
    requires SpellsEntity(s, a, e, k) && e.Routine?
    ensures Spells(s, a, e.name, k) && IsEntityName(e.name) && e.params != [Basic('v')]
    ensures SpellsAll(s, a + |Text(e.name)|, Spelled(e.params), k + |PartCandidates(e.name)|)
    ensures |Text(e.name)| + |TextAll(Spelled(e.params))| == |EntityText(e)|
  {
    hide *;
    RoutineParts(s, a, e, k);
    var b := a + |Text(e.name)|;
    TextAtBoth(s, a, Text(e.name), TextAll(Spelled(e.params)));
    RestStarts(s, b, Spelled(e.params));
    SpellsIs(s, a, e.name, k);
    SpellsAllIs(s, b, Spelled(e.params), k + |PartCandidates(e.name)|);
  }

  lemma RoutineParts(s: string, a: nat, e: Entity, k: nat)
    requires SpellsEntity(s, a, e, k) && e.Routine?
    ensures IsEntityName(e.name) && WellFormed(e.name) && RefersBack(e.name, k) && e.params != [Basic('v')]
    ensures AllWellFormed(Spelled(e.params)) && AllReferBack(Spelled(e.params), k + |PartCandidates(e.name)|)
    ensures TextAt(s, a, Text(e.name) + TextAll(Spelled(e.params)))
    ensures |Text(e.name)| + |TextAll(Spelled(e.params))| == |EntityText(e)|
    ensures ListEnds(s, a + |Text(e.name)| + |TextAll(Spelled(e.params))|)
  {
    hide Text, TextAll, WellFormed, RefersBack, AllWellFormed, AllReferBack;
    EntityNameRefers(e.name, k);
    ParamsSpelled(e.params, k + |PartCandidates(e.name)|);
  }

  /** The name, the return type and the parameters of a function template. */
  lemma TemplatedSpelled(s: string, a: nat, e: Entity, k: nat)
    requires SpellsEntity(s, a, e, k) && e.Templated?
    ensures Spells(s, a, e.name, k) && e.name.Instance? && e.params != [Basic('v')]
    ensures var b := a + |Text(e.name)|;
      var k1 := k + |PartCandidates(e.name)|;
      && Spells(s, b, e.ret, k1) && SpellsAll(s, b + |Text(e.ret)|, Spelled(e.params), k1 + |Candidates(e.ret)|)
    ensures |Text(e.name)| + |Text(e.ret)| + |TextAll(Spelled(e.params))| == |EntityText(e)|
  {
    hide *;
    TemplatedParts(s, a, e, k);
    var x, y, z := Text(e.name), Text(e.ret), TextAll(Spelled(e.params));
    var b, k1 := a + |x|, k + |PartCandidates(e.name)|;
    TextAtBoth(s, a, x, y + z);
    TextAtBoth(s, b, y, z);
    NextStarts(s, b, e.ret);
    RestStarts(s, b + |y|, Spelled(e.params));
    SpellsIs(s, a, e.name, k);
    SpellsIs(s, b, e.ret, k1);
    SpellsAllIs(s, b + |y|, Spelled(e.params), k1 + |Candidates(e.ret)|);
  }

  lemma TemplatedParts(s: string, a: nat, e: Entity, k: nat)
    requires SpellsEntity(s, a, e, k) && e.Templated?
    ensures e.name.Instance? && WellFormed(e.name) && RefersBack(e.name, k) && e.params != [Basic('v')]
    ensures var k1 := k + |PartCandidates(e.name)|;
      && WellFormed(e.ret) && RefersBack(e.ret, k1)
      && AllWellFormed(Spelled(e.params)) && AllReferBack(Spelled(e.params), k1 + |Candidates(e.ret)|)
    ensures TextAt(s, a, Text(e.name) + (Text(e.ret) + TextAll(Spelled(e.params))))
    ensures |Text(e.name)| + |Text(e.ret)| + |TextAll(Spelled(e.params))| == |EntityText(e)|
    ensures ListEnds(s, a + |Text(e.name)| + |Text(e.ret)| + |TextAll(Spelled(e.params))|)
  {
    hide Text, TextAll, WellFormed, RefersBack, AllWellFormed, AllReferBack, Candidates, PartCandidates;
    ParamsSpelled(e.params, k + |PartCandidates(e.name)| + |Candidates(e.ret)|);
  }

  lemma EntityNameRefers(t: Tree, k: nat)
    requires IsEntityName(t)
    ensures RefersBack(t, k)
  {
  }

  lemma ParamsSpelled(ps: seq<Tree>, k: nat)
    requires AllWellFormed(ps) && AllReferBack(ps, k)
    ensures TextAll(Spelled(ps)) == ParamsText(ps) && AllWellFormed(Spelled(ps)) && AllReferBack(Spelled(ps), k)
  {
    assert TextAll([Basic('v')]) == "v";
  }

  /** Such a name is neither a template nor qualified: a function of this name carries no return type. */
  lemma EntityNameRoot(a: Arena, p: Ptr, t: Tree, lo: nat, hi: nat)
    requires Rep(a, p, t, lo, hi) && IsEntityName(t)
    ensures a.HasSlot(p, lo, hi) && (a.comps[p.i].Name? || (a.comps[p.i].Node? && a.comps[p.i].kind.QualName?))
  {
  }

  lemma RoutineBuilt(a: Arena, m: Arena, b: Arena, r: Ptr, q: Ptr, e: Entity, from: nat, lo: nat, mid: nat, hi: nat)
    requires e.Routine? && Has(a, r, e.name, PartCandidates(e.name), from, lo, mid) && Kept(a, m, lo, mid)
    requires HasSignature(m, q, e.params, from + |PartCandidates(e.name)|, mid, hi) && lo <= mid <= hi
    requires Added(m, b, hi, Node(TypedName, r, q))
    ensures HasEntity(b, At(hi), e, from, lo, hi + 1)
  {
    hide Registered, Rep, RepParams;
    var xs, ys := PartCandidates(e.name), AllCandidates(e.params);
    RegisteredBoth(a, m, xs, ys, from, lo, mid, mid, hi);
    AddedKeeps(m, b, lo, hi, Node(TypedName, r, q));
    AddedKeeps(m, b, mid, hi, Node(TypedName, r, q));
    RegisteredKept(m, b, xs + ys, from, lo, hi, lo, hi + 1);
    RepKept(a, m, r, e.name, lo, mid, lo, hi);
    RepKept(m, b, r, e.name, lo, hi, lo, hi + 1);
    RepParamsKept(m, b, Arglist, m.Right(q), e.params, mid, hi, lo, hi + 1);
    AddedIsPlain(m, b, hi, Node(TypedName, r, q));
  }

  /** The root of a template is one, and its name is plain: a function of this name carries a return type. */
  lemma InstanceRoot(a: Arena, p: Ptr, t: Tree, lo: nat, hi: nat)
    requires Rep(a, p, t, lo, hi) && t.Instance?
    ensures a.HasNode(p, Template, lo, hi) && a.HasSlot(a.Left(p), lo, hi) && a.comps[a.Left(p).i].Name?
  {
  }

  lemma TemplatedBuilt(a: Arena, m: Arena, b: Arena, r: Ptr, q: Ptr, e: Entity, from: nat, lo: nat, mid: nat, hi: nat)
    requires e.Templated? && Has(a, r, e.name, PartCandidates(e.name), from, lo, mid) && Kept(a, m, lo, mid)
    requires Has(m, q, Function(e.ret, e.params), PartCandidates(Function(e.ret, e.params)),
                 from + |PartCandidates(e.name)|, mid, hi) && lo <= mid <= hi
    requires Added(m, b, hi, Node(TypedName, r, q))
    ensures HasEntity(b, At(hi), e, from, lo, hi + 1)
  {
    hide Registered, Rep, PartCandidates;
    var t := Function(e.ret, e.params);
    var xs, ys := PartCandidates(e.name), PartCandidates(t);
    RegisteredBoth(a, m, xs, ys, from, lo, mid, mid, hi);
    AddedKeeps(m, b, lo, hi, Node(TypedName, r, q));
    AddedKeeps(m, b, mid, hi, Node(TypedName, r, q));
    RegisteredKept(m, b, xs + ys, from, lo, hi, lo, hi + 1);
    RepKept(a, m, r, e.name, lo, mid, lo, hi);
    RepKept(m, b, r, e.name, lo, hi, lo, hi + 1);
    RepKept(m, b, q, t, mid, hi, lo, hi + 1);
    AddedIsPlain(m, b, hi, Node(TypedName, r, q));
  }

  /** The next template argument, and those behind it. */
  lemma NextArgSpelled(s: string, a: nat, qs: seq<Tree>, k: nat, subs: nat)
    requires k < |qs| && SpellsArgs(s, a, qs[k..], subs)
    ensures SpellsArg(s, a, qs[k], subs) && |TextAll(qs[k..])| == |Text(qs[k])| + |TextAll(qs[k + 1..])|
    ensures SpellsArgs(s, a + |Text(qs[k])|, qs[k + 1..], subs + |Candidates(qs[k])|)
    ensures var b := a + |Text(qs[k])|; b < |s| && (s[b] == 'E' <==> k + 1 == |qs|)
  {
    hide SpellsArgs;
    SpellsArgsStep(s, a, qs[k..], subs);
    assert qs[k..][0] == qs[k] && qs[k..][1..] == qs[k + 1..];
    ArgsEnd(s, a + |Text(qs[k])|, qs[k + 1..], subs + |Candidates(qs[k])|);
  }

  lemma ArgsEnd(s: string, a: nat, ts: seq<Tree>, k: nat)
    requires SpellsArgs(s, a, ts, k)
    ensures a < |s| && (s[a] == 'E' <==> ts == []) && (ts == [] ==> TextAll(ts) == "")
  {
    if ts != [] {
      ArgsParts(s, a, ts, k);
      hide Text, IsArgument;
      TextAtBoth(s, a, Text(ts[0]), TextAll(ts[1..]));
      NextArgStarts(s, a, ts[0]);
    }
  }

  lemma VariableBuilt(a: Arena, p: Ptr, e: Entity, from: nat, lo: nat, hi: nat)
    requires e.Variable? && Has(a, p, e.name, PartCandidates(e.name), from, lo, hi)
    ensures HasEntity(a, p, e, from, lo, hi)
  {
  }
}
