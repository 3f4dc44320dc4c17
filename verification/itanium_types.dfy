/** Data of the Itanium C++ demangler: components, the tables it consults and the parser state. */
module ItaniumTypes {

  /** A C string: the terminating NUL is not part of the sequence. */
  type CStr = s: seq<char> | forall i | 0 <= i < |s| :: s[i] != '\0'

  /** A component pointer: NULL, or the index of a slot of the component arena. */
  datatype Ptr = Null | At(i: nat)

  /** The component types that d_make_comp builds. */
  datatype Kind =
    | QualName | LocalName | TypedName | TaggedName | Template | ConstructionVtable
    | VendorTypeQual | PtrmemType | Unary | Binary | BinaryArgs | Trinary | TrinaryArg1
    | Literal | LiteralNeg | CompoundName | VectorType | Clone
    | Vtable | Vtt | Typeinfo | TypeinfoName | TypeinfoFn | Thunk | VirtualThunk | CovariantThunk
    | JavaClass | Guard | TlsInit | TlsWrapper | Reftemp | HiddenAlias | TransactionClone
    | NontransactionClone | Pointer | Reference | RvalueReference | Complex | Imaginary | VendorType
    | Cast | Conversion | JavaResource | Decltype | PackExpansion | GlobalConstructors
    | GlobalDestructors | Nullary | TrinaryArg2
    | ArrayType | InitializerList
    | FunctionType | Restrict | Volatile | Const | RestrictThis | VolatileThis | ConstThis
    | TransactionSafe | ReferenceThis | RvalueReferenceThis | Arglist | TemplateArglist

  predicate NeedsBoth(k: Kind) {
    k.QualName? || k.LocalName? || k.TypedName? || k.TaggedName? || k.Template?
    || k.ConstructionVtable? || k.VendorTypeQual? || k.PtrmemType? || k.Unary? || k.Binary?
    || k.BinaryArgs? || k.Trinary? || k.TrinaryArg1? || k.Literal? || k.LiteralNeg?
    || k.CompoundName? || k.VectorType? || k.Clone?
  }

  predicate NeedsNothing(k: Kind) {
    k.FunctionType? || k.Restrict? || k.Volatile? || k.Const? || k.RestrictThis? || k.VolatileThis?
    || k.ConstThis? || k.TransactionSafe? || k.ReferenceThis? || k.RvalueReferenceThis?
    || k.Arglist? || k.TemplateArglist?
  }

  predicate NeedsRight(k: Kind) {
    k.ArrayType? || k.InitializerList?
  }

  predicate NeedsLeft(k: Kind) {
    !NeedsBoth(k) && !NeedsRight(k) && !NeedsNothing(k)
  }

  /** The operands d_make_comp insists on before it takes a component from the arena. */
  predicate OperandsPresent(k: Kind, left: Ptr, right: Ptr) {
    if NeedsBoth(k) then left.At? && right.At?
    else if NeedsRight(k) then right.At?
    else NeedsNothing(k) || left.At?
  }

  /** The kinds that need both operands. */
  lemma BothNeeded(left: Ptr, right: Ptr)
    ensures OperandsPresent(QualName, left, right) == (left.At? && right.At?)
    ensures OperandsPresent(LocalName, left, right) == (left.At? && right.At?)
    ensures OperandsPresent(TypedName, left, right) == (left.At? && right.At?)
    ensures OperandsPresent(TaggedName, left, right) == (left.At? && right.At?)
    ensures OperandsPresent(Template, left, right) == (left.At? && right.At?)
    ensures OperandsPresent(ConstructionVtable, left, right) == (left.At? && right.At?)
    ensures OperandsPresent(VendorTypeQual, left, right) == (left.At? && right.At?)
    ensures OperandsPresent(PtrmemType, left, right) == (left.At? && right.At?)
    ensures OperandsPresent(Unary, left, right) == (left.At? && right.At?)
    ensures OperandsPresent(Binary, left, right) == (left.At? && right.At?)
    ensures OperandsPresent(BinaryArgs, left, right) == (left.At? && right.At?)
    ensures OperandsPresent(Trinary, left, right) == (left.At? && right.At?)
    ensures OperandsPresent(TrinaryArg1, left, right) == (left.At? && right.At?)
    ensures OperandsPresent(Literal, left, right) == (left.At? && right.At?)
    ensures OperandsPresent(LiteralNeg, left, right) == (left.At? && right.At?)
    ensures OperandsPresent(CompoundName, left, right) == (left.At? && right.At?)
    ensures OperandsPresent(VectorType, left, right) == (left.At? && right.At?)
    ensures OperandsPresent(Clone, left, right) == (left.At? && right.At?)
  {
  }

  lemma LeftIsEnough(kind: Kind, left: Ptr)
    requires NeedsLeft(kind)
    ensures OperandsPresent(kind, left, Null) == left.At?
  {
  }

  lemma TypesNeedLeft(left: Ptr)
    ensures OperandsPresent(PackExpansion, left, Null) == left.At?
    ensures OperandsPresent(Decltype, left, Null) == left.At?
    ensures OperandsPresent(VendorType, left, Null) == left.At?
    ensures OperandsPresent(Conversion, left, Null) == left.At?
    ensures OperandsPresent(Cast, left, Null) == left.At?
  {
  }

  lemma ExpressionsNeedLeft(left: Ptr, right: Ptr)
    ensures OperandsPresent(Nullary, left, right) == left.At?
    ensures OperandsPresent(TrinaryArg2, left, right) == left.At?
  {
  }

  lemma NamesNeedLeft(left: Ptr, right: Ptr)
    ensures OperandsPresent(JavaResource, left, right) == left.At?
    ensures OperandsPresent(Reftemp, left, right) == left.At?
    ensures OperandsPresent(GlobalConstructors, left, right) == left.At?
    ensures OperandsPresent(GlobalDestructors, left, right) == left.At?
  {
  }

  lemma CompoundsNeedLeft()
    ensures NeedsLeft(Pointer) && NeedsLeft(Reference) && NeedsLeft(RvalueReference)
    ensures NeedsLeft(Complex) && NeedsLeft(Imaginary)
  {
  }

  lemma ThunksNeedLeft()
    ensures NeedsLeft(Thunk) && NeedsLeft(VirtualThunk) && NeedsLeft(CovariantThunk)
  {
  }

  lemma SpecialNamesNeedLeft()
    ensures NeedsLeft(TlsInit) && NeedsLeft(TlsWrapper) && NeedsLeft(Guard) && NeedsLeft(HiddenAlias)
  {
  }

  lemma ClonesNeedLeft()
    ensures NeedsLeft(TransactionClone) && NeedsLeft(NontransactionClone)
  {
  }

  lemma RightNeeded(left: Ptr, right: Ptr)
    ensures OperandsPresent(ArrayType, left, right) == right.At?
    ensures OperandsPresent(InitializerList, left, right) == right.At?
  {
  }

  /** Lists and function types may be empty. */
  lemma ListsNeedNothing(left: Ptr, right: Ptr)
    ensures OperandsPresent(FunctionType, left, right)
    ensures OperandsPresent(Arglist, left, right) && OperandsPresent(TemplateArglist, left, right)
  {
  }

  lemma RefQualifiersNeedNothing(left: Ptr)
    ensures OperandsPresent(ReferenceThis, left, Null) && OperandsPresent(RvalueReferenceThis, left, Null)
  {
  }

  lemma CvQualifiersNeedNothing(c: char, memberFn: bool)
    ensures OperandsPresent(CvKind(c, memberFn), Null, Null)
  {
  }

  /** The function qualifiers "&" and "&&". */
  predicate RefQualKind(k: Kind) {
    k.ReferenceThis? || k.RvalueReferenceThis?
  }

  /** Qualifiers that apply to the 'this' parameter. */
  predicate ThisKind(k: Kind) {
    k.RestrictThis? || k.VolatileThis? || k.ConstThis? || k.TransactionSafe? || k.ReferenceThis?
    || k.RvalueReferenceThis?
  }

  datatype Comp =
    | Unset
    | Name(text: seq<char>)
    | SubStd(text: seq<char>)
    | Builtin(info: BuiltinInfo)
    | Operator(op: OpInfo)
    | ExtendedOperator(args: int, name: Ptr)
    | Ctor(variant: char, name: Ptr)
    | Dtor(variant: char, name: Ptr)
    | TemplateParam(number: int)
    | FunctionParam(number: int)
    | Number(number: int)
    | UnnamedType(number: int)
    | Character(c: char)
    | Lambda(sub: Ptr, num: int)
    | DefaultArg(sub: Ptr, num: int)
    | FixedType(length: Ptr, accum: bool, sat: bool)
    | Node(kind: Kind, left: Ptr, right: Ptr)

  /** A pointer into an arena of `size` slots. */
  predicate InArena(p: Ptr, size: nat) {
    p.At? ==> p.i < size
  }

  /** The operands of a component lie in an arena of `size` slots. */
  predicate OperandsInArena(c: Comp, size: nat) {
    match c
    case ExtendedOperator(_, name) => InArena(name, size)
    case Ctor(_, name) => InArena(name, size)
    case Dtor(_, name) => InArena(name, size)
    case Lambda(sub, _) => InArena(sub, size)
    case DefaultArg(sub, _) => InArena(sub, size)
    case FixedType(length, _, _) => InArena(length, size)
    case Node(_, left, right) => InArena(left, size) && InArena(right, size)
    case _ => true
  }

  datatype OpInfo = Op(c0: char, c1: char, name: seq<char>, args: nat)

  /** Sorted by code, for binary search. */
  function Operators(): seq<OpInfo> {
    OperatorsToD() + OperatorsToL() + (OperatorsToO() + OperatorsToT())
  }

  function OperatorsToD(): seq<OpInfo> {
    [
      Op('a', 'N', "&=", 2),
      Op('a', 'S', "=", 2),
      Op('a', 'a', "&&", 2),
      Op('a', 'd', "&", 1),
      Op('a', 'n', "&", 2),
      Op('a', 't', "alignof ", 1),
      Op('a', 'z', "alignof ", 1),
      Op('c', 'c', "const_cast", 2),
      Op('c', 'l', "()", 2),
      Op('c', 'm', ",", 2),
      Op('c', 'o', "~", 1),
      Op('d', 'V', "/=", 2),
      Op('d', 'a', "delete[] ", 1),
      Op('d', 'c', "dynamic_cast", 2),
      Op('d', 'e', "*", 1),
      Op('d', 'l', "delete ", 1),
      Op('d', 's', ".*", 2),
      Op('d', 't', ".", 2),
      Op('d', 'v', "/", 2)
    ]
  }

  function OperatorsToL(): seq<OpInfo> {
    [
      Op('e', 'O', "^=", 2),
      Op('e', 'o', "^", 2),
      Op('e', 'q', "==", 2),
      Op('g', 'e', ">=", 2),
      Op('g', 's', "::", 1),
      Op('g', 't', ">", 2),
      Op('i', 'x', "[]", 2),
      Op('l', 'S', "<<=", 2),
      Op('l', 'e', "<=", 2),
      Op('l', 'i', "operator\"\" ", 1),
      Op('l', 's', "<<", 2),
      Op('l', 't', "<", 2)
    ]
  }

  function OperatorsToO(): seq<OpInfo> {
    [
      Op('m', 'I', "-=", 2),
      Op('m', 'L', "*=", 2),
      Op('m', 'i', "-", 2),
      Op('m', 'l', "*", 2),
      Op('m', 'm', "--", 1),
      Op('n', 'a', "new[]", 3),
      Op('n', 'e', "!=", 2),
      Op('n', 'g', "-", 1),
      Op('n', 't', "!", 1),
      Op('n', 'w', "new", 3),
      Op('o', 'R', "|=", 2),
      Op('o', 'o', "||", 2),
      Op('o', 'r', "|", 2)
    ]
  }

  function OperatorsToT(): seq<OpInfo> {
    [
      Op('p', 'L', "+=", 2),
      Op('p', 'l', "+", 2),
      Op('p', 'm', "->*", 2),
      Op('p', 'p', "++", 1),
      Op('p', 's', "+", 1),
      Op('p', 't', "->", 2),
      Op('q', 'u', "?", 3),
      Op('r', 'M', "%=", 2),
      Op('r', 'S', ">>=", 2),
      Op('r', 'c', "reinterpret_cast", 2),
      Op('r', 'm', "%", 2),
      Op('r', 's', ">>", 2),
      Op('s', 'c', "static_cast", 2),
      Op('s', 't', "sizeof ", 1),
      Op('s', 'z', "sizeof ", 1),
      Op('t', 'r', "throw", 0),
      Op('t', 'w', "throw ", 1)
    ]
  }

  datatype BuiltinInfo = BuiltinInfo(name: seq<char>, isVoid: bool, printsDefault: bool)

  /** Indexed by the letter, then the types whose code starts with 'D'. */
  function Builtins(): seq<BuiltinInfo> {
    [
    BuiltinInfo("signed char", false, true),
    BuiltinInfo("bool", false, false),
    BuiltinInfo("char", false, true),
    BuiltinInfo("double", false, false),
    BuiltinInfo("long double", false, false),
    BuiltinInfo("float", false, false),
    BuiltinInfo("__float128", false, false),
    BuiltinInfo("unsigned char", false, true),
    BuiltinInfo("int", false, false),
    BuiltinInfo("unsigned int", false, false),
    BuiltinInfo("", false, true),
    BuiltinInfo("long", false, false),
    BuiltinInfo("unsigned long", false, false),
    BuiltinInfo("__int128", false, true),
    BuiltinInfo("unsigned __int128", false, true),
    BuiltinInfo("", false, true),
    BuiltinInfo("", false, true),
    BuiltinInfo("", false, true),
    BuiltinInfo("short", false, true),
    BuiltinInfo("unsigned short", false, true),
    BuiltinInfo("", false, true),
    BuiltinInfo("void", true, false),
    BuiltinInfo("wchar_t", false, true),
    BuiltinInfo("long long", false, false),
    BuiltinInfo("unsigned long long", false, false),
    BuiltinInfo("...", false, true),
    BuiltinInfo("decimal32", false, true),
    BuiltinInfo("decimal64", false, true),
    BuiltinInfo("decimal128", false, true),
    BuiltinInfo("half", false, false),
    BuiltinInfo("char16_t", false, true),
    BuiltinInfo("char32_t", false, true),
    BuiltinInfo("decltype(nullptr)", false, true)
    ]
  }

  predicate IsDigit(c: char) { '0' <= c <= '9' }
  predicate IsUpper(c: char) { 'A' <= c <= 'Z' }
  predicate IsLower(c: char) { 'a' <= c <= 'z' }

  /** The one-letter builtin types. */
  predicate IsBuiltinLetter(c: char) {
    IsLower(c) && c !in {'k', 'p', 'q', 'r', 'u'}
  }

  /** The end and the value of the run of digits at `i`. */
  function DigitsAt(s: CStr, i: nat, acc: nat): (r: (nat, nat))
    requires i <= |s|
    ensures i <= r.0 <= |s|
    ensures r.0 == i ==> r.1 == acc
    decreases |s| - i
  {
    if i < |s| && IsDigit(s[i]) then DigitsAt(s, i + 1, acc * 10 + (s[i] as int - '0' as int)) else (i, acc)
  }

  /** The end and the value of the number at `i`, which may be negated by 'n'. */
  function NumberAt(s: CStr, i: nat): (r: (nat, int))
    requires i <= |s|
    ensures i <= r.0 <= |s|
    ensures r.1 > 0 ==> i < r.0
  {
    if i < |s| && s[i] == 'n'
    then var (end, v: int) := DigitsAt(s, i + 1, 0); (end, -v)
    else var (end, v: int) := DigitsAt(s, i, 0); (end, v)
  }

  /** The end and the value of a number that is shifted by one, with '_' behind it; -1 if malformed. */
  function CompactAt(s: CStr, i: nat): (r: (nat, int))
    requires i <= |s|
    ensures i <= r.0 <= |s| && (r.1 >= 0 ==> i < r.0)
  {
    if i < |s| && s[i] == '_' then (i + 1, 0)
    else if i < |s| && s[i] == 'n' then (i, -1)
    else
      var (end, v) := NumberAt(s, i);
      if end < |s| && s[end] == '_' then (end + 1, v + 1) else (end, -1)
  }

  const ANONYMOUS_PREFIX := "_GLOBAL_"
  const ANONYMOUS_NAMESPACE := "(anonymous namespace)"

  /** How gcc encodes an anonymous namespace. */
  predicate IsAnonymousNamespace(name: seq<char>) {
    && |name| >= |ANONYMOUS_PREFIX| + 2
    && name[..|ANONYMOUS_PREFIX|] == ANONYMOUS_PREFIX
    && name[|ANONYMOUS_PREFIX|] in ['.', '_', '$']
    && name[|ANONYMOUS_PREFIX| + 1] == 'N'
  }

  datatype StandardSub = StandardSub(simple: seq<char>, full: seq<char>, lastName: seq<char>)

  predicate IsStandardSub(c: char) {
    c == 't' || c == 'a' || c == 'b' || c == 's' || c == 'i' || c == 'o' || c == 'd'
  }

  /** The abbreviations S<c> of names in namespace std. */
  function StandardSubFor(c: char): StandardSub
    requires IsStandardSub(c)
  {
    match c
    case 't' => StandardSub("std", "std", "")
    case 'a' => StandardSub("std::allocator", "std::allocator", "allocator")
    case 'b' => StandardSub("std::basic_string", "std::basic_string", "basic_string")
    case 's' => StandardSub("std::string",
        "std::basic_string<char, std::char_traits<char>, std::allocator<char> >", "basic_string")
    case 'i' => StandardSub("std::istream",
        "std::basic_istream<char, std::char_traits<char> >", "basic_istream")
    case 'o' => StandardSub("std::ostream",
        "std::basic_ostream<char, std::char_traits<char> >", "basic_ostream")
    case _ => StandardSub("std::iostream",
        "std::basic_iostream<char, std::char_traits<char> >", "basic_iostream")
  }

  /** One digit of a base-36 <seq-id> in 32-bit unsigned arithmetic; -1 when it is refused. */
  function SeqIdStep(id: nat, c: char): int {
    var digit := if IsDigit(c) then c as int - '0' as int
                 else if IsUpper(c) then c as int - 'A' as int + 10
                 else -1;
    if digit < 0 then -1
    else
      var next := (id * 36 + digit) % 0x1_0000_0000;
      if next < id then -1 else next
  }

  /** The cursor behind the <seq-id> '_' whose current character is `c`, and its value or -1. */
  function SeqIdAt(s: CStr, i: nat, c: char, id: nat): (r: (nat, int))
    requires i <= |s|
    ensures i <= r.0 <= |s|
    decreases |s| - i, c != '\0'
  {
    var next := SeqIdStep(id, c);
    if next < 0 then (i, -1)
    else if i == |s| then SeqIdAt(s, i, '\0', next)
    else if s[i] == '_' then (i + 1, next)
    else SeqIdAt(s, i + 1, s[i], next)
  }

  /** The number of a candidate, of which the character `c` has been read: '_' stands for number 0. */
  function CandidateAt(s: CStr, i: nat, c: char): (r: (nat, int))
    requires i <= |s|
    ensures i <= r.0 <= |s|
  {
    if c == '_' then (i, 0)
    else
      var (end, id) := SeqIdAt(s, i, c, 0);
      (end, if id < 0 then -1 else (id + 1) % 0x1_0000_0000)
  }

  function CvKind(c: char, memberFn: bool): Kind {
    if c == 'r' then (if memberFn then RestrictThis else Restrict)
    else if c == 'V' then (if memberFn then VolatileThis else Volatile)
    else if c == 'K' then (if memberFn then ConstThis else Const)
    else TransactionSafe
  }

  /** The size of the qualifier's name with its NUL. */
  function CvSize(c: char): nat {
    if c == 'r' then 9 else if c == 'V' then 9 else if c == 'K' then 6 else 17
  }

  function ThisVersion(k: Kind): Kind {
    if k == Restrict then RestrictThis
    else if k == Volatile then VolatileThis
    else if k == Const then ConstThis
    else k
  }

  /** A qualifier, when it turns out to apply to 'this'. */
  function AppliedToThis(c: Comp): (r: Comp)
    ensures forall size | OperandsInArena(c, size) :: OperandsInArena(r, size)
    ensures c.Node? ==> r.Node? && r.left == c.left && RefQualKind(r.kind) == RefQualKind(c.kind)
  {
    if c.Node? then Node(ThisVersion(c.kind), c.left, c.right) else c
  }

  /** The fields that a failed trial parse restores. */
  datatype Checkpoint = Checkpoint(n: nat, nextComp: nat, nextSub: nat, didSubs: nat, expansion: int)


  predicate HasCode(op: OpInfo, c0: char, c1: char) {
    op.c0 == c0 && op.c1 == c1
  }

  predicate CodeLess(a0: char, a1: char, b0: char, b1: char) {
    a0 < b0 || (a0 == b0 && a1 < b1)
  }

  /** What the binary search over the operators relies on. */
  ghost predicate SortedByCode(ops: seq<OpInfo>) {
    forall i, j | 0 <= i < j < |ops| :: CodeLess(ops[i].c0, ops[i].c1, ops[j].c0, ops[j].c1)
  }

  /** const_cast, dynamic_cast, static_cast or reinterpret_cast. */
  predicate IsNewCast(op: OpInfo) {
    op.c1 == 'c' && (op.c0 == 's' || op.c0 == 'd' || op.c0 == 'c' || op.c0 == 'r')
  }

  /** An operator table that is not empty and does not mention the end of the text. */
  type OpTable = ops: seq<OpInfo> | |ops| > 0 && NoNul(ops)
    witness [Op('a', 'a', "", 0)]

  const BUILTIN_COUNT := 33

  /** One entry for every letter and for every code that starts with 'D'. */
  type BuiltinTable = b: seq<BuiltinInfo> | |b| == BUILTIN_COUNT
    witness seq(BUILTIN_COUNT, _ => BuiltinInfo("", false, false))

  /** Among the types of one letter, 'v' is the one that stands for no parameters. */
  predicate IsVoidTable(b: BuiltinTable) {
    forall i | 0 <= i < 26 :: b[i].isVoid <==> i == 'v' as int - 'a' as int
  }

  /** The builtin type of the code 'D' `c`; 0 when there is none. */
  function ExtensionIndex(c: char): nat
    ensures ExtensionIndex(c) < BUILTIN_COUNT
  {
    match c
    case 'f' => 26
    case 'd' => 27
    case 'e' => 28
    case 'h' => 29
    case 's' => 30
    case 'i' => 31
    case 'n' => 32
    case _ => 0
  }

  /** What T<c> <type> stands for. */
  function RuntimeTableKind(c: char): (k: Kind)
    ensures NeedsLeft(k)
  {
    match c
    case 'V' => Vtable
    case 'T' => Vtt
    case 'I' => Typeinfo
    case 'S' => TypeinfoName
    case 'F' => TypeinfoFn
    case _ => JavaClass
  }

  /** The table of builtin types has an entry for every code, and only 'v' among the letters is void. */
  lemma BuiltinsAreATable()
    ensures |Builtins()| == BUILTIN_COUNT && IsVoidTable(Builtins())
  {
  }

  /** The operators are sorted, so that binary search finds all of them. */
  lemma OperatorsAreSorted()
    ensures SortedByCode(Operators()) && NoNul(Operators())
  {
    DIsSorted();
    LIsSorted();
    OIsSorted();
    TIsSorted();
    SortedJoin(OperatorsToD(), OperatorsToL());
    SortedJoin(OperatorsToO(), OperatorsToT());
    SortedJoin(OperatorsToD() + OperatorsToL(), OperatorsToO() + OperatorsToT());
  }

  predicate NoNul(ops: seq<OpInfo>) { forall i | 0 <= i < |ops| :: ops[i].c0 != '\0' && ops[i].c1 != '\0' }

  /** A table is sorted when every entry is less than the next one. */
  lemma {:induction false} SortedStepwise(ops: seq<OpInfo>, n: nat)
    requires n <= |ops| && forall k | 0 <= k < |ops| - 1 :: NextIsGreater(ops, k)
    ensures SortedByCode(ops[..n])
  {
    if n > 1 {
      SortedStepwise(ops, n - 1);
      assert NextIsGreater(ops, n - 2);
    }
  }

  predicate NextIsGreater(ops: seq<OpInfo>, i: nat)
    requires i + 1 < |ops|
  {
    CodeLess(ops[i].c0, ops[i].c1, ops[i + 1].c0, ops[i + 1].c1)
  }

  lemma DIsSorted()
    ensures SortedByCode(OperatorsToD()) && NoNul(OperatorsToD())
  {
    var ops := OperatorsToD();
    SortedStepwise(ops, |ops|);
    assert ops[..|ops|] == ops;
  }

  lemma LIsSorted()
    ensures SortedByCode(OperatorsToL()) && NoNul(OperatorsToL())
  {
    var ops := OperatorsToL();
    SortedStepwise(ops, |ops|);
    assert ops[..|ops|] == ops;
  }

  lemma OIsSorted()
    ensures SortedByCode(OperatorsToO()) && NoNul(OperatorsToO())
  {
    var ops := OperatorsToO();
    SortedStepwise(ops, |ops|);
    assert ops[..|ops|] == ops;
  }

  lemma TIsSorted()
    ensures SortedByCode(OperatorsToT()) && NoNul(OperatorsToT())
  {
    var ops := OperatorsToT();
    SortedStepwise(ops, |ops|);
    assert ops[..|ops|] == ops;
  }

  lemma SortedJoin(x: seq<OpInfo>, y: seq<OpInfo>)
    requires SortedByCode(x) && SortedByCode(y) && x != [] && y != []
    requires CodeLess(x[|x| - 1].c0, x[|x| - 1].c1, y[0].c0, y[0].c1)
    ensures SortedByCode(x + y)
  {
  }
}
