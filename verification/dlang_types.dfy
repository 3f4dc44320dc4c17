/** D types: their mangled form and the form the demangler prints. */
module DlangTypes {

  /** A type without symbols: named types, tuples and template instances are not part of this model. */
  datatype Type =
    | Basic(code: char)
    | Wide(unsigned: bool)
    | Modified(modifier: Modifier, target: Type)
    | DynamicArray(element: Type)
    | StaticArray(dimension: string, element: Type)
    | AssociativeArray(key: Type, value: Type)
    | Pointer(target: Type)
    | FunctionPointer(function_: Function)
    | Delegate(modifiers: DelegateModifiers, function_: Function)

  datatype Modifier = Shared | Const | Immutable | Inout | Vector

  /** Any number of shared and inout, and const or immutable at the end. */
  datatype DelegateModifiers =
    | NoModifiers | EndsConst | EndsImmutable
    | SharedThen(rest: DelegateModifiers) | InoutThen(rest: DelegateModifiers)

  datatype Function = Function(convention: char, attributes: string, arguments: Arguments, result: Type)

  datatype Arguments = Close(code: char) | Argument(scope_: bool, return_: bool, storage: Storage, type_: Type, rest: Arguments)

  datatype Storage = In | Out | Ref | Lazy

  // ---------------------------------------------------------------------------------------------
  // Codes
  // ---------------------------------------------------------------------------------------------

  /** The lower-case letters but x, y and z. */
  predicate IsBasic(code: char) {
    'a' <= code <= 'w'
  }

  /** The printed name of a one-letter basic type; empty when the letter is not one. */
  function BasicName(code: char): (r: string)
    ensures r != "" <==> IsBasic(code)
  {
    match code
    case 'n' => "none"   case 'v' => "void"    case 'g' => "byte"    case 'h' => "ubyte"
    case 's' => "short"  case 't' => "ushort"  case 'i' => "int"     case 'k' => "uint"
    case 'l' => "long"   case 'm' => "ulong"   case 'f' => "float"   case 'd' => "double"
    case 'e' => "real"   case 'o' => "ifloat"  case 'p' => "idouble" case 'j' => "ireal"
    case 'q' => "cfloat" case 'r' => "cdouble" case 'c' => "creal"   case 'b' => "bool"
    case 'a' => "char"   case 'u' => "wchar"   case 'w' => "dchar"
    case _ => ""
  }

  predicate IsAttribute(code: char) {
    'a' <= code <= 'f' || code == 'i' || code == 'j'
  }

  /** The printed attribute behind 'N'; empty when the letter is not one. */
  function AttributeName(code: char): (r: string)
    ensures r != "" <==> IsAttribute(code)
  {
    match code
    case 'a' => "pure "      case 'b' => "nothrow " case 'c' => "ref "   case 'd' => "@property "
    case 'e' => "@trusted "  case 'f' => "@safe "   case 'i' => "@nogc " case 'j' => "return "
    case _ => ""
  }

  predicate IsConvention(code: char) {
    code == 'F' || code == 'U' || code == 'W' || code == 'V' || code == 'R' || code == 'Y'
  }

  function ConventionName(code: char): string {
    match code
    case 'U' => "extern(C) "
    case 'W' => "extern(Windows) "
    case 'V' => "extern(Pascal) "
    case 'R' => "extern(C++) "
    case 'Y' => "extern(Objective-C) "
    case _ => ""
  }

  predicate IsDigit(c: char) { '0' <= c <= '9' }

  // ---------------------------------------------------------------------------------------------
  // Well-formed types
  // ---------------------------------------------------------------------------------------------

  predicate WellFormed(t: Type) {
    match t
    case Basic(code) => IsBasic(code)
    case Wide(_) => true
    case Modified(_, target) => WellFormed(target)
    case DynamicArray(element) => WellFormed(element)
    case StaticArray(dimension, element) => (forall c | c in dimension :: IsDigit(c)) && WellFormed(element)
    case AssociativeArray(key, value) => WellFormed(key) && WellFormed(value)
    case Pointer(target) => WellFormed(target)
    case FunctionPointer(f) => WellFormedFunction(f)
    case Delegate(_, f) => WellFormedFunction(f)
  }

  predicate WellFormedFunction(f: Function) {
    && IsConvention(f.convention)
    && (forall c | c in f.attributes :: IsAttribute(c))
    && WellFormedArguments(f.arguments)
    && WellFormed(f.result)
  }

  predicate WellFormedArguments(a: Arguments) {
    match a
    case Close(code) => code == 'X' || code == 'Y' || code == 'Z'
    case Argument(_, _, _, t, rest) => WellFormed(t) && WellFormedArguments(rest)
  }

  // ---------------------------------------------------------------------------------------------
  // Mangled form
  // ---------------------------------------------------------------------------------------------

  function ModifierCode(m: Modifier): string {
    match m
    case Shared => "O"
    case Const => "x"
    case Immutable => "y"
    case Inout => "Ng"
    case Vector => "Nh"
  }

  function StorageCode(s: Storage): string {
    match s
    case In => ""
    case Out => "J"
    case Ref => "K"
    case Lazy => "L"
  }

  function Mangle(t: Type): string {
    match t
    case Basic(code) => [code]
    case Wide(unsigned) => if unsigned then "zk" else "zi"
    case Modified(m, target) => ModifierCode(m) + Mangle(target)
    case DynamicArray(element) => "A" + Mangle(element)
    case StaticArray(dimension, element) => "G" + dimension + Mangle(element)
    case AssociativeArray(key, value) => "H" + Mangle(key) + Mangle(value)
    case Pointer(target) => "P" + Mangle(target)
    case FunctionPointer(f) => "P" + MangleFunction(f)
    case Delegate(mods, f) => "D" + MangleModifiers(mods) + MangleFunction(f)
  }

  function MangleModifiers(m: DelegateModifiers): string {
    match m
    case NoModifiers => ""
    case EndsConst => "x"
    case EndsImmutable => "y"
    case SharedThen(rest) => "O" + MangleModifiers(rest)
    case InoutThen(rest) => "Ng" + MangleModifiers(rest)
  }

  function MangleAttributes(attributes: string): string {
    if attributes == "" then "" else "N" + [attributes[0]] + MangleAttributes(attributes[1..])
  }

  function MangleFunction(f: Function): string {
    [f.convention] + MangleAttributes(f.attributes) + MangleArguments(f.arguments) + Mangle(f.result)
  }

  function MangleArguments(a: Arguments): string {
    match a
    case Close(code) => [code]
    case Argument(scope_, return_, storage, t, rest) =>
      (if scope_ then "M" else "") + (if return_ then "Nk" else "") + StorageCode(storage) + Mangle(t)
      + MangleArguments(rest)
  }

  // ---------------------------------------------------------------------------------------------
  // Printed form
  // ---------------------------------------------------------------------------------------------

  function ModifierName(m: Modifier): string {
    match m
    case Shared => "shared("
    case Const => "const("
    case Immutable => "immutable("
    case Inout => "inout("
    case Vector => "__vector("
  }

  function StorageName(s: Storage): string {
    match s
    case In => ""
    case Out => "out "
    case Ref => "ref "
    case Lazy => "lazy "
  }

  function Print(t: Type): string {
    match t
    case Basic(code) => BasicName(code)
    case Wide(unsigned) => if unsigned then "ucent" else "cent"
    case Modified(m, target) => ModifierName(m) + Print(target) + ")"
    case DynamicArray(element) => Print(element) + "[]"
    case StaticArray(dimension, element) => Print(element) + "[" + dimension + "]"
    case AssociativeArray(key, value) => Print(value) + "[" + Print(key) + "]"
    case Pointer(target) => Print(target) + "*"
    case FunctionPointer(f) => PrintFunction(f) + "function"
    case Delegate(mods, f) => PrintFunction(f) + "delegate" + PrintModifiers(mods)
  }

  function PrintModifiers(m: DelegateModifiers): string {
    match m
    case NoModifiers => ""
    case EndsConst => " const"
    case EndsImmutable => " immutable"
    case SharedThen(rest) => " shared" + PrintModifiers(rest)
    case InoutThen(rest) => " inout" + PrintModifiers(rest)
  }

  function PrintAttributes(attributes: string): string {
    if attributes == "" then "" else AttributeName(attributes[0]) + PrintAttributes(attributes[1..])
  }

  /** Convention, result, parameters and attributes: not the order of the mangled form. */
  function PrintFunction(f: Function): string {
    ConventionName(f.convention) + Print(f.result) + "(" + PrintArguments(f.arguments, 0) + ") "
    + PrintAttributes(f.attributes)
  }

  /** `n` arguments have been printed already. */
  function PrintArguments(a: Arguments, n: nat): string
    decreases a
  {
    match a
    case Close(code) =>
      if code == 'X' then "..." else if code == 'Y' then (if n != 0 then ", " else "") + "..." else ""
    case Argument(scope_, return_, storage, t, rest) =>
      (if n != 0 then ", " else "") + (if scope_ then "scope " else "") + (if return_ then "return " else "")
      + StorageName(storage) + Print(t) + PrintArguments(rest, n + 1)
  }

  lemma Assoc(a: string, b: string, c: string)
    ensures a + b + c == a + (b + c)
  {
  }
}
