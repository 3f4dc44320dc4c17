/**
 What the functions of the D demangler append and where they leave the text, for every text. A rest
 of None is the NULL pointer; the source goes on appending after a failure, and so do these.
 */
module DlangGrammar {
  import opened DlangTypes
  import opened Options


  /** What was appended and the text that remains. */
  datatype Result = Result(out: string, rest: Option<string>)

  type Text = Option<string>

  function Measure(m: Text): nat {
    if m.None? then 0 else |m.value| + 1
  }

  function At(m: Text, c: char): bool {
    m.Some? && m.value != "" && m.value[0] == c
  }

  function Drop(m: Text, k: nat): Text
    requires m.Some? && k <= |m.value|
  {
    Some(m.value[k..])
  }

  function CallConvention(m: Text): (r: Result)
    ensures r.rest.Some? ==> m.Some? && |r.rest.value| < |m.value|
  {
    if m.None? || m.value == "" || !IsConvention(m.value[0]) then Result("", None)
    else Result(ConventionName(m.value[0]), Drop(m, 1))
  }

  function TypeModifiers(m: Text): (r: Result)
    ensures r.rest.Some? ==> m.Some? && |r.rest.value| <= |m.value|
    decreases Measure(m)
  {
    if m.None? || m.value == "" then Result("", None)
    else if m.value[0] == 'x' then Result(" const", Drop(m, 1))
    else if m.value[0] == 'y' then Result(" immutable", Drop(m, 1))
    else if m.value[0] == 'O' then
      var r := TypeModifiers(Drop(m, 1));
      Result(" shared" + r.out, r.rest)
    else if m.value[0] == 'N' then
      if |m.value| > 1 && m.value[1] == 'g' then
        var r := TypeModifiers(Drop(m, 2));
        Result(" inout" + r.out, r.rest)
      else Result("", None)
    else Result("", m)
  }

  /** The loop of dlang_attributes: "Ng", "Nh" and "Nk" belong to the parameters that follow. */
  function AttributeLoop(s: string): (r: Result)
    ensures r.rest.Some? ==> |r.rest.value| <= |s|
  {
    if s == "" || s[0] != 'N' then Result("", Some(s))
    else if |s| == 1 then Result("", None)
    else if s[1] == 'g' || s[1] == 'h' || s[1] == 'k' then Result("", Some(s))
    else if !IsAttribute(s[1]) then Result("", None)
    else
      var r := AttributeLoop(s[2..]);
      Result(AttributeName(s[1]) + r.out, r.rest)
  }

  function Attributes(m: Text): (r: Result)
    ensures r.rest.Some? ==> m.Some? && |r.rest.value| <= |m.value|
  {
    if m.None? || m.value == "" then Result("", None) else AttributeLoop(m.value)
  }

  function FunctionType(m: Text): (r: Result)
    ensures r.rest.Some? ==> m.Some? && |r.rest.value| < |m.value|
    decreases Measure(m), 3
  {
    if m.None? || m.value == "" then Result("", None)
    else
      var convention := CallConvention(m);
      var attr := Attributes(convention.rest);
      var args := FunctionArgs(attr.rest, 0);
      var type_ := ParseType(args.rest);
      Result(convention.out + type_.out + "(" + args.out + ") " + attr.out, type_.rest)
  }

  /** The markers in front of a parameter's type. */
  function ArgumentMarkers(s: string): (r: Result)
    ensures r.rest.Some? && |r.rest.value| <= |s|
  {
    var scope_ := s != "" && s[0] == 'M';
    var s1 := if scope_ then s[1..] else s;
    var return_ := |s1| > 1 && s1[0] == 'N' && s1[1] == 'k';
    var s2 := if return_ then s1[2..] else s1;
    var storage := if s2 == "" then In else if s2[0] == 'J' then Out else if s2[0] == 'K' then Ref
                   else if s2[0] == 'L' then Lazy else In;
    Result((if scope_ then "scope " else "") + (if return_ then "return " else "") + StorageName(storage),
           Some(if storage.In? then s2 else s2[1..]))
  }

  /** The parameters from here on, `n` of which have been read already. */
  function FunctionArgs(m: Text, n: nat): (r: Result)
    ensures r.rest.Some? ==> m.Some? && |r.rest.value| <= |m.value|
    decreases Measure(m), 2
  {
    if m.None? || m.value == "" then Result("", m)
    else if m.value[0] == 'X' then Result("...", Drop(m, 1))
    else if m.value[0] == 'Y' then Result((if n != 0 then ", " else "") + "...", Drop(m, 1))
    else if m.value[0] == 'Z' then Result("", Drop(m, 1))
    else
      var markers := ArgumentMarkers(m.value);
      var type_ := ParseType(markers.rest);
      var others := FunctionArgs(type_.rest, n + 1);
      Result((if n != 0 then ", " else "") + markers.out + type_.out + others.out, others.rest)
  }

  /** A type in brackets behind `code`. */
  function Bracketed(m: Text, modifier: Modifier): (r: Result)
    requires m.Some? && |ModifierCode(modifier)| <= |m.value|
    ensures r.rest.Some? ==> |r.rest.value| < |m.value|
    decreases Measure(m), 0
  {
    var r := ParseType(Drop(m, |ModifierCode(modifier)|));
    Result(ModifierName(modifier) + r.out + ")", r.rest)
  }

  function DigitCount(s: string): (n: nat)
    ensures n <= |s| && forall i | 0 <= i < n :: IsDigit(s[i])
    ensures n < |s| ==> !IsDigit(s[n])
  {
    if s != "" && IsDigit(s[0]) then 1 + DigitCount(s[1..]) else 0
  }

  function ArrayType(m: Text): (r: Result)
    requires m.Some? && m.value != ""
    ensures r.rest.Some? ==> |r.rest.value| < |m.value|
    decreases Measure(m), 0
  {
    if m.value[0] == 'A' then
      var r := ParseType(Drop(m, 1));
      Result(r.out + "[]", r.rest)
    else if m.value[0] == 'G' then
      var num := DigitCount(m.value[1..]);
      var r := ParseType(Drop(m, 1 + num));
      Result(r.out + "[" + m.value[1..1 + num] + "]", r.rest)
    else
      var key := ParseType(Drop(m, 1));
      var r := ParseType(key.rest);
      Result(r.out + "[" + key.out + "]", r.rest)
  }

  function PointerType(m: Text): (r: Result)
    requires m.Some? && m.value != ""
    ensures r.rest.Some? ==> |r.rest.value| < |m.value|
    decreases Measure(m), 0
  {
    if m.value[0] == 'D' then
      var mods := TypeModifiers(Drop(m, 1));
      var r := FunctionType(mods.rest);
      Result(r.out + "delegate" + mods.out, r.rest)
    else if |m.value| > 1 && IsConvention(m.value[1]) then
      var r := FunctionType(Drop(m, 1));
      Result(r.out + "function", r.rest)
    else
      var r := ParseType(Drop(m, 1));
      Result(r.out + "*", r.rest)
  }

  function ParseType(m: Text): (r: Result)
    ensures r.rest.Some? ==> m.Some? && |r.rest.value| < |m.value|
    decreases Measure(m), 1
  {
    if m.None? || m.value == "" then Result("", None)
    else
      var c := m.value[0];
      var next := if |m.value| > 1 then m.value[1] else '\0';
      if c == 'O' then Bracketed(m, Shared)
      else if c == 'x' then Bracketed(m, Const)
      else if c == 'y' then Bracketed(m, Immutable)
      else if c == 'N' then
        if next == 'g' then Bracketed(m, Inout) else if next == 'h' then Bracketed(m, Vector) else Result("", None)
      else if c == 'A' || c == 'G' || c == 'H' then ArrayType(m)
      else if c == 'P' || c == 'D' then PointerType(m)
      else if c == 'z' then
        if next == 'i' then Result("cent", Drop(m, 2)) else if next == 'k' then Result("ucent", Drop(m, 2))
        else Result("", None)
      else if IsBasic(c) then Result(BasicName(c), Drop(m, 1))
      else Result("", None)
  }

  // ---------------------------------------------------------------------------------------------
  // Symbols and tuples
  // ---------------------------------------------------------------------------------------------

  /** Types that are spelled as a symbol or as a tuple; how those are read is not part of this model. */
  predicate IsSymbolCode(c: char) { c == 'I' || c == 'C' || c == 'S' || c == 'E' || c == 'T' || c == 'B' }

  /** Reading the type comes to a symbol or a tuple. */
  predicate MeetsSymbol(m: Text)
    decreases Measure(m), 1
  {
    if m.None? || m.value == "" then false
    else
      var c := m.value[0];
      if c == 'O' || c == 'x' || c == 'y' || c == 'A' then MeetsSymbol(Drop(m, 1))
      else if c == 'N' then |m.value| > 1 && (m.value[1] == 'g' || m.value[1] == 'h') && MeetsSymbol(Drop(m, 2))
      else if c == 'G' then MeetsSymbol(Drop(m, 1 + DigitCount(m.value[1..])))
      else if c == 'H' then MeetsSymbol(Drop(m, 1)) || MeetsSymbol(ParseType(Drop(m, 1)).rest)
      else if c == 'D' then FunctionMeetsSymbol(TypeModifiers(Drop(m, 1)).rest)
      else if c == 'P' then
        if |m.value| > 1 && IsConvention(m.value[1]) then FunctionMeetsSymbol(Drop(m, 1)) else MeetsSymbol(Drop(m, 1))
      else IsSymbolCode(c)
  }

  predicate FunctionMeetsSymbol(m: Text)
    decreases Measure(m), 3
  {
    if m.None? || m.value == "" then false
    else
      var attr := Attributes(CallConvention(m).rest);
      ArgsMeetSymbol(attr.rest) || MeetsSymbol(FunctionArgs(attr.rest, 0).rest)
  }

  predicate ArgsMeetSymbol(m: Text)
    decreases Measure(m), 2
  {
    if m.None? || m.value == "" || m.value[0] == 'X' || m.value[0] == 'Y' || m.value[0] == 'Z' then false
    else
      var text := ArgumentMarkers(m.value).rest;
      MeetsSymbol(text) || ArgsMeetSymbol(ParseType(text).rest)
  }
}
