/** The parser reads back exactly the mangled forms of types, and appends exactly their printed forms. */
module DlangRoundTrip {
  import opened DlangTypes
  import opened DlangGrammar
  import opened Options

  // ---------------------------------------------------------------------------------------------
  // Every mangled type is read back
  // ---------------------------------------------------------------------------------------------

  /** What tells a mangled type from everything that can follow a marker or a digit. */
  predicate StartsType(s: string) {
    && s != ""
    && !IsDigit(s[0]) && !IsConvention(s[0])
    && s[0] != 'M' && s[0] != 'J' && s[0] != 'K' && s[0] != 'L' && s[0] != 'X' && s[0] != 'Y' && s[0] != 'Z'
    && (s[0] == 'N' ==> |s| > 1 && (s[1] == 'g' || s[1] == 'h'))
  }

  lemma MangleStartsType(t: Type, suffix: string)
    requires WellFormed(t)
    ensures StartsType(Mangle(t) + suffix)
  {
  }

  lemma SharedStep(s: string)
    ensures var r := TypeModifiers(Some(s)); TypeModifiers(Some("O" + s)) == Result(" shared" + r.out, r.rest)
  {
    assert ("O" + s)[1..] == s;
  }

  lemma InoutStep(s: string)
    ensures var r := TypeModifiers(Some(s)); TypeModifiers(Some("Ng" + s)) == Result(" inout" + r.out, r.rest)
  {
    assert ("Ng" + s)[2..] == s;
  }

  /** Const, immutable or nothing more. */
  lemma LastModifier(m: DelegateModifiers, suffix: string)
    requires suffix != "" && IsConvention(suffix[0]) && (m.NoModifiers? || m.EndsConst? || m.EndsImmutable?)
    ensures TypeModifiers(Some(MangleModifiers(m) + suffix)) == Result(PrintModifiers(m), Some(suffix))
  {
    if m.NoModifiers? {
      assert MangleModifiers(m) + suffix == suffix;
    } else {
      assert (MangleModifiers(m) + suffix)[1..] == suffix;
    }
  }

  lemma {:induction false} ModifiersRoundTrip(m: DelegateModifiers, suffix: string)
    requires suffix != "" && IsConvention(suffix[0])
    ensures TypeModifiers(Some(MangleModifiers(m) + suffix)) == Result(PrintModifiers(m), Some(suffix))
  {
    hide TypeModifiers;
    match m
    case SharedThen(rest) =>
      ModifiersRoundTrip(rest, suffix);
      SharedStep(MangleModifiers(rest) + suffix);
      assert MangleModifiers(m) + suffix == "O" + (MangleModifiers(rest) + suffix);
    case InoutThen(rest) =>
      ModifiersRoundTrip(rest, suffix);
      InoutStep(MangleModifiers(rest) + suffix);
      assert MangleModifiers(m) + suffix == "Ng" + (MangleModifiers(rest) + suffix);
    case _ =>
      LastModifier(m, suffix);
  }

  /** What ends the attributes of a function: anything but another attribute. */
  predicate EndsAttributes(s: string) {
    s != "" && (s[0] == 'N' ==> |s| > 1 && (s[1] == 'g' || s[1] == 'h' || s[1] == 'k'))
  }

  lemma AttributeStep(c: char, rest: string)
    requires IsAttribute(c)
    ensures var r := AttributeLoop(rest); AttributeLoop(['N', c] + rest) == Result(AttributeName(c) + r.out, r.rest)
  {
    assert (['N', c] + rest)[2..] == rest;
  }

  lemma {:induction false} AttributesRoundTrip(attributes: string, suffix: string)
    requires forall c | c in attributes :: IsAttribute(c)
    requires EndsAttributes(suffix)
    ensures AttributeLoop(MangleAttributes(attributes) + suffix) == Result(PrintAttributes(attributes), Some(suffix))
  {
    if attributes == "" {
      assert MangleAttributes(attributes) + suffix == suffix;
    } else {
      hide AttributeLoop, EndsAttributes;
      AttributesRoundTrip(attributes[1..], suffix);
      var rest := MangleAttributes(attributes[1..]) + suffix;
      assert MangleAttributes(attributes) + suffix == ['N', attributes[0]] + rest;
      AttributeStep(attributes[0], rest);
    }
  }

  /** The three optional markers in front of `suffix`. */
  function MarkerCodes(scope_: bool, return_: bool, storage: Storage, suffix: string): string {
    var s2 := StorageCode(storage) + suffix;
    var s1 := if return_ then "Nk" + s2 else s2;
    if scope_ then "M" + s1 else s1
  }

  function MarkerNames(scope_: bool, return_: bool, storage: Storage): string {
    (if scope_ then "scope " else "") + (if return_ then "return " else "") + StorageName(storage)
  }

  lemma MarkersRoundTrip(scope_: bool, return_: bool, storage: Storage, suffix: string)
    requires StartsType(suffix)
    ensures ArgumentMarkers(MarkerCodes(scope_, return_, storage, suffix))
      == Result(MarkerNames(scope_, return_, storage), Some(suffix))
  {
    var s2 := StorageCode(storage) + suffix;
    var s1 := if return_ then "Nk" + s2 else s2;
    assert storage.In? ==> s2 == suffix;
    assert s2[0] == if storage.In? then suffix[0] else StorageCode(storage)[0];
    assert !storage.In? ==> s2[1..] == suffix;
    assert return_ ==> s1[2..] == s2;
    assert scope_ ==> ("M" + s1)[1..] == s1;
  }

  lemma DigitCountStops(dimension: string, s: string)
    requires forall c | c in dimension :: IsDigit(c)
    requires s != "" && !IsDigit(s[0])
    ensures DigitCount(dimension + s) == |dimension|
  {
    if dimension == "" {
      assert dimension + s == s;
    } else {
      assert (dimension + s)[1..] == dimension[1..] + s;
      DigitCountStops(dimension[1..], s);
    }
  }

  /** The text starts with the mangled type, which is read back in full. */
  ghost predicate ReadsBack(t: Type, suffix: string) {
    ParseType(Some(Mangle(t) + suffix)) == Result(Print(t), Some(suffix))
  }

  lemma LeafRoundTrip(t: Type, suffix: string)
    requires WellFormed(t) && (t.Basic? || t.Wide?)
    ensures ReadsBack(t, suffix)
  {
    var s := Mangle(t) + suffix;
    if t.Basic? {
      assert s[0] == t.code && s[1..] == suffix;
    } else {
      assert s[0] == 'z' && s[1] == (if t.unsigned then 'k' else 'i') && s[2..] == suffix;
    }
  }

  lemma ModifiedRoundTrip(t: Type, suffix: string)
    requires t.Modified? && ReadsBack(t.target, suffix)
    ensures ReadsBack(t, suffix)
  {
    var s := Mangle(t) + suffix;
    var code := ModifierCode(t.modifier);
    assert s == code + (Mangle(t.target) + suffix);
    assert s[|code|..] == Mangle(t.target) + suffix;
    assert s[0] == code[0] && (|code| > 1 ==> s[1] == code[1]);
    assert ParseType(Some(s)) == Bracketed(Some(s), t.modifier);
  }

  lemma DynamicArrayRoundTrip(t: Type, suffix: string)
    requires t.DynamicArray? && ReadsBack(t.element, suffix)
    ensures ReadsBack(t, suffix)
  {
    Assoc("A", Mangle(t.element), suffix);
    var s := "A" + (Mangle(t.element) + suffix);
    assert s[1..] == Mangle(t.element) + suffix;
    assert ParseType(Some(s)) == ArrayType(Some(s));
  }

  lemma StaticArrayRoundTrip(s: string, num: nat, r: Result)
    requires s != "" && s[0] == 'G' && DigitCount(s[1..]) == num && ParseType(Some(s[1 + num..])) == r
    ensures ParseType(Some(s)) == Result(r.out + "[" + s[1..1 + num] + "]", r.rest)
  {
    assert ParseType(Some(s)) == ArrayType(Some(s));
  }

  lemma StaticArraySpells(dimension: string, element: string)
    ensures var s := "G" + (dimension + element);
      s[1..] == dimension + element && s[1..1 + |dimension|] == dimension && s[1 + |dimension|..] == element
  {
  }

  lemma AssociativeRoundTrip(t: Type, suffix: string)
    requires t.AssociativeArray? && ReadsBack(t.key, Mangle(t.value) + suffix) && ReadsBack(t.value, suffix)
    ensures ReadsBack(t, suffix)
  {
    var s := Mangle(t) + suffix;
    assert s[1..] == Mangle(t.key) + (Mangle(t.value) + suffix);
    assert ParseType(Some(s)) == ArrayType(Some(s));
  }

  lemma PointerRoundTrip(t: Type, suffix: string)
    requires WellFormed(t) && t.Pointer? && ReadsBack(t.target, suffix)
    ensures ReadsBack(t, suffix)
  {
    var s := Mangle(t) + suffix;
    assert s[1..] == Mangle(t.target) + suffix;
    MangleStartsType(t.target, suffix);
    assert s[1] == (Mangle(t.target) + suffix)[0];
    assert ParseType(Some(s)) == PointerType(Some(s));
  }

  lemma FunctionPointerRoundTrip(s: string, r: Result)
    requires |s| > 1 && s[0] == 'P' && IsConvention(s[1]) && FunctionType(Some(s[1..])) == r
    ensures ParseType(Some(s)) == Result(r.out + "function", r.rest)
  {
    assert ParseType(Some(s)) == PointerType(Some(s));
  }

  lemma DelegateRoundTrip(s: string, mods: string, f: string, r: Result)
    requires s != "" && s[0] == 'D' && TypeModifiers(Some(s[1..])) == Result(mods, Some(f)) && FunctionType(Some(f)) == r
    ensures ParseType(Some(s)) == Result(r.out + "delegate" + mods, r.rest)
  {
    assert ParseType(Some(s)) == PointerType(Some(s));
  }

  /** Any type built without symbols is read back from its mangled form, whatever follows it. */
  lemma {:induction false} TypeRoundTrip(t: Type, suffix: string)
    requires WellFormed(t)
    ensures ReadsBack(t, suffix)
    decreases t
  {
    match t
    case Modified(_, target) =>
      TypeRoundTrip(target, suffix);
      ModifiedRoundTrip(t, suffix);
    case DynamicArray(element) =>
      TypeRoundTrip(element, suffix);
      DynamicArrayRoundTrip(t, suffix);
    case StaticArray(dimension, element) =>
      TypeRoundTrip(element, suffix);
      MangleStartsType(element, suffix);
      DigitCountStops(dimension, Mangle(element) + suffix);
      StaticArraySpells(dimension, Mangle(element) + suffix);
      StaticArrayRoundTrip("G" + (dimension + (Mangle(element) + suffix)), |dimension|, Result(Print(element), Some(suffix)));
      Assoc("G" + dimension, Mangle(element), suffix);
      Assoc("G", dimension, Mangle(element) + suffix);
    case AssociativeArray(key, value) =>
      TypeRoundTrip(key, Mangle(value) + suffix);
      TypeRoundTrip(value, suffix);
      AssociativeRoundTrip(t, suffix);
    case Pointer(target) =>
      TypeRoundTrip(target, suffix);
      PointerRoundTrip(t, suffix);
    case FunctionPointer(f) =>
      FunctionRoundTrip(f, suffix);
      FunctionPointerSpells(f, suffix);
      FunctionPointerRoundTrip("P" + (MangleFunction(f) + suffix), Result(PrintFunction(f), Some(suffix)));
    case Delegate(mods, f) =>
      FunctionRoundTrip(f, suffix);
      FunctionPointerSpells(f, suffix);
      ModifiersRoundTrip(mods, MangleFunction(f) + suffix);
      DelegateSpells(mods, f, suffix);
      DelegateRoundTrip("D" + (MangleModifiers(mods) + (MangleFunction(f) + suffix)), PrintModifiers(mods),
                        MangleFunction(f) + suffix, Result(PrintFunction(f), Some(suffix)));
    case _ =>
      LeafRoundTrip(t, suffix);
  }

  lemma {:induction false} FunctionRoundTrip(f: Function, suffix: string)
    requires WellFormedFunction(f)
    ensures FunctionType(Some(MangleFunction(f) + suffix)) == Result(PrintFunction(f), Some(suffix))
    decreases f
  {
    var afterArguments := Mangle(f.result) + suffix;
    var afterAttributes := MangleArguments(f.arguments) + afterArguments;
    ArgumentsEndAttributes(f.arguments, afterArguments);
    AttributesRoundTrip(f.attributes, afterAttributes);
    ArgumentsRoundTrip(f.arguments, 0, afterArguments);
    TypeRoundTrip(f.result, suffix);
    FunctionSpells(f, suffix);
    var s := [f.convention] + (MangleAttributes(f.attributes) + afterAttributes);
    assert s[1..] == MangleAttributes(f.attributes) + afterAttributes;
    FunctionPartsRoundTrip(s, Result(PrintAttributes(f.attributes), Some(afterAttributes)),
                           Result(PrintArguments(f.arguments, 0), Some(afterArguments)),
                           Result(Print(f.result), Some(suffix)));
  }

  lemma FunctionPartsRoundTrip(s: string, attr: Result, args: Result, r: Result)
    requires s != "" && IsConvention(s[0]) && |s| > 1
    requires AttributeLoop(s[1..]) == attr && FunctionArgs(attr.rest, 0) == args && ParseType(args.rest) == r
    ensures FunctionType(Some(s)) == Result(ConventionName(s[0]) + r.out + "(" + args.out + ") " + attr.out, r.rest)
  {
    assert Attributes(Some(s[1..])) == attr;
  }

  lemma FunctionSpells(f: Function, suffix: string)
    ensures MangleFunction(f) + suffix
      == [f.convention] + (MangleAttributes(f.attributes) + (MangleArguments(f.arguments) + (Mangle(f.result) + suffix)))
  {
  }

  lemma FunctionPointerSpells(f: Function, suffix: string)
    requires WellFormedFunction(f)
    ensures var s := "P" + (MangleFunction(f) + suffix);
      s == "P" + MangleFunction(f) + suffix && s[1..] == MangleFunction(f) + suffix && |s| > 1 && IsConvention(s[1])
    ensures var s := MangleFunction(f) + suffix; s != "" && IsConvention(s[0])
  {
    FunctionSpells(f, suffix);
    Assoc("P", MangleFunction(f), suffix);
    var t := MangleFunction(f) + suffix;
    assert t[0] == f.convention;
    assert ("P" + t)[1..] == t && ("P" + t)[1] == t[0];
  }

  lemma DelegateSpells(mods: DelegateModifiers, f: Function, suffix: string)
    ensures var s := "D" + (MangleModifiers(mods) + (MangleFunction(f) + suffix));
      && s == "D" + MangleModifiers(mods) + MangleFunction(f) + suffix
      && s[1..] == MangleModifiers(mods) + (MangleFunction(f) + suffix)
  {
  }

  lemma ArgumentsEndAttributes(a: Arguments, suffix: string)
    requires WellFormedArguments(a)
    ensures EndsAttributes(MangleArguments(a) + suffix)
  {
    if a.Argument? {
      MangleStartsType(a.type_, "");
    }
  }

  lemma {:induction false} ArgumentsRoundTrip(a: Arguments, n: nat, suffix: string)
    requires WellFormedArguments(a)
    ensures FunctionArgs(Some(MangleArguments(a) + suffix), n) == Result(PrintArguments(a, n), Some(suffix))
    decreases a
  {
    match a
    case Close(code) =>
      assert (MangleArguments(a) + suffix)[1..] == suffix;
    case Argument(scope_, return_, storage, t, rest) =>
      var others := MangleArguments(rest) + suffix;
      TypeRoundTrip(t, others);
      ArgumentsRoundTrip(rest, n + 1, suffix);
      MangleStartsType(t, others);
      MarkersRoundTrip(scope_, return_, storage, Mangle(t) + others);
      MarkersStartArgument(scope_, return_, storage, Mangle(t) + others);
      ArgumentSpells(a, suffix);
      ArgumentRoundTrip(MangleArguments(a) + suffix, n, Result(MarkerNames(scope_, return_, storage), Some(Mangle(t) + others)),
                        Result(Print(t), Some(others)), Result(PrintArguments(rest, n + 1), Some(suffix)));
      PrintArgumentsStep(a, n);
  }

  lemma ArgumentRoundTrip(s: string, n: nat, markers: Result, type_: Result, others: Result)
    requires s != "" && s[0] != 'X' && s[0] != 'Y' && s[0] != 'Z'
    requires ArgumentMarkers(s) == markers && ParseType(markers.rest) == type_ && FunctionArgs(type_.rest, n + 1) == others
    ensures FunctionArgs(Some(s), n)
      == Result((if n != 0 then ", " else "") + markers.out + type_.out + others.out, others.rest)
  {
  }

  lemma PrintArgumentsStep(a: Arguments, n: nat)
    requires a.Argument?
    ensures PrintArguments(a, n) == (if n != 0 then ", " else "") + MarkerNames(a.scope_, a.return_, a.storage)
      + Print(a.type_) + PrintArguments(a.rest, n + 1)
  {
  }

  lemma ArgumentSpells(a: Arguments, suffix: string)
    requires a.Argument?
    ensures MangleArguments(a) + suffix
      == MarkerCodes(a.scope_, a.return_, a.storage, Mangle(a.type_) + (MangleArguments(a.rest) + suffix))
  {
    var t, rest := Mangle(a.type_), MangleArguments(a.rest);
    MarkerCodesAppend(a.scope_, a.return_, a.storage, t + (rest + suffix));
    var codes := (if a.scope_ then "M" else "") + (if a.return_ then "Nk" else "") + StorageCode(a.storage);
    Assoc(codes + t, rest, suffix);
    Assoc(codes, t, rest + suffix);
  }

  lemma MarkerCodesAppend(scope_: bool, return_: bool, storage: Storage, text: string)
    ensures MarkerCodes(scope_, return_, storage, text)
      == (if scope_ then "M" else "") + (if return_ then "Nk" else "") + StorageCode(storage) + text
  {
  }

  lemma MarkersStartArgument(scope_: bool, return_: bool, storage: Storage, suffix: string)
    requires StartsType(suffix)
    ensures var s := MarkerCodes(scope_, return_, storage, suffix); s != "" && s[0] != 'X' && s[0] != 'Y' && s[0] != 'Z'
  {
  }

  // ---------------------------------------------------------------------------------------------
  // Nothing else is accepted
  // ---------------------------------------------------------------------------------------------

  /** The text `s` is the mangled form of `t` and `r.rest`, and `r.out` is its printed form. */
  ghost predicate Reads(s: string, t: Type, r: Result) {
    WellFormed(t) && r.rest.Some? && s == Mangle(t) + r.rest.value && r.out == Print(t)
  }

  ghost predicate ReadsFunction(s: string, f: Function, r: Result) {
    WellFormedFunction(f) && r.rest.Some? && s == MangleFunction(f) + r.rest.value && r.out == PrintFunction(f)
  }

  lemma {:induction false} TypeSound(s: string) returns (t: Type)
    requires ParseType(Some(s)).rest.Some?
    ensures Reads(s, t, ParseType(Some(s)))
    decreases |s|, 2
  {
    var c := s[0];
    if c == 'O' || c == 'x' || c == 'y' || c == 'N' {
      t := ModifiedSound(s);
    } else if c == 'A' || c == 'G' || c == 'H' {
      t := ArraySound(s);
    } else if c == 'P' || c == 'D' {
      t := PointerSound(s);
    } else {
      t := if c == 'z' then Wide(s[1] == 'k') else Basic(c);
      assert s == Mangle(t) + s[|Mangle(t)|..];
    }
  }

  lemma {:induction false} ModifiedSound(s: string) returns (t: Type)
    requires ParseType(Some(s)).rest.Some? && (s[0] == 'O' || s[0] == 'x' || s[0] == 'y' || s[0] == 'N')
    ensures Reads(s, t, ParseType(Some(s)))
    decreases |s|, 1
  {
    var m := if s[0] == 'O' then Shared else if s[0] == 'x' then Const else if s[0] == 'y' then Immutable
             else if s[1] == 'g' then Inout else Vector;
    assert ParseType(Some(s)) == Bracketed(Some(s), m);
    var code := ModifierCode(m);
    var rest := s[|code|..];
    assert s == code + rest;
    var target := TypeSound(rest);
    t := Modified(m, target);
    Assoc(code, Mangle(target), ParseType(Some(rest)).rest.value);
  }

  lemma {:induction false} ArraySound(s: string) returns (t: Type)
    requires ParseType(Some(s)).rest.Some? && (s[0] == 'A' || s[0] == 'G' || s[0] == 'H')
    ensures Reads(s, t, ParseType(Some(s)))
    decreases |s|, 1
  {
    assert ParseType(Some(s)) == ArrayType(Some(s));
    if s[0] == 'A' {
      var element := TypeSound(s[1..]);
      t := DynamicArray(element);
      assert s == "A" + s[1..];
      Assoc("A", Mangle(element), ParseType(Some(s)).rest.value);
    } else if s[0] == 'G' {
      t := StaticArraySound(s);
    } else {
      var key := TypeSound(s[1..]);
      var rest := ParseType(Some(s[1..])).rest.value;
      var value := TypeSound(rest);
      t := AssociativeArray(key, value);
      var end := ParseType(Some(s)).rest.value;
      assert s == "H" + s[1..];
      Assoc("H" + Mangle(key), Mangle(value), end);
      Assoc("H", Mangle(key), Mangle(value) + end);
    }
  }

  lemma {:induction false} StaticArraySound(s: string) returns (t: Type)
    requires ParseType(Some(s)).rest.Some? && s[0] == 'G'
    ensures Reads(s, t, ParseType(Some(s)))
    decreases |s|, 0
  {
    assert ParseType(Some(s)) == ArrayType(Some(s));
    var num := DigitCount(s[1..]);
    var element := TypeSound(s[1 + num..]);
    var dimension := s[1..1 + num];
    t := StaticArray(dimension, element);
    assert forall i | 0 <= i < num :: dimension[i] == s[1..][i];
    var end := ParseType(Some(s)).rest.value;
    assert s == "G" + dimension + s[1 + num..];
    Assoc("G" + dimension, Mangle(element), end);
  }

  lemma {:induction false} PointerSound(s: string) returns (t: Type)
    requires ParseType(Some(s)).rest.Some? && (s[0] == 'P' || s[0] == 'D')
    ensures Reads(s, t, ParseType(Some(s)))
    decreases |s|, 1
  {
    assert ParseType(Some(s)) == PointerType(Some(s));
    if s[0] == 'D' {
      t := DelegateSound(s);
    } else {
      var end := ParseType(Some(s)).rest.value;
      assert s == "P" + s[1..];
      if |s| > 1 && IsConvention(s[1]) {
        var f := FunctionSound(s[1..]);
        t := FunctionPointer(f);
        Assoc("P", MangleFunction(f), end);
      } else {
        var target := TypeSound(s[1..]);
        t := Pointer(target);
        Assoc("P", Mangle(target), end);
      }
    }
  }

  lemma {:induction false} DelegateSound(s: string) returns (t: Type)
    requires ParseType(Some(s)).rest.Some? && s[0] == 'D'
    ensures Reads(s, t, ParseType(Some(s)))
    decreases |s|, 0
  {
    assert ParseType(Some(s)) == PointerType(Some(s));
    var mods := ModifiersSound(s[1..]);
    var rest := TypeModifiers(Some(s[1..])).rest.value;
    var f := FunctionSound(rest);
    t := Delegate(mods, f);
    assert s == "D" + s[1..];
    DelegateSpells(mods, f, FunctionType(Some(rest)).rest.value);
  }

  lemma {:induction false} ModifiersSound(s: string) returns (m: DelegateModifiers)
    requires TypeModifiers(Some(s)).rest.Some?
    ensures s == MangleModifiers(m) + TypeModifiers(Some(s)).rest.value && TypeModifiers(Some(s)).out == PrintModifiers(m)
    decreases |s|
  {
    if s[0] == 'O' {
      var rest := ModifiersSound(s[1..]);
      m := SharedThen(rest);
      assert s == "O" + s[1..];
      Assoc("O", MangleModifiers(rest), TypeModifiers(Some(s)).rest.value);
    } else if s[0] == 'N' {
      var rest := ModifiersSound(s[2..]);
      m := InoutThen(rest);
      assert s == "Ng" + s[2..];
      Assoc("Ng", MangleModifiers(rest), TypeModifiers(Some(s)).rest.value);
    } else {
      m := if s[0] == 'x' then EndsConst else if s[0] == 'y' then EndsImmutable else NoModifiers;
      assert s == if m.NoModifiers? then "" + s else [s[0]] + s[1..];
    }
  }

  lemma {:induction false} AttributesSound(s: string) returns (attributes: string)
    requires AttributeLoop(s).rest.Some?
    ensures forall c | c in attributes :: IsAttribute(c)
    ensures s == MangleAttributes(attributes) + AttributeLoop(s).rest.value
    ensures AttributeLoop(s).out == PrintAttributes(attributes)
    decreases |s|
  {
    if s == "" || s[0] != 'N' || s[1] == 'g' || s[1] == 'h' || s[1] == 'k' {
      attributes := "";
      assert s == "" + s;
    } else {
      hide MangleAttributes, PrintAttributes;
      var rest := AttributesSound(s[2..]);
      attributes := [s[1]] + rest;
      AttributesJoined(s, rest, AttributeLoop(s[2..]).rest.value);
    }
  }

  lemma AttributesJoined(s: string, rest: string, end: string)
    requires |s| >= 2 && s[0] == 'N' && IsAttribute(s[1]) && forall c | c in rest :: IsAttribute(c)
    requires s[2..] == MangleAttributes(rest) + end
    ensures forall c | c in [s[1]] + rest :: IsAttribute(c)
    ensures s == MangleAttributes([s[1]] + rest) + end
    ensures PrintAttributes([s[1]] + rest) == AttributeName(s[1]) + PrintAttributes(rest)
  {
    var attributes := [s[1]] + rest;
    assert attributes[1..] == rest;
    assert s == ['N', s[1]] + s[2..] && "N" + [s[1]] == ['N', s[1]];
    Assoc("N" + [s[1]], MangleAttributes(rest), end);
  }

  lemma {:induction false} FunctionSound(s: string) returns (f: Function)
    requires FunctionType(Some(s)).rest.Some?
    ensures ReadsFunction(s, f, FunctionType(Some(s)))
    decreases |s|, 1
  {
    var s1 := s[1..];
    assert CallConvention(Some(s)).rest == Some(s1);
    var attributes := AttributesSound(s1);
    var s2 := AttributeLoop(s1).rest.value;
    var s3 := FunctionArgs(Some(s2), 0).rest.value;
    var arguments := ArgumentsSound(s2, 0);
    var result := TypeSound(s3);
    assert s3 != "";
    f := Function(s[0], attributes, arguments, result);
    FunctionSpells(f, ParseType(Some(s3)).rest.value);
    assert s == [s[0]] + s1;
  }

  /** At the end of the text a list may be left open, which reads as if 'Z' followed. */
  ghost predicate SpellsArguments(s: string, a: Arguments, rest: string) {
    s == MangleArguments(a) + rest || (rest == "" && s + "Z" == MangleArguments(a))
  }

  lemma {:induction false} ArgumentsSound(s: string, n: nat) returns (a: Arguments)
    requires FunctionArgs(Some(s), n).rest.Some?
    ensures WellFormedArguments(a) && SpellsArguments(s, a, FunctionArgs(Some(s), n).rest.value)
    ensures FunctionArgs(Some(s), n).out == PrintArguments(a, n)
    decreases |s|, 3
  {
    if s == "" {
      a := Close('Z');
    } else if s[0] == 'X' || s[0] == 'Y' || s[0] == 'Z' {
      a := Close(s[0]);
      assert s == [s[0]] + s[1..];
    } else {
      var scope_, return_, storage, text := MarkersSound(s);
      var t := TypeSound(text);
      var others := ParseType(Some(text)).rest.value;
      var rest := ArgumentsSound(others, n + 1);
      a := Argument(scope_, return_, storage, t, rest);
      ArgumentJoined(s, a, text, others, FunctionArgs(Some(others), n + 1).rest.value);
      PrintArgumentsStep(a, n);
    }
  }

  lemma ArgumentJoined(s: string, a: Arguments, text: string, others: string, end: string)
    requires a.Argument? && s == MarkerCodes(a.scope_, a.return_, a.storage, text) && text == Mangle(a.type_) + others
    requires SpellsArguments(others, a.rest, end)
    ensures SpellsArguments(s, a, end)
  {
    hide Mangle, MangleArguments, MarkerCodes;
    if others == MangleArguments(a.rest) + end {
      ArgumentSpells(a, end);
    } else {
      ArgumentSpells(a, "");
      MarkerCodesAppend(a.scope_, a.return_, a.storage, text);
      MarkerCodesAppend(a.scope_, a.return_, a.storage, Mangle(a.type_) + (MangleArguments(a.rest) + ""));
      Assoc(Mangle(a.type_), others, "Z");
      Assoc((if a.scope_ then "M" else "") + (if a.return_ then "Nk" else "") + StorageCode(a.storage), text, "Z");
      assert MangleArguments(a.rest) + "" == MangleArguments(a.rest) && MangleArguments(a) + "" == MangleArguments(a);
    }
  }

  lemma MarkersSound(s: string) returns (scope_: bool, return_: bool, storage: Storage, text: string)
    ensures s == MarkerCodes(scope_, return_, storage, text)
    ensures ArgumentMarkers(s) == Result(MarkerNames(scope_, return_, storage), Some(text))
  {
    scope_ := s != "" && s[0] == 'M';
    var s1 := if scope_ then s[1..] else s;
    return_ := |s1| > 1 && s1[0] == 'N' && s1[1] == 'k';
    var s2 := if return_ then s1[2..] else s1;
    storage := if s2 == "" then In else if s2[0] == 'J' then Out else if s2[0] == 'K' then Ref
               else if s2[0] == 'L' then Lazy else In;
    text := if storage.In? then s2 else s2[1..];
    assert s2 == StorageCode(storage) + text;
    assert s1 == if return_ then "Nk" + s2 else s2;
    assert s == if scope_ then "M" + s1 else s1;
  }

  /** A reading that comes to a symbol or a tuple ends there without a result. */
  lemma {:induction false} SymbolsAreBeyond(m: Text)
    requires MeetsSymbol(m)
    ensures ParseType(m).rest.None?
    decreases Measure(m), 1
  {
    var c := m.value[0];
    if c == 'O' || c == 'x' || c == 'y' {
      SymbolsAreBeyond(Drop(m, 1));
    } else if c == 'N' {
      SymbolsAreBeyond(Drop(m, 2));
    } else if c == 'A' || c == 'G' || c == 'H' {
      ArraySymbolsAreBeyond(m);
    } else if c == 'P' || c == 'D' {
      assert ParseType(m) == PointerType(m);
      if c == 'D' {
        FunctionSymbolsAreBeyond(TypeModifiers(Drop(m, 1)).rest);
      } else if |m.value| > 1 && IsConvention(m.value[1]) {
        FunctionSymbolsAreBeyond(Drop(m, 1));
      } else {
        SymbolsAreBeyond(Drop(m, 1));
      }
    }
  }

  lemma {:induction false} ArraySymbolsAreBeyond(m: Text)
    requires MeetsSymbol(m) && (m.value[0] == 'A' || m.value[0] == 'G' || m.value[0] == 'H')
    ensures ParseType(m).rest.None?
    decreases Measure(m), 0
  {
    assert ParseType(m) == ArrayType(m);
    if m.value[0] == 'A' {
      SymbolsAreBeyond(Drop(m, 1));
    } else if m.value[0] == 'G' {
      SymbolsAreBeyond(Drop(m, 1 + DigitCount(m.value[1..])));
    } else if MeetsSymbol(Drop(m, 1)) {
      SymbolsAreBeyond(Drop(m, 1));
    } else {
      SymbolsAreBeyond(ParseType(Drop(m, 1)).rest);
    }
  }

  lemma {:induction false} FunctionSymbolsAreBeyond(m: Text)
    requires FunctionMeetsSymbol(m)
    ensures FunctionType(m).rest.None?
    decreases Measure(m), 3
  {
    hide ParseType, FunctionArgs, MeetsSymbol, ArgsMeetSymbol, Attributes, CallConvention;
    var attr := Attributes(CallConvention(m).rest);
    if ArgsMeetSymbol(attr.rest) {
      ArgsSymbolsAreBeyond(attr.rest, 0);
    } else {
      SymbolsAreBeyond(FunctionArgs(attr.rest, 0).rest);
    }
  }

  lemma {:induction false} ArgsSymbolsAreBeyond(m: Text, n: nat)
    requires ArgsMeetSymbol(m)
    ensures FunctionArgs(m, n).rest.None?
    decreases Measure(m), 2
  {
    hide ParseType, MeetsSymbol, ArgumentMarkers;
    var text := ArgumentMarkers(m.value).rest;
    if MeetsSymbol(text) {
      SymbolsAreBeyond(text);
    } else {
      ArgsSymbolsAreBeyond(ParseType(text).rest, n + 1);
    }
  }

  lemma MangledIsRead(t: Type, s: string, rest: string)
    requires WellFormed(t) && s == Mangle(t) + rest
    ensures ParseType(Some(s)) == Result(Print(t), Some(rest))
  {
    TypeRoundTrip(t, rest);
    assert ReadsBack(t, rest);
  }

  /**
   A text is accepted up to `rest` exactly when it is a mangled type and `rest`. The source accepts more only
   among the texts whose reading meets a symbol or a tuple, and none of those begins with such a type.
   */
  lemma AcceptsExactlyMangledTypes(s: string, out: string, rest: string)
    ensures ParseType(Some(s)) == Result(out, Some(rest))
      <==> exists t :: WellFormed(t) && s == Mangle(t) + rest && out == Print(t)
    ensures MeetsSymbol(Some(s)) ==> ParseType(Some(s)).rest.None? && forall t | WellFormed(t) :: s != Mangle(t) + rest
  {
    if MeetsSymbol(Some(s)) {
      SymbolsAreBeyond(Some(s));
      forall t | WellFormed(t) && s == Mangle(t) + rest ensures false {
        MangledIsRead(t, s, rest);
      }
    }
    if ParseType(Some(s)) == Result(out, Some(rest)) {
      var t := TypeSound(s);
      assert WellFormed(t) && s == Mangle(t) + rest && out == Print(t);
    }
    forall t | WellFormed(t) && s == Mangle(t) + rest && out == Print(t)
      ensures ParseType(Some(s)) == Result(out, Some(rest))
    {
      MangledIsRead(t, s, rest);
    }
  }

  /** No mangled type is the front of another, so a mangled type has one reading. */
  lemma MangleIsPrefixFree(t: Type, u: Type, suffix: string)
    requires WellFormed(t) && WellFormed(u)
    requires Mangle(t) == Mangle(u) + suffix
    ensures suffix == "" && Print(t) == Print(u)
  {
    TypeRoundTrip(u, suffix);
    TypeRoundTrip(t, "");
    assert Mangle(t) + "" == Mangle(t);
  }
}
