/** The D demangler over growable strings, proved to append what DlangGrammar says. */
module DlangDemangler {
  import opened DlangTypes
  import opened DlangGrammar
  import opened GrowStrings
  import opened Options

  /** What a parser promises: it appended what `spec` says and stopped where `spec` says. */
  ghost predicate Did(before: string, after: string, rest: Text, spec: Result) {
    after == before + spec.out && rest == spec.rest
  }

  method DlangCallConvention(decl: GrowString, mangled: Text) returns (rest: Text)
    requires decl.Valid()
    modifies decl.Footprint()
    ensures decl.Valid() && fresh(decl.Footprint() - old(decl.Footprint()))
    ensures Did(old(decl.Contents()), decl.Contents(), rest, CallConvention(mangled))
  {
    if mangled.None? || mangled.value == "" { return None; }
    match mangled.value[0] {
      case 'F' =>
      case 'U' => decl.Append("extern(C) ");
      case 'W' => decl.Append("extern(Windows) ");
      case 'V' => decl.Append("extern(Pascal) ");
      case 'R' => decl.Append("extern(C++) ");
      case 'Y' => decl.Append("extern(Objective-C) ");
      case _ => return None;
    }
    rest := Drop(mangled, 1);
  }

  method DlangTypeModifiers(decl: GrowString, mangled: Text) returns (rest: Text)
    requires decl.Valid()
    modifies decl.Footprint()
    ensures decl.Valid() && fresh(decl.Footprint() - old(decl.Footprint()))
    ensures Did(old(decl.Contents()), decl.Contents(), rest, TypeModifiers(mangled))
    decreases Measure(mangled)
  {
    if mangled.None? || mangled.value == "" { return None; }
    var c := mangled.value[0];
    if c == 'x' {
      decl.Append(" const");
      rest := Drop(mangled, 1);
    } else if c == 'y' {
      decl.Append(" immutable");
      rest := Drop(mangled, 1);
    } else if c == 'O' {
      decl.Append(" shared");
      rest := DlangTypeModifiers(decl, Drop(mangled, 1));
      Assoc(old(decl.Contents()), " shared", TypeModifiers(Drop(mangled, 1)).out);
    } else if c == 'N' {
      if |mangled.value| == 1 || mangled.value[1] != 'g' { return None; }
      decl.Append(" inout");
      rest := DlangTypeModifiers(decl, Drop(mangled, 2));
      Assoc(old(decl.Contents()), " inout", TypeModifiers(Drop(mangled, 2)).out);
    } else {
      rest := mangled;
    }
  }

  method DlangAttributes(decl: GrowString, mangled: Text) returns (rest: Text)
    requires decl.Valid()
    modifies decl.Footprint()
    ensures decl.Valid() && fresh(decl.Footprint() - old(decl.Footprint()))
    ensures Did(old(decl.Contents()), decl.Contents(), rest, Attributes(mangled))
  {
    if mangled.None? || mangled.value == "" { return None; }
    var s := mangled.value;
    while s != "" && s[0] == 'N'
      invariant decl.Valid() && fresh(decl.Footprint() - old(decl.Footprint()))
      invariant decl.Contents() + AttributeLoop(s).out == old(decl.Contents()) + AttributeLoop(mangled.value).out
      invariant AttributeLoop(s).rest == AttributeLoop(mangled.value).rest
      decreases |s|
    {
      if |s| == 1 { return None; }
      if s[1] == 'g' || s[1] == 'h' || s[1] == 'k' { break; }
      if !IsAttribute(s[1]) { return None; }
      ghost var before := decl.Contents();
      decl.Append(AttributeName(s[1]));
      Assoc(before, AttributeName(s[1]), AttributeLoop(s[2..]).out);
      s := s[2..];
    }
    rest := Some(s);
  }

  /** The mangled order is convention, attributes, arguments, result. */
  method DlangFunctionType(decl: GrowString, mangled: Text) returns (rest: Text)
    requires decl.Valid()
    modifies decl.Footprint()
    ensures decl.Valid() && fresh(decl.Footprint() - old(decl.Footprint()))
    ensures Did(old(decl.Contents()), decl.Contents(), rest, FunctionType(mangled))
    decreases Measure(mangled), 6
  {
    hide ParseType, FunctionArgs, Attributes, CallConvention;
    if mangled.None? || mangled.value == "" { return None; }
    rest := DlangCallConvention(decl, mangled);
    var attr, args, type_;
    attr, args, type_, rest := DlangFunctionParts(rest);
    AppendInOrder(decl, attr, args, type_);
    ghost var convention := CallConvention(mangled).out;
    Assoc(old(decl.Contents()), convention, type_ + "(" + args + ") " + attr);
    AssocParts(convention, type_, args, attr);
  }

  lemma AssocParts(convention: string, type_: string, args: string, attr: string)
    ensures convention + (type_ + "(" + args + ") " + attr) == convention + type_ + "(" + args + ") " + attr
  {
  }

  /** Each part is collected in a string of its own. */
  method DlangFunctionParts(mangled: Text) returns (attr: string, args: string, type_: string, rest: Text)
    ensures attr == Attributes(mangled).out
    ensures args == FunctionArgs(Attributes(mangled).rest, 0).out
    ensures Result(type_, rest) == ParseType(FunctionArgs(Attributes(mangled).rest, 0).rest)
    decreases Measure(mangled), 5
  {
    hide ParseType, FunctionArgs, Attributes;
    var attrText := new GrowString();
    rest := DlangAttributes(attrText, mangled);
    attr := attrText.Contents();
    var argsText := new GrowString();
    rest := DlangFunctionArgs(argsText, rest);
    args := argsText.Contents();
    var typeText := new GrowString();
    rest := DlangType(typeText, rest);
    type_ := typeText.Contents();
  }

  /** The printed order is result, arguments, attributes. */
  method AppendInOrder(decl: GrowString, attr: string, args: string, type_: string)
    requires decl.Valid()
    modifies decl.Footprint()
    ensures decl.Valid() && fresh(decl.Footprint() - old(decl.Footprint()))
    ensures decl.Contents() == old(decl.Contents()) + (type_ + "(" + args + ") " + attr)
  {
    decl.AppendN(type_);
    decl.Append("(");
    decl.AppendN(args);
    decl.Append(") ");
    decl.AppendN(attr);
  }

  /** Closes with the text in square brackets. */
  method AppendBracketed(decl: GrowString, inner: string)
    requires decl.Valid()
    modifies decl.Footprint()
    ensures decl.Valid() && fresh(decl.Footprint() - old(decl.Footprint()))
    ensures decl.Contents() == old(decl.Contents()) + ("[" + inner + "]")
  {
    decl.Append("[");
    decl.AppendN(inner);
    decl.Append("]");
  }

  method DlangFunctionArgs(decl: GrowString, mangled: Text) returns (rest: Text)
    requires decl.Valid()
    modifies decl.Footprint()
    ensures decl.Valid() && fresh(decl.Footprint() - old(decl.Footprint()))
    ensures Did(old(decl.Contents()), decl.Contents(), rest, FunctionArgs(mangled, 0))
    decreases Measure(mangled), 4
  {
    hide ParseType, ArgumentMarkers;
    var n := 0;
    rest := mangled;
    while rest.Some? && rest.value != ""
      invariant decl.Valid() && fresh(decl.Footprint() - old(decl.Footprint()))
      invariant Measure(rest) <= Measure(mangled)
      invariant decl.Contents() + FunctionArgs(rest, n).out == old(decl.Contents()) + FunctionArgs(mangled, 0).out
      invariant FunctionArgs(rest, n).rest == FunctionArgs(mangled, 0).rest
      decreases Measure(rest)
    {
      var c := rest.value[0];
      if c == 'X' || c == 'Y' || c == 'Z' {
        if c == 'Y' && n != 0 { decl.Append(", "); }
        if c != 'Z' { decl.Append("..."); }
        return Drop(rest, 1);
      }
      ghost var before := decl.Contents();
      ghost var one := OneArgument(rest.value, n);
      ghost var others := FunctionArgs(one.rest, n + 1);
      rest := DlangFunctionArg(decl, rest.value, n);
      Assoc(before, one.out, others.out);
      n := n + 1;
    }
  }

  /** The parameter number `n` and the comma in front of it. */
  function OneArgument(s: string, n: nat): Result {
    var markers := ArgumentMarkers(s);
    var type_ := ParseType(markers.rest);
    Result((if n != 0 then ", " else "") + markers.out + type_.out, type_.rest)
  }

  method DlangFunctionArg(decl: GrowString, s: string, n: nat) returns (rest: Text)
    requires decl.Valid()
    modifies decl.Footprint()
    ensures decl.Valid() && fresh(decl.Footprint() - old(decl.Footprint()))
    ensures Did(old(decl.Contents()), decl.Contents(), rest, OneArgument(s, n))
    decreases |s| + 1, 3
  {
    hide ParseType, ArgumentMarkers;
    ghost var before, markers := decl.Contents(), ArgumentMarkers(s);
    var comma := if n != 0 then ", " else "";
    if n != 0 { decl.Append(comma); }
    var text := DlangMarkers(decl, s);
    rest := DlangType(decl, Some(text));
    Assoc(before, comma, markers.out);
    Assoc(before, comma + markers.out, ParseType(markers.rest).out);
  }

  method DlangMarkers(decl: GrowString, s: string) returns (rest: string)
    requires decl.Valid()
    modifies decl.Footprint()
    ensures decl.Valid() && fresh(decl.Footprint() - old(decl.Footprint()))
    ensures Did(old(decl.Contents()), decl.Contents(), Some(rest), ArgumentMarkers(s))
  {
    hide ArgumentMarkers;
    var names;
    names, rest := MarkerNames(s);
    decl.AppendN(names);
  }

  /** The names of the markers in front of a parameter's type, and what follows them. */
  method MarkerNames(s: string) returns (names: string, rest: string)
    ensures ArgumentMarkers(s) == Result(names, Some(rest))
  {
    rest := s;
    names := "";
    if rest != "" && rest[0] == 'M' {
      rest := rest[1..];
      names := "scope ";
    }
    if |rest| > 1 && rest[0] == 'N' && rest[1] == 'k' {
      rest := rest[2..];
      names := names + "return ";
    }
    if rest != "" {
      match rest[0] {
        case 'J' =>
          rest := rest[1..];
          names := names + "out ";
        case 'K' =>
          rest := rest[1..];
          names := names + "ref ";
        case 'L' =>
          rest := rest[1..];
          names := names + "lazy ";
        case _ =>
      }
    }
  }

  predicate StartsModified(s: string)
    requires s != ""
  {
    s[0] == 'O' || s[0] == 'x' || s[0] == 'y' || (s[0] == 'N' && |s| > 1 && (s[1] == 'g' || s[1] == 'h'))
  }

  predicate StartsArray(s: string)
    requires s != ""
  {
    s[0] == 'A' || s[0] == 'G' || s[0] == 'H'
  }

  predicate StartsPointer(s: string)
    requires s != ""
  {
    s[0] == 'P' || s[0] == 'D'
  }

  method DlangType(decl: GrowString, mangled: Text) returns (rest: Text)
    requires decl.Valid()
    modifies decl.Footprint()
    ensures decl.Valid() && fresh(decl.Footprint() - old(decl.Footprint()))
    ensures Did(old(decl.Contents()), decl.Contents(), rest, ParseType(mangled))
    decreases Measure(mangled), 2
  {
    if mangled.None? || mangled.value == "" { return None; }
    if StartsModified(mangled.value) {
      rest := DlangModifiedType(decl, mangled);
    } else if StartsArray(mangled.value) {
      rest := DlangArrayType(decl, mangled);
    } else if StartsPointer(mangled.value) {
      rest := DlangPointerType(decl, mangled);
    } else {
      rest := DlangBasicType(decl, mangled);
    }
  }

  method DlangModifiedType(decl: GrowString, mangled: Text) returns (rest: Text)
    requires decl.Valid() && mangled.Some? && mangled.value != ""
    requires StartsModified(mangled.value)
    modifies decl.Footprint()
    ensures decl.Valid() && fresh(decl.Footprint() - old(decl.Footprint()))
    ensures Did(old(decl.Contents()), decl.Contents(), rest, ParseType(mangled))
    decreases Measure(mangled), 1
  {
    var s := mangled.value;
    var code := 1;
    if s[0] == 'O' {
      decl.Append("shared(");
    } else if s[0] == 'x' {
      decl.Append("const(");
    } else if s[0] == 'y' {
      decl.Append("immutable(");
    } else {
      code := 2;
      decl.Append(if s[1] == 'g' then "inout(" else "__vector(");
    }
    ghost var m := if s[0] == 'O' then Shared else if s[0] == 'x' then Const else if s[0] == 'y' then Immutable
                   else if s[1] == 'g' then Inout else Vector;
    ghost var before, target := old(decl.Contents()), ParseType(Drop(mangled, code)).out;
    rest := DlangType(decl, Drop(mangled, code));
    decl.Append(")");
    Assoc(before, ModifierName(m), target);
    Assoc(before, ModifierName(m) + target, ")");
  }

  method DlangArrayType(decl: GrowString, mangled: Text) returns (rest: Text)
    requires decl.Valid() && mangled.Some? && mangled.value != ""
    requires StartsArray(mangled.value)
    modifies decl.Footprint()
    ensures decl.Valid() && fresh(decl.Footprint() - old(decl.Footprint()))
    ensures Did(old(decl.Contents()), decl.Contents(), rest, ArrayType(mangled))
    decreases Measure(mangled), 1
  {
    hide ParseType;
    var s := mangled.value;
    ghost var before := decl.Contents();
    if s[0] == 'A' {
      rest := DlangType(decl, Drop(mangled, 1));
      decl.Append("[]");
      Assoc(before, ParseType(Drop(mangled, 1)).out, "[]");
    } else if s[0] == 'G' {
      var num := CountDigits(s[1..]);
      rest := DlangType(decl, Drop(mangled, 1 + num));
      AppendBracketed(decl, s[1..1 + num]);
      AssocBracketed(before, ParseType(Drop(mangled, 1 + num)).out, s[1..1 + num]);
    } else {
      rest := DlangAssociativeArray(decl, mangled);
    }
  }

  lemma AssocBracketed(before: string, out: string, inner: string)
    ensures before + out + ("[" + inner + "]") == before + (out + "[" + inner + "]")
  {
  }

  /** The key comes first in the text and last in the output. */
  method DlangAssociativeArray(decl: GrowString, mangled: Text) returns (rest: Text)
    requires decl.Valid() && mangled.Some? && mangled.value != "" && mangled.value[0] == 'H'
    modifies decl.Footprint()
    ensures decl.Valid() && fresh(decl.Footprint() - old(decl.Footprint()))
    ensures Did(old(decl.Contents()), decl.Contents(), rest, ArrayType(mangled))
    decreases Measure(mangled), 0
  {
    hide ParseType;
    ghost var before := decl.Contents();
    var typeText := new GrowString();
    rest := DlangType(typeText, Drop(mangled, 1));
    var key := typeText.Contents();
    ghost var value := ParseType(rest).out;
    rest := DlangType(decl, rest);
    AppendBracketed(decl, key);
    AssocBracketed(before, value, key);
  }

  method CountDigits(s: string) returns (num: nat)
    ensures num == DigitCount(s)
  {
    num := 0;
    while num < |s| && IsDigit(s[num])
      invariant num <= |s|
      invariant DigitCount(s) == num + DigitCount(s[num..])
    {
      assert s[num..][1..] == s[num + 1..];
      num := num + 1;
    }
  }

  method DlangPointerType(decl: GrowString, mangled: Text) returns (rest: Text)
    requires decl.Valid() && mangled.Some? && mangled.value != ""
    requires StartsPointer(mangled.value)
    modifies decl.Footprint()
    ensures decl.Valid() && fresh(decl.Footprint() - old(decl.Footprint()))
    ensures Did(old(decl.Contents()), decl.Contents(), rest, PointerType(mangled))
    decreases Measure(mangled), 1
  {
    hide ParseType, FunctionType, TypeModifiers;
    var s := mangled.value;
    ghost var before := decl.Contents();
    if s[0] == 'D' {
      rest := DlangDelegate(decl, mangled);
    } else if |s| > 1 && IsConvention(s[1]) {
      rest := DlangFunctionType(decl, Drop(mangled, 1));
      decl.Append("function");
      Assoc(before, FunctionType(Drop(mangled, 1)).out, "function");
    } else {
      rest := DlangType(decl, Drop(mangled, 1));
      decl.Append("*");
      Assoc(before, ParseType(Drop(mangled, 1)).out, "*");
    }
  }

  /** The modifiers come first in the text and last in the output. */
  method DlangDelegate(decl: GrowString, mangled: Text) returns (rest: Text)
    requires decl.Valid() && mangled.Some? && mangled.value != "" && mangled.value[0] == 'D'
    modifies decl.Footprint()
    ensures decl.Valid() && fresh(decl.Footprint() - old(decl.Footprint()))
    ensures Did(old(decl.Contents()), decl.Contents(), rest, PointerType(mangled))
    decreases Measure(mangled), 0
  {
    hide ParseType, FunctionType, TypeModifiers;
    var mods;
    mods, rest := DlangDelegateModifiers(Drop(mangled, 1));
    ghost var before, f := decl.Contents(), FunctionType(rest);
    assert PointerType(mangled) == Result(f.out + "delegate" + mods, f.rest);
    hide PointerType;
    rest := DlangFunctionType(decl, rest);
    AppendDelegate(decl, mods);
    Assoc(before, f.out, "delegate" + mods);
    Assoc(f.out, "delegate", mods);
  }

  method DlangDelegateModifiers(mangled: Text) returns (mods: string, rest: Text)
    ensures Result(mods, rest) == TypeModifiers(mangled)
  {
    hide TypeModifiers;
    var modsText := new GrowString();
    rest := DlangTypeModifiers(modsText, mangled);
    mods := modsText.Contents();
  }

  method AppendDelegate(decl: GrowString, mods: string)
    requires decl.Valid()
    modifies decl.Footprint()
    ensures decl.Valid() && fresh(decl.Footprint() - old(decl.Footprint()))
    ensures decl.Contents() == old(decl.Contents()) + ("delegate" + mods)
  {
    decl.Append("delegate");
    decl.AppendN(mods);
  }

  /** Basic types, and the letters that start no type of this model. */
  method DlangBasicType(decl: GrowString, mangled: Text) returns (rest: Text)
    requires decl.Valid() && mangled.Some? && mangled.value != ""
    requires !StartsModified(mangled.value) && !StartsArray(mangled.value) && !StartsPointer(mangled.value)
    modifies decl.Footprint()
    ensures decl.Valid() && fresh(decl.Footprint() - old(decl.Footprint()))
    ensures Did(old(decl.Contents()), decl.Contents(), rest, ParseType(mangled))
  {
    var s := mangled.value;
    rest := None;
    if s[0] == 'z' {
      if |s| > 1 && s[1] == 'i' {
        decl.Append("cent");
        rest := Drop(mangled, 2);
      } else if |s| > 1 && s[1] == 'k' {
        decl.Append("ucent");
        rest := Drop(mangled, 2);
      }
    } else if IsBasic(s[0]) {
      decl.Append(BasicName(s[0]));
      rest := Drop(mangled, 1);
    }
  }
}
