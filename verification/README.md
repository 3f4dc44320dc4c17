# Dispar: a verified model

Dispar is a disassembler and editor for Mach-O binaries. This project models the parts of it that
compute: the demanglers behind `Util::demangle`, the pipeline that carries edits of a section into a
file or a project, the hexadecimal dump and its way back, the Mach-O reader and a few small state
machines. It proves what they promise for every input, every run and every order of events.

`dafny verify dfyconfig.toml` checks all of it.

## What is modelled

- **Itanium C++ names** (`itanium_types`, `itanium_trees`, `itanium_parser`). The recursive-descent
  parser for section 5.1 of the Itanium C++ ABI works over one mutable `Info`: a cursor, an arena of
  2 * len components and a table of len substitutions. Every production of it, expressions and special
  names included, keeps an account: a success leaves part of the two components and one substitution
  that each of its characters allows. From that it follows that arena and table never run out, for any
  string, and that the parser ends. For names and types that are trees of `ItaniumTrees` (builtin and
  qualified types, pointers, references, arrays, member pointers, functions with reference qualifiers or
  without, template parameters and
  instances with types and values as arguments, plain and nested names with constructors, names in
  namespace std, references to earlier parts) the parser is pinned down: it consumes exactly the text of
  the tree, builds that tree and registers exactly its substitution candidates, in the order the ABI
  gives them.
- **Printing** (`itanium_print`, `itanium_print_buffer`). Components are printed through a buffer of
  256 characters, and a list takes its comma back when what follows it prints nothing.
- **D types** (`dlang_*`, `grow_string`). The demangler of D types is equivalent to the inverse of mangling.
- **Old-style C++ names** (`cplus_iterate`). The loop that tries one split of a name after the other,
  each from a deep copy of the state, for arbitrary trials.
- **Patches** (`sections`, `format_write`, `project*`, `sdk_version_patcher`, `bytes`, `numerals`,
  `options`). Edits of a section are kept in a pruned log of regions, which is replayed into the file
  or saved to a project and applied again.
- **Hexadecimal dump** (`hex_*`). A section is cut into chunks that are encoded concurrently, sorted
  and joined; a printed line is read back.
- **Mach-O** (`reader`, `mach_o*`). The loop over the load commands, the sections they give, and the
  merge of symbols, names and stubs.
- **Small machines** (`c_string_reader`, `tree_search`, and the tag table in `project`).

## What turned out not to hold

- A saved region that ends where its section ends is never applied again, and of two regions with the
  same start only the later one is saved: `LastByteIsLost`, `ShorterEditReplacesLonger`. The exact
  condition is `RestoredExactlyWhereRegionsSurvive`.
- The fifth bit of a minor SDK version is written and not read: `MinorSixteenIsLost`, `KeptExactlyWhen`.
- A list with two silent parts at its end may keep its comma: `TwoSilentPartsStrand`, `PrintsSameExactlyWhen`.
- Earlier components do not always stay as they are: a qualifier in front of a reference to a function
  type with a reference qualifier changes the type that was registered, as in `_Z1fFvvREKS_`
  (`RegisteredTypeChanges`). The exact condition is in `AttachQualifiers` and, for the text of such a
  type, in `QualifiedType` and `Type`: the candidate changes if and only if it has a reference qualifier
  with another operand, and nothing else from before does. Every production states that what differs
  below its start is registered and has such a qualifier; when no candidate has one, nothing differs, also
  after a trial that is given up (`NothingChanges`, `TrialTemplateArgs`).
- An encoder gives the text once: `EncodeTwice`. It reports again if and only if there are more chunks
  than results kept (`Encode`).
- A search that finds nothing makes the one before it find nothing, too: `SearchAgainAfterMiss`, and
  exactly when in `SearchFindsExactlyWhen`.
- The magic numbers of big-endian files are compared in an order that no such file has:
  `BigEndianExactlyWhen`. Commands that are read by their whole size leave the loop eight bytes too
  far: `InPlaceExactlyWhen`.
- An address of 2^63 or more makes a saved project unreadable: `ReadableExactlyWhen`, `TagsRoundTrip`.

## Reading the contracts

In the parser, `Produced(p, kc, ks)` says that earlier components and substitutions are kept, that a
result from before is one of the candidates, and that a success took at most 2k - kc components and
k - ks substitutions for its k characters. Kept means `KeptBelow`: a component differs only if it is
registered and a reference qualifier. Several methods
take a ghost tree: if the text at the cursor spells that tree, then that tree is what is built. A method
without such a clause promises the account only.

## Model

| member | source | states |
|---|---|---|
| `ItaniumParser.ParseMangled` | lib/libiberty/cp-demangle.c:5907-5992 | For every string, in both modes: the arena of 2 * len components and the table of len substitutions never run out, and a result means that the string was consumed to its end. The mangled form of an encoding or of a type yields its tree, and exactly its substitution candidates in order |
| `ItaniumParser.Info.ParseWhole` | lib/libiberty/cp-demangle.c:5952-5980 | The same for a parse from the start of a text whose kind is known |
| `ItaniumParser.Info.constructor` | lib/libiberty/cp-demangle.c:5873-5901 | An arena of twice, and a table of once, the length of the text; everything empty |
| `ItaniumParser.MangledEntityAt` | lib/libiberty/cp-demangle.c:5924-5936 | The mangled form of an encoding is taken for one in both modes |
| `ItaniumParser.MangledTypeAt` | lib/libiberty/cp-demangle.c:5924-5936 | The mangled form of a type is never taken for an encoding or a global constructor |
| `ItaniumParser.Info.MakeEmpty` | lib/libiberty/cp-demangle.c:879-890 | The next slot, or none when all are taken; that case sets a ghost flag which no parse ever sets |
| `ItaniumParser.Info.MakeComp` | lib/libiberty/cp-demangle.c:893-1002 | A component of the kind with these operands in the next free slot, unless an operand that the kind needs is missing |
| `ItaniumParser.Info.MakeName` | lib/libiberty/cp-demangle.c:1016-1026 | A name in the next free slot; an empty one is refused, and takes the slot all the same |
| `ItaniumParser.Info.AddSubstitution` | lib/libiberty/cp-demangle.c:3613-3624 | The component at the end of the table, and nothing else changed |
| `ItaniumParser.Info.CheckChar` | lib/libiberty/cp-demangle.h:142-142 | The cursor moves exactly when the character is the expected one |
| `ItaniumParser.Info.NextChar` | lib/libiberty/cp-demangle.h:143-143 | The current character; the cursor never passes the end |
| `ItaniumParser.Info.Number` | lib/libiberty/cp-demangle.c:1635-1665 | The number at the cursor, and its end |
| `ItaniumTrees.NumberRead` | lib/libiberty/cp-demangle.c:1635-1665 | A decimal numeral is read back as its number |
| `ItaniumParser.Info.Identifier` | lib/libiberty/cp-demangle.c:1682-1722 | The next `len` characters as a name; that of an anonymous namespace is replaced |
| `ItaniumParser.Info.SourceName` | lib/libiberty/cp-demangle.c:1619-1632 | A length and that many characters give the name; leaves 3 of the components and 2 of the substitutions that its characters allow |
| `ItaniumParser.Info.CtorDtorName` | lib/libiberty/cp-demangle.c:2141-2214 | The constructor or destructor at the cursor, of the last name, in the next slot and nothing else changed; any text leaves 3 components |
| `ItaniumParser.Info.TemplateParameter` | lib/libiberty/cp-demangle.c:2968-2984 | The template parameter with the number at the cursor; any text leaves 3 components and 2 substitutions |
| `ItaniumTrees.CompactRead` | lib/libiberty/cp-demangle.c:2948-2963 | A number that is shifted by one is read back |
| `ItaniumParser.Info.CompactNumber` | lib/libiberty/cp-demangle.c:2948-2963 | The number at the cursor, shifted by one, or -1; where the cursor stands in both cases |
| `ItaniumParser.Info.SeqId` | lib/libiberty/cp-demangle.c:3683-3704 | The base-36 number in front of an underscore, in 32-bit arithmetic with its overflow test |
| `ItaniumTrees.SeqIdRead` | lib/libiberty/cp-demangle.c:3683-3704 | Every number below 2^32 is read back from its base-36 digits |
| `ItaniumParser.Info.Candidate` | lib/libiberty/cp-demangle.c:3679-3712 | The candidate with the number that is read, if there is one |
| `ItaniumParser.Info.Substitution` | lib/libiberty/cp-demangle.c:3669-3767 | A reference gives the very component that was registered under its number, and touches nothing; always consumes its first letter |
| `ItaniumParser.Info.StandardSubstitution` | lib/libiberty/cp-demangle.c:3713-3766 | The component and the last name that the table has for the abbreviation; tags take at most two components each |
| `ItaniumParser.Info.CvQualifiers` | lib/libiberty/cp-demangle.c:2615-2690 | The qualifiers at the cursor, all of them, as a chain in the next free slots, in the order of the text |
| `ItaniumParser.Info.PullQualifiers` | lib/libiberty/cp-demangle.c:2623-2665 | The loop over the qualifiers: one slot for each, every one the operand of the one before |
| `ItaniumParser.Info.QualifyThis` | lib/libiberty/cp-demangle.c:2667-2687 | The walk along the chain turns exactly its qualifiers into those of 'this' |
| `ItaniumParser.Info.RefQualifier` | lib/libiberty/cp-demangle.c:2694-2721 | One component around the operand, or the operand itself |
| `ItaniumParser.Info.AttachQualifiers` | lib/libiberty/cp-demangle.c:2321-2330 | The older type changes if and only if it has a reference qualifier whose operand is not the first qualifier already; then it becomes the result and gets the qualifiers, the last one gets its operand, and otherwise nothing changes |
| `ItaniumParser.Info.JoinQualifiers` | lib/libiberty/cp-demangle.c:2310-2330 | The qualifiers around the type or inside it; for a type from below a slot, what changes below that slot is that type, and only when it has a reference qualifier |
| `ItaniumTrees.RequalifiedBuilt` | lib/libiberty/cp-demangle.c:2321-2330 | Qualifiers of a reference to a candidate with a reference qualifier are that candidate itself |
| `ItaniumParser.RegisteredTypeChanges` | lib/libiberty/cp-demangle.c:2301-2334 | The text _Z1fFvvREKS_ is accepted, and the productions that read its name and its two parameters replace the operand of the type that the first one registered |
| `ItaniumParser.RequalifyingIsEntity` | lib/libiberty/cp-demangle.c:2301-2334 | That text spells an encoding whose second parameter refers to the first, the one candidate that there is |
| `ItaniumTrees.KeptTwice` | lib/libiberty/cp-demangle.c:2301-2334 | Of two steps one after the other: below a slot nothing differs in the end but the operand of a reference qualifier that was registered at first, and what is registered from below it was so at first |
| `ItaniumTrees.KnownBefore` | lib/libiberty/cp-demangle.c:2438-2452 | A result that is older than a production is one of the candidates from before it |
| `ItaniumTrees.NothingChanges` | lib/libiberty/cp-demangle.c:2301-2334 | When no candidate has a reference qualifier, everything from before is exactly as it was |
| `ItaniumParser.Info.MangledName` | lib/libiberty/cp-demangle.c:1172-1198 | The mangled name of an encoding gives its tree |
| `ItaniumParser.Info.Encoding` | lib/libiberty/cp-demangle.c:1260-1315 | With parameters asked for: a name, a name and its parameters, or a template, its return type and its parameters give the name or a typed name around it and the function type; for any text at most 2 components per character |
| `ItaniumParser.Info.TypedEncoding` | lib/libiberty/cp-demangle.c:1309-1313 | The function type behind a name; it spells a return type exactly when the name is a template |
| `ItaniumTrees.EntityNameRoot` | lib/libiberty/cp-demangle.c:1208-1250 | A plain or nested name is not one whose functions carry a return type |
| `ItaniumTrees.InstanceRoot` | lib/libiberty/cp-demangle.c:1208-1250 | A template instance is one whose functions carry a return type |
| `ItaniumTrees.TemplatedBuilt` | lib/libiberty/cp-demangle.c:1309-1313 | Name and function type of a function template, parsed one after the other, are still there in the typed name |
| `ItaniumTrees.RoutineBuilt` | lib/libiberty/cp-demangle.c:1309-1313 | Name and signature, parsed one after the other, are still there in the typed name, with the candidates of both in order |
| `ItaniumParser.Info.NameProduction` | lib/libiberty/cp-demangle.c:1353-1429 | Plain and nested names, names in namespace std and template instances give their trees; any name leaves 2 of its components and substitutions |
| `ItaniumParser.Info.NestedName` | lib/libiberty/cp-demangle.c:1434-1467 | A nested name, with a constructor or destructor or without, gives its chain of qualified names, and registers exactly its proper prefixes |
| `ItaniumParser.Info.Prefix` | lib/libiberty/cp-demangle.c:1480-1554 | All names up to the end mark, each joined to those before it |
| `ItaniumParser.Info.PrefixStep` | lib/libiberty/cp-demangle.c:1486-1553 | One more name; it is registered with those before it unless the end mark follows |
| `ItaniumParser.Info.NextPrefix` | lib/libiberty/cp-demangle.c:1500-1546 | The next name or the constructor of the last one, joined to the prefix |
| `ItaniumTrees.SpecialBuilt` | lib/libiberty/cp-demangle.c:1543-1546 | A constructor of the last name, joined to all names, is the tree of the nested name |
| `ItaniumTrees.NameJoined` | lib/libiberty/cp-demangle.c:1543-1546 | The first name stands for itself, and every other one is joined to those before it |
| `ItaniumTrees.NameRegistered` | lib/libiberty/cp-demangle.c:1548-1552 | After a prefix has been registered, the candidates are the proper prefixes so far |
| `ItaniumParser.Info.StdUnqualifiedName` | lib/libiberty/cp-demangle.c:1382-1389 | A name in namespace std |
| `ItaniumParser.Info.TemplateOf` | lib/libiberty/cp-demangle.c:1425-1426 | The template around its name and its arguments |
| `ItaniumParser.Info.RegisteredTemplateOf` | lib/libiberty/cp-demangle.c:1418-1427 | The name of a template becomes a candidate of its own, before those of the arguments |
| `ItaniumTrees.InstanceBuilt` | lib/libiberty/cp-demangle.c:1418-1427 | Name and arguments, parsed one after the other, are both still there in the template |
| `ItaniumParser.Info.UnqualifiedName` | lib/libiberty/cp-demangle.c:1563-1616 | A source name gives its name, and any one leaves 3 components and 2 substitutions; tags are read only where the source reads them |
| `ItaniumParser.Info.Type` | lib/libiberty/cp-demangle.c:2278-2612 | Any well-formed type, whatever precedes it in the table, gives its tree, consumes exactly its text and registers exactly its candidates, itself last; any text leaves a component and a substitution. With qualifiers on a reference, earlier components change if and only if the candidate has a reference qualifier |
| `ItaniumParser.Info.PlainType` | lib/libiberty/cp-demangle.c:2336-2603 | The same before the type itself is registered; whether it is a candidate |
| `ItaniumParser.Info.Register` | lib/libiberty/cp-demangle.c:2605-2609 | The type becomes the next candidate |
| `ItaniumParser.Info.QualifiedType` | lib/libiberty/cp-demangle.c:2301-2334 | All qualifiers at once: only the type without any and the type with all of them are candidates; on a reference, the one earlier component that changes is the candidate, and exactly when it has a reference qualifier |
| `ItaniumParser.Info.QualifiedRest` | lib/libiberty/cp-demangle.c:2310-2330 | The type behind the qualifiers becomes the operand of the last one |
| `ItaniumTrees.QualifiedBuilt` | lib/libiberty/cp-demangle.c:2659-2662 | A chain of qualifiers whose last one gets the type is the tree of the qualified type |
| `ItaniumParser.Info.BuiltinType` | lib/libiberty/cp-demangle.c:2340-2349 | The builtin type of the letter; no candidate |
| `ItaniumParser.Info.CompoundType` | lib/libiberty/cp-demangle.c:2471-2499 | The pointer, reference, complex or imaginary type around the type that follows |
| `ItaniumParser.Info.FunctionTypeProduction` | lib/libiberty/cp-demangle.c:2724-2744 | Result and parameters between F and E, inside the reference qualifier if there is one |
| `ItaniumParser.Info.CloseFunctionType` | lib/libiberty/cp-demangle.c:2738-2743 | The reference qualifier around the function type, and the end mark |
| `ItaniumTrees.RefFunctionBuilt` | lib/libiberty/cp-demangle.c:2694-2721 | A function type inside its reference qualifier is the tree, and still there |
| `ItaniumParser.Info.BareFunctionType` | lib/libiberty/cp-demangle.c:2795-2827 | Result and parameters, or parameters only |
| `ItaniumParser.Info.ParmList` | lib/libiberty/cp-demangle.c:2747-2792 | The parameters in their order, with their candidates; a single void stands for none |
| `ItaniumParser.Info.Parameters` | lib/libiberty/cp-demangle.c:2754-2780 | The loop over the parameters, each linked to the one before |
| `ItaniumTrees.ArgsExtend` | lib/libiberty/cp-demangle.c:2756-2774 | Linking one more element keeps the list of the parameters before it |
| `ItaniumTrees.ArgsDone` | lib/libiberty/cp-demangle.c:2747-2792 | The linked elements are the parameter list of a function type |
| `ItaniumTrees.NoArgsDone` | lib/libiberty/cp-demangle.c:2782-2789 | A list of one void parameter becomes the empty list |
| `ItaniumTrees.FunctionBuilt` | lib/libiberty/cp-demangle.c:2795-2827 | Result and parameters, parsed one after the other, are both still there in the function type |
| `ItaniumParser.Info.ArrayTypeProduction` | lib/libiberty/cp-demangle.c:2840-2880 | The dimension, if any, as a name and the element type |
| `ItaniumParser.Info.PointerToMemberType` | lib/libiberty/cp-demangle.c:2911-2945 | Class and member type |
| `ItaniumParser.Info.SubstitutedType` | lib/libiberty/cp-demangle.c:2438-2469 | A reference or an abbreviation as a type is no new candidate; any other name in namespace std is one |
| `ItaniumTrees.RepKept` | lib/libiberty/cp-demangle.c:2278-2612 | A tree stays where it is while the slots and candidates that were there do |
| `ItaniumTrees.RegisteredBoth` | lib/libiberty/cp-demangle.c:3613-3624 | The candidates of one part, and then those of the next, are in the table in this order |
| `ItaniumTrees.ReferenceIsCandidate` | lib/libiberty/cp-demangle.c:3706-3711 | What a reference stands for is the tree of the candidate with its number |
| `ItaniumParser.Info.TemplateArgs` | lib/libiberty/cp-demangle.c:2987-3037 | The list of the arguments, with the candidates of all of them in order; any text leaves 3 components and 2 substitutions, and well-formed arguments leave the last name as it was |
| `ItaniumParser.Info.TemplateArgList` | lib/libiberty/cp-demangle.c:3007-3036 | The loop over the arguments, each linked to the one before |
| `ItaniumTrees.ArgsRegistered` | lib/libiberty/cp-demangle.c:2987-3037 | The candidates of all elements of a list are in the table, in order |
| `ItaniumParser.Info.TemplateArg` | lib/libiberty/cp-demangle.c:3043-3069 | A type or a value gives its tree; any text leaves a component |
| `ItaniumParser.Info.TrialTemplateArgs` | lib/libiberty/cp-demangle.c:2418-2434 | A trial that is given up restores the cursor, the four counters and the table; below the checkpoint only operands of registered reference qualifiers can differ, and nothing does when no candidate has one; the last name stays when the arguments were well formed |
| `ItaniumParser.Info.Backtrack` | lib/libiberty/cp-demangle.c:3778-3787 | The five fields of the checkpoint are restored |
| `ItaniumParser.Info.ConversionTemplate` | lib/libiberty/cp-demangle.c:2411-2434 | With the arguments on trial: the parameter itself where it was, or the template |
| `ItaniumParser.Info.Expression` | lib/libiberty/cp-demangle.c:3362-3373 | Leaves a component; the flag is as it was before |
| `ItaniumParser.Info.Expression1` | lib/libiberty/cp-demangle.c:3129-3361 | Leaves a component of those that its characters allow |
| `ItaniumParser.Info.Operation` | lib/libiberty/cp-demangle.c:3215-3359 | An operator and its operands leave a component |
| `ItaniumParser.Info.OperatorCall` | lib/libiberty/cp-demangle.c:3247-3359 | What the operator is kept as, by the number of its operands, with the operator in front |
| `ItaniumParser.Info.BinaryOperation` | lib/libiberty/cp-demangle.c:3278-3305 | Operator and pair of operands |
| `ItaniumParser.Info.TrinaryNode` | lib/libiberty/cp-demangle.c:3349-3356 | The three components around the operands, or one when an operand is missing |
| `ItaniumParser.Info.ExprList` | lib/libiberty/cp-demangle.c:3073-3105 | Leaves a component of those that its characters allow |
| `ItaniumParser.Info.ExprPrimary` | lib/libiberty/cp-demangle.c:3379-3436 | A value gives its tree; any text leaves 3 components and 2 substitutions |
| `ItaniumParser.Info.LiteralValue` | lib/libiberty/cp-demangle.c:3418-3431 | The digits up to E, next to the type; at most one component without text, and at most two |
| `ItaniumParser.Info.SkipToE` | lib/libiberty/cp-demangle.c:3424-3430 | Stops at the first E, or at the end |
| `ItaniumParser.Info.OperatorName` | lib/libiberty/cp-demangle.c:1798-1853 | The operator with these two characters, a vendor operator with its number of operands, or a cast or conversion; leaves 3 components and 2 substitutions |
| `ItaniumParser.Info.FindOperator` | lib/libiberty/cp-demangle.c:1826-1851 | The binary search finds an entry with the code, and in a sorted table any there is |
| `ItaniumTypes.OperatorsAreSorted` | lib/libiberty/cp-demangle.c:1728-1797 | The table of operators is sorted by code, which the binary search relies on |
| `ItaniumTypes.BuiltinsAreATable` | lib/libiberty/cp-demangle.c:2231-2276 | The table of builtin types covers all codes, and of the letters only v is void |
| `ItaniumParser.Info.SpecialName` | lib/libiberty/cp-demangle.c:1968-2095 | The kind of component that the two letters stand for; at most 2 components per character |
| `ItaniumParser.Info.LocalNameProduction` | lib/libiberty/cp-demangle.c:3442-3495 | Leaves 2 components and 2 substitutions |
| `ItaniumParser.Info.LambdaProduction` | lib/libiberty/cp-demangle.c:3517-3553 | Leaves 3 components and 2 substitutions |
| `ItaniumParser.Info.NumberedLambda` | lib/libiberty/cp-demangle.c:3535-3552 | The parameters with the number at the cursor |
| `ItaniumParser.Info.UnnamedType` | lib/libiberty/cp-demangle.c:3556-3583 | The number at the cursor; leaves 3 components and 2 substitutions |
| `ItaniumParser.Info.CloneSuffix` | lib/libiberty/cp-demangle.c:3587-3610 | The encoding next to the text of the suffix |
| `ItaniumParser.Info.AbiTags` | lib/libiberty/cp-demangle.c:1318-1340 | A tagged name when there is a tag, and nothing changed otherwise; the last name is as it was before |
| `ItaniumParser.Info.JavaChunks` | lib/libiberty/cp-demangle.c:1886-1944 | At most two components for each chunk |
| `ItaniumParser.Info.JavaChunk` | lib/libiberty/cp-demangle.c:1891-1934 | The character or the text of one chunk |
| `ItaniumParser.Info.ExtensionType` | lib/libiberty/cp-demangle.c:2511-2599 | Leaves a component, and as many substitutions as registering it takes |
| `ItaniumPrint.PrintsSameExactlyWhen` | lib/libiberty/cp-demangle.c:5022-5043 | The buffered printer prints what the unbuffered one prints if and only if no list keeps its comma |
| `ItaniumPrint.OneSilentPartPrintsSame` | lib/libiberty/cp-demangle.c:5022-5043 | With at most one silent part at the end of each list, both always print the same, whatever is in the buffer |
| `ItaniumPrint.TwoSilentPartsStrand` | lib/libiberty/cp-demangle.c:5022-5043 | For every text of 252 characters: two silent parts behind it leave a comma in the output |
| `ItaniumPrint.TakesBackOwnComma` | lib/libiberty/cp-demangle.c:5036-5042 | What is taken back is the comma and the space that the same call wrote; it is taken back exactly when nothing was flushed and nothing written since |
| `ItaniumPrint.ExecExtends` | lib/libiberty/cp-demangle.c:4052-4071 | The buffer stays below 256 characters, flushed text never changes, and what was pending stays in front |
| `ItaniumPrint.PutExtends` | lib/libiberty/cp-demangle.c:4072-4086 | A text is appended whole, however often the buffer is flushed on the way |
| `ItaniumPrintBuffer.PrintCallback` | lib/libiberty/cp-demangle.c:4111-4141 | The chunks that the callback collects are the text of the unbuffered printer if and only if no list keeps its comma |
| `ItaniumPrintBuffer.PrintInfo.PrintArgs` | lib/libiberty/cp-demangle.c:5028-5043 | The state behind the comma, the right part and the roll-back |
| `ItaniumPrintBuffer.PrintInfo.PrintComp` | lib/libiberty/cp-demangle.c:5432-5446 | The state after printing is that of the specification |
| `ItaniumPrintBuffer.PrintInfo.AppendChar` | lib/libiberty/cp-demangle.c:4062-4071 | One character, after a flush when the buffer is full |
| `ItaniumPrintBuffer.PrintInfo.AppendString` | lib/libiberty/cp-demangle.c:4081-4086 | All characters, one by one |
| `ItaniumPrintBuffer.PrintInfo.PrintFlush` | lib/libiberty/cp-demangle.c:4051-4059 | The buffer is handed on and empty |
| `ItaniumPrintBuffer.GrowableString.AppendBuffer` | lib/libiberty/cp-demangle.c:3836-3853 | The chunk is appended, whatever has to be reallocated |
| `ItaniumPrintBuffer.GrowableString.Resize` | lib/libiberty/cp-demangle.c:3804-3833 | Enough room, at least doubled, with the same contents |
| `DlangRoundTrip.AcceptsExactlyMangledTypes` | lib/libiberty/d-demangle.c:454-697 | A text whose reading meets no symbol and no tuple is read up to `rest`, printing `out`, if and only if it is the mangled form of a type without them, printed as `out`, and `rest`; no text whose reading meets one begins with such a type |
| `DlangRoundTrip.SymbolsAreBeyond` | lib/libiberty/d-demangle.c:552-580 | A reading that comes to one of the letters I, C, S, E, T and B goes on, in the source, into what is not part of this model; here it ends without a result |
| `DlangRoundTrip.TypeRoundTrip` | lib/libiberty/d-demangle.c:454-697 | Every type without symbols is read back from its mangled form, whatever follows, and printed |
| `DlangRoundTrip.FunctionRoundTrip` | lib/libiberty/d-demangle.c:343-387 | Convention, attributes, parameters and result, in another order than they are printed |
| `DlangRoundTrip.ArgumentsRoundTrip` | lib/libiberty/d-demangle.c:392-449 | Parameters with their markers and any of the three ends |
| `DlangRoundTrip.AttributesRoundTrip` | lib/libiberty/d-demangle.c:278-338 | All attributes, where the markers of a parameter may follow |
| `DlangRoundTrip.ModifiersRoundTrip` | lib/libiberty/d-demangle.c:239-273 | The modifiers of a delegate |
| `DlangRoundTrip.TypeSound` | lib/libiberty/d-demangle.c:454-697 | A text that is accepted without meeting a symbol or a tuple is the mangled form of a type, and printed as that type is |
| `DlangRoundTrip.FunctionSound` | lib/libiberty/d-demangle.c:343-387 | The same for function types without symbols and tuples |
| `DlangRoundTrip.ArgumentsSound` | lib/libiberty/d-demangle.c:392-449 | The same for parameter lists without symbols and tuples; one that is left open at the end of the text reads as if Z followed |
| `DlangRoundTrip.MangleIsPrefixFree` | lib/libiberty/d-demangle.c:454-697 | No mangled type is a proper front of another: there is one reading |
| `DlangDemangler.DlangType` | lib/libiberty/d-demangle.c:454-697 | Appends exactly what the grammar prints, and stops where it stops |
| `DlangDemangler.DlangFunctionType` | lib/libiberty/d-demangle.c:343-387 | The parts are collected apart and appended in the printed order |
| `DlangDemangler.DlangFunctionArgs` | lib/libiberty/d-demangle.c:392-449 | The same for parameters |
| `DlangDemangler.DlangAttributes` | lib/libiberty/d-demangle.c:278-338 | The same for attributes |
| `DlangDemangler.DlangTypeModifiers` | lib/libiberty/d-demangle.c:239-273 | The same for modifiers |
| `DlangDemangler.DlangCallConvention` | lib/libiberty/d-demangle.c:199-235 | The same for call conventions |
| `DlangDemangler.DlangArrayType` | lib/libiberty/d-demangle.c:482-531 | The three array forms; the key of an associative array comes first in the text and last in the output |
| `DlangDemangler.DlangPointerType` | lib/libiberty/d-demangle.c:534-580 | Pointers, function pointers and delegates |
| `GrowStrings.GrowString.Need` | lib/libiberty/cplus-dem.c:4751-4773 | Room for as many characters, with the same contents |
| `GrowStrings.GrowString.AppendN` | lib/libiberty/cplus-dem.c:4834-4842 | The text is appended |
| `GrowStrings.GrowString.PrependN` | lib/libiberty/cplus-dem.c:4863-4878 | The text is put in front, moved up from its end |
| `GrowStrings.GrowString.SetLength` | lib/libiberty/d-demangle.c:112-119 | A shorter text, or the same |
| `CplusIterate.IterateDemangleFunction` | lib/libiberty/cplus-dem.c:2637-2701 | For any behaviour of the two trials: without a second split the result of the name trial, and otherwise that of the specification; nothing is changed when there is nothing to try |
| `CplusIterate.LeftmostSplitWins` | lib/libiberty/cplus-dem.c:2664-2694 | Success if and only if some split succeeds from the saved state; the result is that of the leftmost one, and a failure leaves the saved state |
| `CplusIterate.NextScanIsFirstSplit` | lib/libiberty/cplus-dem.c:2681-2688 | The next guess is the first "__" behind this run of underscores, or the end |
| `CplusIterate.TryAll` | lib/libiberty/cplus-dem.c:2656-2701 | The loop refines the specification |
| `CplusIterate.TrySplit` | lib/libiberty/cplus-dem.c:2664-2679 | A failed trial leaves declaration, cursor and tables as they were saved |
| `CplusIterate.LeaveUnderscores` | lib/libiberty/cplus-dem.c:2681-2688 | The pointer steps of the loop give the next guess |
| `CplusIterate.WorkStuff.CopyFrom` | lib/libiberty/cplus-dem.c:1251-1312 | A deep copy: equal contents in storage of its own |
| `CplusIterate.Demangling.Save` | lib/libiberty/cplus-dem.c:2656-2662 | The saved state shares nothing with the running one |
| `CplusIterate.Demangling.Restore` | lib/libiberty/cplus-dem.c:2674-2679 | The state is the saved one again |
| `Sections.Section.SetSubData` | src/Section.cc:129-158 | Data and log after an edit; an edit that is refused changes nothing |
| `Sections.Section.Prune` | src/Section.cc:143-157 | The two loops, which collect indices and remove them from the last one, leave the log without every region that a later one contains |
| `Sections.Section.ContainedIndices` | src/Section.cc:144-153 | Exactly the indices of the regions that a later one contains, ascending |
| `Sections.Section.RemoveAll` | src/Section.cc:154-157 | Removing from the last index on removes the regions that were meant |
| `Sections.PruningKeepsCover` | src/Section.cc:143-157 | Pruning does not change which positions are covered |
| `Sections.PruningKeepsOrder` | src/Section.cc:143-157 | What is kept is in the order it had |
| `Sections.PrunedIsAntichain` | src/Section.cc:143-157 | No kept region is contained in a later one |
| `Sections.PruningIsIdempotent` | src/Section.cc:143-157 | A log without such regions is left alone |
| `Sections.ApplyTracks` | src/Section.cc:129-158 | Every edit keeps the invariant that the log covers whatever differs from the original |
| `Sections.RunTracks` | src/Section.cc:129-158 | So does every run of edits; edits in bounds keep the size |
| `FormatWrite.Write` | src/formats/Format.cc:62-77 | The file after the loops over objects, sections and regions |
| `FormatWrite.WriteSection` | src/formats/Format.cc:66-73 | The file after the regions of one section |
| `FormatWrite.Device.Write` | src/formats/Format.cc:72-72 | Overwrites from the position on; a gap is filled with zeros |
| `FormatWrite.RegionsWrittenAt` | src/formats/Format.cc:66-73 | Replaying the log writes the current byte wherever the log covers one, and nothing else |
| `FormatWrite.WriteRebuildsFile` | src/formats/Format.cc:62-77 | With logs that track the file and disjoint ranges: every position holds the byte of its section, and all others are unchanged |
| `FormatWrite.EditsReachFile` | src/formats/Format.cc:62-77 | After any runs of edits in bounds on freshly read sections: the file with each range replaced by the current data |
| `ProjectPatches.SaveRegions` | src/widgets/MainWindow.cc:162-176 | The map after the loops over objects, their modified sections and the regions |
| `ProjectPatches.ApplyModifiedRegions` | src/widgets/MainWindow.cc:683-714 | The sections after the loops over sections and addresses, and whether any of them changed |
| `ProjectPatches.SavedEntryAt` | src/widgets/MainWindow.cc:170-174 | An address holds the last region that starts there, and no other address is touched |
| `ProjectPatches.RestoredExactlyWhereRegionsSurvive` | src/widgets/MainWindow.cc:683-714 | Saving and applying brings the edited data back if and only if every byte that differs is in a region that is the last with its start and that ends before the end of its section |
| `ProjectPatches.EditsSurviveProject` | src/Project.cc:79-125 | From any run of edits through the saved map, its keys in any order and the map that is read from them to the section again: readable if and only if all addresses are below 2^63, and then the data comes back if and only if the regions survive |
| `ProjectPatches.SaveAndOpen` | src/widgets/MainWindow.cc:162-714 | The same for the loops themselves: saving the regions of all objects, writing and reading the project, and applying it to the freshly read sections of one object |
| `ProjectPatches.OrdinaryEditsComeBack` | src/widgets/MainWindow.cc:683-714 | Distinct starts and ends before the end of the section are enough, after any run of edits |
| `ProjectPatches.ReadableExactlyWhen` | src/Project.cc:79-95 | What is read is the saved map when all addresses are below 2^63, and nothing otherwise |
| `ProjectPatches.LastByteIsLost` | src/widgets/MainWindow.cc:695-696 | A change of the last byte of a section is saved and never applied |
| `ProjectPatches.ShorterEditReplacesLonger` | src/Project.cc:225-228 | A shorter edit with the start of a longer one takes its place in the project, and the tail of the longer one is lost |
| `ProjectFile.Save` | src/Project.cc:111-125 | One decimal key for each address, with its tags or its bytes in hexadecimal |
| `ProjectFile.LoadTagTable` | src/Project.cc:60-77 | The table after all keys, or a refusal when one is no address |
| `ProjectFile.LoadRegionMap` | src/Project.cc:79-95 | The map after all keys, or a refusal |
| `ProjectFile.HexRoundTrip` | src/Project.cc:92-93 | Bytes are read back from their hexadecimal text |
| `ProjectFile.RegionsRoundTrip` | src/Project.cc:79-95 | Saved regions are read back, in any order of the keys, if and only if every address is below 2^63 |
| `ProjectFile.TagsRoundTrip` | src/Project.cc:60-77 | Saved tags are read back, in any order of the keys and but for addresses without tags, if and only if every address is below 2^63 |
| `ProjectFile.LargeAddressUnreadable` | src/Project.cc:66-68 | An address of 2^63 or more makes the whole project unreadable |
| `Numerals.DecimalRoundTrip` | src/Project.cc:117-117 | Numbers are read back from their decimal text |
| `Project.TagTable.AddAddressTag` | src/Project.cc:170-187 | A tag that is nowhere yet is appended; no tag is ever at two places |
| `Project.TagTable.RemoveAddressTags` | src/Project.cc:194-218 | Although each search stops at the first address, no occurrence of any of the tags is left; the answer says whether anything changed |
| `Project.RemovedAtOneAddress` | src/Project.cc:201-209 | As no tag is at two addresses, removing it at the first one removes it everywhere |
| `Project.WithoutTagsRemoves` | src/Project.cc:194-218 | The removed tags are gone at every address and all others are where they were |
| `Project.WithTagUnique` | src/Project.cc:170-187 | Adding keeps every tag at one place |
| `Project.WithoutTagsUnique` | src/Project.cc:194-218 | So does removing |
| `HexDump.AddrDataString` | src/Util.cc:232-278 | The text for any data and address: lines of 16 bytes, with the gap after eight, the padding and the printable characters |
| `HexDump.AddByte` | src/Util.cc:244-256 | One byte more in both parts of a row |
| `HexDump.EndRow` | src/Util.cc:258-271 | A row that ends is filled up |
| `HexEncoder.AddrHexAsciiEncoder.Start` | src/AddrHexAsciiEncoder.cc:30-57 | The queued tasks: chunks of as many bytes, the last of what is left |
| `HexEncoder.AddrHexAsciiEncoder.AddResult` | src/AddrHexAsciiEncoder.cc:64-80 | Collects, and with the last result sorts, joins and reports once |
| `HexEncoder.AddrHexAsciiEncoder.RunTask` | src/AddrHexAsciiEncoder.cc:19-23 | The piece of one chunk, with its own address |
| `HexEncoder.Encode` | src/AddrHexAsciiEncoder.cc:30-80 | For every number of threads and every order of arrival: reported once if and only if fewer results were kept than there are chunks; by a fresh encoder with the sequential text of the whole section |
| `HexEncoder.Assembled` | src/AddrHexAsciiEncoder.cc:70-79 | However the pieces arrive, sorted and joined they are the text of the data |
| `HexEncoder.ChunksPartition` | src/AddrHexAsciiEncoder.cc:40-52 | The chunks cover the data one after the other, without gap or overlap |
| `HexEncoder.ChunksJoin` | src/AddrHexAsciiEncoder.cc:76-78 | The texts of the chunks, joined, are the text of the whole |
| `HexEncoder.LinesSplit` | src/Util.cc:232-278 | Data cut after whole rows is printed as its two parts are |
| `HexEncoder.ArrivedSorts` | src/AddrHexAsciiEncoder.cc:72-75 | Any arrival order is sorted back into the order of the chunks |
| `HexEncoder.AscendingIsUnique` | src/AddrHexAsciiEncoder.cc:72-75 | There is one ascending order of the pieces |
| `HexEncoder.EncodeTwice` | src/AddrHexAsciiEncoder.cc:30-80 | A second run of the same encoder reports if and only if it has more chunks than the first, and then never the text of the section |
| `HexEncoder.JoinedLength` | src/AddrHexAsciiEncoder.cc:70-79 | The joined text is as long as its pieces, a line break between each two |
| `HexBlock.LineReadsBack` | src/widgets/HexEdit.cc:301-317 | A printed line gives back its address, its characters and, from its digits, its bytes |
| `HexBlock.DumpReadsBack` | src/widgets/HexEdit.cc:301-317 | So does every line of a whole dump, for its own row |
| `HexBlock.HexToData` | src/Util.cc:113-123 | Two digits a byte, and nothing at all when one of them is none |
| `HexBlock.DataReadsBack` | src/Util.cc:113-123 | The digits of a row give back its bytes |
| `HexBlock.UpperHexReadsBack` | src/widgets/HexEdit.cc:306-306 | An address is read back from its hexadecimal digits |
| `MachO.ParseHeader` | src/formats/MachO.cc:114-802 | Sections and symbol tables after the header and all load commands, at any offset |
| `MachO.FillData` | src/formats/MachO.cc:873-877 | Every section gets the bytes that the file holds at its place, as many as there are |
| `MachO.ReadCommands` | src/formats/MachO.cc:312-802 | The loop gives the sections of the specification and stands where it stands |
| `MachO.ReadCommand` | src/formats/MachO.cc:313-801 | One round; obsolete commands and cut-off ones end the parse |
| `MachO.ReadSegment` | src/formats/MachO.cc:329-479 | The inner loop over the sections of a segment |
| `MachO.ReadSection` | src/formats/MachO.cc:398-478 | Which of the sections are kept, and as what |
| `MachO.ReadBody` | src/formats/MachO.cc:328-801 | Which fields each kind of command has |
| `MachORoundTrip.ObjectReadsBack` | src/formats/MachO.cc:114-802 | A whole object file, in either word size and in the byte order that goes with its magic number, gives exactly the sections and tables of its commands, in order |
| `MachORoundTrip.CommandsReadBack` | src/formats/MachO.cc:312-802 | Any list of well-formed load commands gives its sections in order and ends where it ends |
| `MachORoundTrip.EachCommandStartsAtItsOffset` | src/formats/MachO.cc:312-317 | After k rounds the reader stands where command k begins |
| `MachORoundTrip.InPlaceExactlyWhen` | src/formats/MachO.cc:312-802 | For each kind of command but those with paths: the loop stands at the next one if and only if the size has the value that its fields, its section headers or its thread state take; never for those read by their size |
| `MachORoundTrip.SegmentEnd` | src/formats/MachO.cc:329-479 | Reading a segment ends behind its section headers, or with the file |
| `MachORoundTrip.PathInPlaceExactlyWhen` | src/formats/MachO.cc:622-656 | A path command is passed over if and only if its path stands right behind the numbers |
| `MachORoundTrip.SegmentReadsBack` | src/formats/MachO.cc:329-479 | A segment with all its sections is read back |
| `MachORoundTrip.BigEndianExactlyWhen` | src/formats/MachO.cc:118-142 | Four bytes make a file big endian if and only if they are EF DE AF EC or EF DE AF FC; those of a big-endian file are taken for 32 bits, little endian |
| `MachORoundTrip.BigEndianFileExactlyWhen` | src/formats/MachO.cc:118-142 | The byte order of a whole file is decided by its first four bytes in this way |
| `MachOSymbols.ReadSymbols` | src/formats/MachO.cc:808-848 | All entries of the symbol table, and their size |
| `MachOSymbols.MergeNames` | src/formats/MachO.cc:879-898 | Every symbol gets the name at its index of the string table |
| `MachOSymbols.NamesReadBack` | src/formats/MachO.cc:885-892 | Every name of a string table is read back from its offset |
| `MachOSymbols.MergeStubs` | src/formats/MachO.cc:900-919 | Every dynamic symbol gets the name of its symbol and the address of its stub |
| `MachOSymbols.StubsAreApart` | src/formats/MachO.cc:907-917 | Different stubs have different addresses, six bytes apart for each |
| `Reading.Reader.GetUInt` | src/Reader.cc:106-125 | The number of the next bytes in the byte order of the reader, or a failure; where the device stands in both cases |
| `Reading.UIntRoundTrip` | src/Reader.cc:106-125 | A number is read back from its bytes, in both byte orders |
| `Reading.PlacedSumIsUInt` | src/Reader.cc:114-122 | Adding up shifted bytes gives the number that they stand for, and never wraps around |
| `Reading.Reader.Read` | src/Reader.cc:65-68 | As many bytes as there are, and the position behind them |
| `CStrings.CStringReader.Next` | src/CStringReader.cc:11-41 | The next string and its offset, which only grows; once nothing is left it stays so |
| `CStrings.CStringReader.ReadAll` | src/CStringReader.cc:53-60 | All strings from here on |
| `CStrings.ReadStrings` | src/CStringReader.cc:53-60 | A fresh reader gives exactly the parts between zeros that are not empty, in order |
| `CStrings.StringsAreNonEmptyParts` | src/CStringReader.cc:11-60 | The same from any position, as a fact about splitting |
| `CStrings.SplitIsInverse` | src/CStringReader.cc:11-60 | Splitting at zeros is what joining with zeros undoes |
| `TreeSearch.SearchCursor.OnSearchReturnPressed` | src/widgets/TreeWidget.cc:262-296 | A new query starts at the first result, the same one goes on to the next; the cursor is always at a result, or nothing is found |
| `TreeSearch.SearchCursor.NextSearchResult` | src/widgets/TreeWidget.cc:320-347 | The cursor of the specification, the selection, and the column that looking it up adds |
| `TreeSearch.SearchCursor.PrevSearchResult` | src/widgets/TreeWidget.cc:349-375 | The same backwards |
| `TreeSearch.SearchCursor.SelectSearchResult` | src/widgets/TreeWidget.cc:298-318 | What is selected, if anything |
| `TreeSearch.NextHasNextRank` | src/widgets/TreeWidget.cc:320-347 | The next result has the next rank in the order by columns, and the first follows the last |
| `TreeSearch.PrevHasRankBefore` | src/widgets/TreeWidget.cc:349-375 | The previous one has the rank before |
| `TreeSearch.NextAndPrevAreInverse` | src/widgets/TreeWidget.cc:320-375 | Going on and going back undo each other, both ways |
| `TreeSearch.OnceAround` | src/widgets/TreeWidget.cc:320-347 | As many steps as there are results lead back to the same one |
| `TreeSearch.SearchFindsExactlyWhen` | src/widgets/TreeWidget.cc:262-296 | A query with matches is found if and only if it is not both the last one that was found and followed by a search that found nothing |
| `TreeSearch.SearchAgainAfterMiss` | src/widgets/TreeWidget.cc:262-296 | After a search that found nothing, repeating the one before it finds nothing either, although there are matches |
| `TreeSearch.MatchingHasAll` | src/widgets/TreeWidget.cc:275-282 | Every column with matches is among the results |
| `SdkVersionPatcher.KeptExactlyWhen` | src/Util.cc:416-424 | A version comes back from its encoding if and only if its major part has 16 bits and its minor part four |
| `SdkVersionPatcher.MinorSixteenIsLost` | src/Util.cc:416-424 | 10.16 comes back as 10.0 |
| `SdkVersionPatcher.LongReadsBack` | src/Util.cc:426-442 | The four bytes of a number, read little endian, are the number |
| `SdkVersionPatcher.MacSdkVersionPatcher.Parse` | src/MacSdkVersionPatcher.cc:52-80 | Valid exactly for eight bytes of a version section; both versions as the bytes have them |
| `SdkVersionPatcher.MacSdkVersionPatcher.SetTarget` | src/MacSdkVersionPatcher.cc:25-34 | Changes the first four bytes, and only when the version differs |
| `SdkVersionPatcher.MacSdkVersionPatcher.SetSdk` | src/MacSdkVersionPatcher.cc:41-50 | Changes the last four bytes, and only when the version differs |
| `SdkVersionPatcher.MacSdkVersionPatcher.Patch` | src/MacSdkVersionPatcher.cc:82-89 | Four bytes and one region in the log |
| `SdkVersionPatcher.SetAll` | src/MacSdkVersionPatcher.cc:25-89 | After any settings of versions that are kept, reading the section again gives the versions set last |

## Left out

- ItaniumParser.Info.TemplateArgs: arguments that are expressions or packs, and arguments in the middle of a nested name, are not among the trees; of those only the account is stated.
- ItaniumParser.Info.Encoding: what is kept of an encoding when parameters are not asked for (lib/libiberty/cp-demangle.c:1271-1303) is not modelled, because `Util::demangle` always asks for them.
- ItaniumParser.Info.Expression: which tree an expression gives is not stated, only the account and the flag.
- ItaniumParser.Info.Expression1: which tree an expression gives is not stated, only the account.
- ItaniumParser.Info.Operation: the trees of the operands are not stated, only the account.
- ItaniumParser.Info.BinaryOperation: the trees of the operands are not stated, only the kind of both components and the operator.
- ItaniumParser.Info.ExprList: the trees of the elements are not stated, only the account and that it is a list.
- ItaniumParser.Info.OperatorName: the type of a conversion and the name of a vendor operator are not stated; operators and conversions as names are not among the trees, nor are member functions with qualifiers.
- ItaniumParser.Info.SpecialName: the kind of the component is stated, but not the tree.
- ItaniumParser.Info.LocalNameProduction: the tree of a local name is not stated, only the account.
- ItaniumParser.Info.LambdaProduction: the trees of the parameters of a lambda are not stated, only the account; `NumberedLambda` states the component.
- ItaniumParser.Info.AbiTags: the texts of the tags and how they are nested are not stated, only that the result is a tagged name, the account and the last name.
- ItaniumParser.Info.JavaChunks: how the chunks are chained is not stated, only the account; `JavaChunk` states each of them.
- ItaniumParser.Info.ExtensionType: which tree a type behind 'D' gives is not stated, only the account and the kind of the component.
- ItaniumParser.Info.ConversionTemplate: which of the two readings is right is not stated, only what giving up restores.
- ItaniumParser.Info.StdUnqualifiedName: where a call has two calls among its arguments, they are made from left to right; C leaves the order open.
- ItaniumParser.Info.TrialTemplateArgs: after a trial with malformed arguments the last name may be left pointing at a slot that is free again, as in the source.
- ItaniumParser.Info.AttachQualifiers: how deep the change to an earlier type goes when its operands are shared again is not followed further.
- ItaniumParser.Info.Number: numbers are unbounded; the source computes them, and the expansion it estimates, in `long` and `int`.
- ItaniumParser.Info.HasReturnType: the walk over the component is bounded by the size of the arena, which it cannot exceed in a tree.
- ItaniumTrees.RefFunctionBuilt: of a function type with a reference qualifier that is a candidate, the tree keeps no more than the root, because a later qualifier may replace its operand.
- ItaniumPrint.PrintsSameExactlyWhen: prints are not connected to the components of the parser, so that its results are about prints and not about mangled names; which texts the other kinds of components print, the stack of modifiers, template parameters and packs are not modelled; a component is anything that prints texts and lists and looks at the last character.
- DlangRoundTrip.AcceptsExactlyMangledTypes: named types, tuples, values and templates of D are not modelled. Where the reading comes to one (`MeetsSymbol`), the source may accept a text that is no mangled type of this model; `TypeSound`, `FunctionSound` and `ArgumentsSound` say nothing about those texts.
- DlangRoundTrip.TypeSound: types with symbols and tuples are not modelled.
- DlangRoundTrip.FunctionSound: types with symbols and tuples are not modelled.
- DlangRoundTrip.ArgumentsSound: types with symbols and tuples are not modelled.
- CplusIterate.IterateDemangleFunction: the trials themselves, the type grammar and the styles of other compilers are not modelled; a trial is any change of the state.
- SdkVersionPatcher.MacSdkVersionPatcher.SetTarget: the version that is kept in the object is the one that was given, also when its encoding loses bits, as in the source; major versions from 32768 on are taken as they are and not as negative numbers.
- HexBlock.HexToData: the sign and the spaces that the conversion of a pair of characters also takes are not modelled.
- MachO.ParseHeader: the processor type, its bits and the file type's name are not kept in the object.
- MachO.ReadCommands: the contents of code sections' disassembly are not modelled; texts are bytes, without a conversion from UTF-8.
- MachO.ReadBody: the product that says how much of a thread command is skipped is taken in 64 bits without overflow of the signed factors.
- MachOSymbols.ReadSymbols: that the offsets of the symbol tables ignore where a slice of a fat file begins is kept, and fat headers themselves are not modelled.
- HexEncoder.Encode: results that arrive before all tasks have been queued are not modelled, and the data of the encoder does not change between two runs; of a report with results kept from before only the length of the text is stated.
- HexEncoder.AddrHexAsciiEncoder.AddResult: pieces with the same index, which only a second run has, are put in one order; sorting leaves it open in the source.
- ProjectPatches.SaveAndOpen: the regions of objects that are not opened are dropped from the project by the source as soon as those of one object have been applied, which is not followed further.
- Sections.Section.SetSubData: the hash of the replaced bytes and the time of the change are not modelled.
- ProjectFile.Save: the file is a map from keys to values, without the binary form of JSON; keys are decimal texts, and the version and the path of the binary are left out.
- FormatWrite.Write: the device never fails, and offsets are not limited to 32 bits.
- TreeSearch.SearchCursor.OnSearchReturnPressed: the matches of each column are given, and the query is trimmed already.
- Java mode, the demangling of Ada and of other compilers' styles, disassembly, debugging, widgets, settings and process launching are not modelled.
