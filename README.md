# BeefGen C-binding generator, modelled in Dafny

BeefGen reads a C header, parsed by CppSharp, and writes Beef source that
binds to it. The output has these parts, in this order:

- the `using` lines;
- a `<namespace>API` class holding one `[CLink, Import(dll)]` extern per C function;
- a `[AllowDuplicates]` enum per C enum;
- a `[CRepr]` struct per C struct, with a field-wise constructor;
- a `public function` alias per function-pointer type it collected;
- the closing brace.

This project models the core of that generator:

- the `GenBeefCBindings` class: transformers, type walks, the alias
  collection pass and the emitters;
- the `BindingContext` output buffer;
- the `StringHelpers.ReplaceWord` whole-word replacement.

It proves the output text each stage produces, and the properties of the
name and type-text transformers.

Modules, one file each:

- `Wrappers` (`wrappers.dfy`): `Option`.
- `SystemStrings` (`system_strings.dfy`): the .NET string operations used. These are `Split(char)`, `StartsWith`, `EndsWith`, `IsNullOrWhiteSpace`, ASCII `ToUpper`, joining, repetition and decimal text.
- `StringHelpers` (`string_helpers.dfy`): `ReplaceWord`, i.e. `Regex.Replace` with the pattern `\b<word>\b`. It is defined directly over positions, with `\w` taken as ASCII letters, digits and `_`.
- `OrderedDicts` (`ordered_dicts.dfy`): a .NET `Dictionary` that is only added to. It is a sequence of (key, value) pairs in insertion order, which is the order enumerating it yields. It covers `TryGetValue`, `d[k] = v` and `TryAdd`.
- `CppAst` (`cpp_ast.dfy`): the parsed header.
  - Type objects form a closed graph `map<TypeId, TypeNode>` addressed by identity. Typedef, pointer and array edges may form cycles.
  - `Desugar()`, `Type.ToString()` and `FunctionType.Equals` are uninterpreted. Each graph carries their results as data.
  - Translation units hold declarations.
- `TypeWalks` (`type_walks.dfy`): `GetCanonicalType`, `TryGetFunctionType`, `GetPointerDepth` and `PointerDepth`.
  - Each loop is a method, proved against a recursive function. The function terminates by the shrinking set of unvisited type objects.
  - Lemmas show that each function returns the first stop of the walk.
- `BindingContexts` (`binding_context.dfy`): class `BindingContext`, with fields `AST`, `TabIndex` and `OutputFile`, and `AppendString`.
- `BeefNames` (`beef_names.dfy`): `ConvertName`, `FixParamName` and `ConvertTypes`. These are the loops as methods, with the functions they are proved against.
- `BeefTypes` (`beef_types.dfy`): what `ResolveType`, `EmitParameter` and the struct field types produce, and the soundness invariant of `_resolvedTypeCache`.
- `BeefOutput` (`beef_output.dfy`): the text every emitter appends, as functions of the buffer before it. It also holds the collection pass as a function on the two alias tables, and the lemmas about both.
- `BeefGenerator` (`gen_beef_c_bindings.dfy`): class `GenBeefCBindings`. Its fields are `_functionAliases`, `_typeAliases`, `_resolvedTypeCache`, `_dllName`, `_namespace` and `Context`. Its methods follow the source one to one. Loop bodies are split into step methods, and each method is proved against the `BeefOutput` function for its text.

Where the source has a quirk, the model follows the code as written:

- the extern return type gets no pointer stars, while the alias return type does;
- typedef aliases overwrite; struct-field aliases use `TryAdd`;
- function-shaped types are never cached;
- an alias hit is passed through `ConvertTypes`;
- `GenerateStructs` resets `TabIndex` to 0, so the final brace is written at depth -1, with no tabs.

## Model

| member | source | states |
|---|---|---|
| BindingContexts.BindingContext.AppendString | BeefGen/Classes/Beef/BindingContext.cs:39-49 | the buffer becomes the old buffer followed by exactly the tab prefix, the input and one `\n`. The tab prefix is built by the loop. `TabIndex` is not in the frame, so it never changes |
| BindingContexts.BindingContext.constructor | BeefGen/Classes/Beef/BindingContext.cs:12-32 | a fresh context has tab depth 0 and an empty buffer |
| BindingContexts.TabPrefix | BeefGen/Classes/Beef/BindingContext.cs:41-46 | the prefix is all tabs: `TabIndex` of them, or none when `ignoreTab` is set or `TabIndex <= 0` |
| BindingContexts.LineShape | BeefGen/Classes/Beef/BindingContext.cs:41-48 | an appended line has length `max(TabIndex,0) + |input| + 1` (or `|input| + 1` when tabs are ignored). It is tabs, then the input verbatim, then a final `\n` |
| BindingContexts.EmptyLine | BeefGen/Classes/Beef/BindingContext.cs:39-48 | the default call `AppendString()` appends the tab prefix and a line feed only |
| StringHelpers.ReplaceWord | BeefGen/Classes/Extensions/StringHelpers.cs:15-18 | `Regex.Replace(original, \b<word>\b, replacement)`, as the scan `ReplaceFrom` from position 0; the lemmas below give its meaning |
| StringHelpers.ReplaceFrom | BeefGen/Classes/Extensions/StringHelpers.cs:18 | the regex engine's left-to-right scan: the leftmost match from position `i` is replaced and the scan resumes after it; after an empty match one character is copied |
| StringHelpers.ReplaceWordIgnoresOptions | BeefGen/Classes/Extensions/StringHelpers.cs:15-18 | the result is the same for every `regexOptions` argument, because it never reaches the regex |
| StringHelpers.ReplaceWordOfItself | BeefGen/Classes/Extensions/StringHelpers.cs:17-18 | a word whose first and last characters are word characters, replaced in itself, gives the replacement. "The original equal to the word gives the replacement" holds only under that condition, since `\b` must hold at both ends |
| StringHelpers.ReplaceWordEmptyNeverMatchesItself | BeefGen/Classes/Extensions/StringHelpers.cs:17-18 | the empty word does not match the empty text, because `\b` fails there. So the result is the empty text, not the (non-empty) replacement |
| StringHelpers.ReplaceWordInsideWord | BeefGen/Classes/Extensions/StringHelpers.cs:17-18 | within a text made only of word characters, a non-empty word is replaced only when it is the whole text, so `int` inside `int32` or `uint` stays |
| StringHelpers.ReplaceWordSkipsLongerWords | BeefGen/Classes/Extensions/StringHelpers.cs:17-18 | `int` is not replaced inside `int32` or `uint` |
| StringHelpers.ReplaceWordAroundSeparator | BeefGen/Classes/Extensions/StringHelpers.cs:17-18 | a non-word character splits the job: the replacement of `a + [c] + b` is that of `a`, then `c`, then that of `b`. So every whole-word occurrence is replaced, left to right |
| StringHelpers.ReplaceWordEveryOccurrence | BeefGen/Classes/Extensions/StringHelpers.cs:17-18 | `"int int"` becomes `"int32 int32"` |
| StringHelpers.ReplaceFromNoOccurrence | BeefGen/Classes/Extensions/StringHelpers.cs:18 | with no match from position `i` on, the rest of the text is copied unchanged |
| StringHelpers.ReplaceWordNoOccurrence | BeefGen/Classes/Extensions/StringHelpers.cs:18 | a text with no whole-word occurrence is returned unchanged |
| StringHelpers.ReplaceWordAbsentChar | BeefGen/Classes/Extensions/StringHelpers.cs:18 | a text lacking some character of the word is returned unchanged |
| SystemStrings.AsciiToUpper | BeefGen/Classes/Beef/GenBeefCBindings.cs:585 | lower-case ASCII letters move 32 code points down; every other character is kept |
| SystemStrings.EmptyOrWhiteSpaceEverywhere | BeefGen/Classes/Beef/GenBeefCBindings.cs:376 | `IsNullOrWhiteSpace` holds exactly when every character is white space, including on the empty text |
| SystemStrings.Split | BeefGen/Classes/Beef/GenBeefCBindings.cs:570 | `Split` always yields at least one part |
| SystemStrings.SplitProperties | BeefGen/Classes/Beef/GenBeefCBindings.cs:570 | no part contains the separator. The last part is empty exactly when the text is empty or ends in the separator. There is one part exactly when the separator is absent |
| SystemStrings.StartsWith | BeefGen/Classes/Beef/GenBeefCBindings.cs:553 | `s.StartsWith(p)`: `p` is a prefix of `s`, compared character by character |
| SystemStrings.EndsWith | BeefGen/Classes/Beef/GenBeefCBindings.cs:556 | `s.EndsWith(p)`: `p` is a suffix of `s`, compared character by character |
| SystemStrings.IsWhiteSpace | BeefGen/Classes/Beef/GenBeefCBindings.cs:376 | `Char.IsWhiteSpace`: the Unicode space, line and paragraph separators, U+0009 to U+000D and U+0085 |
| SystemStrings.IsEmptyOrWhiteSpace | BeefGen/Classes/Beef/GenBeefCBindings.cs:376 | `string.IsNullOrWhiteSpace` on a non-null string, read from the front; `EmptyOrWhiteSpaceEverywhere` gives its meaning |
| SystemStrings.Join | BeefGen/Classes/Beef/GenBeefCBindings.cs:318-322 | the parts with the separator between consecutive ones, as the `StringBuilder` loops build them (see also lines 501-507) |
| SystemStrings.Repeat | BeefGen/Classes/Beef/GenBeefCBindings.cs:449-451 | `n` copies of one character |
| SystemStrings.DecimalText | BeefGen/Classes/Beef/GenBeefCBindings.cs:131 | `{item.Value}`: a non-empty string of decimal digits that denotes exactly the value, with no leading zero unless the value is 0 |
| BeefNames.Capitalize | BeefGen/Classes/Beef/GenBeefCBindings.cs:583-587 | a segment keeps its length; its first character is upper-cased and the rest is unchanged |
| BeefNames.ConvertName | BeefGen/Classes/Beef/GenBeefCBindings.cs:568-607 | the two loops compute the concatenation of the split segments: each capitalised, except the first when `isParam` is set |
| BeefNames.JoinParamSegments | BeefGen/Classes/Beef/GenBeefCBindings.cs:574-590 | the `isParam` loop concatenates every segment, each written as `ConvertName` specifies for a parameter |
| BeefNames.AppendParamSegment | BeefGen/Classes/Beef/GenBeefCBindings.cs:576-589 | one turn of that loop: the first segment is appended verbatim (the `continue`), a later one capitalized |
| BeefNames.JoinPascalSegments | BeefGen/Classes/Beef/GenBeefCBindings.cs:595-604 | the `foreach` loop concatenates every segment, each capitalized |
| BeefNames.CapitalizeSegment | BeefGen/Classes/Beef/GenBeefCBindings.cs:598-602 | an empty segment is kept; otherwise its first character is upper-cased and the rest kept |
| BeefNames.ConvertNameByChars | BeefGen/Classes/Beef/GenBeefCBindings.cs:568-607 | the same result, character by character: every `_` dropped, and a character upper-cased exactly when it begins a segment (not the first segment when `isParam` is set) |
| BeefNames.ConvertNameRemovesUnderscores | BeefGen/Classes/Beef/GenBeefCBindings.cs:570-604 | the result contains no `_` |
| BeefNames.ConvertNameWithoutUnderscore | BeefGen/Classes/Beef/GenBeefCBindings.cs:570-604 | a name with no `_` comes back verbatim as a parameter, or with its first letter upper-cased otherwise |
| BeefNames.ConvertNameExamples | BeefGen/Classes/Beef/GenBeefCBindings.cs:568-607 | `foo_bar_baz` gives `FooBarBaz`, or `fooBarBaz` as a parameter; `""` gives `""` |
| BeefNames.FixParamName | BeefGen/Classes/Beef/GenBeefCBindings.cs:374-386 | a blank name becomes `value`, `this` becomes `allocator`, another keyword gets `Value` appended. The result is never a keyword, and a name that is neither blank nor a keyword is kept |
| BeefNames.FixParamNameResult | BeefGen/Classes/Beef/GenBeefCBindings.cs:35-38 | the fixed name is never empty, never white space only and never a Beef keyword |
| BeefNames.FixParamNameKeepsOrdinaryNames | BeefGen/Classes/Beef/GenBeefCBindings.cs:374-386 | a name comes back unchanged exactly when it is not blank and not a keyword |
| BeefNames.FixParamNameIdempotent | BeefGen/Classes/Beef/GenBeefCBindings.cs:374-386 | fixing twice is fixing once |
| BeefNames.FixParamNameCollision | BeefGen/Classes/Beef/GenBeefCBindings.cs:382-385 | `in` and `inValue` are both fixed to `inValue`, so two distinct parameters can clash |
| BeefNames.TableEntry | BeefGen/Classes/Beef/GenBeefCBindings.cs:526-551 | the 26 substitutions in their listed order; no searched word is empty |
| BeefNames.ConvertTypes | BeefGen/Classes/Beef/GenBeefCBindings.cs:524-560 | the 26 reassignments, then the two prefix strips, compute the table applied in order and then the strips by fixed offset. The precondition is that the text is long enough for `Remove` not to throw |
| BeefNames.ApplyRangeKeepsOtherWord | BeefGen/Classes/Beef/GenBeefCBindings.cs:526-551 | a word-only text that equals none of the searched words passes the table unchanged |
| BeefNames.ConvertTypesUnchanged | BeefGen/Classes/Beef/GenBeefCBindings.cs:524-560 | text with no whole-word table match and neither prefix comes back unchanged (and does not throw) |
| BeefNames.SubstitutedTableWord | BeefGen/Classes/Beef/GenBeefCBindings.cs:526-551 | a table word whose replacement no later entry rewrites converts to that replacement |
| BeefNames.ConvertTypesUnsignedChar | BeefGen/Classes/Beef/GenBeefCBindings.cs:526 | `unsigned char` gives `uint8` |
| BeefNames.ConvertTypesInt | BeefGen/Classes/Beef/GenBeefCBindings.cs:541 | `int` gives `int32` |
| BeefNames.ConvertTypesStripsByOffset | BeefGen/Classes/Beef/GenBeefCBindings.cs:553-554 | the `const` strip drops six characters whatever they are, so a word such as `constraint` loses its sixth character (`r`) too and becomes `aint` |
| BeefNames.ConvertTypesOfEmpty | BeefGen/Classes/Beef/GenBeefCBindings.cs:170 | an empty field type converts to the empty text (see also line 196) |
| BeefNames.NameByCharsKeepsWord | BeefGen/Classes/Beef/GenBeefCBindings.cs:568-607 | converting a word-only name gives a word-only name |
| BeefNames.FunctionAliasNameIsStable | BeefGen/Classes/Beef/GenBeefCBindings.cs:193 | for a word-only field name, the alias key `ConvertName(name) + "Fn"` is left unchanged by `ConvertTypes` and by `ConvertName`. So the alias line and a field's type name agree with the key (see also lines 239, 283, 301) |
| BeefNames.FnSuffixIsStable | BeefGen/Classes/Beef/GenBeefCBindings.cs:239 | a word with no `_` that does not start in lower case is stable under both conversions once `Fn` is appended (see also line 301) |
| BeefNames.WordEndingInNIsTypeStable | BeefGen/Classes/Beef/GenBeefCBindings.cs:524-560 | a word ending in `n` and not starting in lower case passes `ConvertTypes` unchanged, since no table word ends in `n` |
| BeefNames.UnderscoreFreeCapitalIsNameStable | BeefGen/Classes/Beef/GenBeefCBindings.cs:595-604 | a name with no `_` that does not start in lower case is a fixed point of `ConvertName` |
| TypeWalks.DerivedNext | BeefGen/Classes/Beef/GenBeefCBindings.cs:347-363 | a typedef, pointer or array steps to a type object of the graph; any other node is a stop |
| TypeWalks.CanonicalFrom | BeefGen/Classes/Beef/GenBeefCBindings.cs:341-366 | the walk with a visited set ends on a type object of the graph, on every graph, cyclic ones included |
| TypeWalks.CanonicalType | BeefGen/Classes/Beef/GenBeefCBindings.cs:339-367 | null in gives null out; otherwise a type object of the graph |
| TypeWalks.GetCanonicalType | BeefGen/Classes/Beef/GenBeefCBindings.cs:339-367 | the while loop over the visited `HashSet` computes `CanonicalType` |
| TypeWalks.CanonicalFromTrail | BeefGen/Classes/Beef/GenBeefCBindings.cs:341-366 | from any point of the walk, the result is the walk's first stop: a revisit or a non-derived node |
| TypeWalks.CanonicalIsFirstStop | BeefGen/Classes/Beef/GenBeefCBindings.cs:339-367 | the canonical type is the node reached at the first step that is a revisit or a non-derived node |
| TypeWalks.CanonicalOfNonDerived | BeefGen/Classes/Beef/GenBeefCBindings.cs:361-362 | a non-derived type is its own canonical type |
| TypeWalks.CanonicalOfSelfTypedef | BeefGen/Classes/Beef/GenBeefCBindings.cs:345 | a typedef naming itself stops at the revisit and is its own canonical type (see also lines 349-351) |
| TypeWalks.FnLayerOf | BeefGen/Classes/Beef/GenBeefCBindings.cs:404-421 | after desugaring, a pointer or typedef continues to a type object of the graph; a function is found; anything else, arrays included, fails |
| TypeWalks.FunctionTypeFrom | BeefGen/Classes/Beef/GenBeefCBindings.cs:397-425 | a found function type is a `Function` node of the graph, on every graph, cyclic ones included |
| TypeWalks.FunctionTypeOf | BeefGen/Classes/Beef/GenBeefCBindings.cs:394-426 | only a non-null type can yield a function type, and what it yields is a `Function` node |
| TypeWalks.TryGetFunctionType | BeefGen/Classes/Beef/GenBeefCBindings.cs:394-426 | the loop computes `FunctionTypeOf`, and returns true exactly when `fn` is set |
| TypeWalks.FunctionTypeFromTrail | BeefGen/Classes/Beef/GenBeefCBindings.cs:397-425 | from any point of the walk, the verdict is the one at the walk's first stop |
| TypeWalks.FunctionTypeIsFirstStop | BeefGen/Classes/Beef/GenBeefCBindings.cs:394-426 | the result is decided at the first revisit, function node or non-continuing layer: false on a revisit and on any other layer |
| TypeWalks.FunctionTypeStopsAtArray | BeefGen/Classes/Beef/GenBeefCBindings.cs:420-421 | arrays are not followed: a type that desugars to an array yields no function type |
| TypeWalks.FunctionTypeThroughPointer | BeefGen/Classes/Beef/GenBeefCBindings.cs:408-418 | a pointer to something that desugars to a function yields that function |
| TypeWalks.GetPointerDepth | BeefGen/Classes/Beef/GenBeefCBindings.cs:460-471 | the counter loop computes `PointerDepthOf` |
| TypeWalks.PointerLayersExact | BeefGen/Classes/Beef/GenBeefCBindings.cs:464-468 | the counted layers are all pointers, and the first node after them is not |
| TypeWalks.PointerDepthCountsOutermostLayers | BeefGen/Classes/Beef/GenBeefCBindings.cs:460-471 | the depth is exactly the number of outermost consecutive pointer layers; typedefs are not looked through |
| TypeWalks.PointerDepth | BeefGen/Classes/Beef/GenBeefCBindings.cs:447-453 | the loop yields `max(n, 0)` stars |
| BeefTypes.BaseName | BeefGen/Classes/Beef/GenBeefCBindings.cs:242-250 | the `switch` on the canonical type: a builtin's primitive name, a typedef's or tag's declaration name, otherwise the type's `ToString()` |
| BeefTypes.ResolveBase | BeefGen/Classes/Beef/GenBeefCBindings.cs:242-253 | what `ResolveType` returns for a type that is not function-shaped: `ConvertTypes` of the `BaseName` of its canonical type, independent of the aliases |
| BeefTypes.ResolveSpec | BeefGen/Classes/Beef/GenBeefCBindings.cs:229-254 | what `ResolveType` returns: for a function-shaped type, the converted name of the first alias with an equal function type, or `void*`; otherwise `ResolveBase` |
| BeefTypes.ParamText | BeefGen/Classes/Beef/GenBeefCBindings.cs:433-440 | `EmitParameter`'s text: the resolved type, one `*` per outermost pointer layer, a space and `FixParamName(ConvertName(name, true))` |
| BeefTypes.FieldTypeName | BeefGen/Classes/Beef/GenBeefCBindings.cs:167-194 | `finalType` of a field: `ConvertName(name) + "Fn"` for a pointer whose pointee desugars to a function, otherwise `StructTypeName` of its canonical type |
| BeefTypes.StructTypeName | BeefGen/Classes/Beef/GenBeefCBindings.cs:170-185 | the name of a builtin or typedef is used; a pointer, array, function or other type leaves the field type empty; a tag yields its declaration's name or nothing |
| BeefTypes.Canonical | BeefGen/Classes/Beef/GenBeefCBindings.cs:168 | the canonical type of a non-null type object, as `GetCanonicalType` returns it (see also line 242) |
| BeefTypes.FirstMatch | BeefGen/Classes/Beef/GenBeefCBindings.cs:236-237 | `FirstOrDefault`: the first alias whose function type equals the given one, with no earlier match, or none at all |
| BeefTypes.CacheSoundInsert | BeefGen/Classes/Beef/GenBeefCBindings.cs:252 | caching a type that is not function-shaped, under the text resolving it gives, keeps every cache entry equal to its uncached result |
| BeefGenerator.GenBeefCBindings.ResolveType | BeefGen/Classes/Beef/GenBeefCBindings.cs:229-254 | the result is given by the cases below, whether or not the cache was hit, so resolving a type twice gives the same text: <br>- a function-shaped type gives `ConvertTypes` of the first alias with an equal function type, or `void*`, and the cache is untouched; <br>- any other type gives `ConvertTypes` of its canonical type's name; <br>- on a miss that text is added to the cache; <br>- the cache stays sound |
| BeefGenerator.ResolveFunctionAlias | BeefGen/Classes/Beef/GenBeefCBindings.cs:234-240 | the alias branch: the converted first matching alias name, or `void*` |
| BeefGenerator.ResolveCanonical | BeefGen/Classes/Beef/GenBeefCBindings.cs:242-250 | the `switch` on the canonical type converts its builtin, typedef or tag name, or its `ToString()` |
| BeefGenerator.GenBeefCBindings.EmitParameter | BeefGen/Classes/Beef/GenBeefCBindings.cs:433-440 | the resolved type, then exactly `GetPointerDepth` stars, a space, and `FixParamName(ConvertName(name, true))` |
| BeefGenerator.GenBeefCBindings.EmitParameters | BeefGen/Classes/Beef/GenBeefCBindings.cs:305-307 | one parameter text per parameter, in order (see also lines 488-490) |
| BeefGenerator.JoinParameters | BeefGen/Classes/Beef/GenBeefCBindings.cs:318-322 | the loop joins the parameter texts with `", "` (see also lines 501-507) |
| BeefOutput.ParamTexts | BeefGen/Classes/Beef/GenBeefCBindings.cs:305-307 | one text per parameter (see also lines 488-490) |
| BeefGenerator.GenBeefCBindings.GenerateUsings | BeefGen/Classes/Beef/GenBeefCBindings.cs:104-112 | the two `using` lines, a blank line, the `namespace` line and a blank line, at the current depth |
| BeefGenerator.GenBeefCBindings.GenerateFunctions | BeefGen/Classes/Beef/GenBeefCBindings.cs:477-516 | in declaration order: two lines per function that is neither inline nor an operator, namely the `[CLink, Import(dll)]` line and the extern line, then a blank line. The cache stays sound |
| BeefGenerator.GenBeefCBindings.EmitExtern | BeefGen/Classes/Beef/GenBeefCBindings.cs:481-512 | the body of the function loop: nothing for an inline function or an operator, otherwise the import line, the extern line and a blank line |
| BeefGenerator.GenBeefCBindings.ExternText | BeefGen/Classes/Beef/GenBeefCBindings.cs:484-509 | `public static extern <resolved return type> <ConvertName(name)>(<parameters>);`. The return type has no pointer stars |
| BeefOutput.ExternLine | BeefGen/Classes/Beef/GenBeefCBindings.cs:484-509 | `public static extern <ResolveType(return)> <ConvertName(name)>(<parameter texts joined by ", ">);`, with no stars on the return type |
| BeefOutput.ExternDropsReturnPointer | BeefGen/Classes/Beef/GenBeefCBindings.cs:495-498 | a function returning `T*` and one returning `T` get the same extern line, although the return type's pointer depth is 1 |
| BeefGenerator.GenBeefCBindings.GenerateEnums | BeefGen/Classes/Beef/GenBeefCBindings.cs:118-140 | every enum in order. Each gets its comment if any, `[AllowDuplicates]`, the `public enum` line and the braces. Between them come its items, one level deeper: each item's `// ` comment if any, then its `case` line. After the enum, a blank line. The depth is restored |
| BeefGenerator.GenBeefCBindings.EmitEnum | BeefGen/Classes/Beef/GenBeefCBindings.cs:122-136 | one enum's text; the depth comes back to where it was |
| BeefGenerator.GenBeefCBindings.EmitItems | BeefGen/Classes/Beef/GenBeefCBindings.cs:128-132 | the item loop appends each item's lines in order |
| BeefGenerator.GenBeefCBindings.GenerateStructs | BeefGen/Classes/Beef/GenBeefCBindings.cs:146-222 | the depth is set to 0. The struct text is written for every declaration whose class (its original when present) is a struct, in order. The depth is back at 0 |
| BeefGenerator.GenBeefCBindings.EmitStructDeclaration | BeefGen/Classes/Beef/GenBeefCBindings.cs:151-154 | a declaration that is not a class, or whose emitted class is not a struct, writes nothing |
| BeefGenerator.GenBeefCBindings.EmitStruct | BeefGen/Classes/Beef/GenBeefCBindings.cs:156-218 | one struct: the header, the fields, the constructor line, the assignments and the closing braces. The depth comes back to where it started |
| BeefGenerator.GenBeefCBindings.EmitStructOpen | BeefGen/Classes/Beef/GenBeefCBindings.cs:156-206 | the header, the field lines and the constructor line with its brace, at the right depths; returns the assignment dictionary |
| BeefGenerator.GenBeefCBindings.EmitStructHeader | BeefGen/Classes/Beef/GenBeefCBindings.cs:156-158 | `[CRepr]`, `public struct <name>` and `{` at the current depth |
| BeefGenerator.GenBeefCBindings.EmitCtorOpen | BeefGen/Classes/Beef/GenBeefCBindings.cs:204-206 | the constructor line closed by `)`, then `{` |
| BeefGenerator.GenBeefCBindings.EmitStructClose | BeefGen/Classes/Beef/GenBeefCBindings.cs:207-218 | the assignments two levels deeper than the struct, the two closing braces one level apart, and a blank line; the depth returns to the struct's |
| BeefGenerator.GenBeefCBindings.EmitFields | BeefGen/Classes/Beef/GenBeefCBindings.cs:161-202 | the field loop. It writes one declaration and a blank line per field, in order. It yields `public this(` followed by the constructor parameters joined by `", "`, and the dictionary built by `TryAdd` of each field's Pascal- and camel-case names |
| BeefGenerator.GenBeefCBindings.EmitField | BeefGen/Classes/Beef/GenBeefCBindings.cs:167-201 | one field: its declaration, its constructor parameter (followed by `", "` unless it is the last field), and its `TryAdd` |
| BeefGenerator.GenBeefCBindings.EmitFieldDeclaration | BeefGen/Classes/Beef/GenBeefCBindings.cs:167-197 | `public <ConvertTypes(finalType)> <ConvertName(name)>;` and a blank line |
| BeefGenerator.GenBeefCBindings.FieldTypeNameOf | BeefGen/Classes/Beef/GenBeefCBindings.cs:167-194 | `finalType` is the canonical type's name, or `ConvertName(name)+"Fn"` when the field is a direct pointer to a function |
| BeefGenerator.GenBeefCBindings.EmitAssignments | BeefGen/Classes/Beef/GenBeefCBindings.cs:209-210 | one `this.<key> = <value>;` line per dictionary entry, in insertion order |
| BeefOutput.CtorParams | BeefGen/Classes/Beef/GenBeefCBindings.cs:199 | one constructor parameter per field |
| BeefOutput.CtorLineStep | BeefGen/Classes/Beef/GenBeefCBindings.cs:199-201 | appending a field's parameter, and then `", "` unless it is the last field, extends the joined parameter list by that field. So the list mirrors the field order |
| BeefOutput.NamePairs | BeefGen/Classes/Beef/GenBeefCBindings.cs:200 | one name pair per field |
| BeefOutput.NamePairsAt | BeefGen/Classes/Beef/GenBeefCBindings.cs:200 | the pair offered for field `k` is its Pascal-case name with its camel-case name |
| BeefOutput.StructAssignmentsOncePerName | BeefGen/Classes/Beef/GenBeefCBindings.cs:200 | the assignments name each key once, and their keys are exactly the fields' Pascal-case names (see also lines 209-210) |
| BeefOutput.NamePairsKeys | BeefGen/Classes/Beef/GenBeefCBindings.cs:200 | a name is offered exactly when it is some field's Pascal-case name |
| BeefOutput.StructAssignmentOfField | BeefGen/Classes/Beef/GenBeefCBindings.cs:200 | every field's Pascal-case name is assigned, from the camel-case name of the first field with that Pascal-case name (see also lines 209-210) |
| BeefOutput.StructAssignmentsInFieldOrder | BeefGen/Classes/Beef/GenBeefCBindings.cs:209-210 | the assignments come in the order of each name's first occurrence among the fields |
| BeefOutput.FunctionPointerFieldMatchesAlias | BeefGen/Classes/Beef/GenBeefCBindings.cs:187-196 | a field that is a direct pointer to a function is typed with exactly its alias name `ConvertName(name)+"Fn"`. That name is stable under `ConvertName`, and its function type is what the collection pass stored (see also lines 283-285) |
| BeefGenerator.GenBeefCBindings.CollectAliasesAndFunctions | BeefGen/Classes/Beef/GenBeefCBindings.cs:259-291 | the loop applies the collection step to every declaration in order, and keeps the tables usable: convertible keys, function values, distinct keys |
| BeefGenerator.GenBeefCBindings.CollectDeclaration | BeefGen/Classes/Beef/GenBeefCBindings.cs:263-289 | one declaration's effect on the two tables; other declarations leave them unchanged |
| BeefGenerator.GenBeefCBindings.CollectFieldAliases | BeefGen/Classes/Beef/GenBeefCBindings.cs:278-286 | the field loop: a `TryAdd` of `ConvertName(field)+"Fn"` for every function-shaped field, in order |
| BeefOutput.CollectTypedef | BeefGen/Classes/Beef/GenBeefCBindings.cs:265-274 | a function-shaped typedef sets its name in the function table to its function type. Any other typedef sets its name in the type table to the converted type text. The other table, and every other name, is untouched |
| BeefOutput.CollectAllLastTypedefWins | BeefGen/Classes/Beef/GenBeefCBindings.cs:261-270 | a function typedef's entry survives to the end unless a later function typedef of the same name overwrites it |
| BeefOutput.CollectDeclKeepsAlias | BeefGen/Classes/Beef/GenBeefCBindings.cs:263-289 | only a function typedef of the same name can change an existing function alias; a struct field never does |
| BeefOutput.FieldAliasesOnlyAppend | BeefGen/Classes/Beef/GenBeefCBindings.cs:278-286 | the field loop only appends. Every appended entry is a function-shaped field's alias name paired with that field's function type |
| BeefOutput.FieldAliasesKeepExisting | BeefGen/Classes/Beef/GenBeefCBindings.cs:285 | an existing entry keeps its value through the field loop |
| BeefOutput.FieldAliasesCoverFields | BeefGen/Classes/Beef/GenBeefCBindings.cs:280-285 | every function-shaped field's alias name is a key afterwards |
| BeefOutput.FieldAliasesKeepReady | BeefGen/Classes/Beef/GenBeefCBindings.cs:278-286 | the field loop keeps the table's keys convertible and distinct and its values function types |
| BeefOutput.CollectDeclKeepsReady | BeefGen/Classes/Beef/GenBeefCBindings.cs:263-289 | one declaration's step keeps both tables usable |
| BeefOutput.CollectAllKeepsReady | BeefGen/Classes/Beef/GenBeefCBindings.cs:261-290 | the whole pass keeps both tables usable |
| BeefGenerator.GenBeefCBindings.GenerateAliases | BeefGen/Classes/Beef/GenBeefCBindings.cs:297-332 | for every function alias in insertion order: `public function <ret><stars> <ConvertName(key)>(<params joined by ", ">);` and a blank line. The cache stays sound |
| BeefGenerator.GenBeefCBindings.EmitAlias | BeefGen/Classes/Beef/GenBeefCBindings.cs:299-329 | the loop body appends the `k`-th alias's lines after those of the first `k` |
| BeefOutput.AliasLine | BeefGen/Classes/Beef/GenBeefCBindings.cs:301-326 | `public function <ResolveType(return)><stars> <ConvertName(key)>(<parameter texts joined by ", ">);`, the stars counting the return type's pointer depth |
| BeefGenerator.GenBeefCBindings.AliasText | BeefGen/Classes/Beef/GenBeefCBindings.cs:301-326 | the alias line, with the return type's pointer stars |
| BeefGenerator.GenBeefCBindings.IncreaseTab | BeefGen/Classes/Beef/GenBeefCBindings.cs:612 | the depth goes up by one |
| BeefGenerator.GenBeefCBindings.DecreaseTab | BeefGen/Classes/Beef/GenBeefCBindings.cs:617 | the depth goes down by one, below zero included |
| BeefGenerator.GenBeefCBindings.GenerateClassHeader | BeefGen/Classes/Beef/GenBeefCBindings.cs:80-82 | the usings, `public class <namespace>API` and `{` |
| BeefGenerator.GenBeefCBindings.GenerateClassBody | BeefGen/Classes/Beef/GenBeefCBindings.cs:83-92 | in order: the externs one level deeper, the enums, the structs and aliases at depth 0, and `}` at depth -1 with no tabs. The depth ends at -1 |
| BeefGenerator.GenBeefCBindings.GenerateBindings | BeefGen/Classes/Beef/GenBeefCBindings.cs:74-98 | the stage order from the parsed header to the finished buffer. The tables are the collection pass over all declarations, the buffer is the header followed by the class body, every stage succeeds, and the depth ends at -1 |
| BeefGenerator.GenBeefCBindings.constructor | BeefGen/Classes/Beef/GenBeefCBindings.cs:62-67 | stores the names and runs `GenerateBindings` from empty tables and an empty cache |
| OrderedDicts.Keys | BeefGen/Classes/Beef/GenBeefCBindings.cs:20 | the keys in insertion order, one per pair |
| OrderedDicts.Lookup | BeefGen/Classes/Beef/GenBeefCBindings.cs:231 | `TryGetValue` finds a value exactly when the key is present, and the value is one stored with it |
| OrderedDicts.Set | BeefGen/Classes/Beef/GenBeefCBindings.cs:269 | `d[k] = v` keeps the key order, appending `k` only if it is new, and afterwards `k` maps to `v` (see also line 273) |
| OrderedDicts.LookupSetOther | BeefGen/Classes/Beef/GenBeefCBindings.cs:269 | `d[k] = v` leaves every other key's value as it was (see also line 273) |
| OrderedDicts.SetPairs | BeefGen/Classes/Beef/GenBeefCBindings.cs:269 | every pair after `d[k] = v` is `(k, v)` or was already there (see also line 273) |
| OrderedDicts.SetKeepsKeysDistinct | BeefGen/Classes/Beef/GenBeefCBindings.cs:200 | neither `d[k] = v` nor `TryAdd` makes a key occur twice (see also lines 269, 285) |
| OrderedDicts.TryAdd | BeefGen/Classes/Beef/GenBeefCBindings.cs:200 | an existing key leaves the dictionary as it was; a new key is appended (see also line 285) |
| OrderedDicts.TryAddKeepsExisting | BeefGen/Classes/Beef/GenBeefCBindings.cs:285 | `TryAdd` never changes an existing key's value |
| OrderedDicts.LookupAppend | BeefGen/Classes/Beef/GenBeefCBindings.cs:200 | looking up after appending a pair finds the old value of an existing key, the new value for the new key, and nothing otherwise (see also line 285) |
| OrderedDicts.FirstIndex | BeefGen/Classes/Beef/GenBeefCBindings.cs:200 | the position of a key's first occurrence among the offered pairs |
| OrderedDicts.TryAddAllKeys | BeefGen/Classes/Beef/GenBeefCBindings.cs:200 | a run of `TryAdd`s yields distinct keys, exactly those offered |
| OrderedDicts.TryAddAllFirstWins | BeefGen/Classes/Beef/GenBeefCBindings.cs:200 | after a run of `TryAdd`s a key holds the first value offered for it |
| OrderedDicts.TryAddAllOrder | BeefGen/Classes/Beef/GenBeefCBindings.cs:200 | the resulting keys come in the order of their first offer (see also line 209) |

## Left out

- The `Parse` call, `File.WriteAllText` and `Console.WriteLine` in `GenerateBindings` (BeefGen/Classes/Beef/GenBeefCBindings.cs:76, 94-95) are I/O. `GenerateBindings` takes the parsed `Ast` as a parameter and ends with the finished buffer.
- BeefGen/Classes/Parsing/CParser.cs, BeefGen/Program.cs and the two interface files are not part of this model. They are the parser wrapper, the entry point and declarations without behaviour.
- `BindingContext.Parser` is left out; it is only used by the `Parse` call.
- The AST is never null in the model. The source dereferences it unchecked (`AST!`) and would throw after a failed parse.
- CppSharp stays uninterpreted:
  - `Desugar()`, `Type.ToString()` and the printed names of `PrimitiveType` are data carried by the graph;
  - `FunctionType.Equals` is equality on a signature key;
  - `unit.Enums` and `unit.Functions` are the enumerations and functions among `unit.Declarations`, in order;
  - `OriginalClass` is an optional original body.
- The .NET regex engine is not modelled. `ReplaceWord` is whole-word replacement over the literal word, with `\w` taken as ASCII letters, digits and `_`. Every word `ConvertTypes` passes is a plain literal.
- `string.StartsWith(string)` and `string.EndsWith(string)` in `ConvertTypes` (BeefGen/Classes/Beef/GenBeefCBindings.cs:553-556) compare by the current culture in .NET, skipping ignorable characters. The model compares ordinally, character by character.
- Type objects are keys by identity (`TypeId`) in the `visited` sets of the type walks and in `_resolvedTypeCache`. CppSharp's `Type.Equals`/`GetHashCode` are not modelled there; only `FunctionType.Equals` (line 237) is modelled, as equality of a signature key.
- `ToUpper` is culture- and Unicode-aware in .NET; the model upper-cases ASCII letters only.
- Enum item values are non-negative integers in the model. CppSharp's `ulong`, and its formatting beyond decimal digits, are not modelled.
- `_typeAliases` is filled by the collection pass but never emitted, as in the source. The model keeps it and proves how it is filled.
- `GetPointerDepth` loops forever on a cycle of pointer types. The model requires `PointersFinite` (no pointer cycle) wherever parameter or alias pointer depths are computed.
- `ConvertTypes` throws when `Remove(0, 6)` or `Remove(0, 9)` runs past the end of the text, e.g. for `const` or `unsigned` alone. `ConvertTypesDefined` is the model's precondition for it. `NodesConvertible` asks it of the canonical base name of every type object. Those are exactly the names that `ResolveType` and `ResolveCanonical` (GenBeefCBindings.cs:242-250) convert. `FieldTypesConvertible` and the non-function branch of `DeclReady` ask it only of texts that are always converted. Alias keys are different. `KeysConvertible`, `FieldAliasesConvertible` and the function-typedef branch of `DeclReady` ask it of every alias key, converted or not. In the source, a key is converted only when `ResolveType` picks it as the first match (GenBeefCBindings.cs:236-239). These predicates are required by `ResolveType`, `EmitParameter`, the struct and function emitters, the constructor and `GenerateBindings` (through `AstReady`). So the model excludes a header whose function typedef is named like `const_unsigned` even when no type ever resolves to it. The exception path itself is not modelled.
- BeefNames.ConvertTypesSpec: it is total, and it is stated only where `ConvertTypesDefined` holds; the text it gives where the source throws is not meaningful.
- BeefGenerator.GenBeefCBindings.EmitField: `field != ast.Fields.Last()` compares field objects by reference. The model compares positions, so a struct listing the very same field object twice is not modelled.
- BeefGenerator.GenBeefCBindings.ExternText: the source resolves the return type before the parameters, and the model does the same. The cache's order of insertion is otherwise not observable, and it is not stated.
- BeefGenerator.GenBeefCBindings.GenerateBindings: it requires the alias tables to be usable (`TablesReady`) and the cache to be sound on entry. Both hold for the empty tables and empty cache the constructor starts from.
- Ghost parameters such as the graph, the alias table and the tab depth name state the method already reads. They only let the contracts speak about it and do not change what is computed.
