/**
 * The name and type-text transformers of the generator: `ConvertName`
 * (snake_case to Pascal or camel case), `FixParamName` (reserved words) and
 * `ConvertTypes` (the ordered table of whole-word substitutions, then the
 * `const`/`unsigned` prefix strip).
 */
module BeefNames {
  import opened SystemStrings
  import opened StringHelpers

  // ---------------------------------------------------------------------------
  // ConvertName
  // ---------------------------------------------------------------------------

  /** A segment with its first character upper-cased (`paramName[0].ToString().ToUpper() + paramName.Remove(0, 1)`). */
  function Capitalize(seg: string): (r: string)
    ensures |r| == |seg|
    ensures seg != [] ==> r[0] == AsciiToUpper(seg[0]) && r[1..] == seg[1..]
  {
    if seg == [] then [] else [AsciiToUpper(seg[0])] + seg[1..]
  }

  /** How segment number `index` is written: the first segment of a parameter verbatim, any other capitalized. */
  function SegmentText(seg: string, index: nat, isParam: bool): string {
    if isParam && index == 0 then seg else Capitalize(seg)
  }

  /** The segments, each written by `SegmentText`, concatenated. */
  function ConcatSegments(segs: seq<string>, isParam: bool): string {
    if segs == [] then []
    else ConcatSegments(segs[..|segs| - 1], isParam) + SegmentText(segs[|segs| - 1], |segs| - 1, isParam)
  }

  /** What `ConvertName(input, isParam)` returns. */
  function ConvertNameSpec(input: string, isParam: bool): string {
    ConcatSegments(Split(input, '_'), isParam)
  }

  method ConvertName(input: string, isParam: bool := false) returns (output: string)
    ensures output == ConvertNameSpec(input, isParam)
  {
    var splitInput := Split(input, '_');
    if isParam {
      output := JoinParamSegments(splitInput);
      return output;
    }
    output := JoinPascalSegments(splitInput);
  }

  /** The `isParam` loop of `ConvertName`: the first segment verbatim, every later one capitalized. */
  method JoinParamSegments(splitInput: seq<string>) returns (output: string)
    ensures output == ConcatSegments(splitInput, true)
  {
    output := [];
    var i := 0;
    while i < |splitInput|
      invariant 0 <= i <= |splitInput|
      invariant output == ConcatSegments(splitInput[..i], true)
    {
      ConcatSegmentsStep(splitInput, i, true);
      output := AppendParamSegment(output, splitInput, i);
      i := i + 1;
    }
    assert splitInput[..i] == splitInput;
  }

  /** One turn of the `isParam` loop: segment `i` appended, verbatim when it is the first (the `continue`). */
  method AppendParamSegment(output: string, splitInput: seq<string>, i: nat) returns (next: string)
    requires i < |splitInput|
    ensures next == output + SegmentText(splitInput[i], i, true)
  {
    var paramName := splitInput[i];
    if i == 0 {
      next := output + paramName;
      return next;
    }
    paramName := CapitalizeSegment(paramName);
    next := output + paramName;
  }

  /** The other loop of `ConvertName`: every segment capitalized. */
  method JoinPascalSegments(splitInput: seq<string>) returns (output: string)
    ensures output == ConcatSegments(splitInput, false)
  {
    output := [];
    var k := 0;
    while k < |splitInput|
      invariant 0 <= k <= |splitInput|
      invariant output == ConcatSegments(splitInput[..k], false)
    {
      var name := splitInput[k];
      var paramName := CapitalizeSegment(name);
      ConcatSegmentsStep(splitInput, k, false);
      output := output + paramName;
      k := k + 1;
    }
    assert splitInput[..k] == splitInput;
  }

  /** The loop bodies' upper-casing of a non-empty segment's first character. */
  method CapitalizeSegment(name: string) returns (paramName: string)
    ensures paramName == Capitalize(name)
  {
    paramName := name;
    if |name| > 0 {
      var toUpper := [AsciiToUpper(paramName[0])];
      paramName := toUpper + paramName[1..];
    }
  }

  /** One more segment appends its text. */
  lemma ConcatSegmentsStep(segs: seq<string>, i: nat, isParam: bool)
    requires i < |segs|
    ensures ConcatSegments(segs[..i + 1], isParam) == ConcatSegments(segs[..i], isParam) + SegmentText(segs[i], i, isParam)
  {
    assert segs[..i + 1][..i] == segs[..i];
  }

  /**
   * An independent, character-by-character reading of `ConvertName`: every
   * `_` is dropped, the character after a `_` is upper-cased, and so is the
   * very first character unless the name is a parameter's.
   */
  function CaseAt(s: string, i: nat, isParam: bool): char
    requires i < |s|
  {
    if (i == 0 && !isParam) || (i > 0 && s[i - 1] == '_') then AsciiToUpper(s[i]) else s[i]
  }

  function NameByChars(s: string, isParam: bool): string {
    if s == [] then []
    else NameByChars(s[..|s| - 1], isParam) + (if s[|s| - 1] == '_' then [] else [CaseAt(s, |s| - 1, isParam)])
  }

  lemma ConcatSegmentsSnoc(segs: seq<string>, x: string, isParam: bool)
    ensures ConcatSegments(segs + [x], isParam) == ConcatSegments(segs, isParam) + SegmentText(x, |segs|, isParam)
  {
    assert (segs + [x])[..|segs|] == segs;
  }

  lemma CapitalizeSnoc(seg: string, c: char)
    requires seg != []
    ensures Capitalize(seg + [c]) == Capitalize(seg) + [c]
  {
    assert (seg + [c])[1..] == seg[1..] + [c];
  }

  lemma NameByCharsSnoc(init: string, c: char, isParam: bool)
    ensures NameByChars(init + [c], isParam)
      == NameByChars(init, isParam) + (if c == '_' then [] else [CaseAt(init + [c], |init|, isParam)])
  {
    assert (init + [c])[..|init|] == init;
  }

  lemma SplitSnoc(init: string, c: char)
    ensures var parts := Split(init, '_');
      Split(init + [c], '_')
        == if c == '_' then parts + [[]] else parts[..|parts| - 1] + [parts[|parts| - 1] + [c]]
  {
    assert (init + [c])[..|init|] == init;
  }

  /** Adding a non-separator to the last segment adds its character-level rendering to that segment's text. */
  lemma LastSegmentSnoc(init: string, c: char, isParam: bool)
    requires c != '_'
    ensures var parts := Split(init, '_');
      SegmentText(parts[|parts| - 1] + [c], |parts| - 1, isParam)
        == SegmentText(parts[|parts| - 1], |parts| - 1, isParam) + [CaseAt(init + [c], |init|, isParam)]
  {
    var parts := Split(init, '_');
    var last := parts[|parts| - 1];
    if last == [] {
      assert last + [c] == [c];
      assert Capitalize([c]) == [AsciiToUpper(c)];
      if init == [] {
        assert |parts| == 1;
      } else {
        assert init[|init| - 1] == '_';
        assert '_' in init;
        assert |parts| != 1;
      }
    } else {
      CapitalizeSnoc(last, c);
      assert init != [] && init[|init| - 1] != '_';
    }
  }

  lemma ConvertNameSnocSeparator(init: string, isParam: bool)
    requires ConvertNameSpec(init, isParam) == NameByChars(init, isParam)
    ensures ConvertNameSpec(init + ['_'], isParam) == NameByChars(init + ['_'], isParam)
  {
    NameByCharsSnoc(init, '_', isParam);
    SplitSnoc(init, '_');
    ConcatSegmentsSnoc(Split(init, '_'), [], isParam);
  }

  /** A non-separator joins the last segment: the text gains that character's rendering at the end. */
  lemma ConvertNameSnocLastSegment(init: string, c: char, isParam: bool)
    requires c != '_'
    ensures var parts := Split(init, '_');
      ConvertNameSpec(init + [c], isParam)
        == ConcatSegments(parts[..|parts| - 1], isParam) + SegmentText(parts[|parts| - 1], |parts| - 1, isParam)
           + [CaseAt(init + [c], |init|, isParam)]
  {
    var parts := Split(init, '_');
    var p := parts[..|parts| - 1];
    var last := parts[|parts| - 1];
    SplitSnoc(init, c);
    ConcatSegmentsSnoc(p, last + [c], isParam);
    LastSegmentSnoc(init, c, isParam);
  }

  lemma ConvertNameSnocOther(init: string, c: char, isParam: bool)
    requires c != '_'
    requires ConvertNameSpec(init, isParam) == NameByChars(init, isParam)
    ensures ConvertNameSpec(init + [c], isParam) == NameByChars(init + [c], isParam)
  {
    var parts := Split(init, '_');
    var p := parts[..|parts| - 1];
    var last := parts[|parts| - 1];
    assert parts == p + [last];
    ConvertNameSnocLastSegment(init, c, isParam);
    ConcatSegmentsSnoc(p, last, isParam);
    NameByCharsSnoc(init, c, isParam);
  }

  /** `ConvertName` agrees with the character-level reading on every input. */
  lemma {:induction false} ConvertNameByChars(s: string, isParam: bool)
    ensures ConvertNameSpec(s, isParam) == NameByChars(s, isParam)
    decreases |s|
  {
    if s != [] {
      var init := s[..|s| - 1];
      assert s == init + [s[|s| - 1]];
      ConvertNameByChars(init, isParam);
      if s[|s| - 1] == '_' {
        ConvertNameSnocSeparator(init, isParam);
      } else {
        ConvertNameSnocOther(init, s[|s| - 1], isParam);
      }
    } else {
      ConcatSegmentsSnoc([], [], isParam);
      assert [] + [[]] == Split(s, '_');
    }
  }

  /** Every `_` is removed. */
  lemma {:induction false} NameByCharsHasNoUnderscore(s: string, isParam: bool)
    ensures '_' !in NameByChars(s, isParam)
    decreases |s|
  {
    if s != [] {
      NameByCharsHasNoUnderscore(s[..|s| - 1], isParam);
    }
  }

  /** `ConvertName` removes every `_`. */
  lemma ConvertNameRemovesUnderscores(s: string, isParam: bool)
    ensures '_' !in ConvertNameSpec(s, isParam)
  {
    ConvertNameByChars(s, isParam);
    NameByCharsHasNoUnderscore(s, isParam);
  }

  /** The empty name stays empty, and a name without `_` only has its first character changed. */
  lemma ConvertNameWithoutUnderscore(s: string, isParam: bool)
    requires '_' !in s
    ensures ConvertNameSpec(s, isParam) == if isParam then s else Capitalize(s)
  {
    SplitWithoutSeparator(s);
    ConcatSegmentsSnoc([], s, isParam);
    assert [] + [s] == [s];
  }

  lemma {:induction false} SplitWithoutSeparator(s: string)
    requires '_' !in s
    ensures Split(s, '_') == [s]
    decreases |s|
  {
    if s != [] {
      SplitWithoutSeparator(s[..|s| - 1]);
      assert s == s[..|s| - 1] + [s[|s| - 1]];
    }
  }

  lemma {:induction false} SplitAfterSeparator(a: string, b: string)
    requires '_' !in b
    ensures Split(a + "_" + b, '_') == Split(a, '_') + [b]
    decreases |b|
  {
    if b == [] {
      assert a + "_" + b == a + ['_'];
      SplitSnoc(a, '_');
    } else {
      var b' := b[..|b| - 1];
      assert b == b' + [b[|b| - 1]];
      assert a + "_" + b == (a + "_" + b') + [b[|b| - 1]];
      SplitAfterSeparator(a, b');
      SplitSnoc(a + "_" + b', b[|b| - 1]);
    }
  }

  /** Three words without `_`, joined by `_`, split back into those words. */
  lemma SplitThreeWords(a: string, b: string, c: string)
    requires '_' !in a && '_' !in b && '_' !in c
    ensures Split(a + "_" + b + "_" + c, '_') == [a, b, c]
  {
    SplitWithoutSeparator(a);
    SplitAfterSeparator(a, b);
    SplitAfterSeparator(a + "_" + b, c);
    assert [a] + [b] + [c] == [a, b, c];
  }

  lemma ConcatThreeSegments(isParam: bool)
    ensures ConcatSegments(["foo", "bar", "baz"], isParam) == SegmentText("foo", 0, isParam) + "Bar" + "Baz"
  {
    ConcatSegmentsSnoc([], "foo", isParam);
    assert [] + ["foo"] == ["foo"];
    ConcatSegmentsSnoc(["foo"], "bar", isParam);
    assert ["foo"] + ["bar"] == ["foo", "bar"];
    ConcatSegmentsSnoc(["foo", "bar"], "baz", isParam);
    assert ["foo", "bar"] + ["baz"] == ["foo", "bar", "baz"];
    assert Capitalize("bar") == "Bar" && Capitalize("baz") == "Baz";
  }

  /** `"foo_bar_baz"` becomes `"FooBarBaz"`, or `"fooBarBaz"` as a parameter; `""` stays `""`. */
  lemma ConvertNameExamples()
    ensures ConvertNameSpec("foo_bar_baz", false) == "FooBarBaz"
    ensures ConvertNameSpec("foo_bar_baz", true) == "fooBarBaz"
    ensures ConvertNameSpec("", false) == "" && ConvertNameSpec("", true) == ""
  {
    SplitThreeWords("foo", "bar", "baz");
    assert "foo" + "_" + "bar" + "_" + "baz" == "foo_bar_baz";
    ConcatThreeSegments(false);
    ConcatThreeSegments(true);
    assert SegmentText("foo", 0, false) == "Foo";
    assert "Foo" + "Bar" + "Baz" == "FooBarBaz";
    assert "foo" + "Bar" + "Baz" == "fooBarBaz";
    ConvertNameWithoutUnderscore("", false);
    ConvertNameWithoutUnderscore("", true);
  }

  // ---------------------------------------------------------------------------
  // FixParamName
  // ---------------------------------------------------------------------------

  /** `BeefKeywords`: the reserved words kept out of parameter names. */
  const BeefKeywords: set<string> := {"in", "out", "ref", "mut", "this", "params", "delegate"}

  /** `FixParamName`: a blank name becomes `value`, `this` becomes `allocator`, another keyword gets `Value` appended. */
  function FixParamName(name: string): (r: string)
    ensures r !in BeefKeywords
    ensures !IsEmptyOrWhiteSpace(name) && name !in BeefKeywords ==> r == name
  {
    if IsEmptyOrWhiteSpace(name) then "value"
    else if name == "this" then "allocator"
    else if name in BeefKeywords then
      var v := name + "Value";
      assert v[|v| - 2..] == "ue";
      v
    else name
  }

  /** A fixed name is never blank and never a keyword. */
  lemma FixParamNameResult(name: string)
    ensures var r := FixParamName(name); r != [] && !IsEmptyOrWhiteSpace(r) && r !in BeefKeywords
  {
    if !IsEmptyOrWhiteSpace(name) && name != "this" && name in BeefKeywords {
      var r := name + "Value";
      EmptyOrWhiteSpaceEverywhere(r);
      assert !IsWhiteSpace(r[|name|]);
    }
  }

  /** A name passes through unchanged exactly when it is not blank and not a keyword. */
  lemma FixParamNameKeepsOrdinaryNames(name: string)
    ensures FixParamName(name) == name <==> !IsEmptyOrWhiteSpace(name) && name !in BeefKeywords
  {
    FixParamNameResult(name);
  }

  /** Fixing a fixed name changes nothing. */
  lemma FixParamNameIdempotent(name: string)
    ensures FixParamName(FixParamName(name)) == FixParamName(name)
  {
    FixParamNameResult(name);
    FixParamNameKeepsOrdinaryNames(FixParamName(name));
  }

  /** The suffix can collide with a name that already carries it. */
  lemma FixParamNameCollision()
    ensures FixParamName("in") == FixParamName("inValue")
  {
    assert !IsEmptyOrWhiteSpace("inValue") by { assert !IsWhiteSpace("inValue"[0]); }
  }

  // ---------------------------------------------------------------------------
  // ConvertTypes
  // ---------------------------------------------------------------------------

  /** The number of substitutions `ConvertTypes` applies. */
  const TableSize: nat := 26

  /** Substitution number `k` of `ConvertTypes`, in order: the whole word, then its Beef spelling. */
  function TableEntry(k: nat): (e: (string, string))
    requires k < TableSize
    ensures |e.0| > 0
  {
    match k
    case 0 => ("unsigned char", "uint8")
    case 1 => ("uint32_t", "uint32")
    case 2 => ("int32_t", "int32")
    case 3 => ("UChar", "uint8")
    case 4 => ("ULong", "uint64")
    case 5 => ("UShort", "uint16")
    case 6 => ("Short", "int16")
    case 7 => ("Long", "int64")
    case 8 => ("unsigned int", "uint32")
    case 9 => ("char", "char8")
    case 10 => ("Char", "char8")
    case 11 => ("long", "int32")
    case 12 => ("va_list", "void*")
    case 13 => ("short", "uint16")
    case 14 => ("Bool", "bool")
    case 15 => ("int", "int32")
    case 16 => ("INT", "int32")
    case 17 => ("UInt", "uint32")
    case 18 => ("Int", "int32")
    case 19 => ("STRING", "char8*")
    case 20 => ("FLOAT", "float")
    case 21 => ("DOUBLE", "double")
    case 22 => ("Void", "void")
    case 23 => ("ULongLong", "uint64")
    case 24 => ("LongLong", "int64")
    case _ => ("WideChar", "char16")
  }

  /** `s` after the table entries `lo..hi` have been applied in order. */
  function ApplyRange(s: string, lo: nat, hi: nat): string
    requires lo <= hi <= TableSize
    decreases hi
  {
    if hi == lo then s else ReplaceWord(ApplyRange(s, lo, hi - 1), TableEntry(hi - 1).0, TableEntry(hi - 1).1)
  }

  /** The text after all 26 substitutions. */
  function Substituted(s: string): string {
    ApplyRange(s, 0, TableSize)
  }

  /** `Remove(0, 6)` after a `const` prefix and `Remove(0, 9)` after an `unsigned` one can be carried out. */
  predicate StripDefined(t: string) {
    && (StartsWith(t, "const") ==> |t| >= 6)
    && var u := if StartsWith(t, "const") then t[6..] else t;
      StartsWith(u, "unsigned") && !EndsWith(u, "int") ==> |u| >= 9
  }

  /**
   * The fixed-offset prefix strip at the end of `ConvertTypes`. Where a
   * `Remove` would run past the end (outside `StripDefined`) the value is
   * empty; `ConvertTypes` itself is only called where it is defined.
   */
  function StripPrefixes(t: string): string {
    var u := if !StartsWith(t, "const") then t else if |t| >= 6 then t[6..] else [];
    if !StartsWith(u, "unsigned") || EndsWith(u, "int") then u else if |u| >= 9 then u[9..] else []
  }

  /** `ConvertTypes(input)` does not throw: neither `Remove` runs past the end of the text. */
  predicate ConvertTypesDefined(input: string) {
    StripDefined(Substituted(input))
  }

  /** What `ConvertTypes(input)` returns. */
  function ConvertTypesSpec(input: string): string {
    StripPrefixes(Substituted(input))
  }

  method ConvertTypes(text: string) returns (input: string)
    requires ConvertTypesDefined(text)
    ensures input == ConvertTypesSpec(text)
  {
    input := text;
    input := ReplaceWord(input, "unsigned char", "uint8");
    assert input == ApplyRange(text, 0, 1);
    input := ReplaceWord(input, "uint32_t", "uint32");
    assert input == ApplyRange(text, 0, 2);
    input := ReplaceWord(input, "int32_t", "int32");
    assert input == ApplyRange(text, 0, 3);
    input := ReplaceWord(input, "UChar", "uint8");
    assert input == ApplyRange(text, 0, 4);
    input := ReplaceWord(input, "ULong", "uint64");
    assert input == ApplyRange(text, 0, 5);
    input := ReplaceWord(input, "UShort", "uint16");
    assert input == ApplyRange(text, 0, 6);
    input := ReplaceWord(input, "Short", "int16");
    assert input == ApplyRange(text, 0, 7);
    input := ReplaceWord(input, "Long", "int64");
    assert input == ApplyRange(text, 0, 8);
    input := ReplaceWord(input, "unsigned int", "uint32");
    assert input == ApplyRange(text, 0, 9);
    input := ReplaceWord(input, "char", "char8");
    assert input == ApplyRange(text, 0, 10);
    input := ReplaceWord(input, "Char", "char8");
    assert input == ApplyRange(text, 0, 11);
    input := ReplaceWord(input, "long", "int32");
    assert input == ApplyRange(text, 0, 12);
    input := ReplaceWord(input, "va_list", "void*");
    assert input == ApplyRange(text, 0, 13);
    input := ReplaceWord(input, "short", "uint16");
    assert input == ApplyRange(text, 0, 14);
    input := ReplaceWord(input, "Bool", "bool");
    assert input == ApplyRange(text, 0, 15);
    input := ReplaceWord(input, "int", "int32");
    assert input == ApplyRange(text, 0, 16);
    input := ReplaceWord(input, "INT", "int32");
    assert input == ApplyRange(text, 0, 17);
    input := ReplaceWord(input, "UInt", "uint32");
    assert input == ApplyRange(text, 0, 18);
    input := ReplaceWord(input, "Int", "int32");
    assert input == ApplyRange(text, 0, 19);
    input := ReplaceWord(input, "STRING", "char8*");
    assert input == ApplyRange(text, 0, 20);
    input := ReplaceWord(input, "FLOAT", "float");
    assert input == ApplyRange(text, 0, 21);
    input := ReplaceWord(input, "DOUBLE", "double");
    assert input == ApplyRange(text, 0, 22);
    input := ReplaceWord(input, "Void", "void");
    assert input == ApplyRange(text, 0, 23);
    input := ReplaceWord(input, "ULongLong", "uint64");
    assert input == ApplyRange(text, 0, 24);
    input := ReplaceWord(input, "LongLong", "int64");
    assert input == ApplyRange(text, 0, 25);
    input := ReplaceWord(input, "WideChar", "char16");
    assert input == ApplyRange(text, 0, 26);

    if StartsWith(input, "const") {
      input := input[6..];
    }
    if StartsWith(input, "unsigned") && !EndsWith(input, "int") {
      input := input[9..];
    }
  }

  /** Applying the entries in two runs is applying them in one. */
  lemma {:induction false} ApplyRangeSplit(s: string, lo: nat, mid: nat, hi: nat)
    requires lo <= mid <= hi <= TableSize
    ensures ApplyRange(s, lo, hi) == ApplyRange(ApplyRange(s, lo, mid), mid, hi)
    decreases hi
  {
    if hi > mid {
      ApplyRangeSplit(s, lo, mid, hi - 1);
    }
  }

  /** A single word that is none of the entries `lo..hi` goes through them unchanged. */
  lemma {:induction false} ApplyRangeKeepsOtherWord(t: string, lo: nat, hi: nat)
    requires lo <= hi <= TableSize && IsWord(t)
    requires forall i :: lo <= i < hi ==> TableEntry(i).0 != t
    ensures ApplyRange(t, lo, hi) == t
    decreases hi
  {
    if hi > lo {
      ApplyRangeKeepsOtherWord(t, lo, hi - 1);
      ReplaceWordInsideWord(t, TableEntry(hi - 1).0, TableEntry(hi - 1).1);
    }
  }

  /** Text with no whole-word occurrence of any table word goes through the substitutions unchanged. */
  lemma {:induction false} ApplyRangeNoOccurrence(s: string, hi: nat)
    requires hi <= TableSize
    requires forall i, j :: 0 <= i < TableSize && 0 <= j <= |s| ==> !OccursAt(s, TableEntry(i).0, j)
    ensures ApplyRange(s, 0, hi) == s
    decreases hi
  {
    if hi > 0 {
      ApplyRangeNoOccurrence(s, hi - 1);
      ReplaceWordNoOccurrence(s, TableEntry(hi - 1).0, TableEntry(hi - 1).1);
    }
  }

  /** Text containing no table word and starting with neither `const` nor `unsigned` comes back unchanged. */
  lemma ConvertTypesUnchanged(s: string)
    requires forall i, j :: 0 <= i < TableSize && 0 <= j <= |s| ==> !OccursAt(s, TableEntry(i).0, j)
    requires !StartsWith(s, "const") && !StartsWith(s, "unsigned")
    ensures ConvertTypesDefined(s) && ConvertTypesSpec(s) == s
  {
    ApplyRangeNoOccurrence(s, TableSize);
  }

  /**
   * A single word that first matches entry `k` of the table comes out as that
   * entry's replacement, provided the replacement is a word no later entry
   * names.
   */
  lemma SubstitutedTableWord(t: string, k: nat)
    requires k < TableSize && t == TableEntry(k).0
    requires IsWordChar(t[0]) && IsWordChar(t[|t| - 1]) && (k > 0 ==> IsWord(t))
    requires forall i :: 0 <= i < k ==> TableEntry(i).0 != t
    requires IsWord(TableEntry(k).1)
    requires forall i :: k < i < TableSize ==> TableEntry(i).0 != TableEntry(k).1
    requires StripDefined(TableEntry(k).1) && StripPrefixes(TableEntry(k).1) == TableEntry(k).1
    ensures Substituted(t) == TableEntry(k).1
    ensures ConvertTypesDefined(t) && ConvertTypesSpec(t) == TableEntry(k).1
  {
    var r := TableEntry(k).1;
    ApplyRangeSplit(t, 0, k, TableSize);
    ApplyRangeSplit(ApplyRange(t, 0, k), k, k + 1, TableSize);
    if k > 0 {
      ApplyRangeKeepsOtherWord(t, 0, k);
    }
    ReplaceWordOfItself(t, r);
    assert ApplyRange(t, k, k + 1) == r;
    ApplyRangeKeepsOtherWord(r, k + 1, TableSize);
  }

  /** `"unsigned char"` becomes `"uint8"`. */
  lemma ConvertTypesUnsignedChar()
    ensures ConvertTypesDefined("unsigned char") && ConvertTypesSpec("unsigned char") == "uint8"
  {
    var s := "unsigned char";
    assert TableEntry(0) == ("unsigned char", "uint8");
    assert IsWordChar(s[0]) && IsWordChar(s[|s| - 1]);
    assert IsWord("uint8");
    assert forall i :: 0 < i < TableSize ==> TableEntry(i).0 != "uint8";
    assert !StartsWith("uint8", "const") by {
      assert "uint8"[..5][0] == 'u';
    }
    assert !StartsWith("uint8", "unsigned");
    SubstitutedTableWord(s, 0);
  }

  /** `"int"` becomes `"int32"`: entry 15 rewrites it and no later entry touches `"int32"`. */
  lemma ConvertTypesInt()
    ensures ConvertTypesDefined("int") && ConvertTypesSpec("int") == "int32"
  {
    var s := "int";
    assert TableEntry(15) == ("int", "int32");
    assert IsWordChar(s[0]) && IsWordChar(s[|s| - 1]) && IsWord(s);
    assert forall i :: 0 <= i < 15 ==> TableEntry(i).0 != s;
    assert IsWord("int32");
    assert forall i :: 15 < i < TableSize ==> TableEntry(i).0 != "int32";
    assert !StartsWith("int32", "const") && !StartsWith("int32", "unsigned") by {
      assert "int32"[..5][0] == 'i';
    }
    SubstitutedTableWord(s, 15);
  }

  /**
   * The strip works by fixed offsets, not by words: an identifier outside the
   * table that merely starts with `const` (such as `constraint`) loses its
   * first six characters.
   */
  lemma ConvertTypesStripsByOffset(t: string)
    requires IsWord(t) && StartsWith(t, "const") && |t| >= 6 && !StartsWith(t[6..], "unsigned")
    requires forall i :: 0 <= i < TableSize ==> TableEntry(i).0 != t
    ensures ConvertTypesDefined(t) && ConvertTypesSpec(t) == t[6..]
  {
    ApplyRangeKeepsOtherWord(t, 0, TableSize);
  }

  // ---------------------------------------------------------------------------
  // The names of function-pointer aliases
  // ---------------------------------------------------------------------------

  /** Converting an identifier yields an identifier. */
  lemma {:induction false} NameByCharsKeepsWord(s: string, isParam: bool)
    requires IsWord(s)
    ensures IsWord(NameByChars(s, isParam))
    decreases |s|
  {
    if s != [] {
      NameByCharsKeepsWord(s[..|s| - 1], isParam);
    }
  }

  /** A converted type or function name never starts with a lower-case letter; it is empty only when nothing follows the last `_`. */
  lemma {:induction false} NameByCharsLeadingCase(s: string)
    ensures NameByChars(s, false) == [] ==> s == [] || s[|s| - 1] == '_'
    ensures NameByChars(s, false) != [] ==> !('a' <= NameByChars(s, false)[0] <= 'z')
    decreases |s|
  {
    if s != [] {
      NameByCharsLeadingCase(s[..|s| - 1]);
    }
  }

  lemma TableWordsEndOtherwise(i: nat)
    requires i < TableSize
    ensures TableEntry(i).0[|TableEntry(i).0| - 1] != 'n'
  {
  }

  /**
   * The alias name `ConvertName(field) + "Fn"` of an identifier-named field is
   * a fixed point of both `ConvertTypes` and `ConvertName`: the struct's field
   * type and the emitted alias declaration spell the same name.
   */
  lemma FunctionAliasNameIsStable(name: string)
    requires IsWord(name)
    ensures var key := ConvertNameSpec(name, false) + "Fn";
      && ConvertTypesDefined(key) && ConvertTypesSpec(key) == key
      && ConvertNameSpec(key, false) == key
  {
    var n := ConvertNameSpec(name, false);
    var key := n + "Fn";
    ConvertNameByChars(name, false);
    NameByCharsKeepsWord(name, false);
    NameByCharsLeadingCase(name);
    assert '_' !in n by {
      ConvertNameRemovesUnderscores(name, false);
    }
    FnSuffixIsStable(n);
  }

  /** The stability argument on the converted name alone, kept apart from how it was converted. */
  lemma FnSuffixIsStable(n: string)
    requires IsWord(n) && '_' !in n
    requires n != [] ==> !('a' <= n[0] <= 'z')
    ensures var key := n + "Fn";
      && ConvertTypesDefined(key) && ConvertTypesSpec(key) == key
      && ConvertNameSpec(key, false) == key
  {
    var key := n + "Fn";
    WordConcat(n, "Fn");
    assert key[0] == (if n == [] then 'F' else n[0]);
    assert key[|key| - 1] == 'n';
    assert '_' !in key by {
      assert forall k :: 0 <= k < |key| ==> IsWordChar(key[k]);
    }
    WordEndingInNIsTypeStable(key);
    UnderscoreFreeCapitalIsNameStable(key);
  }

  /** A word ending in `n` that does not start with a lower-case letter passes through `ConvertTypes` unchanged. */
  lemma WordEndingInNIsTypeStable(key: string)
    requires IsWord(key) && |key| > 0 && key[|key| - 1] == 'n' && !('a' <= key[0] <= 'z')
    ensures ConvertTypesDefined(key) && ConvertTypesSpec(key) == key
  {
    forall i | 0 <= i < TableSize
      ensures TableEntry(i).0 != key
    {
      TableWordsEndOtherwise(i);
    }
    ApplyRangeKeepsOtherWord(key, 0, TableSize);
    NoStripPrefix(key);
  }

  /** A text whose first character is not a lower-case letter starts with neither `const` nor `unsigned`. */
  lemma NoStripPrefix(t: string)
    requires |t| > 0 && !('a' <= t[0] <= 'z')
    ensures !StartsWith(t, "const") && !StartsWith(t, "unsigned")
  {
    assert |t| >= 5 ==> t[..5][0] == t[0];
    assert |t| >= 8 ==> t[..8][0] == t[0];
  }

  /** A name without `_` whose first character is not a lower-case letter passes through `ConvertName` unchanged. */
  lemma UnderscoreFreeCapitalIsNameStable(key: string)
    requires '_' !in key && |key| > 0 && !('a' <= key[0] <= 'z')
    ensures ConvertNameSpec(key, false) == key
  {
    ConvertNameWithoutUnderscore(key, false);
    assert Capitalize(key) == key by {
      assert AsciiToUpper(key[0]) == key[0];
      assert [key[0]] + key[1..] == key;
    }
  }

  lemma WordConcat(a: string, b: string)
    requires IsWord(a) && IsWord(b)
    ensures IsWord(a + b)
  {
    assert forall k :: 0 <= k < |a + b| ==> (a + b)[k] == (if k < |a| then a[k] else b[k - |a|]);
  }

  /** The empty text is convertible and comes back empty (a struct field of a type with no name). */
  lemma ConvertTypesOfEmpty()
    ensures ConvertTypesDefined([]) && ConvertTypesSpec([]) == []
  {
    ApplyRangeKeepsOtherWord([], 0, TableSize);
  }
}
