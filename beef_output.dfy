/**
 * What each stage of `GenBeefCBindings` appends to the output buffer, and what
 * `CollectAliasesAndFunctions` puts in its two alias tables, as functions of
 * the parsed header. Each `Write` function takes the buffer so far and returns
 * it with the stage's lines appended, one `Line` per `AppendString` call. The
 * generator's methods are proved against these.
 */
module BeefOutput {
  import opened Wrappers
  import opened OrderedDicts
  import opened SystemStrings
  import opened StringHelpers
  import opened CppAst
  import opened TypeWalks
  import opened BeefNames
  import opened BindingContexts
  import opened BeefTypes

  // ---------------------------------------------------------------------------
  // What the generator needs of the declarations
  // ---------------------------------------------------------------------------

  /** The class a struct is emitted from: `OriginalClass`, falling back to the class itself. */
  function EmittedBody(body: ClassBody, original: Option<ClassBody>): ClassBody {
    if original.Some? then original.value else body
  }

  /** The alias a struct field gets when its type is function-shaped. */
  function FieldAliasName(f: Field): string {
    ConvertNameSpec(f.name, false) + "Fn"
  }

  /** `ConvertTypes` can be applied to the alias name of every function-shaped field. */
  ghost predicate FieldAliasesConvertible(g: TypeGraph, fs: seq<Field>)
    requires WellFormed(g) && FieldsIn(g, fs)
  {
    forall k {:trigger FieldAliasName(fs[k])} :: 0 <= k < |fs| && FunctionShaped(g, fs[k].ty) ==> ConvertTypesDefined(FieldAliasName(fs[k]))
  }

  /**
   * A declaration the generator can process without an exception: its types
   * are in the graph and every text it converts can be stripped.
   */
  ghost predicate DeclReady(g: TypeGraph, d: Declaration)
    requires WellFormed(g) && DeclarationIn(g, d)
  {
    match d
      case TypedefDecl(n, t) =>
        if FunctionShaped(g, t) then ConvertTypesDefined(n) else ConvertTypesDefined(TypeText(g, t))
      case ClassDecl(_, b, o) =>
        && (b.tagKind == Struct ==> FieldAliasesConvertible(g, b.fields))
        && (EmittedBody(b, o).tagKind == Struct ==> FieldTypesConvertible(g, EmittedBody(b, o).fields))
      case _ => true
  }

  ghost predicate DeclsReady(g: TypeGraph, ds: seq<Declaration>)
    requires WellFormed(g) && DeclsIn(g, ds)
  {
    forall k :: 0 <= k < |ds| ==> DeclReady(g, ds[k])
  }

  /** The parsed header the generator runs to completion on. */
  ghost predicate AstReady(ast: Ast) {
    && AstWellFormed(ast) && PointersFinite(ast.graph) && NodesConvertible(ast.graph)
    && DeclsReady(ast.graph, AllDeclarations(ast.units))
  }

  // ---------------------------------------------------------------------------
  // EmitParameter lists
  // ---------------------------------------------------------------------------

  /** `parameters.Select(EmitParameter)`. */
  function ParamTexts(g: TypeGraph, fa: FunctionAliases, ps: seq<Parameter>): (r: seq<string>)
    requires WellFormed(g) && ParametersIn(g, ps)
    ensures |r| == |ps|
  {
    if ps == [] then []
    else
      var n := |ps| - 1;
      ParamTexts(g, fa, ps[..n]) + [ParamText(g, fa, ps[n])]
  }

  /** One more parameter emitted after those before it. */
  lemma ParamTextsStep(g: TypeGraph, fa: FunctionAliases, ps: seq<Parameter>, i: nat)
    requires WellFormed(g) && ParametersIn(g, ps) && i < |ps|
    ensures ParametersIn(g, ps[..i]) && ParametersIn(g, ps[..i + 1])
    ensures ParamTexts(g, fa, ps[..i + 1]) == ParamTexts(g, fa, ps[..i]) + [ParamText(g, fa, ps[i])]
  {
    var p := ps[..i + 1];
    assert forall k :: 0 <= k < i + 1 ==> p[k] == ps[k];
    assert p[..i] == ps[..i];
  }

  // ---------------------------------------------------------------------------
  // GenerateUsings
  // ---------------------------------------------------------------------------

  /** The buffer `out` after `GenerateUsings` has written to it at tab depth `tab`. */
  function WriteUsings(out: string, tab: int, ns: string): string {
    out + Line(tab, "using System;") + Line(tab, "using System.Interop;") + Line(tab, "")
    + Line(tab, "namespace " + ns + ";") + Line(tab, "")
  }

  // ---------------------------------------------------------------------------
  // GenerateFunctions
  // ---------------------------------------------------------------------------

  /** The extern line of a function: the return type is resolved but gets no pointer stars. */
  function ExternLine(g: TypeGraph, fa: FunctionAliases, f: FunctionDecl): string
    requires WellFormed(g) && f.returnType in g.nodes && ParametersIn(g, f.parameters)
  {
    "public static extern " + ResolveSpec(g, fa, f.returnType) + " " + ConvertNameSpec(f.name, false)
    + "(" + Join(ParamTexts(g, fa, f.parameters), ", ") + ");"
  }

  /** What `GenerateFunctions` writes for one function: nothing for an inline function or an operator. */
  function WriteExtern(out: string, g: TypeGraph, fa: FunctionAliases, dll: string, tab: int, f: FunctionDecl): string
    requires WellFormed(g) && f.returnType in g.nodes && ParametersIn(g, f.parameters)
  {
    if f.isInline || f.isOperator then out
    else out + Line(tab, "[CLink, Import(\"" + dll + "\")]") + Line(tab, ExternLine(g, fa, f)) + Line(tab, "")
  }

  ghost predicate FunctionsIn(g: TypeGraph, fs: seq<FunctionDecl>) {
    forall k :: 0 <= k < |fs| ==> fs[k].returnType in g.nodes && ParametersIn(g, fs[k].parameters)
  }

  function WriteExterns(out: string, g: TypeGraph, fa: FunctionAliases, dll: string, tab: int, fs: seq<FunctionDecl>): string
    requires WellFormed(g) && FunctionsIn(g, fs)
  {
    if fs == [] then out
    else WriteExtern(WriteExterns(out, g, fa, dll, tab, fs[..|fs| - 1]), g, fa, dll, tab, fs[|fs| - 1])
  }

  /** The externs of one more function follow those of the functions before it. */
  lemma WriteExternsStep(out: string, g: TypeGraph, fa: FunctionAliases, dll: string, tab: int, fs: seq<FunctionDecl>, k: nat)
    requires WellFormed(g) && FunctionsIn(g, fs) && k < |fs|
    ensures FunctionsIn(g, fs[..k]) && FunctionsIn(g, fs[..k + 1])
    ensures WriteExterns(out, g, fa, dll, tab, fs[..k + 1]) == WriteExtern(WriteExterns(out, g, fa, dll, tab, fs[..k]), g, fa, dll, tab, fs[k])
  {
    var p := fs[..k + 1];
    assert forall i :: 0 <= i < k + 1 ==> p[i] == fs[i];
    assert p[..k] == fs[..k];
  }

  // ---------------------------------------------------------------------------
  // GenerateEnums
  // ---------------------------------------------------------------------------

  /** One enum item: its comment behind `// ` when it has one, then its `case` line with the value in decimal. */
  function WriteItem(out: string, tab: int, it: EnumItem): string {
    (if it.comment.Some? then out + Line(tab, "// " + it.comment.value) else out)
    + Line(tab, "case " + it.name + " = " + DecimalText(it.value) + ";")
  }

  function WriteItems(out: string, tab: int, items: seq<EnumItem>): string {
    if items == [] then out else WriteItem(WriteItems(out, tab, items[..|items| - 1]), tab, items[|items| - 1])
  }

  /** One enumeration: its comment verbatim, the attribute, the header, and the items one tab deeper between braces. */
  function WriteEnum(out: string, tab: int, e: Enumeration): string {
    var header := (if e.comment.Some? then out + Line(tab, e.comment.value) else out)
      + Line(tab, "[AllowDuplicates]") + Line(tab, "public enum " + e.name + " : c_int") + Line(tab, "{");
    WriteItems(header, tab + 1, e.items) + Line(tab, "}") + Line(tab, "")
  }

  function WriteEnums(out: string, tab: int, es: seq<Enumeration>): string {
    if es == [] then out else WriteEnum(WriteEnums(out, tab, es[..|es| - 1]), tab, es[|es| - 1])
  }

  // ---------------------------------------------------------------------------
  // GenerateStructs
  // ---------------------------------------------------------------------------

  /** The field declaration and the blank line after it. */
  function WriteField(out: string, g: TypeGraph, tab: int, f: Field): string
    requires WellFormed(g) && f.ty in g.nodes
  {
    out + Line(tab, "public " + FieldType(g, f) + " " + ConvertNameSpec(f.name, false) + ";") + Line(tab, "")
  }

  function WriteFields(out: string, g: TypeGraph, tab: int, fs: seq<Field>): string
    requires WellFormed(g) && FieldsIn(g, fs)
  {
    if fs == [] then out else WriteField(WriteFields(out, g, tab, fs[..|fs| - 1]), g, tab, fs[|fs| - 1])
  }

  /** The constructor parameters, one per field in field order (`constructorLine` without its frame). */
  function CtorParams(g: TypeGraph, fs: seq<Field>): (r: seq<string>)
    requires WellFormed(g) && FieldsIn(g, fs)
    ensures |r| == |fs|
  {
    if fs == [] then []
    else
      var n := |fs| - 1;
      CtorParams(g, fs[..n]) + [CtorParam(g, fs[n])]
  }

  /** `constructorLine` after the first `i` fields: the parameters so far, and the `", "` the last of them adds when more fields follow. */
  function CtorLine(g: TypeGraph, fs: seq<Field>, i: nat): string
    requires WellFormed(g) && FieldsIn(g, fs) && i <= |fs|
  {
    assert FieldsIn(g, fs[..i]) by {
      assert forall k :: 0 <= k < i ==> fs[..i][k] == fs[k];
    }
    "public this(" + Join(CtorParams(g, fs[..i]), ", ") + (if 0 < i < |fs| then ", " else "")
  }

  /** The constructor parameters of one more field: those before it, then its own. */
  lemma CtorParamsSnoc(g: TypeGraph, fs: seq<Field>, i: nat)
    requires WellFormed(g) && FieldsIn(g, fs) && i < |fs|
    ensures FieldsIn(g, fs[..i]) && FieldsIn(g, fs[..i + 1])
    ensures CtorParams(g, fs[..i + 1]) == CtorParams(g, fs[..i]) + [CtorParam(g, fs[i])]
  {
    assert forall k :: 0 <= k < i + 1 ==> fs[..i + 1][k] == fs[k];
    assert fs[..i + 1][..i] == fs[..i];
  }

  /** One turn of the field loop: the field's parameter, then `", "` unless it is the last field. */
  lemma CtorLineStep(g: TypeGraph, fs: seq<Field>, i: nat)
    requires WellFormed(g) && FieldsIn(g, fs) && i < |fs|
    ensures CtorLine(g, fs, i) + CtorParam(g, fs[i]) + (if i != |fs| - 1 then ", " else "") == CtorLine(g, fs, i + 1)
  {
    CtorParamsSnoc(g, fs, i);
    OpenListStep("public this(", CtorParams(g, fs[..i]), CtorParam(g, fs[i]), ", ", i != |fs| - 1);
  }

  /** One more field declared after those before it. */
  lemma WriteFieldsStep(out: string, g: TypeGraph, tab: int, fs: seq<Field>, i: nat)
    requires WellFormed(g) && FieldsIn(g, fs) && i < |fs|
    ensures FieldsIn(g, fs[..i]) && FieldsIn(g, fs[..i + 1])
    ensures WriteFields(out, g, tab, fs[..i + 1]) == WriteField(WriteFields(out, g, tab, fs[..i]), g, tab, fs[i])
  {
    var p := fs[..i + 1];
    assert forall k :: 0 <= k < i + 1 ==> p[k] == fs[k];
    assert p[..i] == fs[..i];
  }

  /** A separated list being built one part at a time, with the separator written after each part that is not the last. */
  lemma OpenListStep(head: string, ps: seq<string>, x: string, sep: string, more: bool)
    ensures head + Join(ps, sep) + (if ps != [] then sep else "") + x + (if more then sep else "")
      == head + Join(ps + [x], sep) + (if more then sep else "")
  {
    JoinSnoc(ps, x, sep);
    var tail := if more then sep else "";
    if ps != [] {
      calc {
        head + Join(ps, sep) + sep + x + tail;
        head + (Join(ps, sep) + sep + x) + tail;
      }
    }
  }

  /** The pairs offered to `fieldsDict.TryAdd`: Pascal-case name to camel-case name, one per field. */
  function NamePairs(fs: seq<Field>): (ps: seq<(string, string)>)
    ensures |ps| == |fs|
  {
    if fs == [] then []
    else
      var n := |fs| - 1;
      NamePairs(fs[..n]) + [NamePair(fs[n])]
  }

  /** The pair `GenerateStructs` offers for one field: its Pascal-case name and its camel-case name. */
  function NamePair(f: Field): (string, string) {
    (ConvertNameSpec(f.name, false), ConvertNameSpec(f.name, true))
  }

  /** The pair offered for field `k` maps its Pascal-case name to its camel-case name. */
  lemma {:induction false} NamePairsAt(fs: seq<Field>, k: nat)
    requires k < |fs|
    ensures NamePairs(fs)[k] == NamePair(fs[k])
  {
    var n := |fs| - 1;
    var init := NamePairs(fs[..n]);
    assert NamePairs(fs) == init + [NamePair(fs[n])];
    if k < n {
      assert NamePairs(fs)[k] == init[k];
      NamePairsAt(fs[..n], k);
      assert fs[..n][k] == fs[k];
    } else {
      assert NamePairs(fs)[k] == NamePair(fs[n]);
    }
  }

  /** One more field offered to `fieldsDict.TryAdd`. */
  lemma NamePairsStep(fs: seq<Field>, i: nat)
    requires i < |fs|
    ensures TryAddAll(NamePairs(fs[..i + 1]))
      == TryAdd(TryAddAll(NamePairs(fs[..i])), ConvertNameSpec(fs[i].name, false), ConvertNameSpec(fs[i].name, true))
  {
    var p := fs[..i + 1];
    assert p[..i] == fs[..i];
    assert p[i] == fs[i];
  }

  /** `fieldsDict` once every field has been offered. */
  function Assignments(fs: seq<Field>): Dict<string, string> {
    TryAddAll(NamePairs(fs))
  }

  function WriteAssignments(out: string, tab: int, d: Dict<string, string>): string {
    if d == [] then out
    else WriteAssignments(out, tab, d[..|d| - 1]) + Line(tab, "this." + d[|d| - 1].0 + " = " + d[|d| - 1].1 + ";")
  }


  /** One struct, emitted at tab depth `tab`: header, fields, constructor with its assignments. */
  /** The attribute, the declaration line and the opening brace of a struct. */
  function StructHeader(out: string, tab: int, name: string): string {
    out + Line(tab, "[CRepr]") + Line(tab, "public struct " + name) + Line(tab, "{")
  }

  /** The finished constructor line and the brace that opens its body. */
  function CtorOpen(out: string, tab: int, constructorLine: string): string {
    out + Line(tab, constructorLine + ")") + Line(tab, "{")
  }

  /** The braces closing the constructor body (one level deeper) and the struct, and a blank line. */
  function StructClose(out: string, tab: int): string {
    out + Line(tab + 1, "}") + Line(tab, "}") + Line(tab, "")
  }

  function WriteStruct(out: string, g: TypeGraph, tab: int, name: string, b: ClassBody): string
    requires WellFormed(g) && FieldsIn(g, b.fields)
  {
    StructClose(WriteAssignments(StructOpen(out, g, tab, name, b), tab + 2, Assignments(b.fields)), tab)
  }

  /** A struct up to the brace that opens its constructor body: header, fields and the constructor line. */
  function StructOpen(out: string, g: TypeGraph, tab: int, name: string, b: ClassBody): string
    requires WellFormed(g) && FieldsIn(g, b.fields)
  {
    var fields := WriteFields(StructHeader(out, tab, name), g, tab + 1, b.fields);
    CtorOpen(fields, tab + 1, "public this(" + Join(CtorParams(g, b.fields), ", "))
  }

  /** The text `GenerateStructs` writes for one declaration: nothing unless its emitted body is a struct. */
  function WriteStructDecl(out: string, g: TypeGraph, tab: int, d: Declaration): string
    requires WellFormed(g) && DeclarationIn(g, d)
  {
    match d
    case ClassDecl(name, b, o) =>
      var e := EmittedBody(b, o);
      if e.tagKind == Struct then WriteStruct(out, g, tab, name, e) else out
    case _ => out
  }

  function WriteStructs(out: string, g: TypeGraph, tab: int, ds: seq<Declaration>): string
    requires WellFormed(g) && DeclsIn(g, ds)
  {
    if ds == [] then out
    else
      var n := |ds| - 1;
      WriteStructDecl(WriteStructs(out, g, tab, ds[..n]), g, tab, ds[n])
  }

  /** The structs of one more declaration follow those of the declarations before it. */
  lemma WriteStructsStep(out: string, g: TypeGraph, tab: int, ds: seq<Declaration>, k: nat)
    requires WellFormed(g) && DeclsIn(g, ds) && k < |ds|
    ensures DeclsIn(g, ds[..k]) && DeclsIn(g, ds[..k + 1])
    ensures WriteStructs(out, g, tab, ds[..k + 1]) == WriteStructDecl(WriteStructs(out, g, tab, ds[..k]), g, tab, ds[k])
  {
    var p := ds[..k + 1];
    assert forall i :: 0 <= i < k + 1 ==> p[i] == ds[i];
    assert p[..k] == ds[..k];
  }

  // ---------------------------------------------------------------------------
  // GenerateAliases
  // ---------------------------------------------------------------------------

  /** The `public function` line of one alias; unlike an extern, its return type keeps its pointer stars. */
  function AliasLine(g: TypeGraph, fa: FunctionAliases, key: string, fn: TypeId): string
    requires WellFormed(g) && fn in g.nodes && g.nodes[fn].Function?
  {
    var f := g.nodes[fn];
    "public function " + ResolveSpec(g, fa, f.returnType) + Repeat('*', PointerDepthOf(g, f.returnType))
    + " " + ConvertNameSpec(key, false) + "(" + Join(ParamTexts(g, fa, f.parameters), ", ") + ");"
  }

  /** The alias lines of the first `n` entries of `fa`, each followed by a blank line; types resolve against the whole of `fa`. */
  function WriteAliases(out: string, g: TypeGraph, fa: FunctionAliases, tab: int, n: nat): string
    requires WellFormed(g) && AliasesAreFunctions(g, fa) && n <= |fa|
  {
    if n == 0 then out
    else
      assert fa[n - 1] in fa;
      WriteAliases(out, g, fa, tab, n - 1) + Line(tab, AliasLine(g, fa, fa[n - 1].0, fa[n - 1].1)) + Line(tab, "")
  }

  // ---------------------------------------------------------------------------
  // CollectAliasesAndFunctions
  // ---------------------------------------------------------------------------

  datatype AliasTables = AliasTables(functions: FunctionAliases, types: TypeAliases)

  /** The field loop of a struct: every function-shaped field `TryAdd`s its alias. */
  function FieldAliases(g: TypeGraph, fa: FunctionAliases, fs: seq<Field>): FunctionAliases
    requires WellFormed(g) && FieldsIn(g, fs)
  {
    if fs == [] then fa
    else
      var n := |fs| - 1;
      var prev := FieldAliases(g, fa, fs[..n]);
      match FunctionTypeOf(g, Some(fs[n].ty))
      case Some(fn) => TryAdd(prev, FieldAliasName(fs[n]), fn)
      case None => prev
  }

  /** One turn of `CollectAliasesAndFunctions`. */
  function CollectDecl(g: TypeGraph, t: AliasTables, d: Declaration): AliasTables
    requires WellFormed(g) && DeclarationIn(g, d)
  {
    match d
    case TypedefDecl(n, ty) =>
      (match FunctionTypeOf(g, Some(ty))
       case Some(fn) => t.(functions := Set(t.functions, n, fn))
       case None => t.(types := Set(t.types, n, ConvertTypesSpec(TypeText(g, ty)))))
    case ClassDecl(_, b, _) =>
      if b.tagKind == Struct then t.(functions := FieldAliases(g, t.functions, b.fields)) else t
    case _ => t
  }

  /** The tables after `CollectAliasesAndFunctions` has visited `ds` in order. */
  function CollectAll(g: TypeGraph, t: AliasTables, ds: seq<Declaration>): AliasTables
    requires WellFormed(g) && DeclsIn(g, ds)
  {
    if ds == [] then t
    else
      var n := |ds| - 1;
      CollectDecl(g, CollectAll(g, t, ds[..n]), ds[n])
  }

  // ---------------------------------------------------------------------------
  // GenerateBindings
  // ---------------------------------------------------------------------------

  /**
   * The buffer `out` after `GenerateBindings` has written to it from tab depth
   * `tab`: the usings and the class header, the externs and the enums one tab
   * deeper, then the structs and the aliases at depth 0 (`GenerateStructs`
   * resets the depth), and the closing brace at depth -1, which has no tabs.
   */
  function WriteBindings(out: string, ast: Ast, fa: FunctionAliases, dll: string, ns: string, tab: int): string
    requires AstWellFormed(ast) && AliasesAreFunctions(ast.graph, fa)
  {
    WriteClassBody(WriteClassHeader(out, tab, ns), ast, fa, dll, tab)
  }

  /** The usings, then the line that opens the `<namespace>API` class and its brace. */
  function WriteClassHeader(out: string, tab: int, ns: string): string {
    WriteUsings(out, tab, ns) + Line(tab, "public class " + ns + "API") + Line(tab, "{")
  }

  /** What follows the class header: externs, enums, structs, aliases and the closing brace. */
  function WriteClassBody(header: string, ast: Ast, fa: FunctionAliases, dll: string, tab: int): string
    requires AstWellFormed(ast) && AliasesAreFunctions(ast.graph, fa)
  {
    var g := ast.graph;
    var ds := AllDeclarations(ast.units);
    FunctionsOfDecls(g, ds);
    var externs := WriteExterns(header, g, fa, dll, tab + 1, Functions(ds));
    var enums := WriteEnums(externs, tab + 1, Enums(ds));
    var structs := WriteStructs(enums, g, 0, ds);
    WriteAliases(structs, g, fa, 0, |fa|) + Line(-1, "}")
  }

  /** The functions among closed declarations refer to type objects of the graph. */
  lemma {:induction false} FunctionsOfDecls(g: TypeGraph, ds: seq<Declaration>)
    requires DeclsIn(g, ds)
    ensures FunctionsIn(g, Functions(ds))
  {
    if ds != [] {
      var n := |ds| - 1;
      assert DeclsIn(g, ds[..n]) by {
        assert forall k :: 0 <= k < n ==> ds[..n][k] == ds[k];
      }
      FunctionsOfDecls(g, ds[..n]);
      assert DeclarationIn(g, ds[n]);
    }
  }

  // ---------------------------------------------------------------------------
  // Properties of the collection pass
  // ---------------------------------------------------------------------------

  /** The alias table stays one `ResolveType` can use: convertible names naming function types, each name once. */
  ghost predicate TablesReady(g: TypeGraph, t: AliasTables) {
    KeysConvertible(t.functions) && AliasesAreFunctions(g, t.functions)
    && KeysDistinct(t.functions) && KeysDistinct(t.types)
  }

  /**
   * The field loop only appends: the table it started from is a prefix of the
   * result, and every pair after it is the alias of a function-shaped field of
   * `fs` with that field's function type.
   */
  lemma {:induction false} FieldAliasesOnlyAppend(g: TypeGraph, fa: FunctionAliases, fs: seq<Field>)
    requires WellFormed(g) && FieldsIn(g, fs)
    ensures var r := FieldAliases(g, fa, fs);
      && |fa| <= |r| && r[..|fa|] == fa
      && forall e :: e in r[|fa|..] ==>
           exists k :: 0 <= k < |fs| && FunctionTypeOf(g, Some(fs[k].ty)) == Some(e.1) && e.0 == FieldAliasName(fs[k])
  {
    if fs != [] {
      var n := |fs| - 1;
      assert FieldsIn(g, fs[..n]) by {
        assert forall k :: 0 <= k < n ==> fs[..n][k] == fs[k];
      }
      FieldAliasesOnlyAppend(g, fa, fs[..n]);
      var prev := FieldAliases(g, fa, fs[..n]);
      var r := FieldAliases(g, fa, fs);
      forall e | e in r[|fa|..]
        ensures exists k :: 0 <= k < |fs| && FunctionTypeOf(g, Some(fs[k].ty)) == Some(e.1) && e.0 == FieldAliasName(fs[k])
      {
        if e in prev[|fa|..] {
          var k :| 0 <= k < n && FunctionTypeOf(g, Some(fs[..n][k].ty)) == Some(e.1) && e.0 == FieldAliasName(fs[..n][k]);
          assert fs[..n][k] == fs[k];
        } else {
          assert r != prev;
          assert r == prev + [e] by {
            assert r[|fa|..] == prev[|fa|..] + [r[|r| - 1]];
          }
          assert FunctionTypeOf(g, Some(fs[n].ty)) == Some(e.1) && e.0 == FieldAliasName(fs[n]);
        }
      }
    }
  }

  /** `TryAdd` keeps existing entries: a name already in the table keeps its function type. */
  lemma {:induction false} FieldAliasesKeepExisting(g: TypeGraph, fa: FunctionAliases, fs: seq<Field>, q: string)
    requires WellFormed(g) && FieldsIn(g, fs) && q in Keys(fa)
    ensures Lookup(FieldAliases(g, fa, fs), q) == Lookup(fa, q)
  {
    if fs != [] {
      var n := |fs| - 1;
      assert FieldsIn(g, fs[..n]) by {
        assert forall k :: 0 <= k < n ==> fs[..n][k] == fs[k];
      }
      FieldAliasesKeepExisting(g, fa, fs[..n], q);
      var prev := FieldAliases(g, fa, fs[..n]);
      FieldAliasesOnlyAppend(g, fa, fs[..n]);
      var i :| 0 <= i < |fa| && fa[i].0 == q;
      assert prev[i] == fa[i] && Keys(prev)[i] == q;
      match FunctionTypeOf(g, Some(fs[n].ty))
      case Some(fn) => TryAddKeepsExisting(prev, FieldAliasName(fs[n]), fn, q);
      case None =>
    }
  }

  /** Every function-shaped field of the struct has its alias name in the table afterwards. */
  lemma {:induction false} FieldAliasesCoverFields(g: TypeGraph, fa: FunctionAliases, fs: seq<Field>, k: nat)
    requires WellFormed(g) && FieldsIn(g, fs) && k < |fs| && FunctionShaped(g, fs[k].ty)
    ensures FieldAliasName(fs[k]) in Keys(FieldAliases(g, fa, fs))
  {
    var n := |fs| - 1;
    assert FieldsIn(g, fs[..n]) by {
      assert forall j :: 0 <= j < n ==> fs[..n][j] == fs[j];
    }
    var prev := FieldAliases(g, fa, fs[..n]);
    var r := FieldAliases(g, fa, fs);
    if k < n {
      FieldAliasesCoverFields(g, fa, fs[..n], k);
      assert fs[..n][k] == fs[k];
      var i :| 0 <= i < |prev| && prev[i].0 == FieldAliasName(fs[k]);
      assert r[..|prev|] == prev by {
        match FunctionTypeOf(g, Some(fs[n].ty)) {
          case Some(fn) => assert r == TryAdd(prev, FieldAliasName(fs[n]), fn);
          case None =>
        }
      }
      assert r[i] == prev[i] && Keys(r)[i] == r[i].0;
    } else {
      var fn := FunctionTypeOf(g, Some(fs[n].ty)).value;
      assert r == TryAdd(prev, FieldAliasName(fs[n]), fn);
      if FieldAliasName(fs[n]) !in Keys(prev) {
        assert Keys(r)[|prev|] == FieldAliasName(fs[n]);
      }
    }
  }

  /** The field loop keeps the table usable by `ResolveType`. */
  lemma {:induction false} FieldAliasesKeepReady(g: TypeGraph, fa: FunctionAliases, fs: seq<Field>)
    requires WellFormed(g) && FieldsIn(g, fs) && FieldAliasesConvertible(g, fs)
    requires KeysConvertible(fa) && AliasesAreFunctions(g, fa) && KeysDistinct(fa)
    ensures var r := FieldAliases(g, fa, fs);
      KeysConvertible(r) && AliasesAreFunctions(g, r) && KeysDistinct(r)
  {
    if fs != [] {
      var n := |fs| - 1;
      assert FieldsIn(g, fs[..n]) && FieldAliasesConvertible(g, fs[..n]) by {
        assert forall k :: 0 <= k < n ==> fs[..n][k] == fs[k];
      }
      FieldAliasesKeepReady(g, fa, fs[..n]);
      var prev := FieldAliases(g, fa, fs[..n]);
      match FunctionTypeOf(g, Some(fs[n].ty))
      case Some(fn) =>
        assert FieldAliases(g, fa, fs) == TryAdd(prev, FieldAliasName(fs[n]), fn);
        assert ConvertTypesDefined(FieldAliasName(fs[n]));
        TryAddKeepsReady(g, prev, FieldAliasName(fs[n]), fn);
      case None =>
    }
  }

  /** Offering a convertible name for a function type keeps a table usable by `ResolveType`. */
  lemma TryAddKeepsReady(g: TypeGraph, fa: FunctionAliases, name: string, fn: TypeId)
    requires KeysConvertible(fa) && AliasesAreFunctions(g, fa) && KeysDistinct(fa)
    requires ConvertTypesDefined(name) && fn in g.nodes && g.nodes[fn].Function?
    ensures var r := TryAdd(fa, name, fn);
      KeysConvertible(r) && AliasesAreFunctions(g, r) && KeysDistinct(r)
  {
    var r := TryAdd(fa, name, fn);
    assert forall e :: e in r ==> e in fa || e == (name, fn);
    SetKeepsKeysDistinct(fa, name, fn);
  }

  /**
   * A function-shaped typedef sets its name in the function table, replacing
   * any earlier entry; any other typedef sets its name in the type table to
   * the converted type text. The other table, and every other name, is left
   * as it was.
   */
  lemma CollectTypedef(g: TypeGraph, t: AliasTables, n: string, ty: TypeId)
    requires WellFormed(g) && ty in g.nodes
    ensures var r := CollectDecl(g, t, TypedefDecl(n, ty));
      && (FunctionShaped(g, ty) ==>
            && Lookup(r.functions, n) == FunctionTypeOf(g, Some(ty))
            && (forall q :: q != n ==> Lookup(r.functions, q) == Lookup(t.functions, q))
            && r.types == t.types)
      && (!FunctionShaped(g, ty) ==>
            && Lookup(r.types, n) == Some(ConvertTypesSpec(TypeText(g, ty)))
            && (forall q :: q != n ==> Lookup(r.types, q) == Lookup(t.types, q))
            && r.functions == t.functions)
  {
    var r := CollectDecl(g, t, TypedefDecl(n, ty));
    match FunctionTypeOf(g, Some(ty))
    case Some(fn) =>
      forall q | q != n
        ensures Lookup(r.functions, q) == Lookup(t.functions, q)
      {
        LookupSetOther(t.functions, n, fn, q);
      }
    case None =>
      forall q | q != n
        ensures Lookup(r.types, q) == Lookup(t.types, q)
      {
        LookupSetOther(t.types, n, ConvertTypesSpec(TypeText(g, ty)), q);
      }
  }

  /** One turn of the collection keeps the tables ready. */
  lemma CollectDeclKeepsReady(g: TypeGraph, t: AliasTables, d: Declaration)
    requires WellFormed(g) && DeclarationIn(g, d) && DeclReady(g, d) && TablesReady(g, t)
    ensures TablesReady(g, CollectDecl(g, t, d))
  {
    match d
    case TypedefDecl(n, ty) =>
      match FunctionTypeOf(g, Some(ty)) {
        case Some(fn) =>
          SetPairs(t.functions, n, fn);
          SetKeepsKeysDistinct(t.functions, n, fn);
        case None =>
          SetKeepsKeysDistinct(t.types, n, ConvertTypesSpec(TypeText(g, ty)));
      }
    case ClassDecl(_, b, _) =>
      if b.tagKind == Struct {
        FieldAliasesKeepReady(g, t.functions, b.fields);
      }
    case _ =>
  }

  /**
   * `CollectAliasesAndFunctions` leaves tables `ResolveType` can use: every
   * alias name converts, names a function type, and occurs once.
   */
  lemma {:induction false} CollectAllKeepsReady(g: TypeGraph, t: AliasTables, ds: seq<Declaration>)
    requires WellFormed(g) && DeclsIn(g, ds) && DeclsReady(g, ds) && TablesReady(g, t)
    ensures TablesReady(g, CollectAll(g, t, ds))
  {
    if ds != [] {
      var n := |ds| - 1;
      assert DeclsIn(g, ds[..n]) && DeclsReady(g, ds[..n]) by {
        assert forall k :: 0 <= k < n ==> ds[..n][k] == ds[k];
      }
      CollectAllKeepsReady(g, t, ds[..n]);
      assert DeclarationIn(g, ds[n]) && DeclReady(g, ds[n]);
      CollectDeclKeepsReady(g, CollectAll(g, t, ds[..n]), ds[n]);
    }
  }

  /** A function-shaped typedef named `n`. */
  predicate FunctionTypedefNamed(g: TypeGraph, d: Declaration, n: string)
    requires WellFormed(g) && DeclarationIn(g, d)
  {
    d.TypedefDecl? && d.name == n && FunctionShaped(g, d.aliased)
  }

  /** A declaration other than a function typedef of `name` keeps the alias `name` already has. */
  lemma CollectDeclKeepsAlias(g: TypeGraph, t: AliasTables, d: Declaration, name: string, fn: TypeId)
    requires WellFormed(g) && DeclarationIn(g, d) && !FunctionTypedefNamed(g, d, name)
    requires Lookup(t.functions, name) == Some(fn)
    ensures Lookup(CollectDecl(g, t, d).functions, name) == Some(fn)
  {
    match d
    case TypedefDecl(m, u) =>
      CollectTypedef(g, t, m, u);
    case ClassDecl(_, b, _) =>
      if b.tagKind == Struct {
        FieldAliasesKeepExisting(g, t.functions, b.fields, name);
      }
    case _ =>
  }

  /**
   * The last function-shaped typedef of a name decides its alias: later
   * struct fields cannot displace it (they only `TryAdd`), and typedefs of
   * other names or of non-function types leave it alone.
   */
  lemma {:induction false} CollectAllLastTypedefWins(g: TypeGraph, t: AliasTables, ds: seq<Declaration>, i: nat,
                                                     name: string, ty: TypeId)
    requires WellFormed(g) && DeclsIn(g, ds) && i < |ds| && ds[i] == TypedefDecl(name, ty)
    requires ty in g.nodes && FunctionShaped(g, ty)
    requires forall j :: i < j < |ds| ==> !FunctionTypedefNamed(g, ds[j], name)
    ensures Lookup(CollectAll(g, t, ds).functions, name) == FunctionTypeOf(g, Some(ty))
  {
    var n := |ds| - 1;
    assert DeclsIn(g, ds[..n]) by {
      assert forall k :: 0 <= k < n ==> ds[..n][k] == ds[k];
    }
    var prev := CollectAll(g, t, ds[..n]);
    assert DeclarationIn(g, ds[n]);
    if i == n {
      CollectTypedef(g, prev, name, ty);
    } else {
      assert ds[..n][i] == ds[i];
      assert forall j :: i < j < n ==> ds[..n][j] == ds[j];
      CollectAllLastTypedefWins(g, t, ds[..n], i, name, ty);
      var fn := FunctionTypeOf(g, Some(ty)).value;
      assert !FunctionTypedefNamed(g, ds[n], name);
      CollectDeclKeepsAlias(g, prev, ds[n], name, fn);
    }
  }

  // ---------------------------------------------------------------------------
  // Properties of the emitted text
  // ---------------------------------------------------------------------------

  /**
   * The constructor body assigns each distinct Pascal-case field name once:
   * the names are those of the fields, each appears once, each is assigned the
   * camel-case name of the first field converting to it, and they come in the
   * order of their first field.
   */
  lemma StructAssignmentsOncePerName(fs: seq<Field>)
    ensures var a := Assignments(fs);
      && KeysDistinct(a)
      && (forall n :: n in Keys(a) <==> exists k :: 0 <= k < |fs| && ConvertNameSpec(fs[k].name, false) == n)
  {
    TryAddAllKeys(NamePairs(fs));
    forall n
      ensures n in Keys(NamePairs(fs)) <==> exists k :: 0 <= k < |fs| && ConvertNameSpec(fs[k].name, false) == n
    {
      NamePairsKeys(fs, n);
    }
  }

  lemma NamePairsKeys(fs: seq<Field>, n: string)
    ensures n in Keys(NamePairs(fs)) <==> exists k :: 0 <= k < |fs| && ConvertNameSpec(fs[k].name, false) == n
  {
    if n in Keys(NamePairs(fs)) {
      var k := NamePairsKeyOfField(fs, n);
    }
    if exists k :: 0 <= k < |fs| && ConvertNameSpec(fs[k].name, false) == n {
      var k :| 0 <= k < |fs| && ConvertNameSpec(fs[k].name, false) == n;
      FieldKeyInNamePairs(fs, k);
    }
  }

  lemma NamePairsKeyOfField(fs: seq<Field>, n: string) returns (k: nat)
    requires n in Keys(NamePairs(fs))
    ensures k < |fs| && ConvertNameSpec(fs[k].name, false) == n
  {
    var ks := Keys(NamePairs(fs));
    k :| 0 <= k < |ks| && ks[k] == n;
    NamePairsAt(fs, k);
  }

  lemma FieldKeyInNamePairs(fs: seq<Field>, k: nat)
    requires k < |fs|
    ensures ConvertNameSpec(fs[k].name, false) in Keys(NamePairs(fs))
  {
    NamePairsAt(fs, k);
    assert Keys(NamePairs(fs))[k] == NamePairs(fs)[k].0;
  }

  /** The field `fs[k]` gets the camel-case name of the first field whose Pascal-case name is the same. */
  lemma StructAssignmentOfField(fs: seq<Field>, k: nat)
    requires k < |fs|
    ensures ConvertNameSpec(fs[k].name, false) in Keys(NamePairs(fs))
    ensures var j := FirstIndex(NamePairs(fs), ConvertNameSpec(fs[k].name, false));
      && j <= k && ConvertNameSpec(fs[j].name, false) == ConvertNameSpec(fs[k].name, false)
      && (forall i :: 0 <= i < j ==> ConvertNameSpec(fs[i].name, false) != ConvertNameSpec(fs[k].name, false))
      && Lookup(Assignments(fs), ConvertNameSpec(fs[k].name, false)) == Some(ConvertNameSpec(fs[j].name, true))
  {
    var ps := NamePairs(fs);
    var n := ConvertNameSpec(fs[k].name, false);
    FieldKeyInNamePairs(fs, k);
    var j := FirstIndex(ps, n);
    TryAddAllFirstWins(ps, n);
    NamePairsAt(fs, j);
    forall i | 0 <= i < j
      ensures ConvertNameSpec(fs[i].name, false) != n
    {
      NamePairsAt(fs, i);
      assert ps[i].0 != n;
    }
  }

  /** The assignments come in the order in which their names first occur among the fields. */
  lemma StructAssignmentsInFieldOrder(fs: seq<Field>, i: nat, j: nat)
    requires i < j < |Assignments(fs)|
    ensures var a := Assignments(fs);
      && a[i].0 in Keys(NamePairs(fs)) && a[j].0 in Keys(NamePairs(fs))
      && FirstIndex(NamePairs(fs), a[i].0) < FirstIndex(NamePairs(fs), a[j].0)
  {
    TryAddAllOrder(NamePairs(fs), i, j);
  }

  /**
   * A field that is a direct pointer to a function type is declared with the
   * very name of the alias the collection pass gives it: `ConvertTypes` keeps
   * `ConvertName(field) + "Fn"` as it is, `ConvertName` of the alias key (what
   * the alias line declares) is the key itself, and the alias names the
   * pointee's function type.
   */
  lemma FunctionPointerFieldMatchesAlias(g: TypeGraph, f: Field)
    requires WellFormed(g) && f.ty in g.nodes && DirectFunctionPointer(g, f.ty) && IsWord(f.name)
    requires Desugar(g, f.ty) == f.ty && g.nodes[f.ty].pointee != f.ty
    ensures ConvertTypesDefined(FieldTypeName(g, f)) && FieldType(g, f) == FieldAliasName(f)
    ensures ConvertNameSpec(FieldAliasName(f), false) == FieldAliasName(f)
    ensures FunctionTypeOf(g, Some(f.ty)) == Some(Desugar(g, g.nodes[f.ty].pointee))
  {
    FunctionAliasNameIsStable(f.name);
    FunctionTypeThroughPointer(g, f.ty, g.nodes[f.ty].pointee);
  }

  /**
   * The extern line drops the return type's pointer: a function returning a
   * pointer to a builtin type is declared exactly as one returning the builtin
   * itself, although the type has one pointer layer (the alias line would
   * print it).
   */
  lemma ExternDropsReturnPointer(g: TypeGraph, fa: FunctionAliases, f: FunctionDecl, b: TypeId)
    requires WellFormed(g) && f.returnType in g.nodes && ParametersIn(g, f.parameters)
    requires g.nodes[f.returnType] == Pointer(b) && b != f.returnType && g.nodes[b].Builtin?
    requires Desugar(g, f.returnType) == f.returnType && Desugar(g, b) == b
    ensures PointerDepthOf(g, f.returnType) == 1
    ensures ExternLine(g, fa, f) == ExternLine(g, fa, f.(returnType := b))
  {
    var t := f.returnType;
    assert t in g.nodes.Keys;
    assert PointerLayers(g, t, |g.nodes|) == 1 + PointerLayers(g, b, |g.nodes| - 1);
    assert !IsPointer(g, b);
    assert FnLayerOf(g, b) == NotFn;
    assert FnLayerOf(g, t) == Continue(b);
    assert {} + {t} == {t};
    assert FunctionTypeFrom(g, t, {}) == FunctionTypeFrom(g, b, {t});
    assert !FunctionShaped(g, t) && !FunctionShaped(g, b);
    assert CanonicalFrom(g, t, {}) == CanonicalFrom(g, b, {t});
    assert Canonical(g, t) == b && Canonical(g, b) == b;
    assert ResolveSpec(g, fa, t) == ResolveSpec(g, fa, b);
  }
}
