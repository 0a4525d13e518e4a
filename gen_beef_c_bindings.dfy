/**
 * `GenBeefCBindings`, the generator object: it owns the two alias tables and
 * the resolved-type cache, writes through its `BindingContext`, and each of
 * its methods is proved against the functions of `BeefTypes` and `BeefOutput`.
 */
module BeefGenerator {
  import opened Wrappers
  import opened OrderedDicts
  import opened SystemStrings
  import opened CppAst
  import opened TypeWalks
  import opened BeefNames
  import opened BindingContexts
  import opened BeefTypes
  import opened BeefOutput

  /** The `for` loop that writes the emitted parameters separated by `", "`. */
  method JoinParameters(parameters: seq<string>) returns (text: string)
    ensures text == Join(parameters, ", ")
  {
    text := [];
    for i := 0 to |parameters|
      invariant text == Join(parameters[..i], ", ")
    {
      assert parameters[..i + 1] == parameters[..i] + [parameters[i]];
      JoinSnoc(parameters[..i], parameters[i], ", ");
      if i > 0 {
        text := text + ", ";
      }
      text := text + parameters[i];
    }
    assert parameters[..|parameters|] == parameters;
  }

  /** The function-shaped branch of `ResolveType`: the converted name of the first alias of an equal function type, or `"void*"`. */
  method ResolveFunctionAlias(g: TypeGraph, fa: FunctionAliases, fn: TypeId) returns (r: string)
    requires KeysConvertible(fa)
    ensures var i := FirstMatch(g, fa, fn); r == if i < |fa| then ConvertTypesSpec(fa[i].0) else "void*"
  {
    var i := FirstMatch(g, fa, fn);
    if i < |fa| {
      assert fa[i] in fa;
      r := ConvertTypes(fa[i].0);
    } else {
      r := "void*";
    }
  }

  /** The other branch of `ResolveType`: the `switch` on the canonical type. */
  method ResolveCanonical(g: TypeGraph, t: TypeId) returns (r: string)
    requires WellFormed(g) && NodesConvertible(g) && t in g.nodes
    ensures r == ResolveBase(g, t)
  {
    var baseType := GetCanonicalType(g, Some(t));
    var c := baseType.value;
    assert c == Canonical(g, t);
    match g.nodes[c] {
      case Builtin(p) => r := ConvertTypes(p);
      case Typedef(n, _) => r := ConvertTypes(n);
      case Tag(n, _) => r := ConvertTypes(n);
      case _ => r := ConvertTypes(TypeText(g, c));
    }
  }

  class GenBeefCBindings {
    /** `_functionAliases`: alias name to function type, in insertion order. */
    var functionAliases: FunctionAliases
    /** `_typeAliases`: filled by the collection pass, read by no emitter. */
    var typeAliases: TypeAliases
    /** `_resolvedTypeCache`. */
    var resolvedTypeCache: map<TypeId, string>
    const dllName: string
    const namespaceName: string
    const Context: BindingContext

    /** The parsed header can be processed. */
    ghost predicate HeaderReady()
      reads Context`AST
    {
      AstReady(Context.AST)
    }

    /** The alias tables can be resolved against. */
    ghost predicate TablesValid()
      reads this`functionAliases, this`typeAliases, Context`AST
    {
      TablesReady(Context.AST.graph, AliasTables(functionAliases, typeAliases))
    }

    /** Every cached text is the one resolving its type afresh gives. */
    ghost predicate CacheValid()
      reads this`resolvedTypeCache, Context`AST
    {
      WellFormed(Context.AST.graph) && CacheSound(Context.AST.graph, resolvedTypeCache)
    }

    /** The parsed header can be processed, the alias table can be resolved against, and the cache is sound. */
    ghost predicate Valid()
      reads this`functionAliases, this`typeAliases, this`resolvedTypeCache, Context`AST
    {
      HeaderReady() && TablesValid() && CacheValid()
    }

    /** Stores the names, then runs `GenerateBindings` on the parsed header. */
    constructor (ast: Ast, dllName: string, namespaceName: string)
      requires AstReady(ast)
      ensures Valid() && Context.AST == ast && Context.TabIndex == -1
      ensures AliasTables(functionAliases, typeAliases) == CollectAll(ast.graph, AliasTables([], []), AllDeclarations(ast.units))
      ensures Context.OutputFile == WriteBindings([], ast, functionAliases, dllName, namespaceName, 0)
    {
      functionAliases := [];
      typeAliases := [];
      resolvedTypeCache := map[];
      Context := new BindingContext();
      this.namespaceName := namespaceName;
      this.dllName := dllName;
      new;
      var ok := GenerateBindings(ast);
    }

    /**
     * The stages in order, from the parsed header to the finished buffer: the
     * collection pass, the usings, the class header, the externs, the enums, the
     * structs, the aliases and the closing brace.
     */
    method GenerateBindings(ast: Ast) returns (ok: bool)
      requires AstReady(ast)
      requires TablesReady(ast.graph, AliasTables(functionAliases, typeAliases))
      requires CacheSound(ast.graph, resolvedTypeCache)
      modifies this`functionAliases, this`typeAliases, this`resolvedTypeCache
      modifies Context`AST, Context`TabIndex, Context`OutputFile
      ensures ok && Valid() && Context.AST == ast && Context.TabIndex == -1
      ensures AliasTables(functionAliases, typeAliases)
        == CollectAll(ast.graph, AliasTables(old(functionAliases), old(typeAliases)), AllDeclarations(ast.units))
      ensures Context.OutputFile == WriteBindings(old(Context.OutputFile), ast, functionAliases, dllName, namespaceName, old(Context.TabIndex))
    {
      Context.AST := ast;
      CollectAliasesAndFunctions();
      ghost var fa := functionAliases;
      assert ResolveReady(ast.graph, fa);
      ok := GenerateClassHeader();
      if !ok {
        return;
      }
      ok := GenerateClassBody(ast, fa, old(Context.TabIndex));
    }

    /** The usings and the opening of the `<namespace>API` class. */
    method GenerateClassHeader() returns (ok: bool)
      modifies Context`OutputFile
      ensures ok
      ensures Context.OutputFile == WriteClassHeader(old(Context.OutputFile), Context.TabIndex, namespaceName)
    {
      ok := GenerateUsings();
      if !ok {
        return;
      }
      Context.AppendString("public class " + namespaceName + "API");
      Context.AppendString("{");
    }

    /** The stages after the class header, from the externs to the closing brace. */
    method GenerateClassBody(ghost ast: Ast, ghost fa: FunctionAliases, ghost tab: int) returns (ok: bool)
      requires Context.AST == ast && functionAliases == fa && Context.TabIndex == tab
      requires AstReady(ast) && ResolveReady(ast.graph, fa) && CacheSound(ast.graph, resolvedTypeCache)
      modifies this`resolvedTypeCache, Context`OutputFile, Context`TabIndex
      ensures ok && Context.TabIndex == -1 && CacheSound(ast.graph, resolvedTypeCache)
      ensures Context.OutputFile == WriteClassBody(old(Context.OutputFile), ast, fa, dllName, tab)
    {
      ghost var g, ds := ast.graph, AllDeclarations(ast.units);
      IncreaseTab();
      ok := GenerateFunctions(ast, fa, tab + 1);
      if !ok {
        return;
      }
      ghost var externs := Context.OutputFile;
      ok := GenerateEnums(ast, tab + 1);
      if !ok {
        return;
      }
      ghost var enums := Context.OutputFile;
      ok := GenerateStructs(ast);
      if !ok {
        return;
      }
      ghost var structs := Context.OutputFile;
      var aliasesDone := GenerateAliases(g, fa, 0);
      DecreaseTab();
      Context.AppendString("}");
      assert externs == WriteExterns(old(Context.OutputFile), g, fa, dllName, tab + 1, Functions(ds));
      assert enums == WriteEnums(externs, tab + 1, Enums(ds));
      assert structs == WriteStructs(enums, g, 0, ds);
    }

    /**
     * `ResolveType`, with `g` and `fa` the graph and the alias table it reads:
     * a cache hit returns the cached text; a function-shaped type resolves
     * through the aliases and is not cached; any other type resolves through
     * its canonical type and is cached.
     */
    method ResolveType(t: TypeId, ghost g: TypeGraph, ghost fa: FunctionAliases) returns (r: string)
      requires Context.AST.graph == g && functionAliases == fa
      requires WellFormed(g) && NodesConvertible(g) && KeysConvertible(fa)
      requires CacheSound(g, resolvedTypeCache) && t in g.nodes
      modifies this`resolvedTypeCache
      ensures CacheSound(g, resolvedTypeCache)
      ensures r == ResolveSpec(g, fa, t)
      ensures t in old(resolvedTypeCache) || FunctionShaped(g, t) ==> resolvedTypeCache == old(resolvedTypeCache)
      ensures t !in old(resolvedTypeCache) && !FunctionShaped(g, t) ==> resolvedTypeCache == old(resolvedTypeCache)[t := r]
    {
      if t in resolvedTypeCache {
        return resolvedTypeCache[t];
      }
      var found, fn := TryGetFunctionType(Context.AST.graph, Some(t));
      if found {
        r := ResolveFunctionAlias(Context.AST.graph, functionAliases, fn.value);
        return;
      }
      r := ResolveCanonical(Context.AST.graph, t);
      CacheSoundInsert(g, resolvedTypeCache, t, r);
      resolvedTypeCache := resolvedTypeCache[t := r];
    }

    /** `CollectAliasesAndFunctions`: one `CollectDecl` step per declaration, in order. */
    method CollectAliasesAndFunctions()
      requires AstWellFormed(Context.AST) && DeclsReady(Context.AST.graph, AllDeclarations(Context.AST.units))
      requires TablesValid()
      modifies this`functionAliases, this`typeAliases
      ensures TablesValid()
      ensures AliasTables(functionAliases, typeAliases)
        == CollectAll(Context.AST.graph, AliasTables(old(functionAliases), old(typeAliases)), AllDeclarations(Context.AST.units))
    {
      var g := Context.AST.graph;
      var ds := AllDeclarations(Context.Units());
      ghost var start := AliasTables(functionAliases, typeAliases);
      for k := 0 to |ds|
        invariant AliasTables(functionAliases, typeAliases) == CollectAll(g, start, ds[..k])
        invariant TablesValid()
      {
        assert ds[..k + 1][..k] == ds[..k];
        assert DeclarationIn(g, ds[k]) && DeclReady(g, ds[k]);
        CollectDeclaration(ds[k]);
      }
      assert ds[..|ds|] == ds;
    }

    /** The body of the `CollectAliasesAndFunctions` loop for one declaration. */
    method CollectDeclaration(d: Declaration)
      requires WellFormed(Context.AST.graph) && DeclarationIn(Context.AST.graph, d) && DeclReady(Context.AST.graph, d)
      requires TablesValid()
      modifies this`functionAliases, this`typeAliases
      ensures TablesValid()
      ensures AliasTables(functionAliases, typeAliases) == CollectDecl(Context.AST.graph, AliasTables(old(functionAliases), old(typeAliases)), d)
    {
      var g := Context.AST.graph;
      CollectDeclKeepsReady(g, AliasTables(functionAliases, typeAliases), d);
      match d {
        case TypedefDecl(n, ty) =>
          var found, fn := TryGetFunctionType(g, Some(ty));
          if found {
            functionAliases := Set(functionAliases, n, fn.value);
          } else {
            var text := ConvertTypes(TypeText(g, ty));
            typeAliases := Set(typeAliases, n, text);
          }
        case ClassDecl(_, cls, _) =>
          if cls.tagKind == Struct {
            CollectFieldAliases(cls.fields);
          }
        case _ =>
      }
    }

    /** The field loop of `CollectAliasesAndFunctions` on one struct. */
    method CollectFieldAliases(fs: seq<Field>)
      requires WellFormed(Context.AST.graph) && FieldsIn(Context.AST.graph, fs)
      modifies this`functionAliases
      ensures functionAliases == FieldAliases(Context.AST.graph, old(functionAliases), fs)
    {
      var g := Context.AST.graph;
      ghost var start := functionAliases;
      for i := 0 to |fs|
        invariant FieldsIn(g, fs[..i])
        invariant functionAliases == FieldAliases(g, start, fs[..i])
      {
        assert fs[..i + 1][..i] == fs[..i];
        var found, fn := TryGetFunctionType(g, Some(fs[i].ty));
        if !found {
          continue;
        }
        var converted := ConvertName(fs[i].name);
        var fnName := converted + "Fn";
        functionAliases := TryAdd(functionAliases, fnName, fn.value);
      }
      assert fs[..|fs|] == fs;
    }

    /** `EmitParameter(p)`, resolving against `g` and `fa`. */
    method EmitParameter(p: Parameter, ghost g: TypeGraph, ghost fa: FunctionAliases) returns (text: string)
      requires Context.AST.graph == g && functionAliases == fa && ResolveReady(g, fa)
      requires CacheSound(g, resolvedTypeCache) && p.ty in g.nodes
      modifies this`resolvedTypeCache
      ensures CacheSound(g, resolvedTypeCache)
      ensures text == ParamText(g, fa, p)
    {
      var ptrDepth := GetPointerDepth(Context.AST.graph, p.ty);
      var baseType := ResolveType(p.ty, g, fa);
      var converted := ConvertName(p.name, true);
      var name := FixParamName(converted);
      var stars := PointerDepth(ptrDepth);
      text := baseType + stars + " " + name;
    }

    /** `parameters.Select(EmitParameter).ToList()`. */
    method EmitParameters(ps: seq<Parameter>, ghost g: TypeGraph, ghost fa: FunctionAliases) returns (texts: seq<string>)
      requires Context.AST.graph == g && functionAliases == fa && ResolveReady(g, fa)
      requires CacheSound(g, resolvedTypeCache) && ParametersIn(g, ps)
      modifies this`resolvedTypeCache
      ensures CacheSound(g, resolvedTypeCache)
      ensures texts == ParamTexts(g, fa, ps)
    {
      texts := [];
      for i := 0 to |ps|
        invariant CacheSound(g, resolvedTypeCache) && ParametersIn(g, ps[..i])
        invariant texts == ParamTexts(g, fa, ps[..i])
      {
        ParamTextsStep(g, fa, ps, i);
        var text := EmitParameter(ps[i], g, fa);
        texts := texts + [text];
      }
      assert ps[..|ps|] == ps;
    }

    /** `GenerateFunctions` on the header `ast` with alias table `fa`, at tab depth `tab`. */
    method GenerateFunctions(ghost ast: Ast, ghost fa: FunctionAliases, ghost tab: int) returns (ok: bool)
      requires Context.AST == ast && functionAliases == fa && Context.TabIndex == tab
      requires AstWellFormed(ast) && ResolveReady(ast.graph, fa) && CacheSound(ast.graph, resolvedTypeCache)
      modifies this`resolvedTypeCache, Context`OutputFile
      ensures ok && CacheSound(ast.graph, resolvedTypeCache)
      ensures FunctionsIn(ast.graph, Functions(AllDeclarations(ast.units)))
      ensures Context.OutputFile == WriteExterns(old(Context.OutputFile), ast.graph, fa, dllName, tab, Functions(AllDeclarations(ast.units)))
    {
      var fns := Functions(AllDeclarations(Context.Units()));
      FunctionsOfDecls(ast.graph, AllDeclarations(ast.units));
      for k := 0 to |fns|
        invariant CacheSound(ast.graph, resolvedTypeCache)
        invariant Context.OutputFile == WriteExterns(old(Context.OutputFile), ast.graph, fa, dllName, tab, fns[..k])
      {
        WriteExternsStep(old(Context.OutputFile), ast.graph, fa, dllName, tab, fns, k);
        EmitExtern(fns[k], ast.graph, fa, tab);
      }
      assert fns[..|fns|] == fns;
      ok := true;
    }

    /** The body of the `GenerateFunctions` loop for one function. */
    method EmitExtern(f: FunctionDecl, ghost g: TypeGraph, ghost fa: FunctionAliases, ghost tab: int)
      requires Context.AST.graph == g && functionAliases == fa && Context.TabIndex == tab && ResolveReady(g, fa)
      requires CacheSound(g, resolvedTypeCache) && f.returnType in g.nodes && ParametersIn(g, f.parameters)
      modifies this`resolvedTypeCache, Context`OutputFile
      ensures CacheSound(g, resolvedTypeCache)
      ensures Context.OutputFile == WriteExtern(old(Context.OutputFile), g, fa, dllName, tab, f)
    {
      if f.isInline || f.isOperator {
        return;
      }
      var line := ExternText(f, g, fa);
      Context.AppendString("[CLink, Import(\"" + dllName + "\")]");
      Context.AppendString(line);
      Context.AppendString();
    }

    /** The `public static extern` line of one function. */
    method ExternText(f: FunctionDecl, ghost g: TypeGraph, ghost fa: FunctionAliases) returns (line: string)
      requires Context.AST.graph == g && functionAliases == fa && ResolveReady(g, fa)
      requires CacheSound(g, resolvedTypeCache) && f.returnType in g.nodes && ParametersIn(g, f.parameters)
      modifies this`resolvedTypeCache
      ensures CacheSound(g, resolvedTypeCache)
      ensures line == ExternLine(g, fa, f)
    {
      var name := ConvertName(f.name);
      var returnType := ResolveType(f.returnType, g, fa);
      var parameters := EmitParameters(f.parameters, g, fa);
      var joined := JoinParameters(parameters);
      line := "public static extern " + returnType + " " + name + "(" + joined + ");";
    }

    /** `GenerateStructs` on the header `ast`. */
    method GenerateStructs(ghost ast: Ast) returns (ok: bool)
      requires Context.AST == ast && AstWellFormed(ast) && DeclsReady(ast.graph, AllDeclarations(ast.units))
      modifies Context`OutputFile, Context`TabIndex
      ensures ok && Context.TabIndex == 0
      ensures Context.OutputFile == WriteStructs(old(Context.OutputFile), ast.graph, 0, AllDeclarations(ast.units))
    {
      var g := Context.AST.graph;
      var ds := AllDeclarations(Context.Units());
      Context.TabIndex := 0;
      for k := 0 to |ds|
        invariant Context.TabIndex == 0 && DeclsIn(g, ds) && DeclsReady(g, ds)
        invariant Context.OutputFile == WriteStructs(old(Context.OutputFile), g, 0, ds[..k])
      {
        WriteStructsStep(old(Context.OutputFile), g, 0, ds, k);
        EmitStructDeclaration(ds[k], g);
      }
      assert ds[..|ds|] == ds;
      ok := true;
    }

    /** The body of the `GenerateStructs` loop for one declaration: a struct when its emitted class is one. */
    method EmitStructDeclaration(d: Declaration, ghost g: TypeGraph)
      requires Context.AST.graph == g && Context.TabIndex == 0
      requires WellFormed(g) && DeclarationIn(g, d) && DeclReady(g, d)
      modifies Context`OutputFile, Context`TabIndex
      ensures Context.TabIndex == 0
      ensures Context.OutputFile == WriteStructDecl(old(Context.OutputFile), g, 0, d)
    {
      match d {
        case ClassDecl(name, cls, original) =>
          var ast := if original.Some? then original.value else cls;
          if ast.tagKind == Struct {
            EmitStruct(name, ast, g, 0);
          }
        case _ =>
      }
    }

    /** The body of the `GenerateStructs` loop for a declaration whose emitted class is a struct, at tab depth `tab`. */
    method EmitStruct(name: string, b: ClassBody, ghost g: TypeGraph, ghost tab: int)
      requires Context.AST.graph == g && Context.TabIndex == tab
      requires WellFormed(g) && FieldsIn(g, b.fields) && FieldTypesConvertible(g, b.fields)
      modifies Context`OutputFile, Context`TabIndex
      ensures Context.TabIndex == tab
      ensures Context.OutputFile == WriteStruct(old(Context.OutputFile), g, tab, name, b)
    {
      var fieldsDict := EmitStructOpen(name, b, g, tab);
      EmitStructClose(fieldsDict, tab);
    }

    /** The struct's header, its fields and its constructor line; returns the field-name dictionary. */
    method EmitStructOpen(name: string, b: ClassBody, ghost g: TypeGraph, ghost tab: int) returns (fieldsDict: Dict<string, string>)
      requires Context.AST.graph == g && Context.TabIndex == tab
      requires WellFormed(g) && FieldsIn(g, b.fields) && FieldTypesConvertible(g, b.fields)
      modifies Context`OutputFile, Context`TabIndex
      ensures Context.TabIndex == tab + 1
      ensures Context.OutputFile == StructOpen(old(Context.OutputFile), g, tab, name, b)
      ensures fieldsDict == Assignments(b.fields)
    {
      EmitStructHeader(name);
      IncreaseTab();
      var constructorLine;
      constructorLine, fieldsDict := EmitFields(b.fields, g, tab + 1);
      ghost var fields := Context.OutputFile;
      EmitCtorOpen(constructorLine);
      assert fields == WriteFields(StructHeader(old(Context.OutputFile), tab, name), g, tab + 1, b.fields);
    }

    /** `[CRepr]`, the `public struct` line and the opening brace. */
    method EmitStructHeader(name: string)
      modifies Context`OutputFile
      ensures Context.OutputFile == StructHeader(old(Context.OutputFile), Context.TabIndex, name)
    {
      Context.AppendString("[CRepr]");
      Context.AppendString("public struct " + name);
      Context.AppendString("{");
    }

    /** The constructor line, closed with `)`, and the brace that opens its body. */
    method EmitCtorOpen(constructorLine: string)
      modifies Context`OutputFile
      ensures Context.OutputFile == CtorOpen(old(Context.OutputFile), Context.TabIndex, constructorLine)
    {
      var line := constructorLine + ")";
      Context.AppendString(line);
      Context.AppendString("{");
    }

    /** The constructor body's assignments, then back out of it and of the struct, closing both, and a blank line. */
    method EmitStructClose(fieldsDict: Dict<string, string>, ghost tab: int)
      requires Context.TabIndex == tab + 1
      modifies Context`OutputFile, Context`TabIndex
      ensures Context.TabIndex == tab
      ensures Context.OutputFile == StructClose(WriteAssignments(old(Context.OutputFile), tab + 2, fieldsDict), tab)
    {
      IncreaseTab();
      EmitAssignments(fieldsDict, tab + 2);
      DecreaseTab();
      Context.AppendString("}");
      DecreaseTab();
      Context.AppendString("}");
      Context.AppendString();
    }

    /**
     * The field loop of `GenerateStructs`, at tab depth `tab`: it writes each
     * field's declaration and returns the constructor line so far (without its
     * closing parenthesis) and `fieldsDict`.
     */
    method EmitFields(fs: seq<Field>, ghost g: TypeGraph, ghost tab: int) returns (constructorLine: string, fieldsDict: Dict<string, string>)
      requires Context.AST.graph == g && Context.TabIndex == tab
      requires WellFormed(g) && FieldsIn(g, fs) && FieldTypesConvertible(g, fs)
      modifies Context`OutputFile
      ensures Context.OutputFile == WriteFields(old(Context.OutputFile), g, tab, fs)
      ensures constructorLine == "public this(" + Join(CtorParams(g, fs), ", ")
      ensures fieldsDict == Assignments(fs)
    {
      constructorLine := "public this(";
      fieldsDict := [];
      for i := 0 to |fs|
        invariant Context.TabIndex == tab
        invariant FieldsIn(g, fs[..i])
        invariant Context.OutputFile == WriteFields(old(Context.OutputFile), g, tab, fs[..i])
        invariant constructorLine == CtorLine(g, fs, i)
        invariant fieldsDict == TryAddAll(NamePairs(fs[..i]))
      {
        WriteFieldsStep(old(Context.OutputFile), g, tab, fs, i);
        CtorLineStep(g, fs, i);
        NamePairsStep(fs, i);
        assert ConvertTypesDefined(FieldTypeName(g, fs[i]));
        constructorLine, fieldsDict := EmitField(fs, i, tab, constructorLine, fieldsDict);
      }
      assert fs[..|fs|] == fs;
    }

    /** The body of the field loop for `fs[i]`: its declaration, its constructor parameter and its `TryAdd`. */
    method EmitField(fs: seq<Field>, i: nat, ghost tab: int, line: string, dict: Dict<string, string>)
      returns (constructorLine: string, fieldsDict: Dict<string, string>)
      requires Context.TabIndex == tab
      requires WellFormed(Context.AST.graph) && i < |fs| && fs[i].ty in Context.AST.graph.nodes
      requires ConvertTypesDefined(FieldTypeName(Context.AST.graph, fs[i]))
      modifies Context`OutputFile
      ensures Context.OutputFile == WriteField(old(Context.OutputFile), Context.AST.graph, tab, fs[i])
      ensures constructorLine == line + CtorParam(Context.AST.graph, fs[i]) + (if i != |fs| - 1 then ", " else "")
      ensures fieldsDict == TryAdd(dict, ConvertNameSpec(fs[i].name, false), ConvertNameSpec(fs[i].name, true))
    {
      var field := fs[i];
      var finalType := EmitFieldDeclaration(field, tab);
      var paramType := ConvertTypes(finalType);
      var camel := ConvertName(field.name, true);
      constructorLine := line + (paramType + " " + camel);
      var key := ConvertName(field.name);
      var value := ConvertName(field.name, true);
      fieldsDict := TryAdd(dict, key, value);
      if i != |fs| - 1 {
        constructorLine := constructorLine + ", ";
      }
    }

    /** The declaration of one field and the blank line after it, at tab depth `tab`; returns the field's `finalType`. */
    method EmitFieldDeclaration(field: Field, ghost tab: int) returns (finalType: string)
      requires Context.TabIndex == tab
      requires WellFormed(Context.AST.graph) && field.ty in Context.AST.graph.nodes
      requires ConvertTypesDefined(FieldTypeName(Context.AST.graph, field))
      modifies Context`OutputFile
      ensures finalType == FieldTypeName(Context.AST.graph, field)
      ensures Context.OutputFile == WriteField(old(Context.OutputFile), Context.AST.graph, tab, field)
    {
      finalType := FieldTypeNameOf(field);
      var declared := ConvertTypes(finalType);
      var pascal := ConvertName(field.name);
      Context.AppendString("public " + declared + " " + pascal + ";");
      Context.AppendString();
    }

    /** The assignment loop of `GenerateStructs`, at tab depth `tab`: one `this.` line per entry of `fieldsDict`. */
    method EmitAssignments(fieldsDict: Dict<string, string>, ghost tab: int)
      requires Context.TabIndex == tab
      modifies Context`OutputFile
      ensures Context.OutputFile == WriteAssignments(old(Context.OutputFile), tab, fieldsDict)
    {
      for j := 0 to |fieldsDict|
        invariant Context.OutputFile == WriteAssignments(old(Context.OutputFile), tab, fieldsDict[..j])
      {
        assert fieldsDict[..j + 1][..j] == fieldsDict[..j];
        Context.AppendString("this." + fieldsDict[j].0 + " = " + fieldsDict[j].1 + ";");
      }
      assert fieldsDict[..|fieldsDict|] == fieldsDict;
    }

    /** `finalType` of a field: the name of its canonical type, replaced by its alias name for a direct function pointer. */
    method FieldTypeNameOf(field: Field) returns (finalType: string)
      requires WellFormed(Context.AST.graph) && field.ty in Context.AST.graph.nodes
      ensures finalType == FieldTypeName(Context.AST.graph, field)
    {
      var g := Context.AST.graph;
      var fieldType := field.ty;
      var baseType := GetCanonicalType(g, Some(fieldType));
      finalType := [];
      match g.nodes[baseType.value] {
        case Builtin(p) => finalType := p;
        case Typedef(n, _) => finalType := n;
        case Tag(n, kind) =>
          if kind != OtherTag {
            finalType := n;
          }
        case _ =>
      }
      match g.nodes[fieldType] {
        case Pointer(pointee) =>
          var desugar := Desugar(g, pointee);
          if g.nodes[desugar].Function? {
            var converted := ConvertName(field.name);
            finalType := converted + "Fn";
          }
        case _ =>
      }
    }

    /** `GenerateAliases` with alias table `fa` over graph `g`, at tab depth `tab`. */
    method GenerateAliases(ghost g: TypeGraph, ghost fa: FunctionAliases, ghost tab: int) returns (ok: bool)
      requires Context.AST.graph == g && functionAliases == fa && Context.TabIndex == tab
      requires ResolveReady(g, fa) && CacheSound(g, resolvedTypeCache)
      modifies this`resolvedTypeCache, Context`OutputFile
      ensures ok && CacheSound(g, resolvedTypeCache)
      ensures Context.OutputFile == WriteAliases(old(Context.OutputFile), g, fa, tab, |fa|)
    {
      var aliases := functionAliases;
      for k := 0 to |aliases|
        invariant CacheSound(g, resolvedTypeCache)
        invariant Context.OutputFile == WriteAliases(old(Context.OutputFile), g, fa, tab, k)
      {
        EmitAlias(aliases[k].0, aliases[k].1, g, fa, tab, old(Context.OutputFile), k);
      }
      ok := true;
    }

    /** The body of the `GenerateAliases` loop for alias number `k`, with `start` the buffer before the loop. */
    method EmitAlias(key: string, fn: TypeId, ghost g: TypeGraph, ghost fa: FunctionAliases, ghost tab: int, ghost start: string, ghost k: nat)
      requires Context.AST.graph == g && functionAliases == fa && Context.TabIndex == tab && ResolveReady(g, fa)
      requires CacheSound(g, resolvedTypeCache) && k < |fa| && fa[k] == (key, fn)
      requires Context.OutputFile == WriteAliases(start, g, fa, tab, k)
      modifies this`resolvedTypeCache, Context`OutputFile
      ensures CacheSound(g, resolvedTypeCache)
      ensures Context.OutputFile == WriteAliases(start, g, fa, tab, k + 1)
    {
      var input := AliasText(key, fn, g, fa);
      Context.AppendString(input);
      Context.AppendString();
    }

    /** The `public function` line of one alias. */
    method AliasText(key: string, fn: TypeId, ghost g: TypeGraph, ghost fa: FunctionAliases) returns (input: string)
      requires Context.AST.graph == g && functionAliases == fa && ResolveReady(g, fa)
      requires CacheSound(g, resolvedTypeCache) && fn in g.nodes && g.nodes[fn].Function?
      modifies this`resolvedTypeCache
      ensures CacheSound(g, resolvedTypeCache)
      ensures input == AliasLine(g, fa, key, fn)
    {
      var f := Context.AST.graph.nodes[fn];
      var name := ConvertName(key);
      var returnType := ResolveType(f.returnType, g, fa);
      var parameters := EmitParameters(f.parameters, g, fa);
      var depth := GetPointerDepth(Context.AST.graph, f.returnType);
      var stars := PointerDepth(depth);
      var joined := JoinParameters(parameters);
      input := "public function " + returnType + stars + " " + name + "(" + joined + ");";
    }

    method GenerateUsings() returns (ok: bool)
      modifies Context`OutputFile
      ensures ok
      ensures Context.OutputFile == WriteUsings(old(Context.OutputFile), Context.TabIndex, namespaceName)
    {
      Context.AppendString("using System;");
      Context.AppendString("using System.Interop;");
      Context.AppendString();
      Context.AppendString("namespace " + namespaceName + ";");
      Context.AppendString();
      ok := true;
    }

    /** `GenerateEnums` on the header `ast`, at tab depth `tab`. */
    method GenerateEnums(ghost ast: Ast, ghost tab: int) returns (ok: bool)
      requires Context.AST == ast && Context.TabIndex == tab
      modifies Context`OutputFile, Context`TabIndex
      ensures ok && Context.TabIndex == tab
      ensures Context.OutputFile == WriteEnums(old(Context.OutputFile), tab, Enums(AllDeclarations(ast.units)))
    {
      var es := Enums(AllDeclarations(Context.Units()));
      for k := 0 to |es|
        invariant Context.TabIndex == tab
        invariant Context.OutputFile == WriteEnums(old(Context.OutputFile), tab, es[..k])
      {
        assert es[..k + 1][..k] == es[..k];
        EmitEnum(es[k]);
      }
      assert es[..|es|] == es;
      ok := true;
    }

    /** The body of the `GenerateEnums` loop for one enumeration. */
    method EmitEnum(e: Enumeration)
      modifies Context`OutputFile, Context`TabIndex
      ensures Context.TabIndex == old(Context.TabIndex)
      ensures Context.OutputFile == WriteEnum(old(Context.OutputFile), old(Context.TabIndex), e)
    {
      if e.comment.Some? {
        Context.AppendString(e.comment.value);
      }
      Context.AppendString("[AllowDuplicates]");
      Context.AppendString("public enum " + e.name + " : c_int");
      Context.AppendString("{");
      IncreaseTab();
      EmitItems(e.items, old(Context.TabIndex) + 1);
      DecreaseTab();
      Context.AppendString("}");
      Context.AppendString();
    }

    /** The item loop of `GenerateEnums`, at tab depth `tab`. */
    method EmitItems(items: seq<EnumItem>, ghost tab: int)
      requires Context.TabIndex == tab
      modifies Context`OutputFile
      ensures Context.OutputFile == WriteItems(old(Context.OutputFile), tab, items)
    {
      for j := 0 to |items|
        invariant Context.OutputFile == WriteItems(old(Context.OutputFile), tab, items[..j])
      {
        assert items[..j + 1][..j] == items[..j];
        var item := items[j];
        if item.comment.Some? {
          Context.AppendString("// " + item.comment.value);
        }
        Context.AppendString("case " + item.name + " = " + DecimalText(item.value) + ";");
      }
      assert items[..|items|] == items;
    }

    method IncreaseTab()
      modifies Context`TabIndex
      ensures Context.TabIndex == old(Context.TabIndex) + 1
    {
      Context.TabIndex := Context.TabIndex + 1;
    }

    method DecreaseTab()
      modifies Context`TabIndex
      ensures Context.TabIndex == old(Context.TabIndex) - 1
    {
      Context.TabIndex := Context.TabIndex - 1;
    }
  }
}
