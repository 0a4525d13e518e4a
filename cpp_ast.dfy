/**
 * The parsed C header, as the generator reads it from CppSharp: a closed
 * graph of type objects addressed by identity, and translation units of
 * declarations. `Desugar()` and `Type.ToString()` are uninterpreted: each
 * graph carries their results as data. `FunctionType.Equals` is an
 * uninterpreted equivalence, carried as a signature key on each function node.
 */
module CppAst {
  import opened Wrappers

  /** The identity (reference) of a CppSharp `Type` object. */
  type TypeId = nat

  datatype Parameter = Parameter(name: string, ty: TypeId)

  /** What the declaration behind a `TagType` is. */
  datatype TagDeclKind = ClassTag | EnumTag | OtherTag

  datatype TypeNode =
    | Builtin(primitive: string)              // BuiltinType; `primitive` is the name of its PrimitiveType
    | Typedef(declName: string, aliased: TypeId)   // TypedefType: its declaration's name and aliased type
    | Pointer(pointee: TypeId)
    | Array(element: TypeId)
    | Tag(declName: string, declKind: TagDeclKind)
    | Function(returnType: TypeId, parameters: seq<Parameter>, signature: nat)
    | OtherType                               // any other kind of CppSharp Type

  datatype TypeGraph = TypeGraph(
    nodes: map<TypeId, TypeNode>,
    desugared: map<TypeId, TypeId>,           // `t.Desugar()`; absent means `t` itself
    text: map<TypeId, string>)                // `t.ToString()`; absent means ""

  function Desugar(g: TypeGraph, t: TypeId): TypeId {
    if t in g.desugared then g.desugared[t] else t
  }

  function TypeText(g: TypeGraph, t: TypeId): string {
    if t in g.text then g.text[t] else []
  }

  /** `Equals(a, b)` on two function types. */
  predicate FunctionTypeEquals(g: TypeGraph, a: TypeId, b: TypeId) {
    a in g.nodes && b in g.nodes && g.nodes[a].Function? && g.nodes[b].Function?
    && g.nodes[a].signature == g.nodes[b].signature
  }

  ghost predicate NodeEdgesIn(g: TypeGraph, n: TypeNode) {
    match n
    case Typedef(_, x) => x in g.nodes
    case Pointer(x) => x in g.nodes
    case Array(x) => x in g.nodes
    case Function(r, ps, _) => r in g.nodes && forall k :: 0 <= k < |ps| ==> ps[k].ty in g.nodes
    case _ => true
  }

  /** Every reference held by a type object (and every desugared result) is a type object of the graph. */
  ghost predicate WellFormed(g: TypeGraph) {
    && (forall t {:trigger g.nodes[t]} :: t in g.nodes ==> NodeEdgesIn(g, g.nodes[t]))
    && (forall t {:trigger Desugar(g, t)} :: t in g.nodes ==> Desugar(g, t) in g.nodes)
  }

  /** CppSharp's `TagKind`. */
  datatype TagKind = Struct | Interface | Union | Class | Enum

  datatype Field = Field(name: string, ty: TypeId)

  /** The kind and fields of a `Class` declaration. */
  datatype ClassBody = ClassBody(tagKind: TagKind, fields: seq<Field>)

  datatype EnumItem = EnumItem(name: string, value: nat, comment: Option<string>)

  datatype Enumeration = Enumeration(name: string, comment: Option<string>, items: seq<EnumItem>)

  datatype FunctionDecl = FunctionDecl(
    name: string, returnType: TypeId, parameters: seq<Parameter>, isInline: bool, isOperator: bool)

  datatype Declaration =
    | TypedefDecl(name: string, aliased: TypeId)
    | ClassDecl(name: string, body: ClassBody, original: Option<ClassBody>)   // original: `OriginalClass`
    | EnumDecl(enumeration: Enumeration)
    | FunctionDeclaration(func: FunctionDecl)
    | OtherDecl

  datatype TranslationUnit = TranslationUnit(declarations: seq<Declaration>)

  datatype Ast = Ast(graph: TypeGraph, units: seq<TranslationUnit>)

  /** `units.SelectMany(u => u.Declarations)`. */
  function AllDeclarations(units: seq<TranslationUnit>): (ds: seq<Declaration>)
    ensures units == [] ==> ds == []
  {
    if units == [] then [] else AllDeclarations(units[..|units| - 1]) + units[|units| - 1].declarations
  }

  /** `units.SelectMany(u => u.Enums)`: the enumerations among the declarations, in order. */
  function Enums(ds: seq<Declaration>): seq<Enumeration> {
    if ds == [] then []
    else Enums(ds[..|ds| - 1]) + (if ds[|ds| - 1].EnumDecl? then [ds[|ds| - 1].enumeration] else [])
  }

  /** `units.SelectMany(u => u.Functions)`: the functions among the declarations, in order. */
  function Functions(ds: seq<Declaration>): seq<FunctionDecl> {
    if ds == [] then []
    else Functions(ds[..|ds| - 1]) + (if ds[|ds| - 1].FunctionDeclaration? then [ds[|ds| - 1].func] else [])
  }

  ghost predicate FieldsIn(g: TypeGraph, fs: seq<Field>) {
    forall k :: 0 <= k < |fs| ==> fs[k].ty in g.nodes
  }

  ghost predicate ParametersIn(g: TypeGraph, ps: seq<Parameter>) {
    forall k :: 0 <= k < |ps| ==> ps[k].ty in g.nodes
  }

  ghost predicate DeclarationIn(g: TypeGraph, d: Declaration) {
    match d
    case TypedefDecl(_, t) => t in g.nodes
    case ClassDecl(_, b, o) => FieldsIn(g, b.fields) && (o.Some? ==> FieldsIn(g, o.value.fields))
    case FunctionDeclaration(f) => f.returnType in g.nodes && ParametersIn(g, f.parameters)
    case _ => true
  }

  ghost predicate DeclsIn(g: TypeGraph, ds: seq<Declaration>) {
    forall k :: 0 <= k < |ds| ==> DeclarationIn(g, ds[k])
  }

  /** The AST is closed: the graph is well formed and every declaration refers to its type objects. */
  ghost predicate AstWellFormed(ast: Ast) {
    WellFormed(ast.graph) && DeclsIn(ast.graph, AllDeclarations(ast.units))
  }
}
