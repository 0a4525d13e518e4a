/**
 * How `GenBeefCBindings` spells one C type or one parameter in Beef:
 * `ResolveType`, the field types of `GenerateStructs` and `EmitParameter`,
 * as functions of the parsed header and the function-alias table.
 */
module BeefTypes {
  import opened Wrappers
  import opened OrderedDicts
  import opened SystemStrings
  import opened StringHelpers
  import opened CppAst
  import opened TypeWalks
  import opened BeefNames

  /** `_functionAliases`: alias name to the function type it names, in insertion order. */
  type FunctionAliases = Dict<string, TypeId>

  /** `_typeAliases`: typedef name to its converted type text. */
  type TypeAliases = Dict<string, string>

  // ---------------------------------------------------------------------------
  // Names read off canonical types
  // ---------------------------------------------------------------------------

  /** The name `ResolveType` converts for a canonical type: the builtin's primitive, the typedef's or tag's declaration name, else the type's text. */
  function BaseName(g: TypeGraph, c: TypeId): string
    requires c in g.nodes
  {
    match g.nodes[c]
    case Builtin(p) => p
    case Typedef(n, _) => n
    case Tag(n, _) => n
    case _ => TypeText(g, c)
  }

  /** The name `GenerateStructs` reads off a field's canonical type: as `BaseName`, but empty for a tag that is neither a class nor an enum and for every other kind of type. */
  function StructTypeName(g: TypeGraph, c: TypeId): (n: string)
    requires c in g.nodes
    ensures n == [] || n == BaseName(g, c)
    ensures g.nodes[c].Builtin? || g.nodes[c].Typedef? ==> n == BaseName(g, c)
    ensures g.nodes[c].Pointer? || g.nodes[c].Array? || g.nodes[c].Function? || g.nodes[c].OtherType? ==> n == []
  {
    match g.nodes[c]
    case Builtin(p) => p
    case Typedef(n, _) => n
    case Tag(n, k) => if k == OtherTag then [] else n
    case _ => []
  }

  /** The canonical type of a type object (`GetCanonicalType(t)` for a non-null `t`). */
  function Canonical(g: TypeGraph, t: TypeId): (c: TypeId)
    requires WellFormed(g) && t in g.nodes
    ensures c in g.nodes
    ensures CanonicalType(g, Some(t)) == Some(c)
  {
    CanonicalFrom(g, t, {})
  }

  // ---------------------------------------------------------------------------
  // What the generator needs of its input
  // ---------------------------------------------------------------------------

  /**
   * `ConvertTypes` can be applied to every name `ResolveType` may convert:
   * the base name of each type object's canonical type.
   */
  ghost predicate NodesConvertible(g: TypeGraph)
    requires WellFormed(g)
  {
    forall t {:trigger Canonical(g, t)} :: t in g.nodes ==> ConvertTypesDefined(BaseName(g, Canonical(g, t)))
  }

  /** `ConvertTypes` can be applied to every alias name. */
  ghost predicate KeysConvertible(fa: FunctionAliases) {
    forall e {:trigger ConvertTypesDefined(e.0)} :: e in fa ==> ConvertTypesDefined(e.0)
  }

  /** Every alias names a function type object of the graph. */
  ghost predicate AliasesAreFunctions(g: TypeGraph, fa: FunctionAliases) {
    forall e :: e in fa ==> e.1 in g.nodes && g.nodes[e.1].Function?
  }

  /** What resolving types and parameters needs: a closed graph without pointer cycles, convertible names and aliases naming function types. */
  ghost predicate ResolveReady(g: TypeGraph, fa: FunctionAliases) {
    WellFormed(g) && PointersFinite(g) && NodesConvertible(g) && KeysConvertible(fa) && AliasesAreFunctions(g, fa)
  }

  // ---------------------------------------------------------------------------
  // ResolveType
  // ---------------------------------------------------------------------------

  /** The index of the first alias whose function type equals `fn` (`FirstOrDefault`), or `|fa|` when there is none. */
  function FirstMatch(g: TypeGraph, fa: FunctionAliases, fn: TypeId): (i: nat)
    ensures i <= |fa|
    ensures i < |fa| ==> FunctionTypeEquals(g, fa[i].1, fn)
    ensures forall j :: 0 <= j < i ==> !FunctionTypeEquals(g, fa[j].1, fn)
  {
    if fa == [] then 0
    else if FunctionTypeEquals(g, fa[0].1, fn) then 0
    else 1 + FirstMatch(g, fa[1..], fn)
  }

  /** `ResolveType` on a type that is not function-shaped: the converted name of its canonical type; it does not depend on the aliases. */
  function ResolveBase(g: TypeGraph, t: TypeId): string
    requires WellFormed(g) && t in g.nodes
  {
    ConvertTypesSpec(BaseName(g, Canonical(g, t)))
  }

  /**
   * `_resolvedTypeCache` holds only types that are not function-shaped, each
   * with the text resolving it afresh would give.
   */
  ghost predicate CacheSound(g: TypeGraph, cache: map<TypeId, string>)
    requires WellFormed(g)
  {
    forall t :: t in cache ==> t in g.nodes && !FunctionShaped(g, t) && cache[t] == ResolveBase(g, t)
  }

  /** Caching a type that is not function-shaped under the text resolving it gives keeps the cache sound. */
  lemma CacheSoundInsert(g: TypeGraph, cache: map<TypeId, string>, t: TypeId, r: string)
    requires WellFormed(g) && CacheSound(g, cache)
    requires t in g.nodes && !FunctionShaped(g, t) && r == ResolveBase(g, t)
    ensures CacheSound(g, cache[t := r])
  {
  }

  /**
   * What `ResolveType(t)` returns: for a function-shaped type, the converted
   * name of the first alias of an equal function type, or `"void*"`; for any
   * other type, `ResolveBase`.
   */
  function ResolveSpec(g: TypeGraph, fa: FunctionAliases, t: TypeId): string
    requires WellFormed(g) && t in g.nodes
  {
    if FunctionShaped(g, t) then
      var i := FirstMatch(g, fa, FunctionTypeOf(g, Some(t)).value);
      if i < |fa| then ConvertTypesSpec(fa[i].0) else "void*"
    else ResolveBase(g, t)
  }

  // ---------------------------------------------------------------------------
  // EmitParameter and parameter lists
  // ---------------------------------------------------------------------------

  /** `EmitParameter(p)`: resolved type, one `*` per outermost pointer layer, a space, and the fixed camel-case name. */
  function ParamText(g: TypeGraph, fa: FunctionAliases, p: Parameter): string
    requires WellFormed(g) && p.ty in g.nodes
  {
    ResolveSpec(g, fa, p.ty) + Repeat('*', PointerDepthOf(g, p.ty)) + " " + FixParamName(ConvertNameSpec(p.name, true))
  }

  // ---------------------------------------------------------------------------
  // Field types of GenerateStructs
  // ---------------------------------------------------------------------------

  /** The field's own type is a pointer whose pointee desugars to a function type. */
  predicate DirectFunctionPointer(g: TypeGraph, t: TypeId)
    requires WellFormed(g) && t in g.nodes
  {
    g.nodes[t].Pointer? && g.nodes[Desugar(g, g.nodes[t].pointee)].Function?
  }

  /** `finalType` of a field: its alias name `ConvertName(name) + "Fn"` for a direct function pointer, else the name of its canonical type. */
  function FieldTypeName(g: TypeGraph, f: Field): string
    requires WellFormed(g) && f.ty in g.nodes
  {
    if DirectFunctionPointer(g, f.ty) then ConvertNameSpec(f.name, false) + "Fn"
    else StructTypeName(g, Canonical(g, f.ty))
  }

  /** `ConvertTypes(finalType)` can be applied to every field. */
  ghost predicate FieldTypesConvertible(g: TypeGraph, fs: seq<Field>)
    requires WellFormed(g) && FieldsIn(g, fs)
  {
    forall k {:trigger FieldTypeName(g, fs[k])} :: 0 <= k < |fs| ==> ConvertTypesDefined(FieldTypeName(g, fs[k]))
  }

  /** The type text a field is declared with. */
  function FieldType(g: TypeGraph, f: Field): string
    requires WellFormed(g) && f.ty in g.nodes
  {
    ConvertTypesSpec(FieldTypeName(g, f))
  }

  /** A constructor parameter: the field's type and its camel-case name. */
  function CtorParam(g: TypeGraph, f: Field): string
    requires WellFormed(g) && f.ty in g.nodes
  {
    FieldType(g, f) + " " + ConvertNameSpec(f.name, true)
  }
}
