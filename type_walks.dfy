/**
 * The three walks over the type graph: `GetCanonicalType` and
 * `TryGetFunctionType` (while loops guarded by a visited set, so they end on
 * cyclic typedef chains) and `GetPointerDepth` (a counter over pointer
 * layers), plus `PointerDepth`, which renders a depth as stars.
 */
module TypeWalks {
  import opened Wrappers
  import opened CppAst
  import opened SystemStrings

  /** Adding an unvisited type object to the visited set shrinks what is left to visit. */
  lemma VisitShrinks(keys: set<TypeId>, visited: set<TypeId>, t: TypeId)
    requires visited <= keys && t in keys && t !in visited
    ensures visited + {t} <= keys && |keys - (visited + {t})| < |keys - visited|
  {
    assert keys - (visited + {t}) == (keys - visited) - {t};
  }

  // ---------------------------------------------------------------------------
  // GetCanonicalType
  // ---------------------------------------------------------------------------

  /** The edge `GetCanonicalType` follows out of `t`: a typedef's target, a pointee, an element type. */
  function DerivedNext(g: TypeGraph, t: TypeId): (r: Option<TypeId>)
    requires t in g.nodes
    ensures r.Some? <==> (g.nodes[t].Typedef? || g.nodes[t].Pointer? || g.nodes[t].Array?)
    ensures WellFormed(g) && r.Some? ==> r.value in g.nodes
  {
    match g.nodes[t]
    case Typedef(_, x) => Some(x)
    case Pointer(x) => Some(x)
    case Array(x) => Some(x)
    case _ => None
  }

  /** The loop of `GetCanonicalType` from `t` once the types in `visited` have been seen. */
  function CanonicalFrom(g: TypeGraph, t: TypeId, visited: set<TypeId>): (c: TypeId)
    requires WellFormed(g) && t in g.nodes && visited <= g.nodes.Keys
    ensures c in g.nodes
    decreases |g.nodes.Keys - visited|
  {
    if t in visited then t
    else match DerivedNext(g, t)
      case None => t
      case Some(x) =>
        VisitShrinks(g.nodes.Keys, visited, t);
        CanonicalFrom(g, x, visited + {t})
  }

  /** `GetCanonicalType(type)`: null for null. */
  function CanonicalType(g: TypeGraph, t: Option<TypeId>): (c: Option<TypeId>)
    requires WellFormed(g) && (t.Some? ==> t.value in g.nodes)
    ensures c.Some? <==> t.Some?
    ensures c.Some? ==> c.value in g.nodes
  {
    if t.None? then None else Some(CanonicalFrom(g, t.value, {}))
  }

  method GetCanonicalType(g: TypeGraph, t: Option<TypeId>) returns (r: Option<TypeId>)
    requires WellFormed(g) && (t.Some? ==> t.value in g.nodes)
    ensures r == CanonicalType(g, t)
  {
    var visited: set<TypeId> := {};
    var cur := t;
    while cur.Some?
      invariant visited <= g.nodes.Keys
      invariant cur.None? ==> t.None?
      invariant cur.Some? ==>
        (cur.value in g.nodes && t.Some? && CanonicalFrom(g, cur.value, visited) == CanonicalFrom(g, t.value, {}))
      decreases |g.nodes.Keys - visited|
    {
      var ty := cur.value;
      if ty in visited {
        return cur;
      }
      VisitShrinks(g.nodes.Keys, visited, ty);
      visited := visited + {ty};
      match g.nodes[ty]
      case Typedef(_, x) =>
        cur := Some(x);
      case Pointer(x) =>
        cur := Some(x);
      case Array(x) =>
        cur := Some(x);
      case _ =>
        return cur;
    }
    return cur;
  }

  /** The `k`-th type on the typedef/pointer/array trail from `t`, standing still at a non-derived type. */
  function Follow(g: TypeGraph, t: TypeId, k: nat): (u: TypeId)
    requires WellFormed(g) && t in g.nodes
    ensures u in g.nodes
    decreases k
  {
    if k == 0 then t
    else match DerivedNext(g, t)
      case None => t
      case Some(x) => Follow(g, x, k - 1)
  }

  lemma {:induction false} FollowNext(g: TypeGraph, t: TypeId, k: nat)
    requires WellFormed(g) && t in g.nodes && DerivedNext(g, Follow(g, t, k)).Some?
    ensures Follow(g, t, k + 1) == DerivedNext(g, Follow(g, t, k)).value
    decreases k
  {
    if k > 0 {
      FollowNext(g, DerivedNext(g, t).value, k - 1);
    }
  }

  /** The trail from `t` comes back at step `k` to a type it reached before. */
  ghost predicate Revisits(g: TypeGraph, t: TypeId, k: nat)
    requires WellFormed(g) && t in g.nodes
  {
    exists i :: 0 <= i < k && Follow(g, t, i) == Follow(g, t, k)
  }

  /** The `k`-th type on the trail is one the loop gives back: non-derived, or seen before. */
  ghost predicate CanonicalStop(g: TypeGraph, t: TypeId, k: nat)
    requires WellFormed(g) && t in g.nodes
  {
    DerivedNext(g, Follow(g, t, k)).None? || Revisits(g, t, k)
  }

  ghost predicate FirstCanonicalStop(g: TypeGraph, t: TypeId, k: nat)
    requires WellFormed(g) && t in g.nodes
  {
    CanonicalStop(g, t, k) && forall j :: 0 <= j < k ==> !CanonicalStop(g, t, j)
  }

  ghost function Trail(g: TypeGraph, t: TypeId, k: nat): set<TypeId>
    requires WellFormed(g) && t in g.nodes
  {
    set i | 0 <= i < k :: Follow(g, t, i)
  }

  lemma TrailGrows(g: TypeGraph, t: TypeId, k: nat)
    requires WellFormed(g) && t in g.nodes
    ensures Trail(g, t, k + 1) == Trail(g, t, k) + {Follow(g, t, k)}
    ensures Trail(g, t, k) <= g.nodes.Keys
  {
  }

  /** From step `j` of the trail, with the first `j` types visited, the loop ends at the first stop. */
  lemma {:induction false} CanonicalFromTrail(g: TypeGraph, t: TypeId, j: nat) returns (k: nat)
    requires WellFormed(g) && t in g.nodes
    requires forall i :: 0 <= i < j ==> !CanonicalStop(g, t, i)
    ensures Trail(g, t, j) <= g.nodes.Keys
    ensures j <= k && FirstCanonicalStop(g, t, k)
    ensures CanonicalFrom(g, Follow(g, t, j), Trail(g, t, j)) == Follow(g, t, k)
    decreases |g.nodes.Keys - Trail(g, t, j)|
  {
    TrailGrows(g, t, j);
    var u := Follow(g, t, j);
    if u in Trail(g, t, j) {
      var i :| 0 <= i < j && Follow(g, t, i) == u;
      assert Revisits(g, t, j);
      k := j;
    } else if DerivedNext(g, u).None? {
      k := j;
    } else {
      assert !Revisits(g, t, j) by {
        forall i | 0 <= i < j ensures Follow(g, t, i) != u {
          assert Follow(g, t, i) in Trail(g, t, j);
        }
      }
      FollowNext(g, t, j);
      VisitShrinks(g.nodes.Keys, Trail(g, t, j), u);
      TrailGrows(g, t, j + 1);
      k := CanonicalFromTrail(g, t, j + 1);
    }
  }

  /**
   * `GetCanonicalType` returns the first type on the typedef/pointer/array
   * trail that is non-derived or already visited.
   */
  lemma CanonicalIsFirstStop(g: TypeGraph, t: TypeId)
    requires WellFormed(g) && t in g.nodes
    ensures exists k :: FirstCanonicalStop(g, t, k) && Follow(g, t, k) == CanonicalType(g, Some(t)).value
  {
    assert Trail(g, t, 0) == {};
    var k := CanonicalFromTrail(g, t, 0);
  }

  /** A non-derived type is its own canonical type. */
  lemma CanonicalOfNonDerived(g: TypeGraph, t: TypeId)
    requires WellFormed(g) && t in g.nodes
    requires !(g.nodes[t].Typedef? || g.nodes[t].Pointer? || g.nodes[t].Array?)
    ensures CanonicalType(g, Some(t)) == Some(t)
  {
  }

  /** A typedef naming itself ends the walk on the second visit. */
  lemma CanonicalOfSelfTypedef(g: TypeGraph, t: TypeId, name: string)
    requires WellFormed(g) && t in g.nodes && g.nodes[t] == Typedef(name, t)
    ensures CanonicalType(g, Some(t)) == Some(t)
  {
    assert DerivedNext(g, t) == Some(t);
    assert {} + {t} == {t};
    assert CanonicalFrom(g, t, {t}) == t;
  }

  // ---------------------------------------------------------------------------
  // TryGetFunctionType
  // ---------------------------------------------------------------------------

  /** What one turn of `TryGetFunctionType` makes of a type after desugaring it. */
  datatype FnLayer = Continue(next: TypeId) | FoundFn(fn: TypeId) | NotFn

  function FnLayerOf(g: TypeGraph, t: TypeId): (l: FnLayer)
    requires WellFormed(g) && t in g.nodes
    ensures l.Continue? <==> (g.nodes[Desugar(g, t)].Pointer? || g.nodes[Desugar(g, t)].Typedef?)
    ensures l.Continue? ==> l.next in g.nodes
    ensures l.FoundFn? <==> g.nodes[Desugar(g, t)].Function?
    ensures l.FoundFn? ==> l.fn == Desugar(g, t)
  {
    var d := Desugar(g, t);
    match g.nodes[d]
    case Pointer(x) => Continue(x)
    case Typedef(_, x) => Continue(x)
    case Function(_, _, _) => FoundFn(d)
    case _ => NotFn
  }

  /** The loop of `TryGetFunctionType` from `t` once the types in `visited` have been seen. */
  function FunctionTypeFrom(g: TypeGraph, t: TypeId, visited: set<TypeId>): (r: Option<TypeId>)
    requires WellFormed(g) && t in g.nodes && visited <= g.nodes.Keys
    ensures r.Some? ==> r.value in g.nodes && g.nodes[r.value].Function?
    decreases |g.nodes.Keys - visited|
  {
    if t in visited then None
    else match FnLayerOf(g, t)
      case Continue(x) =>
        VisitShrinks(g.nodes.Keys, visited, t);
        FunctionTypeFrom(g, x, visited + {t})
      case FoundFn(f) => Some(f)
      case NotFn => None
  }

  /** `TryGetFunctionType(type, out fn)`: the function type it finds, if any. */
  function FunctionTypeOf(g: TypeGraph, t: Option<TypeId>): (r: Option<TypeId>)
    requires WellFormed(g) && (t.Some? ==> t.value in g.nodes)
    ensures r.Some? ==> t.Some? && r.value in g.nodes && g.nodes[r.value].Function?
  {
    if t.None? then None else FunctionTypeFrom(g, t.value, {})
  }

  /** The type is function-shaped: `TryGetFunctionType` succeeds on it. */
  predicate FunctionShaped(g: TypeGraph, t: TypeId)
    requires WellFormed(g) && t in g.nodes
  {
    FunctionTypeOf(g, Some(t)).Some?
  }

  method TryGetFunctionType(g: TypeGraph, t: Option<TypeId>) returns (found: bool, fn: Option<TypeId>)
    requires WellFormed(g) && (t.Some? ==> t.value in g.nodes)
    ensures fn == FunctionTypeOf(g, t)
    ensures found <==> fn.Some?
  {
    fn := None;
    var visited: set<TypeId> := {};
    var cur := t;
    while cur.Some?
      invariant visited <= g.nodes.Keys
      invariant cur.None? ==> t.None? && fn.None?
      invariant cur.Some? ==>
        (cur.value in g.nodes && t.Some? && fn.None? && FunctionTypeFrom(g, cur.value, visited) == FunctionTypeOf(g, t))
      decreases |g.nodes.Keys - visited|
    {
      var ty := cur.value;
      if ty in visited {
        return false, fn;
      }
      VisitShrinks(g.nodes.Keys, visited, ty);
      visited := visited + {ty};
      var d := Desugar(g, ty);
      match g.nodes[d]
      case Pointer(x) =>
        cur := Some(x);
      case Typedef(_, x) =>
        cur := Some(x);
      case Function(_, _, _) =>
        fn := Some(d);
        return true, fn;
      case _ =>
        return false, fn;
    }
    return false, fn;
  }

  /** The `k`-th type on the desugar/pointer/typedef trail from `t`. */
  function FnFollow(g: TypeGraph, t: TypeId, k: nat): (u: TypeId)
    requires WellFormed(g) && t in g.nodes
    ensures u in g.nodes
    decreases k
  {
    if k == 0 then t
    else match FnLayerOf(g, t)
      case Continue(x) => FnFollow(g, x, k - 1)
      case _ => t
  }

  lemma {:induction false} FnFollowNext(g: TypeGraph, t: TypeId, k: nat)
    requires WellFormed(g) && t in g.nodes && FnLayerOf(g, FnFollow(g, t, k)).Continue?
    ensures FnFollow(g, t, k + 1) == FnLayerOf(g, FnFollow(g, t, k)).next
    decreases k
  {
    if k > 0 {
      FnFollowNext(g, FnLayerOf(g, t).next, k - 1);
    }
  }

  ghost predicate FnRevisits(g: TypeGraph, t: TypeId, k: nat)
    requires WellFormed(g) && t in g.nodes
  {
    exists i :: 0 <= i < k && FnFollow(g, t, i) == FnFollow(g, t, k)
  }

  /** The `k`-th type on the trail ends the loop: a revisit, a function, or any other layer. */
  ghost predicate FnStop(g: TypeGraph, t: TypeId, k: nat)
    requires WellFormed(g) && t in g.nodes
  {
    !FnLayerOf(g, FnFollow(g, t, k)).Continue? || FnRevisits(g, t, k)
  }

  ghost predicate FirstFnStop(g: TypeGraph, t: TypeId, k: nat)
    requires WellFormed(g) && t in g.nodes
  {
    FnStop(g, t, k) && forall j :: 0 <= j < k ==> !FnStop(g, t, j)
  }

  /** What the loop reports at a stop: the function reached, unless the stop is a revisit or another layer. */
  ghost function FnVerdict(g: TypeGraph, t: TypeId, k: nat): Option<TypeId>
    requires WellFormed(g) && t in g.nodes
  {
    if FnRevisits(g, t, k) then None
    else match FnLayerOf(g, FnFollow(g, t, k))
      case FoundFn(f) => Some(f)
      case _ => None
  }

  ghost function FnTrail(g: TypeGraph, t: TypeId, k: nat): set<TypeId>
    requires WellFormed(g) && t in g.nodes
  {
    set i | 0 <= i < k :: FnFollow(g, t, i)
  }

  lemma FnTrailGrows(g: TypeGraph, t: TypeId, k: nat)
    requires WellFormed(g) && t in g.nodes
    ensures FnTrail(g, t, k + 1) == FnTrail(g, t, k) + {FnFollow(g, t, k)}
    ensures FnTrail(g, t, k) <= g.nodes.Keys
  {
  }

  lemma {:induction false} FunctionTypeFromTrail(g: TypeGraph, t: TypeId, j: nat) returns (k: nat)
    requires WellFormed(g) && t in g.nodes
    requires forall i :: 0 <= i < j ==> !FnStop(g, t, i)
    ensures FnTrail(g, t, j) <= g.nodes.Keys
    ensures j <= k && FirstFnStop(g, t, k)
    ensures FunctionTypeFrom(g, FnFollow(g, t, j), FnTrail(g, t, j)) == FnVerdict(g, t, k)
    decreases |g.nodes.Keys - FnTrail(g, t, j)|, 1
  {
    FnTrailGrows(g, t, j);
    var u := FnFollow(g, t, j);
    if u in FnTrail(g, t, j) {
      var i :| 0 <= i < j && FnFollow(g, t, i) == u;
      assert FnRevisits(g, t, j);
      k := j;
    } else {
      assert !FnRevisits(g, t, j) by {
        forall i | 0 <= i < j ensures FnFollow(g, t, i) != u {
          assert FnFollow(g, t, i) in FnTrail(g, t, j);
        }
      }
      if FnLayerOf(g, u).Continue? {
        k := FunctionTypeFromTrailStep(g, t, j);
      } else {
        k := j;
      }
    }
  }
  /** `FunctionTypeFromTrail` past a new type that the loop unwraps. */
  lemma {:induction false} FunctionTypeFromTrailStep(g: TypeGraph, t: TypeId, j: nat) returns (k: nat)
    requires WellFormed(g) && t in g.nodes
    requires forall i :: 0 <= i < j ==> !FnStop(g, t, i)
    requires FnTrail(g, t, j) <= g.nodes.Keys && FnFollow(g, t, j) !in FnTrail(g, t, j)
    requires !FnRevisits(g, t, j) && FnLayerOf(g, FnFollow(g, t, j)).Continue?
    ensures j <= k && FirstFnStop(g, t, k)
    ensures FunctionTypeFrom(g, FnFollow(g, t, j), FnTrail(g, t, j)) == FnVerdict(g, t, k)
    decreases |g.nodes.Keys - FnTrail(g, t, j)|, 0
  {
    var u := FnFollow(g, t, j);
    FnFollowNext(g, t, j);
    VisitShrinks(g.nodes.Keys, FnTrail(g, t, j), u);
    FnTrailGrows(g, t, j);
    FnTrailGrows(g, t, j + 1);
    forall i | 0 <= i < j + 1
      ensures !FnStop(g, t, i)
    {
      if i == j {
        assert !FnRevisits(g, t, j);
      }
    }
    k := FunctionTypeFromTrail(g, t, j + 1);
  }


  /**
   * `TryGetFunctionType` succeeds exactly when the first stop of the
   * desugar/pointer/typedef trail is a function type reached for the first
   * time, and then reports that function type; a revisit or any other layer
   * (an array among them) makes it fail.
   */
  lemma FunctionTypeIsFirstStop(g: TypeGraph, t: TypeId)
    requires WellFormed(g) && t in g.nodes
    ensures exists k :: FirstFnStop(g, t, k) && FunctionTypeOf(g, Some(t)) == FnVerdict(g, t, k)
  {
    assert FnTrail(g, t, 0) == {};
    var k := FunctionTypeFromTrail(g, t, 0);
  }

  /** Arrays are not looked through: a type that desugars to an array is not function-shaped. */
  lemma FunctionTypeStopsAtArray(g: TypeGraph, t: TypeId)
    requires WellFormed(g) && t in g.nodes && g.nodes[Desugar(g, t)].Array?
    ensures FunctionTypeOf(g, Some(t)) == None
  {
  }

  /** A pointer to a function type finds that function type. */
  lemma FunctionTypeThroughPointer(g: TypeGraph, t: TypeId, p: TypeId)
    requires WellFormed(g) && t in g.nodes && g.nodes[Desugar(g, t)] == Pointer(p)
    requires p != t && g.nodes[Desugar(g, p)].Function?
    ensures FunctionTypeOf(g, Some(t)) == Some(Desugar(g, p))
  {
    assert FnLayerOf(g, t) == Continue(p);
    assert FnLayerOf(g, p) == FoundFn(Desugar(g, p));
    assert {} + {t} == {t};
    assert FunctionTypeFrom(g, p, {t}) == Some(Desugar(g, p));
  }

  // ---------------------------------------------------------------------------
  // GetPointerDepth and PointerDepth
  // ---------------------------------------------------------------------------

  predicate IsPointer(g: TypeGraph, t: TypeId) {
    t in g.nodes && g.nodes[t].Pointer?
  }

  /** `t` with its `n` outermost pointer layers peeled off (fewer if it has fewer). */
  function PeelPointers(g: TypeGraph, t: TypeId, n: nat): TypeId
    decreases n
  {
    if n == 0 || !IsPointer(g, t) then t else PeelPointers(g, g.nodes[t].pointee, n - 1)
  }

  /**
   * No chain of pointer layers is cyclic, so `GetPointerDepth`'s loop ends:
   * peeling as many layers as there are type objects reaches a non-pointer.
   */
  ghost predicate PointersFinite(g: TypeGraph) {
    forall t :: t in g.nodes ==> !IsPointer(g, PeelPointers(g, t, |g.nodes|))
  }

  /** The number of outermost pointer layers of `t`, counting at most `fuel`. */
  function PointerLayers(g: TypeGraph, t: TypeId, fuel: nat): nat
    decreases fuel
  {
    if fuel == 0 || !IsPointer(g, t) then 0 else 1 + PointerLayers(g, g.nodes[t].pointee, fuel - 1)
  }

  /** The depth `GetPointerDepth` computes. */
  function PointerDepthOf(g: TypeGraph, t: TypeId): nat {
    PointerLayers(g, t, |g.nodes|)
  }

  lemma {:induction false} PeelOneMore(g: TypeGraph, t: TypeId, k: nat)
    requires IsPointer(g, PeelPointers(g, t, k))
    ensures PeelPointers(g, t, k + 1) == g.nodes[PeelPointers(g, t, k)].pointee
    decreases k
  {
    if k > 0 {
      PeelOneMore(g, g.nodes[t].pointee, k - 1);
    }
  }

  method GetPointerDepth(g: TypeGraph, t: TypeId) returns (depth: nat)
    requires PointersFinite(g)
    ensures depth == PointerDepthOf(g, t)
  {
    depth := 0;
    var cur := t;
    while IsPointer(g, cur)
      invariant depth <= |g.nodes| && cur == PeelPointers(g, t, depth)
      invariant PointerDepthOf(g, t) == depth + PointerLayers(g, cur, |g.nodes| - depth)
      decreases |g.nodes| - depth
    {
      PeelOneMore(g, t, depth);
      depth := depth + 1;
      cur := g.nodes[cur].pointee;
    }
  }

  /** Within enough fuel, the count is exact: that many pointer layers, then a non-pointer. */
  lemma {:induction false} PointerLayersExact(g: TypeGraph, t: TypeId, fuel: nat)
    requires !IsPointer(g, PeelPointers(g, t, fuel))
    ensures PointerLayers(g, t, fuel) <= fuel
    ensures forall j :: 0 <= j < PointerLayers(g, t, fuel) ==> IsPointer(g, PeelPointers(g, t, j))
    ensures !IsPointer(g, PeelPointers(g, t, PointerLayers(g, t, fuel)))
    decreases fuel
  {
    if fuel > 0 && IsPointer(g, t) {
      var p := g.nodes[t].pointee;
      PointerLayersExact(g, p, fuel - 1);
      forall j | 0 <= j < PointerLayers(g, t, fuel)
        ensures IsPointer(g, PeelPointers(g, t, j))
      {
        if j > 0 {
          assert PeelPointers(g, t, j) == PeelPointers(g, p, j - 1);
        }
      }
    }
  }

  /**
   * `GetPointerDepth` counts exactly the outermost consecutive pointer layers:
   * peeling fewer leaves a pointer, peeling that many leaves a non-pointer
   * (typedefs are not looked through).
   */
  lemma PointerDepthCountsOutermostLayers(g: TypeGraph, t: TypeId)
    requires PointersFinite(g)
    ensures forall j :: 0 <= j < PointerDepthOf(g, t) ==> IsPointer(g, PeelPointers(g, t, j))
    ensures !IsPointer(g, PeelPointers(g, t, PointerDepthOf(g, t)))
  {
    if t in g.nodes {
      PointerLayersExact(g, t, |g.nodes|);
    }
  }

  method PointerDepth(pointerDepth: int) returns (pointers: string)
    ensures pointers == Repeat('*', if pointerDepth > 0 then pointerDepth else 0)
  {
    pointers := [];
    var i := 0;
    while i < pointerDepth
      invariant 0 <= i && (pointerDepth > 0 ==> i <= pointerDepth) && (pointerDepth <= 0 ==> i == 0)
      invariant pointers == Repeat('*', i)
    {
      pointers := pointers + ['*'];
      i := i + 1;
    }
  }
}
