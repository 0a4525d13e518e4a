/**
 * A .NET `Dictionary<K, V>` that is only ever added to, seen as what its
 * enumeration yields: the (key, value) pairs in insertion order, each key once.
 * `d[k] = v` on an existing key replaces the value in place; `TryAdd` keeps
 * the existing value.
 */
module OrderedDicts {
  import opened Wrappers

  type Dict<K, V> = seq<(K, V)>

  function Keys<K, V>(d: Dict<K, V>): (ks: seq<K>)
    ensures |ks| == |d|
    ensures forall i :: 0 <= i < |d| ==> ks[i] == d[i].0
  {
    if d == [] then [] else [d[0].0] + Keys(d[1..])
  }

  /** No key occurs twice. */
  ghost predicate KeysDistinct<K, V>(d: Dict<K, V>) {
    forall i, j :: 0 <= i < j < |d| ==> d[i].0 != d[j].0
  }

  /** `d.TryGetValue(k, out v)`. */
  function Lookup<K(==), V>(d: Dict<K, V>, k: K): (r: Option<V>)
    ensures r.None? <==> k !in Keys(d)
    ensures r.Some? ==> exists i :: 0 <= i < |d| && d[i] == (k, r.value)
  {
    if d == [] then None
    else if d[0].0 == k then Some(d[0].1)
    else
      var r := Lookup(d[1..], k);
      assert r.Some? ==> exists i :: 0 <= i < |d| - 1 && d[1..][i] == (k, r.value);
      r
  }

  /** `d[k] = v`: updates the pair of `k` where it stands, or appends a new pair. */
  function Set<K(==), V>(d: Dict<K, V>, k: K, v: V): (r: Dict<K, V>)
    ensures Keys(r) == if k in Keys(d) then Keys(d) else Keys(d) + [k]
    ensures Lookup(r, k) == Some(v)
  {
    if d == [] then [(k, v)]
    else if d[0].0 == k then
      KeysCons(d[0], d[1..]);
      KeysCons((k, v), d[1..]);
      [(k, v)] + d[1..]
    else
      var rest := Set(d[1..], k, v);
      KeysCons(d[0], d[1..]);
      KeysCons(d[0], rest);
      [d[0]] + rest
  }

  /** The keys of a dictionary with one more pair in front. */
  lemma KeysCons<K, V>(e: (K, V), d: Dict<K, V>)
    ensures Keys([e] + d) == [e.0] + Keys(d)
  {
    assert ([e] + d)[1..] == d;
  }

  /** `d.TryAdd(k, v)`: appends the pair only when `k` is not yet a key. */
  function TryAdd<K(==), V>(d: Dict<K, V>, k: K, v: V): (r: Dict<K, V>)
    ensures k in Keys(d) ==> r == d
    ensures k !in Keys(d) ==> r == d + [(k, v)]
  {
    if k in Keys(d) then d else d + [(k, v)]
  }

  lemma {:induction false} LookupAppend<K, V>(d: Dict<K, V>, k: K, v: V, q: K)
    ensures Lookup(d + [(k, v)], q) == if q in Keys(d) then Lookup(d, q) else if q == k then Some(v) else None
  {
    if d != [] {
      assert (d + [(k, v)])[1..] == d[1..] + [(k, v)];
      LookupAppend(d[1..], k, v, q);
    } else {
      assert [(k, v)][1..] == [];
    }
  }

  /** `TryAdd` sees the same value at every key that was already present. */
  lemma TryAddKeepsExisting<K, V>(d: Dict<K, V>, k: K, v: V, q: K)
    requires q in Keys(d)
    ensures Lookup(TryAdd(d, k, v), q) == Lookup(d, q)
  {
    if k !in Keys(d) { LookupAppend(d, k, v, q); }
  }

  /** Starting from an empty dictionary, `TryAdd` every pair of `ps` in order. */
  function TryAddAll<K(==), V>(ps: seq<(K, V)>): Dict<K, V> {
    if ps == [] then [] else
      var n := |ps| - 1;
      TryAdd(TryAddAll(ps[..n]), ps[n].0, ps[n].1)
  }

  /** Index of the first pair of `ps` whose key is `k`. */
  function FirstIndex<K(==), V>(ps: seq<(K, V)>, k: K): (i: nat)
    requires k in Keys(ps)
    ensures i < |ps| && ps[i].0 == k
    ensures forall j :: 0 <= j < i ==> ps[j].0 != k
  {
    if ps[0].0 == k then 0 else
      assert Keys(ps) == [ps[0].0] + Keys(ps[1..]);
      1 + FirstIndex(ps[1..], k)
  }

  /**
   * The dictionary built by `TryAdd` over `ps` holds each key of `ps` exactly once.
   */
  lemma {:induction false} TryAddAllKeys<K, V>(ps: seq<(K, V)>)
    ensures KeysDistinct(TryAddAll(ps))
    ensures forall k :: k in Keys(ps) <==> k in Keys(TryAddAll(ps))
  {
    if ps != [] {
      var n := |ps| - 1;
      TryAddAllKeys(ps[..n]);
      assert ps == ps[..n] + [ps[n]];
      assert Keys(ps) == Keys(ps[..n]) + [ps[n].0];
      var d := TryAddAll(ps[..n]);
      if ps[n].0 !in Keys(d) {
        assert Keys(d + [ps[n]]) == Keys(d) + [ps[n].0];
      }
    }
  }

  /** Each key of `ps` keeps the value of its first pair. */
  lemma {:induction false} TryAddAllFirstWins<K, V>(ps: seq<(K, V)>, k: K)
    requires k in Keys(ps)
    ensures Lookup(TryAddAll(ps), k) == Some(ps[FirstIndex(ps, k)].1)
  {
    var n := |ps| - 1;
    var init := ps[..n];
    var d := TryAddAll(init);
    TryAddAllKeys(init);
    assert Keys(ps) == Keys(init) + [ps[n].0];
    if k in Keys(init) {
      FirstIndexPrefix(ps, n, k);
      TryAddAllFirstWins(init, k);
      TryAddKeepsExisting(d, ps[n].0, ps[n].1, k);
    } else {
      assert k == ps[n].0;
      FirstIndexAbsent(ps, n);
      LookupAppend(d, ps[n].0, ps[n].1, k);
    }
  }

  /** The keys come out in the order of their first occurrence in `ps`. */
  lemma {:induction false} TryAddAllOrder<K, V>(ps: seq<(K, V)>, i: nat, j: nat)
    requires i < j < |TryAddAll(ps)|
    ensures TryAddAll(ps)[i].0 in Keys(ps) && TryAddAll(ps)[j].0 in Keys(ps)
    ensures FirstIndex(ps, TryAddAll(ps)[i].0) < FirstIndex(ps, TryAddAll(ps)[j].0)
    decreases |ps|, 1
  {
    if j < |TryAddAll(ps[..|ps| - 1])| {
      TryAddAllOrderBefore(ps, i, j);
    } else {
      TryAddAllOrderLast(ps, i, j);
    }
  }

  /** `TryAddAllOrder` for two keys already present before the last pair. */
  lemma {:induction false} TryAddAllOrderBefore<K, V>(ps: seq<(K, V)>, i: nat, j: nat)
    requires i < j < |TryAddAll(ps)| && j < |TryAddAll(ps[..|ps| - 1])|
    ensures TryAddAll(ps)[i].0 in Keys(ps) && TryAddAll(ps)[j].0 in Keys(ps)
    ensures FirstIndex(ps, TryAddAll(ps)[i].0) < FirstIndex(ps, TryAddAll(ps)[j].0)
    decreases |ps|, 0
  {
    var n := |ps| - 1;
    var init := ps[..n];
    var d := TryAddAll(init);
    assert TryAddAll(ps)[i] == d[i] && TryAddAll(ps)[j] == d[j];
    TryAddAllOrder(init, i, j);
    FirstIndexPrefix(ps, n, d[i].0);
    FirstIndexPrefix(ps, n, d[j].0);
  }

  /** `TryAddAllOrder` when the later key is the one the last pair added. */
  lemma TryAddAllOrderLast<K, V>(ps: seq<(K, V)>, i: nat, j: nat)
    requires i < j < |TryAddAll(ps)| && |TryAddAll(ps[..|ps| - 1])| <= j
    ensures TryAddAll(ps)[i].0 in Keys(ps) && TryAddAll(ps)[j].0 in Keys(ps)
    ensures FirstIndex(ps, TryAddAll(ps)[i].0) < FirstIndex(ps, TryAddAll(ps)[j].0)
  {
    var n := |ps| - 1;
    var init := ps[..n];
    var d := TryAddAll(init);
    assert ps[n].0 !in Keys(d) && TryAddAll(ps)[j] == ps[n] && TryAddAll(ps)[i] == d[i];
    TryAddAllKeys(init);
    assert Keys(d)[i] == d[i].0;
    FirstIndexPrefix(ps, n, d[i].0);
    FirstIndexAbsent(ps, n);
  }

  lemma FirstIndexPrefix<K, V>(ps: seq<(K, V)>, n: nat, k: K)
    requires n <= |ps| && k in Keys(ps[..n])
    ensures k in Keys(ps) && FirstIndex(ps, k) == FirstIndex(ps[..n], k)
  {
    var q := ps[..n];
    var i := FirstIndex(q, k);
    assert q[i] == ps[i];
    assert Keys(ps)[i] == k;
    var j := FirstIndex(ps, k);
    assert j <= i;
    assert q[j] == ps[j];
    assert q[j].0 == k;
  }

  lemma FirstIndexAbsent<K, V>(ps: seq<(K, V)>, n: nat)
    requires n < |ps| && ps[n].0 !in Keys(ps[..n])
    ensures ps[n].0 in Keys(ps) && FirstIndex(ps, ps[n].0) == n
  {
    assert Keys(ps)[n] == ps[n].0;
    forall j | 0 <= j < n
      ensures ps[j].0 != ps[n].0
    {
      assert Keys(ps[..n])[j] == ps[j].0;
    }
  }

  /** `d[k] = v` leaves the value seen at every other key as it was. */
  lemma {:induction false} LookupSetOther<K, V>(d: Dict<K, V>, k: K, v: V, q: K)
    requires q != k
    ensures Lookup(Set(d, k, v), q) == Lookup(d, q)
  {
    if d != [] {
      var r := Set(d, k, v);
      if d[0].0 != k {
        var rest := Set(d[1..], k, v);
        assert r == [d[0]] + rest;
        assert r[0] == d[0] && r[1..] == rest;
        if d[0].0 != q {
          LookupSetOther(d[1..], k, v, q);
        }
      } else {
        assert r[0] == (k, v) && r[1..] == d[1..];
      }
    }
  }

  /** Neither `d[k] = v` nor `TryAdd` can make a key occur twice. */
  lemma SetKeepsKeysDistinct<K, V>(d: Dict<K, V>, k: K, v: V)
    requires KeysDistinct(d)
    ensures KeysDistinct(Set(d, k, v)) && KeysDistinct(TryAdd(d, k, v))
  {
    var r := Set(d, k, v);
    forall i, j | 0 <= i < j < |r|
      ensures r[i].0 != r[j].0
    {
      assert Keys(r)[i] == r[i].0 && Keys(r)[j] == r[j].0;
      if k !in Keys(d) {
        assert Keys(r) == Keys(d) + [k];
        if j < |d| {
          assert Keys(d)[i] == d[i].0 && Keys(d)[j] == d[j].0;
        }
      } else {
        assert Keys(d)[i] == d[i].0 && Keys(d)[j] == d[j].0;
      }
    }
    if k !in Keys(d) {
      var t := d + [(k, v)];
      forall i, j | 0 <= i < j < |t|
        ensures t[i].0 != t[j].0
      {
        if j == |d| {
          assert Keys(d)[i] == d[i].0;
        }
      }
    }
  }

  /** Every pair after `d[k] = v` is the new pair or one that was there before. */
  lemma {:induction false} SetPairs<K, V>(d: Dict<K, V>, k: K, v: V)
    ensures forall e :: e in Set(d, k, v) ==> e == (k, v) || e in d
  {
    if d != [] && d[0].0 != k {
      SetPairs(d[1..], k, v);
      assert Set(d, k, v) == [d[0]] + Set(d[1..], k, v);
    }
  }
}
