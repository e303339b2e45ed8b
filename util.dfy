/** The in-memory halves of the table loaders of cache/util.rs. A table arrives as the
    rows an `ORDER BY` query returns, one sequence per selected column; reading the
    rows (SQLite) is not part of this model. */
module Util {

  function Min(a: nat, b: nat): nat { if a <= b then a else b }

  /** Rust's `zip`: the i-th key with the i-th value, cut to the shorter column. */
  function Zip<K, V>(keys: seq<K>, vals: seq<V>): (r: seq<(K, V)>)
    ensures |r| == Min(|keys|, |vals|)
    ensures forall i | 0 <= i < |r| :: r[i] == (keys[i], vals[i])
  {
    if |keys| == 0 || |vals| == 0 then []
    else [(keys[0], vals[0])] + Zip(keys[1..], vals[1..])
  }

  /** No later pair has the same key as pair `i`. */
  ghost predicate LastOfKey<K, V>(pairs: seq<(K, V)>, i: nat)
    requires i < |pairs|
  {
    forall j | i < j < |pairs| :: pairs[j].0 != pairs[i].0
  }

  /** `collect()` of pairs into a map: inserted in order, so a later key overwrites. */
  function Collect<K, V>(pairs: seq<(K, V)>): (m: map<K, V>)
    ensures m.Keys == set i | 0 <= i < |pairs| :: pairs[i].0
    ensures forall i | 0 <= i < |pairs| && LastOfKey(pairs, i) :: m[pairs[i].0] == pairs[i].1
  {
    if pairs == [] then map[]
    else
      var init := pairs[..|pairs| - 1];
      var last := pairs[|pairs| - 1];
      assert forall i | 0 <= i < |init| :: init[i] == pairs[i];
      Collect(init)[last.0 := last.1]
  }

  /** Every value of a collected map comes from one of the pairs. */
  lemma {:induction false} CollectValue<K, V>(pairs: seq<(K, V)>, k: K)
    requires k in Collect(pairs)
    ensures exists j | 0 <= j < |pairs| :: pairs[j] == (k, Collect(pairs)[k])
  {
    var init := pairs[..|pairs| - 1];
    var last := pairs[|pairs| - 1];
    if k != last.0 {
      assert forall i | 0 <= i < |init| :: init[i] == pairs[i];
      CollectValue(init, k);
      var j :| 0 <= j < |init| && init[j] == (k, Collect(init)[k]);
      assert pairs[j] == (k, Collect(pairs)[k]);
    } else {
      assert pairs[|pairs| - 1] == (k, Collect(pairs)[k]);
    }
  }

  lemma EmptyUnion<K, V>(m: map<K, V>)
    ensures map[] + m == m
  {
  }

  /** Taking one more element `r` of `todo` out of it adds one to what was removed from `all`. */
  lemma RemovedCount<T>(all: set<T>, todo: set<T>, r: T)
    requires todo <= all && r in todo
    ensures |all - (todo - {r})| == |all - todo| + 1
  {
    assert all - (todo - {r}) == (all - todo) + {r};
  }

  /** `{} + b == b`, proved where nothing is known about `b`. */
  lemma EmptySetUnion<T>(a: set<T>, b: set<T>)
    requires a == {}
    ensures a + b == b
  {
  }

  /** `load_vec`: one element per row, in row order. */
  method LoadVec<T>(rows: seq<T>) returns (res: seq<T>)
    ensures res == rows
  {
    res := [];
    var i := 0;
    while i < |rows|
      invariant 0 <= i <= |rows|
      invariant res == rows[..i]
    {
      res := res + [rows[i]];
      i := i + 1;
    }
  }

  /** `load_map`: the two columns zipped and collected. */
  function LoadMap<K, V>(keys: seq<K>, vals: seq<V>): (r: map<K, V>)
    ensures r.Keys == set i | 0 <= i < Min(|keys|, |vals|) :: keys[i]
    ensures forall i | 0 <= i < Min(|keys|, |vals|) &&
                       (forall j | i < j < Min(|keys|, |vals|) :: keys[j] != keys[i]) ::
              r[keys[i]] == vals[i]
  {
    var pairs := Zip(keys, vals);
    assert forall i | 0 <= i < |pairs| :: pairs[i].0 == keys[i];
    Collect(pairs)
  }

  /** A load whose row callback inserts into an existing map: later rows overwrite. */
  method InsertAll<K, V>(m: map<K, V>, pairs: seq<(K, V)>) returns (r: map<K, V>)
    ensures r == m + Collect(pairs)
  {
    r := m;
    var i := 0;
    while i < |pairs|
      invariant 0 <= i <= |pairs|
      invariant r == m + Collect(pairs[..i])
    {
      CollectSnoc(pairs, i);
      UnionUpdate(m, Collect(pairs[..i]), pairs[i].0, pairs[i].1);
      r := r[pairs[i].0 := pairs[i].1];
      i := i + 1;
    }
    assert pairs[..i] == pairs;
  }

  /** Collecting one more pair updates the map with it. */
  lemma CollectSnoc<K, V>(pairs: seq<(K, V)>, i: nat)
    requires i < |pairs|
    ensures Collect(pairs[..i + 1]) == Collect(pairs[..i])[pairs[i].0 := pairs[i].1]
  {
    assert pairs[..i + 1][..i] == pairs[..i];
  }

  lemma UnionUpdate<K, V>(m: map<K, V>, x: map<K, V>, k: K, v: V)
    ensures m + x[k := v] == (m + x)[k := v]
  {
  }

  function Get<K, V>(m: map<K, seq<V>>, k: K): seq<V> {
    if k in m then m[k] else []
  }

  /** The values of the first `n` rows whose key is `k`, in row order. */
  ghost function ValuesFor<K, V>(keys: seq<K>, vals: seq<V>, n: nat, k: K): seq<V>
    requires n <= |keys| && n <= |vals|
  {
    if n == 0 then []
    else ValuesFor(keys, vals, n - 1, k) + (if keys[n - 1] == k then [vals[n - 1]] else [])
  }

  /** Some key of a non-empty map, always the same one for the same map. */
  ghost function Pick<K, V>(m: map<K, V>): (k: K)
    requires |m| > 0
    ensures k in m
  {
    var k :| k in m; k
  }

  /** The number of values stored in a multimap, summed over its keys. */
  ghost function TotalSize<K, V>(m: map<K, seq<V>>): nat
    decreases |m|
  {
    if |m| == 0 then 0
    else |m[Pick(m)]| + TotalSize(m - {Pick(m)})
  }

  lemma {:induction false} TotalSizeRemove<K, V>(m: map<K, seq<V>>, k: K)
    requires k in m
    ensures TotalSize(m) == |m[k]| + TotalSize(m - {k})
    decreases |m|
  {
    var p := Pick(m);
    if p != k {
      assert |m - {p}| == |m| - 1;
      assert |m - {k}| == |m| - 1;
      TotalSizeRemove(m - {p}, k);
      TotalSizeRemove(m - {k}, p);
      assert m - {p} - {k} == m - {k} - {p};
    }
  }

  /** Replacing or adding the values of one key changes the total by the difference. */
  lemma TotalSizeUpdate<K, V>(m: map<K, seq<V>>, k: K, s: seq<V>)
    ensures TotalSize(m[k := s]) == TotalSize(m) - |Get(m, k)| + |s|
  {
    TotalSizeRemove(m[k := s], k);
    RemoveUpdated(m, k, s);
    if k in m {
      TotalSizeRemove(m, k);
    } else {
      RemoveAbsent(m, k);
    }
  }

  lemma RemoveUpdated<K, V>(m: map<K, V>, k: K, v: V)
    ensures m[k := v] - {k} == m - {k}
  {
  }

  lemma RemoveAbsent<K, V>(m: map<K, V>, k: K)
    requires k !in m
    ensures m - {k} == m
  {
  }

  /** One row of the grouping loop appends its value to its key and to no other. */
  lemma GroupStep<K, V>(m: map<K, seq<V>>, r: map<K, seq<V>>, keys: seq<K>, vals: seq<V>, i: nat)
    requires i < |keys| && i < |vals|
    requires forall k :: Get(r, k) == Get(m, k) + ValuesFor(keys, vals, i, k)
    ensures forall x :: Get(r[keys[i] := Get(r, keys[i]) + [vals[i]]], x)
                        == Get(m, x) + ValuesFor(keys, vals, i + 1, x)
  {
    forall x
      ensures Get(r[keys[i] := Get(r, keys[i]) + [vals[i]]], x) == Get(m, x) + ValuesFor(keys, vals, i + 1, x)
    {
      GroupStepAt(m, r, keys, vals, i, x);
    }
  }

  lemma GroupStepAt<K, V>(m: map<K, seq<V>>, r: map<K, seq<V>>, keys: seq<K>, vals: seq<V>, i: nat, x: K)
    requires i < |keys| && i < |vals|
    requires Get(r, x) == Get(m, x) + ValuesFor(keys, vals, i, x)
    ensures Get(r[keys[i] := Get(r, keys[i]) + [vals[i]]], x) == Get(m, x) + ValuesFor(keys, vals, i + 1, x)
  {
    var r' := r[keys[i] := Get(r, keys[i]) + [vals[i]]];
    if x == keys[i] {
      assert Get(r', x) == Get(r, x) + [vals[i]];
      assert ValuesFor(keys, vals, i + 1, x) == ValuesFor(keys, vals, i, x) + [vals[i]];
    } else {
      assert Get(r', x) == Get(r, x);
      assert ValuesFor(keys, vals, i + 1, x) == ValuesFor(keys, vals, i, x) + [];
    }
  }

  /** ... and adds its key to the keys. */
  lemma GroupKeysStep<K, V>(m: map<K, seq<V>>, r: map<K, seq<V>>, keys: seq<K>, i: nat, s: seq<V>)
    requires i < |keys|
    requires forall k :: k in r <==> k in m || k in keys[..i]
    ensures forall x :: x in r[keys[i] := s] <==> x in m || x in keys[..i + 1]
  {
    assert keys[..i + 1] == keys[..i] + [keys[i]];
  }

  /** The loop of `load_multimap` (and of `load_arch` and `load_updates`): for each row,
      `entry(key).or_default().push(value)` on the map `m`. */
  method GroupInto<K, V>(m: map<K, seq<V>>, keys: seq<K>, vals: seq<V>) returns (r: map<K, seq<V>>)
    ensures forall k :: k in r <==> k in m || k in keys[..Min(|keys|, |vals|)]
    ensures forall k :: Get(r, k) == Get(m, k) + ValuesFor(keys, vals, Min(|keys|, |vals|), k)
    ensures TotalSize(r) == TotalSize(m) + Min(|keys|, |vals|)
  {
    var n := Min(|keys|, |vals|);
    r := m;
    var i := 0;
    while i < n
      invariant 0 <= i <= n
      invariant forall k :: k in r <==> k in m || k in keys[..i]
      invariant forall k :: Get(r, k) == Get(m, k) + ValuesFor(keys, vals, i, k)
      invariant TotalSize(r) == TotalSize(m) + i
    {
      GroupStep(m, r, keys, vals, i);
      GroupKeysStep(m, r, keys, i, Get(r, keys[i]) + [vals[i]]);
      TotalSizeUpdate(r, keys[i], Get(r, keys[i]) + [vals[i]]);
      r := r[keys[i] := Get(r, keys[i]) + [vals[i]]];
      i := i + 1;
    }
  }

  /** `load_multimap`: the values of each key in row order. */
  method LoadMultimap<K, V>(keys: seq<K>, vals: seq<V>) returns (r: map<K, seq<V>>)
    ensures forall k :: k in r <==> k in keys[..Min(|keys|, |vals|)]
    ensures forall k | k in r :: r[k] == ValuesFor(keys, vals, Min(|keys|, |vals|), k)
    ensures TotalSize(r) == Min(|keys|, |vals|)
    ensures forall k | k in r :: r[k] != []
  {
    r := GroupInto(map[], keys, vals);
    forall k | k in r
      ensures r[k] == ValuesFor(keys, vals, Min(|keys|, |vals|), k) && r[k] != []
    {
      assert Get(r, k) == r[k];
      var i :| 0 <= i < Min(|keys|, |vals|) && keys[i] == k;
      ValuesForHas(keys, vals, Min(|keys|, |vals|), i);
    }
  }

  /** Every row contributes its value to the values of its key. */
  lemma {:induction false} ValuesForHas<K, V>(keys: seq<K>, vals: seq<V>, n: nat, i: nat)
    requires n <= |keys| && n <= |vals| && i < n
    ensures vals[i] in ValuesFor(keys, vals, n, keys[i])
  {
    if i < n - 1 {
      ValuesForHas(keys, vals, n - 1, i);
    }
  }

  ghost predicate Injective<K, V>(m: map<K, V>) {
    forall a, b | a in m && b in m && a != b :: m[a] != m[b]
  }

  /** `r` swaps the pairs of `m`: every value of `m` is a key of `r`, mapped back to a
      key of `m` that holds it. */
  ghost predicate IsInverse<K, V>(m: map<K, V>, r: map<V, K>) {
    && r.Keys == m.Values
    && forall v | v in r :: r[v] in m && m[r[v]] == v
  }

  /** `invert`: iterates `m` in its (hash) order and collects the swapped pairs, so when
      two keys share a value, which key is kept is not determined. */
  method Invert<K, V(==)>(m: map<K, V>) returns (r: map<V, K>)
    ensures IsInverse(m, r)
  {
    r := map[];
    var todo := m.Keys;
    while todo != {}
      invariant todo <= m.Keys
      invariant r.Keys == set k | k in m.Keys - todo :: m[k]
      invariant forall v | v in r :: r[v] in m && m[r[v]] == v
    {
      var k :| k in todo;
      r := r[m[k] := k];
      todo := todo - {k};
    }
    assert forall v | v in m.Values :: exists k | k in m.Keys :: m[k] == v;
  }

  /** For an injective map the inverse undoes it. */
  lemma InverseOfInjective<K, V>(m: map<K, V>, r: map<V, K>)
    requires IsInverse(m, r) && Injective(m)
    ensures forall k | k in m :: m[k] in r && r[m[k]] == k
  {
    forall k | k in m
      ensures m[k] in r && r[m[k]] == k
    {
      assert m[k] in m.Values;
    }
  }

  /** Inverting an injective map twice gives the map back. */
  lemma InvertTwice<K, V>(m: map<K, V>, r: map<V, K>, r2: map<K, V>)
    requires IsInverse(m, r) && IsInverse(r, r2) && Injective(m)
    ensures r2 == m
  {
    InverseOfInjective(m, r);
    forall k | k in m
      ensures k in r2 && r2[k] == m[k]
    {
      assert k in r.Values;
    }
    assert r2.Keys == m.Keys;
  }

  /** An inverse is itself injective, whatever `m` is. */
  lemma InverseIsInjective<K, V>(m: map<K, V>, r: map<V, K>)
    requires IsInverse(m, r)
    ensures Injective(r)
  {
  }
}
