/** The map algorithms of map.go. A Go map is a Dafny `map`; ranging over it
    visits the keys in an unspecified order, which the loops model by picking
    an arbitrary unvisited key. Results built in that order (Keys, Values,
    Entries) are specified without an order. */
module Maps {
  import opened Seqs
  import Slice

  /** A key/value pair, as Go's `Entry[K, V]{Key, Value}`. */
  datatype Entry<K, V> = Entry(key: K, value: V)

  // -------------------------------------------------------------- Keys

  method Keys<K(==), V>(m: map<K, V>) returns (result: seq<K>)
    ensures |result| == |m|
    ensures NoDuplicates(result)
    ensures forall k :: k in result <==> k in m
  {
    result := [];
    var rest := m.Keys;
    ghost var done: set<K> := {};
    while rest != {}
      invariant done + rest == m.Keys && done !! rest
      invariant |result| == |done| && NoDuplicates(result)
      invariant forall k :: k in result <==> k in done
      decreases rest
    {
      var k :| k in rest;
      result := result + [k];
      rest := rest - {k};
      done := done + {k};
    }
  }

  // ------------------------------------------------------------ Values

  /** The keys in `ks` that `m` maps to `v`. */
  ghost function Preimage<K, V>(m: map<K, V>, ks: set<K>, v: V): set<K> {
    set k | k in ks && k in m && m[k] == v
  }

  /** Every value occurs once for each key that maps to it. */
  method Values<K(==), V(==)>(m: map<K, V>) returns (result: seq<V>)
    ensures |result| == |m|
    ensures forall v :: multiset(result)[v] == |Preimage(m, m.Keys, v)|
    ensures forall v :: v in result <==> v in m.Values
  {
    result := [];
    var rest := m.Keys;
    ghost var done: set<K> := {};
    while rest != {}
      invariant done + rest == m.Keys && done !! rest
      invariant |result| == |done|
      invariant forall v :: multiset(result)[v] == |Preimage(m, done, v)|
      decreases rest
    {
      var k :| k in rest;
      forall v ensures multiset(result + [m[k]])[v] == |Preimage(m, done + {k}, v)| {
        if m[k] == v {
          assert Preimage(m, done + {k}, v) == Preimage(m, done, v) + {k};
        } else {
          assert Preimage(m, done + {k}, v) == Preimage(m, done, v);
        }
      }
      result := result + [m[k]];
      rest := rest - {k};
      done := done + {k};
    }
    forall v ensures v in result <==> v in m.Values {
      if v in m.Values {
        var k :| k in m && m[k] == v;
        assert k in Preimage(m, m.Keys, v);
      }
      if v in result {
        assert |Preimage(m, m.Keys, v)| > 0;
        var k :| k in Preimage(m, m.Keys, v);
      }
    }
  }

  // ---------------------------------------------------- PickBy, OmitBy

  /** The entries of `m` whose (key, value) pair satisfies `pred`. */
  function Picked<K, V>(m: map<K, V>, pred: (K, V) -> bool): map<K, V> {
    map k | k in m && pred(k, m[k]) :: m[k]
  }

  /** The entries of `m` whose (key, value) pair does not satisfy `pred`. */
  function Omitted<K, V>(m: map<K, V>, pred: (K, V) -> bool): map<K, V> {
    map k | k in m && !pred(k, m[k]) :: m[k]
  }

  /** PickBy and OmitBy with one predicate split the map into two parts with disjoint domains. */
  lemma PickOmitSplit<K, V>(m: map<K, V>, pred: (K, V) -> bool)
    ensures Picked(m, pred).Keys !! Omitted(m, pred).Keys
    ensures Picked(m, pred).Keys + Omitted(m, pred).Keys == m.Keys
    ensures Picked(m, pred) + Omitted(m, pred) == m
  {
    assert Picked(m, pred).Keys + Omitted(m, pred).Keys == m.Keys;
  }

  method PickBy<K(==), V>(m: map<K, V>, pred: (K, V) -> bool) returns (result: map<K, V>)
    ensures forall k :: k in result <==> k in m && pred(k, m[k])
    ensures forall k :: k in result ==> result[k] == m[k]
    ensures result == Picked(m, pred)
  {
    result := map[];
    var rest := m.Keys;
    while rest != {}
      invariant rest <= m.Keys
      invariant forall k :: k in result <==> k in m && k !in rest && pred(k, m[k])
      invariant forall k :: k in result ==> result[k] == m[k]
      decreases rest
    {
      var k :| k in rest;
      if pred(k, m[k]) {
        result := result[k := m[k]];
      }
      rest := rest - {k};
    }
  }

  method OmitBy<K(==), V>(m: map<K, V>, pred: (K, V) -> bool) returns (result: map<K, V>)
    ensures forall k :: k in result <==> k in m && !pred(k, m[k])
    ensures forall k :: k in result ==> result[k] == m[k]
    ensures result == Omitted(m, pred)
  {
    result := map[];
    var rest := m.Keys;
    while rest != {}
      invariant rest <= m.Keys
      invariant forall k :: k in result <==> k in m && k !in rest && !pred(k, m[k])
      invariant forall k :: k in result ==> result[k] == m[k]
      decreases rest
    {
      var k :| k in rest;
      if !pred(k, m[k]) {
        result := result[k := m[k]];
      }
      rest := rest - {k};
    }
  }

  // -------------------------------------------- PickByKeys, OmitByKeys

  /** The entries of `m` whose key is in `ks`. */
  function WithKeysIn<K, V>(m: map<K, V>, ks: set<K>): map<K, V> {
    map k | k in m && k in ks :: m[k]
  }

  /** The entries of `m` whose key is not in `ks`. */
  function WithKeysNotIn<K, V>(m: map<K, V>, ks: set<K>): map<K, V> {
    map k | k in m && k !in ks :: m[k]
  }

  /** PickByKeys keeps the domain intersected with the key list; OmitByKeys keeps the rest. */
  lemma KeysSplit<K, V>(m: map<K, V>, ks: set<K>)
    ensures WithKeysIn(m, ks).Keys == m.Keys * ks
    ensures WithKeysNotIn(m, ks).Keys == m.Keys - ks
    ensures WithKeysIn(m, ks) + WithKeysNotIn(m, ks) == m
  {
    assert WithKeysIn(m, ks).Keys + WithKeysNotIn(m, ks).Keys == m.Keys;
  }

  method PickByKeys<K(==), V>(m: map<K, V>, keys: seq<K>) returns (result: map<K, V>)
    ensures result == WithKeysIn(m, set k | k in keys)
  {
    result := map[];
    var rest := m.Keys;
    while rest != {}
      invariant rest <= m.Keys
      invariant forall k :: k in result <==> k in m && k !in rest && k in keys
      invariant forall k :: k in result ==> result[k] == m[k]
      decreases rest
    {
      var k :| k in rest;
      var found := Slice.Contains(keys, k);
      if found {
        result := result[k := m[k]];
      }
      rest := rest - {k};
    }
  }

  method OmitByKeys<K(==), V>(m: map<K, V>, keys: seq<K>) returns (result: map<K, V>)
    ensures result == WithKeysNotIn(m, set k | k in keys)
  {
    result := map[];
    var rest := m.Keys;
    while rest != {}
      invariant rest <= m.Keys
      invariant forall k :: k in result <==> k in m && k !in rest && k !in keys
      invariant forall k :: k in result ==> result[k] == m[k]
      decreases rest
    {
      var k :| k in rest;
      var found := Slice.Contains(keys, k);
      if !found {
        result := result[k := m[k]];
      }
      rest := rest - {k};
    }
  }

  // ---------------------------------------- PickByValues, OmitByValues

  /** The entries of `m` whose value is in `vs`. */
  function WithValuesIn<K, V>(m: map<K, V>, vs: set<V>): map<K, V> {
    map k | k in m && m[k] in vs :: m[k]
  }

  /** The entries of `m` whose value is not in `vs`. */
  function WithValuesNotIn<K, V>(m: map<K, V>, vs: set<V>): map<K, V> {
    map k | k in m && m[k] !in vs :: m[k]
  }

  /** PickByValues and OmitByValues with one value list split the map. */
  lemma ValuesSplit<K, V>(m: map<K, V>, vs: set<V>)
    ensures WithValuesIn(m, vs).Keys !! WithValuesNotIn(m, vs).Keys
    ensures WithValuesIn(m, vs) + WithValuesNotIn(m, vs) == m
    ensures WithValuesIn(m, vs).Values <= vs && WithValuesNotIn(m, vs).Values !! vs
  {
    assert WithValuesIn(m, vs).Keys + WithValuesNotIn(m, vs).Keys == m.Keys;
  }

  method PickByValues<K(==), V(==)>(m: map<K, V>, values: seq<V>) returns (result: map<K, V>)
    ensures result == WithValuesIn(m, set v | v in values)
  {
    result := map[];
    var rest := m.Keys;
    while rest != {}
      invariant rest <= m.Keys
      invariant forall k :: k in result <==> k in m && k !in rest && m[k] in values
      invariant forall k :: k in result ==> result[k] == m[k]
      decreases rest
    {
      var k :| k in rest;
      var found := Slice.Contains(values, m[k]);
      if found {
        result := result[k := m[k]];
      }
      rest := rest - {k};
    }
  }

  method OmitByValues<K(==), V(==)>(m: map<K, V>, values: seq<V>) returns (result: map<K, V>)
    ensures result == WithValuesNotIn(m, set v | v in values)
  {
    result := map[];
    var rest := m.Keys;
    while rest != {}
      invariant rest <= m.Keys
      invariant forall k :: k in result <==> k in m && k !in rest && m[k] !in values
      invariant forall k :: k in result ==> result[k] == m[k]
      decreases rest
    {
      var k :| k in rest;
      var found := Slice.Contains(values, m[k]);
      if !found {
        result := result[k := m[k]];
      }
      rest := rest - {k};
    }
  }

  // ----------------------------------------------- Entries, FromEntries

  /** `es` lists every entry of `m` exactly once, in some order. */
  ghost predicate Enumerates<K, V>(m: map<K, V>, es: seq<Entry<K, V>>) {
    && |es| == |m|
    && (forall i, j :: 0 <= i < j < |es| ==> es[i].key != es[j].key)
    && (forall i :: 0 <= i < |es| ==> es[i].key in m && m[es[i].key] == es[i].value)
    && (forall k :: k in m ==> exists i :: 0 <= i < |es| && es[i].key == k)
  }

  /** Listing one more key after a listing of a map lists the extended map. */
  lemma EnumeratesSnoc<K, V>(m: map<K, V>, es: seq<Entry<K, V>>, k: K, v: V)
    requires Enumerates(m, es) && k !in m
    ensures Enumerates(m[k := v], es + [Entry(k, v)])
  {
    var es' := es + [Entry(k, v)];
    forall k' | k' == k || k' in m ensures exists i :: 0 <= i < |es'| && es'[i].key == k' {
      if k' == k {
        assert es'[|es|].key == k;
      } else {
        var i :| 0 <= i < |es| && es[i].key == k';
        assert es'[i] == es[i];
      }
    }
  }

  method Entries<K(==), V>(m: map<K, V>) returns (result: seq<Entry<K, V>>)
    ensures Enumerates(m, result)
  {
    result := [];
    var rest := m.Keys;
    ghost var seen: map<K, V> := map[];
    while rest != {}
      invariant rest <= m.Keys
      invariant seen == map k | k in m && k !in rest :: m[k]
      invariant Enumerates(seen, result)
      decreases rest
    {
      var k :| k in rest;
      EnumeratesSnoc(seen, result, k, m[k]);
      assert seen[k := m[k]] == map k' | k' in m && k' !in rest - {k} :: m[k'];
      result := result + [Entry(k, m[k])];
      seen := seen[k := m[k]];
      rest := rest - {k};
    }
    assert seen == m;
  }

  /** The map built by writing the entries left to right. */
  function Collected<K, V>(entries: seq<Entry<K, V>>): map<K, V>
    decreases |entries|
  {
    if entries == [] then map[]
    else
      var e := entries[|entries| - 1];
      Collected(entries[..|entries| - 1])[e.key := e.value]
  }

  method FromEntries<K(==), V>(entries: seq<Entry<K, V>>) returns (result: map<K, V>)
    ensures result == Collected(entries)
  {
    result := map[];
    for i := 0 to |entries|
      invariant result == Collected(entries[..i])
    {
      assert entries[..i + 1][..i] == entries[..i];
      result := result[entries[i].key := entries[i].value];
    }
    assert entries[..|entries|] == entries;
  }

  /** FromEntries has one key for each key that occurs in the list. */
  lemma {:induction false} CollectedKeys<K, V>(entries: seq<Entry<K, V>>)
    ensures Collected(entries).Keys == set e | e in entries :: e.key
    decreases |entries|
  {
    if entries != [] {
      var init := entries[..|entries| - 1];
      CollectedKeys(init);
      assert entries == init + [entries[|entries| - 1]];
    }
  }

  /** Each key is mapped to the value of its last entry in the list. */
  lemma {:induction false} CollectedLast<K, V>(entries: seq<Entry<K, V>>, i: int)
    requires 0 <= i < |entries|
    requires forall j :: i < j < |entries| ==> entries[j].key != entries[i].key
    ensures entries[i].key in Collected(entries) && Collected(entries)[entries[i].key] == entries[i].value
    decreases |entries|
  {
    var n := |entries| - 1;
    if i < n {
      var init := entries[..n];
      assert forall j :: i < j < |init| ==> init[j] == entries[j];
      CollectedLast(init, i);
    }
  }

  /** Dropping the last entry of a listing lists the map without that key. */
  lemma EnumeratesDropLast<K, V>(m: map<K, V>, es: seq<Entry<K, V>>)
    requires Enumerates(m, es) && es != []
    ensures Enumerates(m - {es[|es| - 1].key}, es[..|es| - 1])
  {
    var n := |es| - 1;
    var init, e := es[..n], es[n];
    var m' := m - {e.key};
    forall i | 0 <= i < |init| ensures init[i].key in m' && m'[init[i].key] == init[i].value {
      assert init[i] == es[i];
    }
    forall k | k in m' ensures exists i :: 0 <= i < |init| && init[i].key == k {
      var i :| 0 <= i < |es| && es[i].key == k;
      assert i != n;
      assert init[i] == es[i];
    }
    assert |m'| == |m| - 1;
  }

  /** FromEntries on any listing Entries may return gives back the map. */
  lemma {:induction false} EntriesRoundTrip<K, V>(m: map<K, V>, es: seq<Entry<K, V>>)
    requires Enumerates(m, es)
    ensures Collected(es) == m
    decreases |es|
  {
    if es != [] {
      var e := es[|es| - 1];
      EnumeratesDropLast(m, es);
      EntriesRoundTrip(m - {e.key}, es[..|es| - 1]);
      assert m == (m - {e.key})[e.key := e.value];
    }
  }

  // ------------------------------------------------------------ Invert

  /** `r` swaps the keys and values of `m`; for a value held under several keys any one of them is chosen. */
  ghost predicate IsInversion<K, V>(m: map<K, V>, r: map<V, K>) {
    r.Keys == m.Values && forall v :: v in r ==> r[v] in m && m[r[v]] == v
  }

  ghost predicate Injective<K, V>(m: map<K, V>) {
    forall a, b :: a in m && b in m && a != b ==> m[a] != m[b]
  }

  method Invert<K(==), V(==)>(m: map<K, V>) returns (result: map<V, K>)
    ensures IsInversion(m, result)
  {
    result := map[];
    var rest := m.Keys;
    ghost var done: set<K> := {};
    while rest != {}
      invariant done + rest == m.Keys && done !! rest
      invariant result.Keys == set k | k in done :: m[k]
      invariant forall v :: v in result ==> result[v] in done && m[result[v]] == v
      decreases rest
    {
      var k :| k in rest;
      result := result[m[k] := k];
      rest := rest - {k};
      done := done + {k};
    }
    assert result.Keys == m.Values by {
      forall v | v in m.Values ensures v in result.Keys {
        var k :| k in m && m[k] == v;
        assert k in done;
      }
    }
  }

  /** Inverting an injective map, then inverting the result, gives back the map. */
  lemma InvertTwice<K, V>(m: map<K, V>, r: map<V, K>, r2: map<K, V>)
    requires Injective(m) && IsInversion(m, r) && IsInversion(r, r2)
    ensures r2 == m
  {
    forall k | k in m ensures k in r2.Keys {
      assert m[k] in r;
      assert r[m[k]] == k;
    }
    forall k | k in r2 ensures k in m && r2[k] == m[k] {
      var v := r2[k];
      assert v in r && r[v] == k;
    }
  }

  // ------------------------------------------------------------ Assign

  /** The maps merged left to right: a later map overwrites an earlier one. */
  function Merged<K, V>(maps: seq<map<K, V>>): map<K, V>
    decreases |maps|
  {
    if maps == [] then map[] else Merged(maps[..|maps| - 1]) + maps[|maps| - 1]
  }

  method Assign<K(==), V>(maps: seq<map<K, V>>) returns (result: map<K, V>)
    ensures result == Merged(maps)
  {
    result := map[];
    for i := 0 to |maps|
      invariant result == Merged(maps[..i])
    {
      var m := maps[i];
      ghost var before := result;
      var rest := m.Keys;
      while rest != {}
        invariant rest <= m.Keys
        invariant result.Keys == before.Keys + (m.Keys - rest)
        invariant forall k :: k in result ==> result[k] == if k in m && k !in rest then m[k] else before[k]
        decreases rest
      {
        var k :| k in rest;
        result := result[k := m[k]];
        rest := rest - {k};
      }
      assert result == before + m;
      assert maps[..i + 1][..i] == maps[..i];
    }
    assert maps[..|maps|] == maps;
  }

  /** Assign's domain is the union of the input domains. */
  lemma {:induction false} MergedKeys<K, V>(maps: seq<map<K, V>>, k: K)
    ensures k in Merged(maps) <==> exists i :: 0 <= i < |maps| && k in maps[i]
    decreases |maps|
  {
    if maps != [] {
      var init := maps[..|maps| - 1];
      MergedKeys(init, k);
      assert forall i :: 0 <= i < |init| ==> init[i] == maps[i];
    }
  }

  /** The right-most map that holds a key supplies its value. */
  lemma {:induction false} MergedRightmost<K, V>(maps: seq<map<K, V>>, i: int, k: K)
    requires 0 <= i < |maps| && k in maps[i]
    requires forall j :: i < j < |maps| ==> k !in maps[j]
    ensures k in Merged(maps) && Merged(maps)[k] == maps[i][k]
    decreases |maps|
  {
    var n := |maps| - 1;
    if i < n {
      var init := maps[..n];
      assert forall j :: i < j < |init| ==> init[j] == maps[j];
      MergedRightmost(init, i, k);
    }
  }

  // ------------------------------------------------- MapKeys, MapValues

  /** When two keys map to the same new key, one of their values is kept (which is unspecified). */
  method MapKeys<K(==), V, R(==)>(m: map<K, V>, iteratee: (K, V) -> R) returns (result: map<R, V>)
    ensures result.Keys == set k | k in m :: iteratee(k, m[k])
    ensures forall r :: r in result ==> exists k :: k in m && iteratee(k, m[k]) == r && result[r] == m[k]
  {
    result := map[];
    var rest := m.Keys;
    ghost var done: set<K> := {};
    while rest != {}
      invariant done + rest == m.Keys && done !! rest
      invariant result.Keys == set k | k in done :: iteratee(k, m[k])
      invariant forall r :: r in result ==> exists k :: k in done && iteratee(k, m[k]) == r && result[r] == m[k]
      decreases rest
    {
      var k :| k in rest;
      result := result[iteratee(k, m[k]) := m[k]];
      rest := rest - {k};
      done := done + {k};
    }
  }

  method MapValues<K(==), V, R>(m: map<K, V>, iteratee: (K, V) -> R) returns (result: map<K, R>)
    ensures result.Keys == m.Keys
    ensures forall k :: k in m ==> result[k] == iteratee(k, m[k])
  {
    result := map[];
    var rest := m.Keys;
    while rest != {}
      invariant rest <= m.Keys
      invariant result.Keys == m.Keys - rest
      invariant forall k :: k in result ==> result[k] == iteratee(k, m[k])
      decreases rest
    {
      var k :| k in rest;
      result := result[k := iteratee(k, m[k])];
      rest := rest - {k};
    }
  }

  // ------------------------------------------------- HasKey, HasValue

  function HasKey<K, V>(m: map<K, V>, key: K): (r: bool)
    ensures r <==> key in m.Keys
  {
    key in m
  }

  method HasValue<K(==), V(==)>(m: map<K, V>, value: V) returns (r: bool)
    ensures r <==> value in m.Values
  {
    var rest := m.Keys;
    while rest != {}
      invariant rest <= m.Keys
      invariant forall k :: k in m && k !in rest ==> m[k] != value
      decreases rest
    {
      var k :| k in rest;
      if m[k] == value {
        return true;
      }
      rest := rest - {k};
    }
    return false;
  }
}
