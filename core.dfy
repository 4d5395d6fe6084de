/** The slice algorithms of core.go: map, filter, reduce, find, uniq, group,
    chunk, in-place reverse, flatten, extrema and the counting predicates.
    Go callbacks are total functions; Go's zero value of a type parameter is
    passed in as `zero` where the source returns it. Min and Max are modelled
    on int. */
module Core {
  import opened Seqs
  import IntMath

  // ---------------------------------------------------------------- Map

  method Map<T, R>(collection: seq<T>, iteratee: (T, int) -> R) returns (result: seq<R>)
    ensures |result| == |collection|
    ensures forall i :: 0 <= i < |collection| ==> result[i] == iteratee(collection[i], i)
  {
    result := [];
    for i := 0 to |collection|
      invariant |result| == i
      invariant forall k :: 0 <= k < i ==> result[k] == iteratee(collection[k], k)
    {
      result := result + [iteratee(collection[i], i)];
    }
  }

  // ------------------------------------------------------------- Filter

  /** The elements whose (item, index) pair satisfies `pred`, in order. */
  function Filtered<T>(s: seq<T>, pred: (T, int) -> bool): seq<T>
    decreases |s|
  {
    if s == [] then []
    else Filtered(s[..|s| - 1], pred) + (if pred(s[|s| - 1], |s| - 1) then [s[|s| - 1]] else [])
  }

  lemma FilteredSnoc<T>(s: seq<T>, x: T, pred: (T, int) -> bool)
    ensures Filtered(s + [x], pred) == Filtered(s, pred) + (if pred(x, |s|) then [x] else [])
  {
    assert (s + [x])[..|s|] == s;
  }

  method Filter<T>(collection: seq<T>, pred: (T, int) -> bool) returns (result: seq<T>)
    ensures result == Filtered(collection, pred)
  {
    result := [];
    for i := 0 to |collection|
      invariant result == Filtered(collection[..i], pred)
    {
      assert collection[..i + 1] == collection[..i] + [collection[i]];
      FilteredSnoc(collection[..i], collection[i], pred);
      if pred(collection[i], i) {
        result := result + [collection[i]];
      }
    }
    assert collection[..|collection|] == collection;
  }

  /** An element is kept iff it stands at an index whose pair satisfies `pred`. */
  lemma {:induction false} FilteredMembers<T>(s: seq<T>, pred: (T, int) -> bool, x: T)
    ensures x in Filtered(s, pred) <==> exists i :: 0 <= i < |s| && s[i] == x && pred(s[i], i)
    decreases |s|
  {
    if s != [] {
      var init := s[..|s| - 1];
      FilteredMembers(init, pred, x);
      if x in Filtered(init, pred) {
        var i :| 0 <= i < |init| && init[i] == x && pred(init[i], i);
        assert s[i] == init[i];
      }
      if exists i :: 0 <= i < |s| && s[i] == x && pred(s[i], i) {
        var i :| 0 <= i < |s| && s[i] == x && pred(s[i], i);
        if i < |init| {
          assert init[i] == s[i];
        }
      }
    }
  }

  /** The kept elements keep their relative order. */
  lemma {:induction false} FilteredSubsequence<T>(s: seq<T>, pred: (T, int) -> bool)
    ensures IsSubsequence(Filtered(s, pred), s)
    decreases |s|
  {
    if s != [] {
      var init, x := s[..|s| - 1], s[|s| - 1];
      var f := Filtered(init, pred);
      FilteredSubsequence(init, pred);
      assert s == init + [x];
      if pred(x, |init|) {
        assert Filtered(s, pred) == f + [x];
        SubsequenceSnoc(f, init, x);
      } else {
        assert Filtered(s, pred) == f;
        SubsequenceExtend(f, init, x);
      }
    }
  }

  /** One element is kept for every index whose pair satisfies `pred`. */
  lemma {:induction false} FilteredLength<T>(s: seq<T>, pred: (T, int) -> bool)
    ensures |Filtered(s, pred)| == |set i | 0 <= i < |s| && pred(s[i], i)|
    decreases |s|
  {
    if s != [] {
      var n := |s| - 1;
      var init := s[..n];
      FilteredLength(init, pred);
      var before := set i | 0 <= i < |init| && pred(init[i], i);
      var after := set i | 0 <= i < |s| && pred(s[i], i);
      if pred(s[n], n) {
        assert after == before + {n};
      } else {
        assert after == before;
      }
    }
  }

  /** Only the pairs at the indices of `s` matter. */
  lemma {:induction false} FilteredAgree<T>(s: seq<T>, p: (T, int) -> bool, q: (T, int) -> bool)
    requires forall i :: 0 <= i < |s| ==> p(s[i], i) == q(s[i], i)
    ensures Filtered(s, p) == Filtered(s, q)
    decreases |s|
  {
    if s != [] {
      var init := s[..|s| - 1];
      assert forall i :: 0 <= i < |init| ==> init[i] == s[i];
      FilteredAgree(init, p, q);
    }
  }

  /** Filtering with a predicate that ignores the index is element selection. */
  lemma {:induction false} FilteredIgnoringIndex<T>(s: seq<T>, pred: T -> bool)
    ensures Filtered(s, (x, i) => pred(x)) == SelectWhere(s, pred, true)
    decreases |s|
  {
    if s != [] {
      FilteredIgnoringIndex(s[..|s| - 1], pred);
    }
  }

  // ------------------------------------------------------------- Reduce

  /** The accumulator applied left to right, each call given the previous result. */
  function Folded<T, R>(s: seq<T>, accumulator: (R, T, int) -> R, initial: R): R
    decreases |s|
  {
    if s == [] then initial
    else accumulator(Folded(s[..|s| - 1], accumulator, initial), s[|s| - 1], |s| - 1)
  }

  method Reduce<T, R>(collection: seq<T>, accumulator: (R, T, int) -> R, initial: R) returns (r: R)
    ensures r == Folded(collection, accumulator, initial)
  {
    r := initial;
    for i := 0 to |collection|
      invariant r == Folded(collection[..i], accumulator, initial)
    {
      assert collection[..i + 1][..i] == collection[..i];
      r := accumulator(r, collection[i], i);
    }
    assert collection[..|collection|] == collection;
  }

  /** Reducing a concatenation reduces the second part from the result of the
      first, with the indices of the second part shifted. */
  lemma {:induction false} FoldedAppend<T, R>(a: seq<T>, b: seq<T>, accumulator: (R, T, int) -> R, initial: R)
    ensures Folded(a + b, accumulator, initial)
         == Folded(b, (r, x, i) => accumulator(r, x, i + |a|), Folded(a, accumulator, initial))
    decreases |b|
  {
    if b == [] {
      assert a + b == a;
    } else {
      var init := b[..|b| - 1];
      FoldedAppend(a, init, accumulator, initial);
      assert (a + b)[..|a + b| - 1] == a + init;
    }
  }

  // --------------------------------------------------------------- Find

  method Find<T>(collection: seq<T>, pred: T -> bool, zero: T) returns (item: T, found: bool)
    ensures found <==> exists i :: 0 <= i < |collection| && pred(collection[i])
    ensures found ==> exists i :: 0 <= i < |collection| && collection[i] == item && pred(item)
                                  && forall j :: 0 <= j < i ==> !pred(collection[j])
    ensures !found ==> item == zero
  {
    for i := 0 to |collection|
      invariant forall j :: 0 <= j < i ==> !pred(collection[j])
    {
      if pred(collection[i]) {
        return collection[i], true;
      }
    }
    return zero, false;
  }

  method FindIndex<T>(collection: seq<T>, pred: T -> bool) returns (index: int)
    ensures -1 <= index < |collection|
    ensures index == -1 <==> forall i :: 0 <= i < |collection| ==> !pred(collection[i])
    ensures index >= 0 ==> pred(collection[index]) && forall j :: 0 <= j < index ==> !pred(collection[j])
  {
    for i := 0 to |collection|
      invariant forall j :: 0 <= j < i ==> !pred(collection[j])
    {
      if pred(collection[i]) {
        return i;
      }
    }
    return -1;
  }

  method FindLast<T>(collection: seq<T>, pred: T -> bool, zero: T) returns (item: T, found: bool)
    ensures found <==> exists i :: 0 <= i < |collection| && pred(collection[i])
    ensures found ==> exists i :: 0 <= i < |collection| && collection[i] == item && pred(item)
                                  && forall j :: i < j < |collection| ==> !pred(collection[j])
    ensures !found ==> item == zero
  {
    var i := |collection| - 1;
    while i >= 0
      invariant -1 <= i < |collection|
      invariant forall j :: i < j < |collection| ==> !pred(collection[j])
    {
      if pred(collection[i]) {
        return collection[i], true;
      }
      i := i - 1;
    }
    return zero, false;
  }

  method FindLastIndex<T>(collection: seq<T>, pred: T -> bool) returns (index: int)
    ensures -1 <= index < |collection|
    ensures index == -1 <==> forall i :: 0 <= i < |collection| ==> !pred(collection[i])
    ensures index >= 0 ==> pred(collection[index])
                           && forall j :: index < j < |collection| ==> !pred(collection[j])
  {
    var i := |collection| - 1;
    while i >= 0
      invariant -1 <= i < |collection|
      invariant forall j :: i < j < |collection| ==> !pred(collection[j])
    {
      if pred(collection[i]) {
        return i;
      }
      i := i - 1;
    }
    return -1;
  }

  // ---------------------------------------------------------- Uniq, UniqBy

  /** The elements of `s` whose key has not been seen among the earlier elements. */
  function DedupBy<T(==), U(==)>(s: seq<T>, key: T -> U): seq<T>
    decreases |s|
  {
    if s == [] then []
    else
      var init, x := s[..|s| - 1], s[|s| - 1];
      DedupBy(init, key) + (if key(x) in KeySet(init, key) then [] else [x])
  }

  lemma DedupBySnoc<T, U>(s: seq<T>, x: T, key: T -> U)
    ensures DedupBy(s + [x], key) == DedupBy(s, key) + (if key(x) in KeySet(s, key) then [] else [x])
  {
    assert (s + [x])[..|s|] == s;
  }

  /** No element of `s` has a key that appears at an earlier index. */
  ghost predicate FirstOfKey<T, U>(s: seq<T>, key: T -> U, i: int) {
    0 <= i < |s| && forall k :: 0 <= k < i ==> key(s[k]) != key(s[i])
  }

  /** De-duplication keeps one element for every key of the input. */
  lemma {:induction false} DedupByKeys<T, U>(s: seq<T>, key: T -> U)
    ensures KeySet(DedupBy(s, key), key) == KeySet(s, key)
    decreases |s|
  {
    if s != [] {
      var init, x := s[..|s| - 1], s[|s| - 1];
      DedupByKeys(init, key);
      assert s == init + [x];
      KeySetSnoc(init, x, key);
      if key(x) !in KeySet(init, key) {
        KeySetSnoc(DedupBy(init, key), x, key);
      }
    }
  }

  /** No two kept elements share a key. */
  lemma {:induction false} DedupByDistinct<T, U>(s: seq<T>, key: T -> U)
    ensures forall i, j :: 0 <= i < j < |DedupBy(s, key)| ==> key(DedupBy(s, key)[i]) != key(DedupBy(s, key)[j])
    decreases |s|
  {
    if s != [] {
      var init, x := s[..|s| - 1], s[|s| - 1];
      var d := DedupBy(init, key);
      DedupByDistinct(init, key);
      DedupByKeys(init, key);
      if key(x) !in KeySet(init, key) {
        forall i | 0 <= i < |d| ensures key(d[i]) != key(x) {
          assert d[i] in d;
        }
      }
    }
  }

  /** De-duplication keeps exactly the first element of each key, in input order. */
  lemma {:induction false} DedupByFirstOccurrences<T, U>(s: seq<T>, key: T -> U)
    ensures DedupBy(s, key) == Filtered(s, (x, i) => FirstOfKey(s, key, i))
    decreases |s|
  {
    if s != [] {
      var n := |s| - 1;
      var init, x := s[..n], s[n];
      DedupByFirstOccurrences(init, key);
      forall i | 0 <= i < |init|
        ensures FirstOfKey(init, key, i) == FirstOfKey(s, key, i)
      {
        assert forall k :: 0 <= k <= i ==> init[k] == s[k];
      }
      FilteredAgree(init, (y, i) => FirstOfKey(init, key, i), (y, i) => FirstOfKey(s, key, i));
      assert s == init + [x];
      FilteredSnoc(init, x, (y, i) => FirstOfKey(s, key, i));
      if key(x) in KeySet(init, key) {
        var y :| y in init && key(y) == key(x);
        var k :| 0 <= k < |init| && init[k] == y;
        assert s[k] == y;
        assert !FirstOfKey(s, key, n);
      } else {
        forall k | 0 <= k < n ensures key(s[k]) != key(x) {
          assert s[k] == init[k];
          assert init[k] in init;
        }
        assert FirstOfKey(s, key, n);
      }
    }
  }

  method UniqBy<T(==), U(==)>(collection: seq<T>, iteratee: T -> U) returns (result: seq<T>)
    ensures result == DedupBy(collection, iteratee)
  {
    result := [];
    var seen: set<U> := {};
    for i := 0 to |collection|
      invariant result == DedupBy(collection[..i], iteratee)
      invariant seen == KeySet(collection[..i], iteratee)
    {
      var item := collection[i];
      var key := iteratee(item);
      assert collection[..i + 1] == collection[..i] + [item];
      DedupBySnoc(collection[..i], item, iteratee);
      KeySetSnoc(collection[..i], item, iteratee);
      if key !in seen {
        seen := seen + {key};
        result := result + [item];
      }
    }
    assert collection[..|collection|] == collection;
  }

  method Uniq<T(==)>(collection: seq<T>) returns (result: seq<T>)
    ensures result == DedupBy(collection, Identity)
  {
    result := [];
    var seen: set<T> := {};
    for i := 0 to |collection|
      invariant result == DedupBy(collection[..i], Identity)
      invariant seen == KeySet(collection[..i], Identity)
    {
      var item := collection[i];
      assert collection[..i + 1] == collection[..i] + [item];
      DedupBySnoc(collection[..i], item, Identity);
      KeySetSnoc(collection[..i], item, Identity);
      if item !in seen {
        seen := seen + {item};
        result := result + [item];
      }
    }
    assert collection[..|collection|] == collection;
  }

  /** Uniq's result has no duplicates and the same elements as its input, and
      it is exactly the input's first occurrences, kept in input order. */
  lemma UniqSpec<T>(s: seq<T>)
    ensures NoDuplicates(DedupBy(s, Identity))
    ensures forall x :: x in DedupBy(s, Identity) <==> x in s
    ensures IsSubsequence(DedupBy(s, Identity), s)
    ensures DedupBy(s, Identity) == Filtered(s, (x, i) => FirstOfKey(s, Identity, i))
  {
    var d := DedupBy(s, Identity);
    DedupByDistinct(s, Identity);
    DedupByKeys(s, Identity);
    DedupByFirstOccurrences(s, Identity);
    FilteredSubsequence(s, (x, i) => FirstOfKey(s, Identity, i));
    forall x ensures x in d <==> x in s {
      if x in d {
        SubsequenceMembers(d, s, x);
      } else {
        assert x in s <==> Identity(x) in KeySet(s, Identity);
        assert x in d <==> Identity(x) in KeySet(d, Identity);
      }
    }
  }

  // ------------------------------------------------------------ GroupBy

  /** The elements of `s` whose key is `k`, in order. */
  function Group<T, U(==)>(s: seq<T>, key: T -> U, k: U): seq<T> {
    SelectWhere(s, x => key(x) == k, true)
  }

  lemma GroupSnoc<T, U>(s: seq<T>, x: T, key: T -> U, k: U)
    ensures Group(s + [x], key, k) == Group(s, key, k) + (if key(x) == k then [x] else [])
  {
    SelectWhereSnoc(s, x, y => key(y) == k, true);
  }

  /** A group holds every occurrence of the elements with its key, in order,
      and it is non-empty exactly for the keys that occur. */
  lemma GroupSpec<T, U>(s: seq<T>, key: T -> U, k: U)
    ensures IsSubsequence(Group(s, key, k), s)
    ensures forall v :: multiset(Group(s, key, k))[v] == if key(v) == k then multiset(s)[v] else 0
    ensures Group(s, key, k) != [] <==> k in KeySet(s, key)
  {
    var g := Group(s, key, k);
    SelectWhereSubsequence(s, x => key(x) == k, true);
    forall v ensures multiset(g)[v] == if key(v) == k then multiset(s)[v] else 0 {
      SelectWhereCount(s, x => key(x) == k, true, v);
    }
    if g != [] {
      SelectWhereMembers(s, x => key(x) == k, true, g[0]);
    }
    if k in KeySet(s, key) {
      var y :| y in s && key(y) == k;
      SelectWhereMembers(s, x => key(x) == k, true, y);
    }
  }

  method GroupBy<T, U(==)>(collection: seq<T>, iteratee: T -> U) returns (result: map<U, seq<T>>)
    ensures result.Keys == KeySet(collection, iteratee)
    ensures forall k :: k in result ==> result[k] == Group(collection, iteratee, k)
  {
    result := map[];
    for i := 0 to |collection|
      invariant result.Keys == KeySet(collection[..i], iteratee)
      invariant forall k :: k in result ==> result[k] == Group(collection[..i], iteratee, k)
    {
      var item := collection[i];
      var key := iteratee(item);
      assert collection[..i + 1] == collection[..i] + [item];
      KeySetSnoc(collection[..i], item, iteratee);
      forall k ensures Group(collection[..i + 1], iteratee, k)
                    == Group(collection[..i], iteratee, k) + (if iteratee(item) == k then [item] else [])
      {
        GroupSnoc(collection[..i], item, iteratee, k);
      }
      if key !in result {
        GroupSpec(collection[..i], iteratee, key);
      }
      var group := if key in result then result[key] else [];
      result := result[key := group + [item]];
    }
    assert collection[..|collection|] == collection;
  }

  // -------------------------------------------------------------- Chunk

  method Chunk<T>(collection: seq<T>, size: int) returns (result: seq<seq<T>>)
    ensures size <= 0 ==> result == []
    ensures size > 0 ==> Concatenation(result) == collection
    ensures forall j :: 0 <= j < |result| ==> 0 < |result[j]| <= size
    ensures forall j :: 0 <= j < |result| - 1 ==> |result[j]| == size
  {
    if size <= 0 {
      return [];
    }
    var n := |collection|;
    result := [];
    var i := 0;
    while i < n
      invariant 0 <= i
      invariant Concatenation(result) == collection[..if i <= n then i else n]
      invariant forall j :: 0 <= j < |result| ==> 0 < |result[j]| <= size
      invariant forall j :: 0 <= j < |result| - 1 ==> |result[j]| == size
      invariant i <= n ==> forall j :: 0 <= j < |result| ==> |result[j]| == size
      decreases n - i
    {
      var end := i + size;
      if end > n {
        end := n;
      }
      ConcatenationSnoc(result, collection[i..end]);
      assert collection[..end] == collection[..i] + collection[i..end];
      result := result + [collection[i..end]];
      i := i + size;
    }
    assert collection[..n] == collection;
  }

  /** Go's integer division for a positive divisor: the quotient is truncated
      toward zero, where Dafny's `/` rounds toward negative infinity. */
  function GoDiv(a: int, b: int): (q: int)
    requires b > 0
    ensures a >= 0 ==> 0 <= q && q * b <= a < q * b + b
    ensures a < 0 ==> q <= 0 && a <= q * b < a + b
  {
    if a >= 0 then a / b else -((-a) / b)
  }

  /** The capacity hint Chunk passes to `make`, as written: the count of chunks
      rounded up, computed in Go's int (int64) with wrap-around. Without
      overflow it is the number of chunks; on overflow it is never positive. */
  function ChunkCapacity(length: nat, size: int): (r: int)
    requires length <= IntMath.MaxInt64
    requires 0 < size <= IntMath.MaxInt64
    ensures length + size - 1 <= IntMath.MaxInt64 ==> (r - 1) * size < length <= r * size
    ensures length + size - 1 > IntMath.MaxInt64 ==> r <= 0
  {
    var hint := IntMath.Wrap64(length + size - 1);
    assert length + size - 1 > IntMath.MaxInt64 ==> hint == length + size - 1 - 0x1_0000_0000_0000_0000;
    GoDiv(hint, size)
  }

  /** Two elements chunked by the largest int: the hint wraps to the most
      negative int64 and truncates to -1, so `make` panics where the intended
      result is the single chunk of both elements. */
  lemma ChunkCapacityOverflows()
    ensures ChunkCapacity(2, IntMath.MaxInt64) == -1
  {
    assert IntMath.Wrap64(2 + IntMath.MaxInt64 - 1) == IntMath.MinInt64;
    assert GoDiv(IntMath.MinInt64, IntMath.MaxInt64) == -1;
  }

  // ------------------------------------------------------------ Reverse

  /** `s` read backwards. */
  function Reversed<T>(s: seq<T>): seq<T>
    decreases |s|
  {
    if s == [] then [] else [s[|s| - 1]] + Reversed(s[..|s| - 1])
  }

  lemma {:induction false} ReversedIndex<T>(s: seq<T>, k: int)
    requires 0 <= k < |s|
    ensures |Reversed(s)| == |s| && Reversed(s)[k] == s[|s| - 1 - k]
    decreases |s|
  {
    ReversedLength(s);
    if k > 0 {
      ReversedIndex(s[..|s| - 1], k - 1);
    }
  }

  lemma {:induction false} ReversedLength<T>(s: seq<T>)
    ensures |Reversed(s)| == |s|
    decreases |s|
  {
    if s != [] {
      ReversedLength(s[..|s| - 1]);
    }
  }

  /** Reversal is a permutation. */
  lemma {:induction false} ReversedPermutation<T>(s: seq<T>)
    ensures multiset(Reversed(s)) == multiset(s)
    decreases |s|
  {
    if s != [] {
      ReversedPermutation(s[..|s| - 1]);
      assert s == s[..|s| - 1] + [s[|s| - 1]];
    }
  }

  /** Reversing twice gives back the input. */
  lemma ReversedTwice<T>(s: seq<T>)
    ensures Reversed(Reversed(s)) == s
  {
    var r := Reversed(s);
    ReversedLength(s);
    ReversedLength(r);
    forall k | 0 <= k < |s| ensures Reversed(r)[k] == s[k] {
      ReversedIndex(r, k);
      ReversedIndex(s, |s| - 1 - k);
    }
  }

  /** Swaps the two halves in place and returns the same array, as the source does. */
  method Reverse<T>(collection: array<T>) returns (r: array<T>)
    modifies collection
    ensures r == collection
    ensures collection[..] == Reversed(old(collection[..]))
  {
    var length := collection.Length;
    var half := length / 2;
    for i := 0 to half
      invariant forall k :: 0 <= k < i ==> collection[k] == old(collection[length - 1 - k])
                                           && collection[length - 1 - k] == old(collection[k])
      invariant forall k :: i <= k < length - i ==> collection[k] == old(collection[k])
    {
      var j := length - 1 - i;
      collection[i], collection[j] := collection[j], collection[i];
    }
    ghost var before := old(collection[..]);
    ReversedLength(before);
    forall k | 0 <= k < length ensures collection[..][k] == Reversed(before)[k] {
      ReversedIndex(before, k);
    }
    r := collection;
  }

  // ------------------------------------------------------------ Flatten

  method Flatten<T>(collection: seq<seq<T>>) returns (result: seq<T>)
    ensures result == Concatenation(collection)
    ensures |result| == TotalLength(collection)
  {
    var totalLen := 0;
    for i := 0 to |collection|
      invariant totalLen == TotalLength(collection[..i])
    {
      assert collection[..i + 1][..i] == collection[..i];
      totalLen := totalLen + |collection[i]|;
    }
    result := [];
    for i := 0 to |collection|
      invariant result == Concatenation(collection[..i])
    {
      assert collection[..i + 1][..i] == collection[..i];
      result := result + collection[i];
    }
    assert collection[..|collection|] == collection;
    ConcatenationLength(collection);
  }

  // ------------------------------------------------------------ Extrema

  method Min(collection: seq<int>) returns (min: int)
    ensures collection == [] ==> min == 0
    ensures collection != [] ==> min in collection && forall x :: x in collection ==> min <= x
  {
    if |collection| == 0 {
      return 0;
    }
    min := collection[0];
    for i := 1 to |collection|
      invariant min in collection[..i]
      invariant forall k :: 0 <= k < i ==> min <= collection[k]
    {
      if collection[i] < min {
        min := collection[i];
      }
    }
  }

  method Max(collection: seq<int>) returns (max: int)
    ensures collection == [] ==> max == 0
    ensures collection != [] ==> max in collection && forall x :: x in collection ==> x <= max
  {
    if |collection| == 0 {
      return 0;
    }
    max := collection[0];
    for i := 1 to |collection|
      invariant max in collection[..i]
      invariant forall k :: 0 <= k < i ==> collection[k] <= max
    {
      if collection[i] > max {
        max := collection[i];
      }
    }
  }

  /** Because the comparison is strict, the first element of least key wins. */
  method MinBy<T>(collection: seq<T>, iteratee: T -> int, zero: T) returns (minItem: T)
    ensures collection == [] ==> minItem == zero
    ensures collection != [] ==>
      exists i :: 0 <= i < |collection| && collection[i] == minItem
                  && (forall j :: 0 <= j < |collection| ==> iteratee(minItem) <= iteratee(collection[j]))
                  && (forall j :: 0 <= j < i ==> iteratee(collection[j]) > iteratee(minItem))
  {
    if |collection| == 0 {
      return zero;
    }
    minItem := collection[0];
    var min := iteratee(minItem);
    ghost var at := 0;
    for i := 1 to |collection|
      invariant 0 <= at < i && collection[at] == minItem && min == iteratee(minItem)
      invariant forall j :: 0 <= j < i ==> min <= iteratee(collection[j])
      invariant forall j :: 0 <= j < at ==> iteratee(collection[j]) > min
    {
      var item := collection[i];
      var value := iteratee(item);
      if value < min {
        min, minItem, at := value, item, i;
      }
    }
  }

  /** Because the comparison is strict, the first element of greatest key wins. */
  method MaxBy<T>(collection: seq<T>, iteratee: T -> int, zero: T) returns (maxItem: T)
    ensures collection == [] ==> maxItem == zero
    ensures collection != [] ==>
      exists i :: 0 <= i < |collection| && collection[i] == maxItem
                  && (forall j :: 0 <= j < |collection| ==> iteratee(collection[j]) <= iteratee(maxItem))
                  && (forall j :: 0 <= j < i ==> iteratee(collection[j]) < iteratee(maxItem))
  {
    if |collection| == 0 {
      return zero;
    }
    maxItem := collection[0];
    var max := iteratee(maxItem);
    ghost var at := 0;
    for i := 1 to |collection|
      invariant 0 <= at < i && collection[at] == maxItem && max == iteratee(maxItem)
      invariant forall j :: 0 <= j < i ==> iteratee(collection[j]) <= max
      invariant forall j :: 0 <= j < at ==> iteratee(collection[j]) < max
    {
      var item := collection[i];
      var value := iteratee(item);
      if value > max {
        max, maxItem, at := value, item, i;
      }
    }
  }

  // ------------------------------------------------- Every, Some, Count

  method Every<T>(collection: seq<T>, pred: T -> bool) returns (r: bool)
    ensures r <==> forall i :: 0 <= i < |collection| ==> pred(collection[i])
  {
    for i := 0 to |collection|
      invariant forall k :: 0 <= k < i ==> pred(collection[k])
    {
      if !pred(collection[i]) {
        return false;
      }
    }
    return true;
  }

  method Some<T>(collection: seq<T>, pred: T -> bool) returns (r: bool)
    ensures r <==> exists i :: 0 <= i < |collection| && pred(collection[i])
  {
    for i := 0 to |collection|
      invariant forall k :: 0 <= k < i ==> !pred(collection[k])
    {
      if pred(collection[i]) {
        return true;
      }
    }
    return false;
  }

  method Count<T>(collection: seq<T>, pred: T -> bool) returns (count: int)
    ensures count == |SelectWhere(collection, pred, true)|
  {
    count := 0;
    for i := 0 to |collection|
      invariant count == |SelectWhere(collection[..i], pred, true)|
    {
      assert collection[..i + 1] == collection[..i] + [collection[i]];
      SelectWhereSnoc(collection[..i], collection[i], pred, true);
      if pred(collection[i]) {
        count := count + 1;
      }
    }
    assert collection[..|collection|] == collection;
  }

  /** Some holds exactly when the count is positive. */
  lemma SomeIffCountPositive<T>(s: seq<T>, pred: T -> bool)
    ensures |SelectWhere(s, pred, true)| > 0 <==> exists i :: 0 <= i < |s| && pred(s[i])
  {
    var t := SelectWhere(s, pred, true);
    if |t| > 0 {
      SelectWhereMembers(s, pred, true, t[0]);
      var i :| 0 <= i < |s| && s[i] == t[0];
    }
    if exists i :: 0 <= i < |s| && pred(s[i]) {
      var i :| 0 <= i < |s| && pred(s[i]);
      SelectWhereMembers(s, pred, true, s[i]);
    }
  }

  /** Every holds exactly when every element is counted. */
  lemma {:induction false} EveryIffCountFull<T>(s: seq<T>, pred: T -> bool)
    ensures |SelectWhere(s, pred, true)| == |s| <==> forall i :: 0 <= i < |s| ==> pred(s[i])
    decreases |s|
  {
    if s != [] {
      var init, x := s[..|s| - 1], s[|s| - 1];
      var t := SelectWhere(init, pred, true);
      EveryIffCountFull(init, pred);
      SelectWherePartition(init, pred);
      assert |t| <= |init|;
      assert forall i :: 0 <= i < |init| ==> init[i] == s[i];
      if pred(x) {
        assert SelectWhere(s, pred, true) == t + [x];
      } else {
        assert SelectWhere(s, pred, true) == t;
        assert !pred(s[|s| - 1]);
      }
    }
  }

  /** Count is the length of Filter with a predicate that ignores the index. */
  lemma CountIsFilterLength<T>(s: seq<T>, pred: T -> bool)
    ensures |SelectWhere(s, pred, true)| == |Filtered(s, (x, i) => pred(x))|
  {
    FilteredIgnoringIndex(s, pred);
  }
}
