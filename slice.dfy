/** The slice algorithms of slice.go: membership, removal, dropping, set-like
    operations over several slices, concatenation and partition. */
module Slice {
  import opened Seqs
  import Core
  import Intersect

  // ---------------------------------------------------------- Contains

  method Contains<T(==)>(collection: seq<T>, element: T) returns (r: bool)
    ensures r <==> element in collection
    ensures r == Intersect.Contains(collection, element)
  {
    for i := 0 to |collection|
      invariant element !in collection[..i]
    {
      if collection[i] == element {
        return true;
      }
      assert collection[..i + 1] == collection[..i] + [collection[i]];
    }
    assert collection[..|collection|] == collection;
    return false;
  }

  method ContainsBy<T>(collection: seq<T>, pred: T -> bool) returns (r: bool)
    ensures r <==> exists i :: 0 <= i < |collection| && pred(collection[i])
  {
    for i := 0 to |collection|
      invariant forall k :: 0 <= k < i ==> !pred(collection[k])
    {
      if pred(collection[i]) {
        return true;
      }
    }
    return false;
  }

  // ------------------------------------------------------------ Remove

  /** `s` without its first occurrence of `e`, or `s` when `e` does not occur. */
  function RemoveFirst<T(==)>(s: seq<T>, e: T): seq<T>
    decreases |s|
  {
    if s == [] then []
    else if s[0] == e then s[1..]
    else [s[0]] + RemoveFirst(s[1..], e)
  }

  /** Removing the first occurrence at index `i`: the elements before and after it, in order. */
  lemma {:induction false} RemoveFirstAt<T>(s: seq<T>, e: T, i: int)
    requires 0 <= i < |s| && s[i] == e && e !in s[..i]
    ensures RemoveFirst(s, e) == s[..i] + s[i + 1..]
    decreases i
  {
    if i > 0 {
      assert s[1..][..i - 1] == s[1..i];
      assert s[0] in s[..i];
      RemoveFirstAt(s[1..], e, i - 1);
      assert s[1..][i..] == s[i + 1..];
      assert s[..i] == [s[0]] + s[1..i];
    }
  }

  /** An absent element leaves the slice unchanged. */
  lemma {:induction false} RemoveFirstAbsent<T>(s: seq<T>, e: T)
    requires e !in s
    ensures RemoveFirst(s, e) == s
    decreases |s|
  {
    if s != [] {
      assert s[0] in s;
      assert forall x :: x in s[1..] ==> x in s;
      RemoveFirstAbsent(s[1..], e);
    }
  }

  /** Removing a present element shortens the slice by one and takes exactly one copy of it away. */
  lemma {:induction false} RemoveFirstPresent<T>(s: seq<T>, e: T)
    requires e in s
    ensures |RemoveFirst(s, e)| == |s| - 1
    ensures multiset(RemoveFirst(s, e)) == multiset(s) - multiset{e}
    decreases |s|
  {
    if s[0] != e {
      assert s == [s[0]] + s[1..];
      RemoveFirstPresent(s[1..], e);
    } else {
      assert s == [e] + s[1..];
    }
  }

  /** Go's `append(collection[:i], collection[i+1:]...)` shifts the tail of the
      caller's backing array one place left. The result slice is
      `collection[..length]`; the last cell keeps its old value. */
  method Remove<T(==)>(collection: array<T>, element: T) returns (length: int)
    modifies collection
    ensures 0 <= length <= collection.Length
    ensures collection[..length] == RemoveFirst(old(collection[..]), element)
    ensures element !in old(collection[..]) ==> length == collection.Length && collection[..] == old(collection[..])
    ensures element in old(collection[..]) ==>
              length == collection.Length - 1 && collection[length] == old(collection[collection.Length - 1])
  {
    var n := collection.Length;
    ghost var before := collection[..];
    for i := 0 to n
      invariant element !in before[..i]
      invariant collection[..] == before
    {
      if collection[i] == element {
        var k := i;
        while k < n - 1
          invariant i <= k <= n - 1
          invariant forall m :: 0 <= m < i ==> collection[m] == before[m]
          invariant forall m :: i <= m < k ==> collection[m] == before[m + 1]
          invariant forall m :: k <= m < n ==> collection[m] == before[m]
        {
          collection[k] := collection[k + 1];
          k := k + 1;
        }
        RemoveFirstAt(before, element, i);
        assert collection[..n - 1] == before[..i] + before[i + 1..];
        assert element in before;
        return n - 1;
      }
      assert before[..i + 1] == before[..i] + [before[i]];
    }
    assert before[..n] == before;
    RemoveFirstAbsent(before, element);
    return n;
  }

  method RemoveAll<T(==)>(collection: seq<T>, element: T) returns (result: seq<T>)
    ensures result == Excluding(collection, {element})
  {
    result := [];
    for i := 0 to |collection|
      invariant result == Excluding(collection[..i], {element})
    {
      assert collection[..i + 1] == collection[..i] + [collection[i]];
      ExcludingSnoc(collection[..i], collection[i], {element});
      if collection[i] != element {
        result := result + [collection[i]];
      }
    }
    assert collection[..|collection|] == collection;
  }

  // -------------------------------------------------------------- Drop

  /** A copy of the input without its first `n` elements. */
  function Drop<T>(collection: seq<T>, n: int): (r: seq<T>)
    ensures var d := if n <= 0 then 0 else if n >= |collection| then |collection| else n;
            |r| == |collection| - d && forall i :: 0 <= i < |r| ==> r[i] == collection[d + i]
  {
    if n <= 0 then collection
    else if n >= |collection| then []
    else collection[n..]
  }

  /** A copy of the input without its last `n` elements. */
  function DropRight<T>(collection: seq<T>, n: int): (r: seq<T>)
    ensures var d := if n <= 0 then 0 else if n >= |collection| then |collection| else n;
            |r| == |collection| - d && forall i :: 0 <= i < |r| ==> r[i] == collection[i]
  {
    if n <= 0 then collection
    else if n >= |collection| then []
    else collection[..|collection| - n]
  }

  /** Dropping `a` and then `b` elements drops `a + b` elements, from either end. */
  lemma DropTwice<T>(s: seq<T>, a: nat, b: nat)
    ensures Drop(Drop(s, a), b) == Drop(s, a + b)
    ensures DropRight(DropRight(s, a), b) == DropRight(s, a + b)
  {
  }

  /** The dropped prefix and the rest make up the input again. */
  lemma DropSplits<T>(s: seq<T>, n: int)
    requires 0 <= n <= |s|
    ensures s[..n] + Drop(s, n) == s
    ensures DropRight(s, n) + s[|s| - n..] == s
  {
  }

  /** The suffix starting at the first element that fails `pred`. */
  method DropWhile<T>(collection: seq<T>, pred: T -> bool) returns (result: seq<T>)
    ensures |result| <= |collection| && result == collection[|collection| - |result|..]
    ensures forall j :: 0 <= j < |collection| - |result| ==> pred(collection[j])
    ensures result != [] ==> !pred(result[0])
  {
    var i := 0;
    while i < |collection|
      invariant 0 <= i <= |collection|
      invariant forall j :: 0 <= j < i ==> pred(collection[j])
    {
      if !pred(collection[i]) {
        break;
      }
      i := i + 1;
    }
    result := collection[i..];
  }

  /** The prefix ending at the last element that fails `pred`. */
  method DropRightWhile<T>(collection: seq<T>, pred: T -> bool) returns (result: seq<T>)
    ensures |result| <= |collection| && result == collection[..|result|]
    ensures forall j :: |result| <= j < |collection| ==> pred(collection[j])
    ensures result != [] ==> !pred(result[|result| - 1])
  {
    var i := |collection| - 1;
    while i >= 0
      invariant -1 <= i < |collection|
      invariant forall j :: i < j < |collection| ==> pred(collection[j])
    {
      if !pred(collection[i]) {
        break;
      }
      i := i - 1;
    }
    result := collection[..i + 1];
  }

  // ----------------------------------------------------------- Compact

  /** Removes every element equal to the zero value `zero` of the element type. */
  method Compact<T(==)>(collection: seq<T>, zero: T) returns (result: seq<T>)
    ensures result == Excluding(collection, {zero})
  {
    result := [];
    for i := 0 to |collection|
      invariant result == Excluding(collection[..i], {zero})
    {
      assert collection[..i + 1] == collection[..i] + [collection[i]];
      ExcludingSnoc(collection[..i], collection[i], {zero});
      if collection[i] != zero {
        result := result + [collection[i]];
      }
    }
    assert collection[..|collection|] == collection;
  }

  // ------------------------------------------------------------- Union

  method Union<T(==)>(collections: seq<seq<T>>) returns (result: seq<T>)
    ensures result == Core.DedupBy(Concatenation(collections), Identity)
  {
    var seen: set<T> := {};
    result := [];
    for i := 0 to |collections|
      invariant result == Core.DedupBy(Concatenation(collections[..i]), Identity)
      invariant seen == KeySet(Concatenation(collections[..i]), Identity)
    {
      var collection := collections[i];
      ghost var done := Concatenation(collections[..i]);
      assert done + collection[..0] == done;
      for j := 0 to |collection|
        invariant result == Core.DedupBy(done + collection[..j], Identity)
        invariant seen == KeySet(done + collection[..j], Identity)
      {
        var item := collection[j];
        assert done + collection[..j + 1] == (done + collection[..j]) + [item];
        Core.DedupBySnoc(done + collection[..j], item, Identity);
        KeySetSnoc(done + collection[..j], item, Identity);
        if item !in seen {
          seen := seen + {item};
          result := result + [item];
        }
      }
      assert collection[..|collection|] == collection;
      assert collections[..i + 1] == collections[..i] + [collection];
      ConcatenationSnoc(collections[..i], collection);
    }
    assert collections[..|collections|] == collections;
  }

  /** Union has no duplicates, holds exactly the elements of all inputs, and
      is exactly the first occurrences in the concatenated inputs, in order. */
  lemma UnionSpec<T>(collections: seq<seq<T>>)
    ensures NoDuplicates(Core.DedupBy(Concatenation(collections), Identity))
    ensures forall x :: x in Core.DedupBy(Concatenation(collections), Identity)
                        <==> exists i :: 0 <= i < |collections| && x in collections[i]
    ensures IsSubsequence(Core.DedupBy(Concatenation(collections), Identity), Concatenation(collections))
    ensures var c := Concatenation(collections);
      Core.DedupBy(c, Identity) == Core.Filtered(c, (x, i) => Core.FirstOfKey(c, Identity, i))
  {
    Core.UniqSpec(Concatenation(collections));
    forall x ensures x in Concatenation(collections) <==> exists i :: 0 <= i < |collections| && x in collections[i] {
      ConcatenationMembers(collections, x);
    }
  }

  // ------------------------------------------------------ Intersection

  /** The number of slices in `cs` that contain `x`. */
  function Occurrences<T(==)>(cs: seq<seq<T>>, x: T): nat
    decreases |cs|
  {
    if cs == [] then 0 else Occurrences(cs[..|cs| - 1], x) + (if x in cs[|cs| - 1] then 1 else 0)
  }

  /** `x` is counted once per slice, so it reaches the number of slices iff every slice contains it. */
  lemma {:induction false} OccurrencesAll<T>(cs: seq<seq<T>>, x: T)
    ensures Occurrences(cs, x) <= |cs|
    ensures Occurrences(cs, x) == |cs| <==> forall i :: 0 <= i < |cs| ==> x in cs[i]
    decreases |cs|
  {
    if cs != [] {
      var init := cs[..|cs| - 1];
      OccurrencesAll(init, x);
      assert forall i :: 0 <= i < |init| ==> init[i] == cs[i];
    }
  }

  /** Go's `counts[item]`: zero for a missing key. */
  function CountIn<T>(counts: map<T, int>, x: T): int {
    if x in counts then counts[x] else 0
  }

  /** The result order comes from iterating a Go map and is left unspecified. */
  method Intersection<T(==)>(collections: seq<seq<T>>) returns (result: seq<T>)
    ensures |collections| == 0 ==> result == []
    ensures |collections| == 1 ==> result == Core.DedupBy(collections[0], Identity)
    ensures NoDuplicates(result)
    ensures forall x :: x in result <==>
              |collections| > 0 && forall i :: 0 <= i < |collections| ==> x in collections[i]
  {
    if |collections| == 0 {
      return [];
    }
    if |collections| == 1 {
      result := Core.Uniq(collections[0]);
      Core.UniqSpec(collections[0]);
      return;
    }
    var counts: map<T, int> := map[];
    for i := 0 to |collections|
      invariant forall x :: CountIn(counts, x) == Occurrences(collections[..i], x)
    {
      var collection := collections[i];
      var seen: set<T> := {};
      for j := 0 to |collection|
        invariant seen == set x | x in collection[..j]
        invariant forall x :: CountIn(counts, x) == Occurrences(collections[..i], x) + (if x in seen then 1 else 0)
      {
        var item := collection[j];
        assert collection[..j + 1] == collection[..j] + [item];
        if item !in seen {
          seen := seen + {item};
          counts := counts[item := CountIn(counts, item) + 1];
        }
      }
      assert collection[..|collection|] == collection;
      assert collections[..i + 1][..i] == collections[..i];
    }
    assert collections[..|collections|] == collections;
    result := [];
    var rest := counts.Keys;
    while rest != {}
      invariant rest <= counts.Keys
      invariant NoDuplicates(result)
      invariant forall x :: x in result <==> x in counts && x !in rest && counts[x] == |collections|
      decreases rest
    {
      var item :| item in rest;
      if counts[item] == |collections| {
        result := result + [item];
      }
      rest := rest - {item};
    }
    forall x ensures x in result <==> forall i :: 0 <= i < |collections| ==> x in collections[i] {
      OccurrencesAll(collections, x);
    }
  }

  // -------------------------------------------------------- Difference

  /** The elements of the first slice that occur in none of the others. */
  method Difference<T(==)>(collection: seq<T>, others: seq<seq<T>>) returns (result: seq<T>)
    ensures result == Excluding(collection, set x | x in Concatenation(others))
  {
    var excluded: set<T> := {};
    for i := 0 to |others|
      invariant excluded == set x | x in Concatenation(others[..i])
    {
      var other := others[i];
      ghost var done := Concatenation(others[..i]);
      for j := 0 to |other|
        invariant excluded == set x | x in done + other[..j]
      {
        assert done + other[..j + 1] == (done + other[..j]) + [other[j]];
        excluded := excluded + {other[j]};
      }
      assert other[..|other|] == other;
      assert others[..i + 1] == others[..i] + [other];
      ConcatenationSnoc(others[..i], other);
    }
    assert others[..|others|] == others;
    result := [];
    for i := 0 to |collection|
      invariant result == Excluding(collection[..i], excluded)
    {
      assert collection[..i + 1] == collection[..i] + [collection[i]];
      ExcludingSnoc(collection[..i], collection[i], excluded);
      if collection[i] !in excluded {
        result := result + [collection[i]];
      }
    }
    assert collection[..|collection|] == collection;
  }

  // ------------------------------------------------------------ Concat

  method Concat<T>(collections: seq<seq<T>>) returns (result: seq<T>)
    ensures result == Concatenation(collections)
    ensures |result| == TotalLength(collections)
  {
    var totalLen := 0;
    for i := 0 to |collections|
      invariant totalLen == TotalLength(collections[..i])
    {
      assert collections[..i + 1][..i] == collections[..i];
      totalLen := totalLen + |collections[i]|;
    }
    result := [];
    for i := 0 to |collections|
      invariant result == Concatenation(collections[..i])
    {
      assert collections[..i + 1][..i] == collections[..i];
      result := result + collections[i];
    }
    assert collections[..|collections|] == collections;
    ConcatenationLength(collections);
  }

  // ----------------------------------------------------------- Without

  method Without<T(==)>(collection: seq<T>, exclude: seq<T>) returns (result: seq<T>)
    ensures result == Excluding(collection, set x | x in exclude)
  {
    var excludeSet: set<T> := {};
    for i := 0 to |exclude|
      invariant excludeSet == set x | x in exclude[..i]
    {
      assert exclude[..i + 1] == exclude[..i] + [exclude[i]];
      excludeSet := excludeSet + {exclude[i]};
    }
    assert exclude[..|exclude|] == exclude;
    result := [];
    for i := 0 to |collection|
      invariant result == Excluding(collection[..i], excludeSet)
    {
      assert collection[..i + 1] == collection[..i] + [collection[i]];
      ExcludingSnoc(collection[..i], collection[i], excludeSet);
      if collection[i] !in excludeSet {
        result := result + [collection[i]];
      }
    }
    assert collection[..|collection|] == collection;
  }

  // --------------------------------------------------------- Partition

  method Partition<T>(collection: seq<T>, pred: T -> bool) returns (truthy: seq<T>, falsy: seq<T>)
    ensures truthy == SelectWhere(collection, pred, true)
    ensures falsy == SelectWhere(collection, pred, false)
  {
    truthy, falsy := [], [];
    for i := 0 to |collection|
      invariant truthy == SelectWhere(collection[..i], pred, true)
      invariant falsy == SelectWhere(collection[..i], pred, false)
    {
      var item := collection[i];
      assert collection[..i + 1] == collection[..i] + [item];
      SelectWhereSnoc(collection[..i], item, pred, true);
      SelectWhereSnoc(collection[..i], item, pred, false);
      if pred(item) {
        truthy := truthy + [item];
      } else {
        falsy := falsy + [item];
      }
    }
    assert collection[..|collection|] == collection;
  }
}
