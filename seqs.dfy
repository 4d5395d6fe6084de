/** Sequence vocabulary shared by the slice and map models: subsequences,
    duplicate-freedom, concatenation of a list of slices, and selection of the
    elements that satisfy an element predicate. */
module Seqs {

  /** The identity key, so that de-duplication by value is de-duplication by key. */
  function Identity<T>(x: T): T { x }

  ghost predicate NoDuplicates<T>(s: seq<T>) {
    forall i, j :: 0 <= i < j < |s| ==> s[i] != s[j]
  }

  /** `a` can be obtained from `b` by deleting elements (matched greedily from the end). */
  predicate IsSubsequence<T(==)>(a: seq<T>, b: seq<T>)
    decreases |b|
  {
    if a == [] then true
    else if b == [] then false
    else if a[|a| - 1] == b[|b| - 1] then IsSubsequence(a[..|a| - 1], b[..|b| - 1])
    else IsSubsequence(a, b[..|b| - 1])
  }

  lemma {:induction false} SubsequenceExtend<T>(a: seq<T>, b: seq<T>, x: T)
    requires IsSubsequence(a, b)
    ensures IsSubsequence(a, b + [x])
    decreases |b|, 1
  {
    var b' := b + [x];
    assert b'[..|b'| - 1] == b;
    if a != [] && a[|a| - 1] == x {
      SubsequenceDropLast(a, b);
    }
  }

  lemma {:induction false} SubsequenceDropLast<T>(a: seq<T>, b: seq<T>)
    requires a != [] && IsSubsequence(a, b)
    ensures IsSubsequence(a[..|a| - 1], b)
    decreases |b|, 0
  {
    var a', b' := a[..|a| - 1], b[..|b| - 1];
    assert b == b' + [b[|b| - 1]];
    if a[|a| - 1] == b[|b| - 1] {
      SubsequenceExtend(a', b', b[|b| - 1]);
    } else {
      SubsequenceDropLast(a, b');
      SubsequenceExtend(a', b', b[|b| - 1]);
    }
  }

  lemma SubsequenceSnoc<T>(a: seq<T>, b: seq<T>, x: T)
    requires IsSubsequence(a, b)
    ensures IsSubsequence(a + [x], b + [x])
  {
    assert (a + [x])[..|a|] == a;
    assert (b + [x])[..|b|] == b;
  }

  /** Every element of a subsequence is an element of the sequence. */
  lemma {:induction false} SubsequenceMembers<T>(a: seq<T>, b: seq<T>, x: T)
    requires IsSubsequence(a, b) && x in a
    ensures x in b
    decreases |b|
  {
    var b' := b[..|b| - 1];
    assert b == b' + [b[|b| - 1]];
    if a[|a| - 1] == b[|b| - 1] {
      var a' := a[..|a| - 1];
      assert a == a' + [a[|a| - 1]];
      if x != a[|a| - 1] {
        SubsequenceMembers(a', b', x);
      }
    } else {
      SubsequenceMembers(a, b', x);
    }
  }

  /** The concatenation of a list of slices, in list order. */
  function Concatenation<T>(ss: seq<seq<T>>): seq<T>
    decreases |ss|
  {
    if ss == [] then [] else Concatenation(ss[..|ss| - 1]) + ss[|ss| - 1]
  }

  lemma ConcatenationSnoc<T>(ss: seq<seq<T>>, s: seq<T>)
    ensures Concatenation(ss + [s]) == Concatenation(ss) + s
  {
    assert (ss + [s])[..|ss|] == ss;
  }

  /** The sum of the lengths of a list of slices. */
  function TotalLength<T>(ss: seq<seq<T>>): nat
    decreases |ss|
  {
    if ss == [] then 0 else TotalLength(ss[..|ss| - 1]) + |ss[|ss| - 1]|
  }

  lemma {:induction false} ConcatenationLength<T>(ss: seq<seq<T>>)
    ensures |Concatenation(ss)| == TotalLength(ss)
    decreases |ss|
  {
    if ss != [] {
      ConcatenationLength(ss[..|ss| - 1]);
    }
  }

  lemma {:induction false} ConcatenationMembers<T>(ss: seq<seq<T>>, x: T)
    ensures x in Concatenation(ss) <==> exists i :: 0 <= i < |ss| && x in ss[i]
    decreases |ss|
  {
    if ss != [] {
      var init := ss[..|ss| - 1];
      ConcatenationMembers(init, x);
      if x in Concatenation(init) {
        var i :| 0 <= i < |init| && x in init[i];
        assert ss[i] == init[i];
      }
      if exists i :: 0 <= i < |ss| && x in ss[i] {
        var i :| 0 <= i < |ss| && x in ss[i];
        if i < |init| {
          assert init[i] == ss[i];
        }
      }
    }
  }

  /** The elements `x` of `s` with `p(x) == want`, in their order in `s`. */
  function SelectWhere<T>(s: seq<T>, p: T -> bool, want: bool): seq<T>
    decreases |s|
  {
    if s == [] then []
    else SelectWhere(s[..|s| - 1], p, want) + (if p(s[|s| - 1]) == want then [s[|s| - 1]] else [])
  }

  lemma SelectWhereSnoc<T>(s: seq<T>, x: T, p: T -> bool, want: bool)
    ensures SelectWhere(s + [x], p, want)
         == SelectWhere(s, p, want) + (if p(x) == want then [x] else [])
  {
    assert (s + [x])[..|s|] == s;
  }

  /** Selection keeps every occurrence of a wanted value and none of the others. */
  lemma {:induction false} SelectWhereCount<T>(s: seq<T>, p: T -> bool, want: bool, v: T)
    ensures multiset(SelectWhere(s, p, want))[v] == if p(v) == want then multiset(s)[v] else 0
    decreases |s|
  {
    if s != [] {
      var init := s[..|s| - 1];
      SelectWhereCount(init, p, want, v);
      assert s == init + [s[|s| - 1]];
    }
  }

  lemma SelectWhereMembers<T>(s: seq<T>, p: T -> bool, want: bool, x: T)
    ensures x in SelectWhere(s, p, want) <==> x in s && p(x) == want
  {
    SelectWhereCount(s, p, want, x);
  }

  lemma {:induction false} SelectWhereSubsequence<T>(s: seq<T>, p: T -> bool, want: bool)
    ensures IsSubsequence(SelectWhere(s, p, want), s)
    decreases |s|
  {
    if s != [] {
      var init, x := s[..|s| - 1], s[|s| - 1];
      var sel := SelectWhere(init, p, want);
      SelectWhereSubsequence(init, p, want);
      assert s == init + [x];
      if p(x) == want {
        assert SelectWhere(s, p, want) == sel + [x];
        SubsequenceSnoc(sel, init, x);
      } else {
        assert SelectWhere(s, p, want) == sel;
        SubsequenceExtend(sel, init, x);
      }
    }
  }

  /** Selecting the wanted and the unwanted elements splits `s` into two parts
      that together are a permutation of it. */
  lemma {:induction false} SelectWherePartition<T>(s: seq<T>, p: T -> bool)
    ensures multiset(SelectWhere(s, p, true)) + multiset(SelectWhere(s, p, false)) == multiset(s)
    ensures |SelectWhere(s, p, true)| + |SelectWhere(s, p, false)| == |s|
    decreases |s|
  {
    if s != [] {
      var init, x := s[..|s| - 1], s[|s| - 1];
      SelectWherePartition(init, p);
      assert s == init + [x];
      var t, f := SelectWhere(init, p, true), SelectWhere(init, p, false);
      if p(x) {
        assert SelectWhere(s, p, true) == t + [x];
        assert SelectWhere(s, p, false) == f;
      } else {
        assert SelectWhere(s, p, true) == t;
        assert SelectWhere(s, p, false) == f + [x];
      }
    }
  }

  /** The elements of `s` that are not in `xs`, in their order in `s`. */
  function Excluding<T(==)>(s: seq<T>, xs: set<T>): seq<T> {
    SelectWhere(s, x => x in xs, false)
  }

  /** Exclusion keeps exactly the occurrences of the values outside `xs`, in order. */
  lemma ExcludingSpec<T>(s: seq<T>, xs: set<T>)
    ensures IsSubsequence(Excluding(s, xs), s)
    ensures forall v :: multiset(Excluding(s, xs))[v] == if v in xs then 0 else multiset(s)[v]
    ensures forall x :: x in Excluding(s, xs) <==> x in s && x !in xs
  {
    SelectWhereSubsequence(s, x => x in xs, false);
    forall v ensures multiset(Excluding(s, xs))[v] == if v in xs then 0 else multiset(s)[v] {
      SelectWhereCount(s, x => x in xs, false, v);
    }
  }

  lemma ExcludingSnoc<T>(s: seq<T>, x: T, xs: set<T>)
    ensures Excluding(s + [x], xs) == Excluding(s, xs) + (if x in xs then [] else [x])
  {
    SelectWhereSnoc(s, x, y => y in xs, false);
  }

  /** The set of keys of the elements of `s`. */
  function KeySet<T(==), U>(s: seq<T>, key: T -> U): set<U> {
    set x | x in s :: key(x)
  }

  lemma KeySetSnoc<T, U>(s: seq<T>, x: T, key: T -> U)
    ensures KeySet(s + [x], key) == KeySet(s, key) + {key(x)}
  {
  }
}
