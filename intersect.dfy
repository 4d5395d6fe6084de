/** intersect.go declares a second `Contains` with the same code as the one in
    slice.go. It is modelled here as a recursive function (the linear search
    read as recursion), and the loop of slice.go's version is proved to agree
    with it (`Slice.Contains`). */
module Intersect {

  /** True iff `element` occurs in `collection`; the search stops at the first match. */
  function Contains<T(==)>(collection: seq<T>, element: T): (r: bool)
    ensures r <==> exists i :: 0 <= i < |collection| && collection[i] == element
    decreases |collection|
  {
    if collection == [] then false
    else collection[0] == element || Contains(collection[1..], element)
  }

  /** A slice that contains the element still contains it after anything is appended. */
  lemma ContainsExtend<T>(s: seq<T>, t: seq<T>, element: T)
    requires Contains(s, element)
    ensures Contains(s + t, element)
  {
    var i :| 0 <= i < |s| && s[i] == element;
    assert (s + t)[i] == element;
  }
}
