/** The integer helpers of math.go: Clamp, Sum, SumBy, Abs, Range and
    RangeWithStep. Integers are unbounded here. Go's fixed width is modelled,
    with `Wrap64`, where it changes the promised result: for Abs of the most
    negative int64, as written by `AbsInt64`, and for Chunk's capacity hint
    (`Core.ChunkCapacity`). */
module IntMath {

  // ------------------------------------------------------------- Clamp

  /** Clamp for integers. When the bounds are in order the result lies between them. */
  function Clamp(value: int, min: int, max: int): (r: int)
    ensures min <= max ==> min <= r <= max
    ensures min <= value <= max ==> r == value
    ensures value < min ==> r == min
    ensures min <= value && max < value ==> r == max
  {
    if value < min then min
    else if value > max then max
    else value
  }

  /** Clamping twice is clamping once, and clamping is monotone. */
  lemma ClampIdempotentMonotone(v: int, w: int, min: int, max: int)
    requires min <= max
    ensures Clamp(Clamp(v, min, max), min, max) == Clamp(v, min, max)
    ensures v <= w ==> Clamp(v, min, max) <= Clamp(w, min, max)
  {
  }

  // -------------------------------------------------------- Sum, SumBy

  /** The sum of the elements, added left to right. */
  function SumOf(s: seq<int>): int
    decreases |s|
  {
    if s == [] then 0 else SumOf(s[..|s| - 1]) + s[|s| - 1]
  }

  /** The sum of a concatenation is the sum of the sums. */
  lemma {:induction false} SumOfAppend(a: seq<int>, b: seq<int>)
    ensures SumOf(a + b) == SumOf(a) + SumOf(b)
    decreases |b|
  {
    if b == [] {
      assert a + b == a;
    } else {
      var b' := b[..|b| - 1];
      assert (a + b)[..|a + b| - 1] == a + b';
      SumOfAppend(a, b');
    }
  }

  /** A sum of non-negative elements is non-negative and at least each element. */
  lemma {:induction false} SumOfNonNegative(s: seq<int>, i: int)
    requires forall k :: 0 <= k < |s| ==> s[k] >= 0
    requires 0 <= i < |s|
    ensures SumOf(s) >= s[i] >= 0
    decreases |s|
  {
    var init := s[..|s| - 1];
    if i < |s| - 1 {
      SumOfNonNegative(init, i);
    } else if init != [] {
      SumOfNonNegative(init, 0);
    }
  }

  method Sum(collection: seq<int>) returns (sum: int)
    ensures collection == [] ==> sum == 0
    ensures sum == SumOf(collection)
  {
    if |collection| == 0 {
      return 0;
    }
    sum := 0;
    for i := 0 to |collection|
      invariant sum == SumOf(collection[..i])
    {
      assert collection[..i + 1][..i] == collection[..i];
      sum := sum + collection[i];
    }
    assert collection[..|collection|] == collection;
  }

  /** The elements mapped through `f`. */
  function Image<T>(s: seq<T>, f: T -> int): (r: seq<int>)
    ensures |r| == |s|
    ensures forall i :: 0 <= i < |s| ==> r[i] == f(s[i])
  {
    seq(|s|, i requires 0 <= i < |s| => f(s[i]))
  }

  /** SumBy is Sum of the mapped slice. */
  method SumBy<T>(collection: seq<T>, iteratee: T -> int) returns (sum: int)
    ensures sum == SumOf(Image(collection, iteratee))
  {
    sum := 0;
    for i := 0 to |collection|
      invariant sum == SumOf(Image(collection[..i], iteratee))
    {
      assert Image(collection[..i + 1], iteratee)[..i] == Image(collection[..i], iteratee);
      sum := sum + iteratee(collection[i]);
    }
    assert collection[..|collection|] == collection;
  }

  // --------------------------------------------------------------- Abs

  /** Absolute value on unbounded integers. */
  function Abs(value: int): (r: int)
    ensures r >= 0
    ensures r == value || r == -value
  {
    if value < 0 then -value else value
  }

  const MinInt64: int := -0x8000_0000_0000_0000
  const MaxInt64: int := 0x7FFF_FFFF_FFFF_FFFF

  /** A mathematical integer reduced to Go's int64 by two's-complement wrap-around:
      the one int64 value congruent to it modulo 2^64. */
  function Wrap64(x: int): (r: int)
    ensures MinInt64 <= r <= MaxInt64
    ensures (x - r) % 0x1_0000_0000_0000_0000 == 0
    ensures MinInt64 <= x <= MaxInt64 ==> r == x
  {
    (x - MinInt64) % 0x1_0000_0000_0000_0000 + MinInt64
  }

  /** Abs as written, instantiated at int64: Go's negation wraps around. */
  function AbsInt64(value: int): (r: int)
    requires MinInt64 <= value <= MaxInt64
    ensures MinInt64 <= r <= MaxInt64
    ensures value >= 0 ==> r == value
    ensures value < 0 ==> (r + value) % 0x1_0000_0000_0000_0000 == 0
    ensures value != MinInt64 ==> r == Abs(value)
  {
    if value < 0 then Wrap64(-value) else value
  }

  /** The most negative int64 is its own negation, so its Abs stays negative. */
  lemma AbsInt64OfMinimum()
    ensures AbsInt64(MinInt64) == MinInt64 < 0
  {
    assert Wrap64(-MinInt64) == MinInt64;
  }

  // ------------------------------------------------------------- Range

  /** Range fills a fresh slice of length stop - start by index. */
  method Range(start: int, stop: int) returns (result: seq<int>)
    ensures start >= stop ==> result == []
    ensures start < stop ==> |result| == stop - start
    ensures forall i :: 0 <= i < |result| ==> result[i] == start + i
  {
    if start >= stop {
      return [];
    }
    var a := new int[stop - start];
    var i := start;
    while i < stop
      invariant start <= i <= stop
      invariant forall k :: 0 <= k < i - start ==> a[k] == start + k
    {
      a[i - start] := i;
      i := i + 1;
    }
    result := a[..];
  }

  /** The k-th term of the progression from start by step: step added k times. */
  function Term(start: int, step: int, k: nat): int
  {
    if k == 0 then start else Term(start, step, k - 1) + step
  }

  /** The closed form of a term. */
  lemma {:induction false} TermClosedForm(start: int, step: int, k: nat)
    ensures Term(start, step, k) == start + k * step
  {
    if k > 0 {
      TermClosedForm(start, step, k - 1);
      assert (k - 1) * step + step == k * step;
    }
  }

  /** Terms move strictly away from start in the direction of a non-zero step. */
  lemma {:induction false} TermMonotone(start: int, step: int, j: nat, k: nat)
    requires j < k
    ensures step > 0 ==> Term(start, step, j) < Term(start, step, k)
    ensures step < 0 ==> Term(start, step, j) > Term(start, step, k)
  {
    if j < k - 1 {
      TermMonotone(start, step, j, k - 1);
    }
  }

  /** RangeWithStep yields start, start + step, start + 2 * step, ... while
      the terms stay strictly on the near side of stop. */
  method RangeWithStep(start: int, stop: int, step: int) returns (result: seq<int>)
    ensures step == 0 || (step > 0 && start >= stop) || (step < 0 && start <= stop) ==> result == []
    ensures forall k :: 0 <= k < |result| ==> result[k] == Term(start, step, k)
    ensures step > 0 ==> (forall k :: 0 <= k < |result| ==> result[k] < stop) && Term(start, step, |result|) >= stop
    ensures step < 0 ==> (forall k :: 0 <= k < |result| ==> result[k] > stop) && Term(start, step, |result|) <= stop
  {
    if step == 0 || (step > 0 && start >= stop) || (step < 0 && start <= stop) {
      return [];
    }
    result := [];
    var i := start;
    if step > 0 {
      while i < stop
        invariant i == Term(start, step, |result|)
        invariant forall k :: 0 <= k < |result| ==> result[k] == Term(start, step, k) && result[k] < stop
        decreases stop - i
      {
        result := result + [i];
        i := i + step;
      }
    } else {
      while i > stop
        invariant i == Term(start, step, |result|)
        invariant forall k :: 0 <= k < |result| ==> result[k] == Term(start, step, k) && result[k] > stop
        decreases i - stop
      {
        result := result + [i];
        i := i + step;
      }
    }
  }
}
