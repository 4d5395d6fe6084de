# sugar — a verified model of the sequential helpers

`sugar` is a Go helper library of generic functions over slices and maps, with
integer helpers, conditional helpers and small state containers. This Dafny
project models its deterministic, sequential core and proves the properties
those helpers promise:

- `Core` (core.go): Map, Filter, Reduce, Find/FindIndex/FindLast/FindLastIndex,
  Uniq/UniqBy, GroupBy, Chunk, the in-place Reverse, Flatten, Min/Max/MinBy/MaxBy,
  Every/Some/Count.
- `Slice` (slice.go): Contains/ContainsBy, Remove (on the caller's array),
  RemoveAll, Drop/DropRight/DropWhile/DropRightWhile, Compact, Union,
  Intersection, Difference, Concat, Without, Partition.
- `Intersect` (intersect.go): the package's second `Contains`. It is a recursive
  function, and `Slice.Contains` is proved to agree with it.
- `Maps` (map.go): Keys, Values, Entries/FromEntries, the Pick/Omit families,
  Invert, Assign, MapKeys/MapValues, HasKey/HasValue.
- `IntMath` (math.go): Clamp, Sum/SumBy, Abs, Range, RangeWithStep.
- `Condition` (condition.go): Ternary/TernaryF and the `IfElse` chain.
- `Util` (util.go): the Must family, Validate, FromPtr/FromPtrOr, Coalesce,
  Optional with IfThen/IfF, the SwitchCase chain, the Throttle gate, Times, Repeat.
- `Seqs`: the vocabulary the others share. It defines subsequences,
  duplicate-freedom, concatenation of slices, and selection of elements by a
  predicate.

These Go constructs are modelled as follows:

- Go's zero value of a type parameter is an explicit `zero` argument.
- A callback is a total Dafny function value (`T -> bool`, `(T, int) -> R`,
  `() -> T`).
- A nil-able pointer or error is `Util.Option`.
- A call that may panic returns `Util.Outcome`, which is either `Returned` or
  `Panicked`.
- Ranging over a Go map picks an arbitrary unvisited key (`var k :| k in rest`).
  So results built in map order are specified without an order: as sets and
  multisets.
- Loops stay loops.
  - Each looping Go function is a Dafny `method`.
  - Each method is proved against a recursive specification function (`Filtered`,
    `DedupBy`, `SelectWhere`, `Collected`, `Merged`, `Term`, `Throttled`, …), or
    its result is stated outright.
  - Lemmas state the promised properties of those specification functions.
- `IfElse`, `SwitchCaseStruct` and the Throttle closure update state in place,
  so they are classes.
  - Each class's methods are tied to a pure step function (`Condition.Step`,
    `Util.Fires`).
  - The first-match-wins properties are proved over those step functions.
- `Reverse` swaps cells of an `array`. `Remove` shifts the caller's array in
  place, as Go's `append(collection[:i], collection[i+1:]...)` does, and
  returns the new length.

## Model

| member | source | states |
|---|---|---|
| Core.Map | core.go:10-18 | same length as the input; `result[i] == iteratee(collection[i], i)` |
| Core.Filter | core.go:21-31 | the result is `Filtered`: the in-order selection of elements whose (item, index) satisfies the predicate |
| Core.FilteredMembers | core.go:21-31 | x is in Filter's result iff some index holds x and satisfies the predicate |
| Core.FilteredSubsequence | core.go:21-31 | Filter's result is a subsequence of the input |
| Core.FilteredLength | core.go:21-31 | Filter's length is the number of satisfying indices |
| Core.FilteredAgree | core.go:21-31 | two predicates that agree on every (item, index) filter alike |
| Core.FilteredIgnoringIndex | core.go:21-31 | filtering with an index-blind predicate is element selection |
| Core.Reduce | core.go:35-41 | the result is the left fold `Folded` of the accumulator from the initial value, with indices |
| Core.FoldedAppend | core.go:35-41 | reducing a concatenation is reducing the second part from the first part's result, with shifted indices |
| Core.Find | core.go:44-53 | found iff some element satisfies the predicate; the item is then the first such element; otherwise the zero value |
| Core.FindIndex | core.go:56-64 | -1 iff no element satisfies the predicate; otherwise the smallest satisfying index |
| Core.FindLast | core.go:67-78 | found iff some element satisfies the predicate; the item is then the last such element; otherwise the zero value |
| Core.FindLastIndex | core.go:81-91 | -1 iff no element satisfies the predicate; otherwise the largest satisfying index |
| Core.UniqBy | core.go:109-122 | the result is `DedupBy`: an element is kept iff no earlier element has the same key |
| Core.DedupByKeys | core.go:109-122 | UniqBy keeps the input's set of keys |
| Core.DedupByDistinct | core.go:109-122 | no two kept elements share a key |
| Core.DedupByFirstOccurrences | core.go:94-122 | the kept elements are exactly the first occurrences of each key, in input order |
| Core.Uniq | core.go:94-106 | Uniq is de-duplication by the element itself |
| Core.UniqSpec | core.go:94-106 | Uniq's result has no duplicates, has the same members as the input, is a subsequence of it, and equals the input filtered to each element's first occurrence, so its order is first-occurrence order |
| Core.GroupBy | core.go:125-134 | keys are exactly the iteratee's values; each group is `Group`, the in-order elements with that key |
| Core.GroupSpec | core.go:125-134 | a group is a subsequence holding every occurrence of the values with its key and nothing else; it is non-empty iff its key occurs |
| Core.Chunk | core.go:137-153 | empty when size <= 0; otherwise the chunks concatenate to the input, each has length in 1..size, and all but the last have length size |
| Core.GoDiv | core.go:142-142 | Go's truncating division by a positive divisor: the quotient times the divisor lies within one divisor of the dividend, on the dividend's side of zero |
| Core.ChunkCapacity | core.go:142-142 | the `make` capacity hint in int64: without overflow it is the number of chunks (the least r with length <= r * size); on overflow it is never positive |
| Core.ChunkCapacityOverflows | core.go:142-142 | for two elements and size MaxInt64 the hint is -1, a capacity `make` rejects |
| Core.Reverse | core.go:156-166 | in place: the array becomes `Reversed` of its old contents, and the same array is returned |
| Core.ReversedIndex | core.go:156-166 | `Reversed(s)[k] == s[len-1-k]` |
| Core.ReversedLength | core.go:156-166 | reversal keeps the length |
| Core.ReversedPermutation | core.go:156-166 | reversal keeps the multiset of elements |
| Core.ReversedTwice | core.go:156-166 | reversing twice restores the input |
| Core.Flatten | core.go:169-181 | the result is the concatenation of the slices, and its length is the sum of their lengths |
| Core.Min | core.go:228-245 | 0 (the zero value) on empty input; otherwise an element that is <= every element |
| Core.Max | core.go:248-265 | 0 (the zero value) on empty input; otherwise an element that is >= every element |
| Core.MinBy | core.go:268-289 | the zero value on empty input; otherwise the first element whose key is minimal |
| Core.MaxBy | core.go:292-313 | the zero value on empty input; otherwise the first element whose key is maximal |
| Core.Every | core.go:316-324 | true iff every element satisfies the predicate |
| Core.Some | core.go:327-335 | true iff some element satisfies the predicate |
| Core.Count | core.go:338-347 | the count is the length of the selection of satisfying elements |
| Core.SomeIffCountPositive | core.go:327-347 | Some holds iff Count > 0 |
| Core.EveryIffCountFull | core.go:316-324 | Every holds iff Count equals the length |
| Core.CountIsFilterLength | core.go:338-347 | Count equals the length of Filter with the same (index-blind) predicate |
| Intersect.Contains | intersect.go:3-10 | true iff some element equals the target; false on the empty slice |
| Intersect.ContainsExtend | intersect.go:3-10 | Contains is monotone under appending |
| Slice.Contains | slice.go:4-11 | true iff the element occurs; agrees with `Intersect.Contains` on every input |
| Slice.ContainsBy | slice.go:14-21 | true iff some element satisfies the predicate |
| Slice.Remove | slice.go:24-31 | the new prefix is `RemoveFirst` of the old contents; if absent, the length and contents are unchanged; if present, the length drops by one |
| Slice.RemoveFirstAt | slice.go:24-31 | removing the first occurrence at i leaves `s[..i] + s[i+1..]`, so the other elements keep their order |
| Slice.RemoveFirstAbsent | slice.go:24-31 | removing an absent element changes nothing |
| Slice.RemoveFirstPresent | slice.go:24-31 | removing a present element shortens by one and removes exactly one occurrence from the multiset |
| Slice.RemoveAll | slice.go:34-42 | the result is the in-order selection of elements different from the target |
| Seqs.ExcludingSpec | slice.go:34-42 | exclusion is a subsequence keeping every occurrence of the values outside the excluded set and no others |
| Slice.Drop | slice.go:45-55 | a copy of the input when n <= 0, empty when n >= len, otherwise `collection[n:]` |
| Slice.DropRight | slice.go:58-68 | a copy of the input when n <= 0, empty when n >= len, otherwise `collection[:len-n]` |
| Slice.DropTwice | slice.go:45-68 | dropping a then b equals dropping a + b (both ends) |
| Slice.DropSplits | slice.go:45-68 | the dropped prefix (or suffix) and the result recompose the input |
| Slice.DropWhile | slice.go:71-81 | the result is the suffix starting at the first element that fails the predicate |
| Slice.DropRightWhile | slice.go:84-94 | the result is the prefix ending at the last element that fails the predicate |
| Slice.Compact | slice.go:97-108 | the result is the in-order selection of the non-zero elements |
| Slice.Union | slice.go:111-125 | the result is `DedupBy` (by identity) of the concatenated inputs |
| Slice.UnionSpec | slice.go:111-125 | Union has no duplicates; its members are those of any input; it is a subsequence of the concatenation and equals the concatenation filtered to each element's first occurrence, so its order is first-occurrence order |
| Slice.OccurrencesAll | slice.go:138-154 | the number of slices holding x is at most their count, and equals it iff every slice holds x |
| Slice.Intersection | slice.go:128-158 | empty for no slices; Uniq for one; otherwise no duplicates and x is present iff every slice holds x |
| Slice.Difference | slice.go:161-178 | the in-order selection of the elements that occur in none of the other slices |
| Slice.Concat | slice.go:181-193 | the concatenation of the slices; its length is the sum of their lengths |
| Slice.Without | slice.go:196-210 | the in-order selection of the elements not in the exclusion list |
| Slice.Partition | slice.go:213-226 | truthy holds the satisfying elements in order, falsy the others in order |
| Seqs.SelectWherePartition | slice.go:213-226 | Partition's outputs together are a permutation of the input, and their lengths sum to its length |
| Maps.Keys | map.go:4-12 | length is the map size, no duplicates, and the members are exactly the domain |
| Maps.Values | map.go:15-23 | length is the map size; each value occurs once per key that maps to it; the members are exactly the range |
| Maps.PickBy | map.go:26-36 | exactly the entries whose (key, value) satisfies the predicate, with values unchanged |
| Maps.OmitBy | map.go:65-75 | exactly the entries whose (key, value) fails the predicate, with values unchanged |
| Maps.PickOmitSplit | map.go:26-75 | PickBy and OmitBy with one predicate have disjoint domains whose union is the input domain, and together they rebuild the map |
| Maps.PickByKeys | map.go:39-49 | the entries whose key is in the key list |
| Maps.OmitByKeys | map.go:78-88 | the entries whose key is not in the key list |
| Maps.KeysSplit | map.go:39-88 | PickByKeys' domain is the input domain intersected with the key list; OmitByKeys' domain is the rest; together they rebuild the map |
| Maps.PickByValues | map.go:52-62 | the entries whose value is in the value list |
| Maps.OmitByValues | map.go:91-101 | the entries whose value is not in the value list |
| Maps.ValuesSplit | map.go:52-101 | PickByValues and OmitByValues split the map; the picked values all lie in the list and the omitted ones outside it |
| Maps.Entries | map.go:104-112 | the result lists every entry of the map exactly once, in some order |
| Maps.FromEntries | map.go:115-123 | the result is `Collected`: the entries written into a map from left to right |
| Maps.CollectedKeys | map.go:115-123 | FromEntries' domain is the set of keys in the list |
| Maps.CollectedLast | map.go:115-123 | each key maps to the value of its last entry in the list |
| Maps.EntriesRoundTrip | map.go:104-123 | FromEntries of any listing Entries may return reproduces the map |
| Maps.Invert | map.go:126-134 | the result's domain is the input's range, and each value maps back to some key holding it |
| Maps.InvertTwice | map.go:126-134 | for an injective map, inverting twice gives back the map |
| Maps.Assign | map.go:137-152 | the result is `Merged`: the maps merged left to right |
| Maps.MergedKeys | map.go:137-152 | Assign's domain is the union of the input domains |
| Maps.MergedRightmost | map.go:137-152 | for each key, the right-most map containing it supplies the value |
| Maps.MapKeys | map.go:155-163 | the domain is the image of the iteratee; each new key carries the value of some old key mapped to it |
| Maps.MapValues | map.go:166-174 | keeps the domain, with `result[k] == iteratee(k, m[k])` |
| Maps.HasKey | map.go:177-180 | true iff the key is in the domain |
| Maps.HasValue | map.go:183-190 | true iff the value is in the range |
| IntMath.Clamp | math.go:10-18 | within [min, max] when min <= max; the value itself when already in range; min below it, max above it |
| IntMath.ClampIdempotentMonotone | math.go:10-18 | clamping twice equals clamping once, and clamping is monotone |
| IntMath.Sum | math.go:21-30 | 0 on an empty slice; equals `SumOf`, the recursive sum of the elements |
| IntMath.SumOfAppend | math.go:21-30 | the sum of a concatenation is the sum of the sums |
| IntMath.SumOfNonNegative | math.go:21-30 | a sum of non-negative elements is at least each element |
| IntMath.SumBy | math.go:33-39 | SumBy is the sum of the mapped slice |
| IntMath.Image | math.go:33-39 | the mapped slice has the input's length and holds `f(s[i])` at i |
| IntMath.Abs | math.go:42-47 | non-negative and equal to value or -value (unbounded integers) |
| IntMath.AbsInt64 | math.go:42-47 | Abs at int64 with wrapping negation: stays in range, returns a non-negative value unchanged, negates a negative one modulo 2^64, and agrees with `Abs` except at MinInt64 |
| IntMath.AbsInt64OfMinimum | math.go:42-47 | at int64, Abs(MinInt64) is MinInt64, which is negative |
| IntMath.Wrap64 | math.go:42-47 | int64 two's-complement reduction: the result is in range and congruent to the input modulo 2^64, and int64 values are unchanged |
| IntMath.Range | math.go:50-60 | empty when start >= stop; otherwise length stop - start and `result[i] == start + i` |
| IntMath.RangeWithStep | math.go:63-79 | empty when step is 0 or points away from stop; otherwise the terms of the progression from start by step, each on the near side of stop, and the next term would reach or pass stop |
| IntMath.TermClosedForm | math.go:63-79 | the k-th term is `start + k * step`, so consecutive elements differ by exactly step |
| IntMath.TermMonotone | math.go:63-79 | terms move strictly in the direction of step |
| Condition.Ternary | condition.go:4-9 | ifOutput when the condition holds, elseOutput otherwise |
| Condition.TernaryF | condition.go:12-17 | the taken callback's value, as Ternary of the two callbacks' values |
| Condition.Step | condition.go:46-61 | ElseIf's effect: once Ok the state never changes; otherwise a true condition sets the result and Ok |
| Condition.Finish | condition.go:64-77 | Else's value: the result when Ok, otherwise the fallback |
| Condition.FirstTrue | condition.go:46-61 | the index of the first true condition, or the length when there is none |
| Condition.FirstTrueWins | condition.go:26-61 | after IfValue and a run of ElseIfs, Ok holds iff some condition held, and the result is that of the first true one; otherwise the zero value |
| Condition.TernaryIsChain | condition.go:4-69 | IfValue(c, a).Else(b) equals Ternary(c, a, b) |
| Condition.IfElse.IfValue | condition.go:26-33 | Ok equals the condition; Result is the given value if it holds, else the zero value |
| Condition.IfElse.IfFunc | condition.go:36-43 | as IfValue, with the callback's value |
| Condition.IfElse.ElseIf | condition.go:46-52 | the new state is `Step` of the old one; an Ok chain is left unchanged |
| Condition.IfElse.ElseIfFunc | condition.go:55-61 | the new state is `Step` of the old one with the callback's value; an Ok chain is left unchanged |
| Condition.IfElse.Else | condition.go:64-69 | Result when Ok, otherwise the fallback |
| Condition.IfElse.ElseFunc | condition.go:72-77 | Result when Ok, otherwise the callback's value |
| Util.Must | util.go:10-15 | returns the value unchanged iff the error is nil; otherwise panics with that error |
| Util.Must0 | util.go:18-22 | returns normally iff the error is nil; otherwise panics with that error |
| Util.Must2 | util.go:30-35 | returns both values unchanged iff the error is nil; otherwise panics with that error |
| Util.Must3 | util.go:38-43 | returns all three values unchanged iff the error is nil; otherwise panics with that error |
| Util.Validate | util.go:140-145 | no error iff ok holds; otherwise an error carrying the format |
| Util.MustValidate | util.go:140-145 | Must0 of Validate returns iff ok; Must and Must2 of a failed Validate both panic with its error |
| Util.FromPtr | util.go:154-160 | the pointed-to value, or the zero value for nil |
| Util.FromPtrOr | util.go:163-168 | the pointed-to value, or the fallback for nil |
| Util.FromPtrIsFromPtrOrZero | util.go:154-168 | FromPtr is FromPtrOr with the zero value as fallback |
| Util.FirstNonZero | util.go:187-210 | found iff some value is non-zero, and then the first non-zero value; otherwise the zero value |
| Util.FirstNonZeroAt | util.go:187-210 | a non-zero value preceded only by zero values is the one found |
| Util.CoalesceOrEmpty | util.go:187-197 | the first non-zero value, or the zero value |
| Util.Coalesce | util.go:200-210 | the first non-zero value with true, or (zero, false) |
| Util.IfThen | util.go:213-218 | present iff the condition holds, holding the callback's value; otherwise holding the zero value |
| Util.IfF | util.go:221-227 | the callback's value when the condition holds, else the zero value |
| Util.IfThenAgrees | util.go:213-227 | IfThen followed by OrElse is Ternary; followed by Get it is IfF |
| Util.Optional.IsPresent | util.go:326-328 | true iff a value is present |
| Util.Optional.IsEmpty | util.go:331-333 | the negation of IsPresent |
| Util.Optional.Get | util.go:336-338 | the stored value, whether or not present |
| Util.Optional.OrElse | util.go:341-346 | the stored value iff present, else the fallback |
| Util.Optional.OrElseF | util.go:349-354 | OrElse with the callback's value as fallback |
| Util.SwitchCaseStruct.SwitchCase | util.go:230-237 | records the value switched on; nothing found, and the result holds the zero value |
| Util.SwitchCaseStruct.Case | util.go:364-370 | the new state is `Condition.Step` with condition `subject == value`; once found, nothing changes |
| Util.SwitchCaseStruct.CaseF | util.go:373-379 | as Case, with the callback's value |
| Util.SwitchCaseStruct.Default | util.go:382-387 | the found result, or else the fallback |
| Util.SwitchCaseStruct.DefaultF | util.go:390-395 | the found result, or else the callback's value |
| Util.CaseBranches | util.go:364-370 | a case list read as chain conditions `value == subject` |
| Util.FirstMatchingCaseWins | util.go:364-395 | after a run of Cases, found holds iff some case value equals the subject, and the result is that of the first such case; later cases have no effect |
| Util.Throttle.constructor | util.go:282-283 | a fresh gate with no call fired yet |
| Util.Throttle.Call | util.go:284-290 | fires iff no call fired before or `now - lastCall >= duration`; lastCall moves to now only when it fires; the fired history stays `Throttled` of the calls |
| Util.ThrottledSpacing | util.go:284-290 | the fired calls are a subsequence of the calls, and successive fired times are at least duration apart |
| Util.ThrottledFirst | util.go:283-287 | the first call always fires |
| Util.ThrottledBurst | util.go:284-290 | calls that all fall within duration of the first fire only once |
| Util.ThrottledSpaced | util.go:284-290 | calls spaced at least duration apart all fire |
| Util.Times | util.go:294-304 | empty for count <= 0; otherwise length count with `result[i] == callback(i)` |
| Util.Repeat | util.go:307-317 | empty for count <= 0; otherwise length count with every element equal to initial |

## Left out

- concurrency.go and ring_buffer.go: goroutines, channels, `select` and locks have no sequential counterpart.
- util.go AsyncRun, AsyncErr, DebounceFunc, WaitFor, WaitForWithContext: they depend on goroutines, timers, tickers and contexts.
- util.go TryFunc, Try1, Try2, TryOr, TryOr1, TryOr2, TryCatch, TryCatchWithErrorValue: their behaviour rests on panic and recover interception.
- util.go ToPtr, IsNil, IsNotNil: they rest on Go pointer identity and interface-nil semantics.
- util.go Empty: it returns Go's zero value. The model passes that value explicitly as `zero`, so Empty would be the identity.
- util.go Must1: an alias of Must (util.go:25-27), so it is modelled by `Util.Must`.
- core.go Shuffle, Sample, SampleSize: they depend on `math/rand`.
- math.go Mean, Median, Pow, Sqrt, Ceil, Floor, Round, Trunc, IsNaN, IsInf: they are float64 numerics.
- The float instantiations of Sum and SumBy: float64 numerics.
- message.go, mediator.go, adapter.go, proxy.go, creational.go, decorate.go: singletons, clocks, channels and forwarding wrappers, with no logic of their own to verify.
- Util.Throttle.Call: Go reads the clock inside the closure; here the time is a parameter.
- Util.Throttle.Call: Go's first call subtracts the zero time.Time, and `time.Time.Sub` saturates that difference at the largest Duration, which is at least every duration, so Go's first call always fires. The model's "no call yet" always fires too, so the two agree exactly.
- Util.Throttle.Call: the callback's arguments and side effects are not modelled; `invoked` says whether it would run.
- IntMath.Sum, IntMath.SumBy, IntMath.Range, IntMath.RangeWithStep: integers are unbounded. Go's int wrap-around on overflow is not modelled for them; it is modelled only for Abs, in `IntMath.AbsInt64`, and for Chunk's capacity hint, in `Core.ChunkCapacity`.
- IntMath.Clamp, Core.Min, Core.Max, Core.MinBy, Core.MaxBy: Go allows any ordered type, including strings and floats. The model uses `int`.
- Condition.TernaryF: callbacks are pure functions. How many times Go invokes a callback, and in what order, is not observable. So "TernaryF calls exactly one callback" is stated only as a property of the returned value.
- Util.Validate: the error carries the format string. `fmt.Errorf` formatting of the arguments is not modelled.
- Maps.Keys, Maps.Values, Maps.Entries, Slice.Intersection: their order comes from Go map iteration and is unspecified. The model states their contents only.
- Maps.Invert, Maps.MapKeys: when several keys collide, which one wins depends on map order. The model states only that some colliding key wins.
- Maps.Assign: the size pre-computation (map.go:138-143) is only a capacity hint and is not modelled.
- Core.Chunk: each Go chunk is a view `collection[i:end]` (core.go:149) into the input's backing array, so appending to one chunk overwrites the next chunk and the input. The model returns independent sequences; this sharing is not modelled.
- Core.Chunk: the model is the intended behaviour. The `make` panic of the as-written capacity hint on int64 overflow is modelled separately by `Core.ChunkCapacity` (see Findings).
- Slice.Drop, Slice.DropRight: Go's `append([]T(nil), ...)` returns a nil slice for an empty result, while other helpers return a non-nil empty slice. The model does not distinguish nil from empty slices; both are `[]`.
- Slice.Remove: Go's `append` shifts the tail within the caller's backing array. The model does the same on an `array` and returns the new length rather than a re-sliced header.

## Findings

| source | as written | input that shows it | evidently intended | confidence | as-written member | corrected member |
|---|---|---|---|---|---|---|
| math.go:42-47 | `Abs` negates a negative value in the operand's own signed type, so at int64 the negation of the most negative value wraps back to itself | `Abs(int64(math.MinInt64))` returns -9223372036854775808 | a non-negative absolute value | high, by two's-complement arithmetic; not executed | IntMath.AbsInt64 (with IntMath.AbsInt64OfMinimum) | IntMath.Abs |
| core.go:142-142 | the capacity hint `(len(collection)+size-1)/size` is computed in int64, so when len+size-1 exceeds MaxInt64 the numerator wraps to a negative value; for some sizes near MaxInt64 the truncated hint is then negative and `make` panics (for other overflowing sizes it truncates to 0 and Chunk still works) | `Chunk([]int{1, 2}, math.MaxInt)`: the numerator wraps to -9223372036854775808, the hint is -1, and `make` panics | `[[1, 2]]`, one chunk holding both elements | high, by two's-complement arithmetic; not executed | Core.ChunkCapacity (with Core.ChunkCapacityOverflows) | Core.Chunk |
