/** The sequential helpers of util.go: the Must family and Validate (a value
    and error pair becomes an `Outcome`), pointers as `Option`, Coalesce,
    the Optional wrapper with IfThen and IfF, the SwitchCase chain, the
    Throttle gate over an abstract integer clock, Times and Repeat. */
module Util {
  import opened Seqs
  import Condition

  /** A Go pointer or error: `None` is nil. */
  datatype Option<T> = None | Some(value: T)

  /** A non-nil Go error, carrying its message. */
  datatype Error = Error(message: string)

  /** The two ways a Must call ends: it returns its value(s), or it panics with the error. */
  datatype Outcome<T> = Returned(value: T) | Panicked(error: Error)

  // ------------------------------------------------- Must and Validate

  function Must<T>(val: T, err: Option<Error>): (r: Outcome<T>)
    ensures err.None? <==> r == Returned(val)
    ensures err.Some? ==> r == Panicked(err.value)
  {
    match err
    case None => Returned(val)
    case Some(e) => Panicked(e)
  }

  function Must0(err: Option<Error>): (r: Outcome<()>)
    ensures err.None? <==> r.Returned?
    ensures err.Some? ==> r == Panicked(err.value)
  {
    match err
    case None => Returned(())
    case Some(e) => Panicked(e)
  }

  function Must2<T, R>(val1: T, val2: R, err: Option<Error>): (r: Outcome<(T, R)>)
    ensures err.None? <==> r == Returned((val1, val2))
    ensures err.Some? ==> r == Panicked(err.value)
  {
    match err
    case None => Returned((val1, val2))
    case Some(e) => Panicked(e)
  }

  function Must3<T, R, S>(val1: T, val2: R, val3: S, err: Option<Error>): (r: Outcome<(T, R, S)>)
    ensures err.None? <==> r == Returned((val1, val2, val3))
    ensures err.Some? ==> r == Panicked(err.value)
  {
    match err
    case None => Returned((val1, val2, val3))
    case Some(e) => Panicked(e)
  }

  /** Validate yields no error exactly when `ok` holds; the error carries the
      format string (formatting of the arguments is not modelled). */
  function Validate(ok: bool, format: string): (r: Option<Error>)
    ensures r.None? <==> ok
    ensures !ok ==> r == Some(Error(format))
  {
    if ok then None else Some(Error(format))
  }

  /** Must0 of Validate returns normally exactly when the condition holds,
      and every arity of Must panics with the same error. */
  lemma MustValidate<T, R>(ok: bool, format: string, a: T, b: R)
    ensures Must0(Validate(ok, format)).Returned? <==> ok
    ensures !ok ==> Must(a, Validate(ok, format)) == Panicked(Error(format))
    ensures !ok ==> Must2(a, b, Validate(ok, format)) == Panicked(Error(format))
  {
  }

  // --------------------------------------------------- FromPtr, FromPtrOr

  /** The pointed-to value, or Go's zero value for nil. */
  function FromPtr<T>(x: Option<T>, zero: T): (r: T)
    ensures x.Some? ==> r == x.value
    ensures x.None? ==> r == zero
  {
    match x
    case None => zero
    case Some(v) => v
  }

  function FromPtrOr<T>(x: Option<T>, fallback: T): (r: T)
    ensures x.Some? ==> r == x.value
    ensures x.None? ==> r == fallback
  {
    match x
    case None => fallback
    case Some(v) => v
  }

  /** FromPtr is FromPtrOr with the zero value as fallback. */
  lemma FromPtrIsFromPtrOrZero<T>(x: Option<T>, zero: T)
    ensures FromPtr(x, zero) == FromPtrOr(x, zero)
  {
  }

  // -------------------------------------------- Coalesce, CoalesceOrEmpty

  /** The first value that differs from the zero value, with true; or the zero value with false. */
  function FirstNonZero<T(==)>(values: seq<T>, zero: T): (r: (T, bool))
    ensures r.1 <==> exists i :: 0 <= i < |values| && values[i] != zero
    ensures r.1 ==> exists i :: 0 <= i < |values| && values[i] == r.0 && r.0 != zero
                                && forall j :: 0 <= j < i ==> values[j] == zero
    ensures !r.1 ==> r.0 == zero
    decreases |values|
  {
    if values == [] then (zero, false)
    else if values[0] != zero then (values[0], true)
    else
      var r := FirstNonZero(values[1..], zero);
      assert forall i :: 1 <= i < |values| ==> values[i] == values[1..][i - 1];
      if r.1 then
        var i :| 0 <= i < |values[1..]| && values[1..][i] == r.0 && r.0 != zero
                 && forall j :: 0 <= j < i ==> values[1..][j] == zero;
        assert values[i + 1] == r.0 && forall j :: 0 <= j < i + 1 ==> values[j] == zero;
        r
      else
        r
  }

  /** When every earlier value is zero, a non-zero value is the first one. */
  lemma FirstNonZeroAt<T>(values: seq<T>, zero: T, i: int)
    requires 0 <= i < |values| && values[i] != zero
    requires forall j :: 0 <= j < i ==> values[j] == zero
    ensures FirstNonZero(values, zero) == (values[i], true)
  {
    var r := FirstNonZero(values, zero);
    var k :| 0 <= k < |values| && values[k] == r.0 && r.0 != zero
             && forall j :: 0 <= j < k ==> values[j] == zero;
  }

  method Coalesce<T(==)>(values: seq<T>, zero: T) returns (r: T, found: bool)
    ensures (r, found) == FirstNonZero(values, zero)
  {
    for i := 0 to |values|
      invariant forall j :: 0 <= j < i ==> values[j] == zero
    {
      if values[i] != zero {
        FirstNonZeroAt(values, zero, i);
        return values[i], true;
      }
    }
    return zero, false;
  }

  method CoalesceOrEmpty<T(==)>(values: seq<T>, zero: T) returns (r: T)
    ensures r == FirstNonZero(values, zero).0
  {
    for i := 0 to |values|
      invariant forall j :: 0 <= j < i ==> values[j] == zero
    {
      if values[i] != zero {
        FirstNonZeroAt(values, zero, i);
        return values[i];
      }
    }
    return zero;
  }

  // --------------------------------------------- Optional, IfThen, IfF

  /** Go's Optional: a value and whether it is present (an absent one holds the zero value). */
  datatype Optional<T> = Optional(value: T, present: bool)
  {
    function IsPresent(): (r: bool)
      ensures r <==> present
    {
      present
    }

    function IsEmpty(): (r: bool)
      ensures r <==> !IsPresent()
    {
      !present
    }

    /** The stored value, present or not. */
    function Get(): (r: T)
      ensures r == value
    {
      value
    }

    function OrElse(fallback: T): (r: T)
      ensures present ==> r == value
      ensures !present ==> r == fallback
    {
      if present then value else fallback
    }

    function OrElseF(callback: () -> T): (r: T)
      ensures r == OrElse(callback())
    {
      if present then value else callback()
    }
  }

  /** IfThen: present exactly when the condition holds, holding the callback's value. */
  function IfThen<T>(condition: bool, callback: () -> T, zero: T): (r: Optional<T>)
    ensures r.IsPresent() <==> condition
    ensures condition ==> r.Get() == callback()
    ensures !condition ==> r.Get() == zero
  {
    if condition then Optional(callback(), true) else Optional(zero, false)
  }

  /** IfF: the callback's value when the condition holds, the zero value otherwise. */
  function IfF<T>(condition: bool, callback: () -> T, zero: T): (r: T)
    ensures r == Condition.Ternary(condition, callback(), zero)
  {
    if condition then callback() else zero
  }

  /** IfThen followed by OrElse is a Ternary, and followed by Get it is IfF. */
  lemma IfThenAgrees<T>(condition: bool, callback: () -> T, fallback: T, zero: T)
    ensures IfThen(condition, callback, zero).OrElse(fallback) == Condition.Ternary(condition, callback(), fallback)
    ensures IfThen(condition, callback, zero).Get() == IfF(condition, callback, zero)
  {
  }

  // -------------------------------------------------------- SwitchCase

  /** Go's SwitchCaseStruct. The Go field `predicate` (the value switched on)
      is `subject` here. Its result and found fields are the chain state of
      Condition, and Case is ElseIf with the condition `subject == value`. */
  class SwitchCaseStruct<T(==), R> {
    const subject: T
    var result: R
    var found: bool

    function State(): Condition.Branch<R>
      reads this
    {
      Condition.Branch(result, found)
    }

    /** SwitchCase: nothing found yet; the result holds the zero value. */
    constructor SwitchCase(subject: T, zero: R)
      ensures this.subject == subject
      ensures State() == Condition.Initial(zero)
    {
      this.subject := subject;
      this.result := zero;
      this.found := false;
    }

    method Case(value: T, result: R) returns (self: SwitchCaseStruct<T, R>)
      modifies this
      ensures self == this
      ensures State() == Condition.Step(old(State()), subject == value, result)
      ensures old(found) ==> unchanged(this)
    {
      if !found && subject == value {
        this.result := result;
        this.found := true;
      }
      self := this;
    }

    method CaseF(value: T, callback: () -> R) returns (self: SwitchCaseStruct<T, R>)
      modifies this
      ensures self == this
      ensures State() == Condition.Step(old(State()), subject == value, callback())
      ensures old(found) ==> unchanged(this)
    {
      if !found && subject == value {
        this.result := callback();
        this.found := true;
      }
      self := this;
    }

    function Default(result: R): (r: R)
      reads this
      ensures r == Condition.Finish(State(), result)
    {
      if found then this.result else result
    }

    function DefaultF(callback: () -> R): (r: R)
      reads this
      ensures r == Condition.Finish(State(), callback())
    {
      if found then this.result else callback()
    }
  }

  /** The chain conditions of a list of (value, result) cases switched on `subject`. */
  function CaseBranches<T(==), R>(subject: T, cases: seq<(T, R)>): (bs: seq<(bool, R)>)
    ensures |bs| == |cases|
    ensures forall i :: 0 <= i < |cases| ==> bs[i] == (cases[i].0 == subject, cases[i].1)
  {
    seq(|cases|, i requires 0 <= i < |cases| => (cases[i].0 == subject, cases[i].1))
  }

  /** After SwitchCase and one Case per pair, something is found iff some case
      value equals the subject, and the result is that of the first such case. */
  lemma FirstMatchingCaseWins<T, R>(subject: T, cases: seq<(T, R)>, zero: R)
    ensures var s := Condition.Run(CaseBranches(subject, cases), zero);
      && (s.ok <==> exists i :: 0 <= i < |cases| && cases[i].0 == subject)
      && (s.ok ==> exists i :: 0 <= i < |cases| && cases[i].0 == subject && s.result == cases[i].1
                                  && forall j :: 0 <= j < i ==> cases[j].0 != subject)
      && (!s.ok ==> s.result == zero)
  {
    var bs := CaseBranches(subject, cases);
    Condition.FirstTrueWins(bs, zero);
    var f := Condition.FirstTrue(bs);
    if f < |cases| {
      assert cases[f].0 == subject;
    }
  }

  // ---------------------------------------------------------- Throttle

  /** The gate of a throttled function: a call at `now` fires when no call has
      fired yet, or when at least `duration` has passed since the last one. */
  predicate Fires(lastCall: Option<int>, now: int, duration: int) {
    lastCall.None? || now - lastCall.value >= duration
  }

  /** The last fired time, if any. */
  function LastOf(fired: seq<int>): Option<int> {
    if fired == [] then None else Some(fired[|fired| - 1])
  }

  /** The times, among the call times `calls`, at which the callback fires. */
  function Throttled(calls: seq<int>, duration: int): seq<int>
    decreases |calls|
  {
    if calls == [] then []
    else
      var prev := Throttled(calls[..|calls| - 1], duration);
      var now := calls[|calls| - 1];
      if Fires(LastOf(prev), now, duration) then prev + [now] else prev
  }

  /** The calls that fire are some of the calls, in order, and any two fired
      in succession are at least `duration` apart. */
  lemma {:induction false} ThrottledSpacing(calls: seq<int>, duration: int)
    ensures IsSubsequence(Throttled(calls, duration), calls)
    ensures forall i :: 0 < i < |Throttled(calls, duration)| ==>
              Throttled(calls, duration)[i] - Throttled(calls, duration)[i - 1] >= duration
    decreases |calls|
  {
    if calls != [] {
      var init, now := calls[..|calls| - 1], calls[|calls| - 1];
      var prev := Throttled(init, duration);
      ThrottledSpacing(init, duration);
      assert calls == init + [now];
      if Fires(LastOf(prev), now, duration) {
        SubsequenceSnoc(prev, init, now);
      } else {
        SubsequenceExtend(prev, init, now);
      }
    }
  }

  /** The first call always fires. */
  lemma {:induction false} ThrottledFirst(calls: seq<int>, duration: int)
    requires calls != []
    ensures Throttled(calls, duration) != [] && Throttled(calls, duration)[0] == calls[0]
    decreases |calls|
  {
    var init := calls[..|calls| - 1];
    if init != [] {
      ThrottledFirst(init, duration);
      assert init[0] == calls[0];
    }
  }

  /** A burst of calls all within `duration` of the first fires only once. */
  lemma {:induction false} ThrottledBurst(calls: seq<int>, duration: int)
    requires calls != []
    requires forall i :: 0 <= i < |calls| ==> calls[0] <= calls[i] < calls[0] + duration
    ensures Throttled(calls, duration) == [calls[0]]
    decreases |calls|
  {
    var init := calls[..|calls| - 1];
    if init != [] {
      assert init[0] == calls[0];
      ThrottledBurst(init, duration);
    }
  }

  /** Calls spaced at least `duration` apart all fire. */
  lemma {:induction false} ThrottledSpaced(calls: seq<int>, duration: int)
    requires forall i :: 0 < i < |calls| ==> calls[i] - calls[i - 1] >= duration
    ensures Throttled(calls, duration) == calls
    decreases |calls|
  {
    if calls != [] {
      var init := calls[..|calls| - 1];
      ThrottledSpaced(init, duration);
      assert calls == init + [calls[|calls| - 1]];
    }
  }

  /** The closure Throttle returns, with its captured lastCall as a field.
      Each call passes the current time; the result says whether the callback
      was invoked. `calls` and `fired` record the history for the proofs. */
  class Throttle {
    const duration: int
    var lastCall: Option<int>
    ghost var calls: seq<int>
    ghost var fired: seq<int>

    ghost predicate Valid()
      reads this
    {
      fired == Throttled(calls, duration) && lastCall == LastOf(fired)
    }

    constructor (duration: int)
      ensures Valid()
      ensures this.duration == duration && lastCall == None && calls == []
    {
      this.duration := duration;
      lastCall := None;
      calls := [];
      fired := [];
    }

    method Call(now: int) returns (invoked: bool)
      requires Valid()
      modifies this
      ensures Valid()
      ensures invoked <==> Fires(old(lastCall), now, duration)
      ensures lastCall == if invoked then Some(now) else old(lastCall)
      ensures calls == old(calls) + [now]
      ensures fired == if invoked then old(fired) + [now] else old(fired)
    {
      invoked := lastCall.None? || now - lastCall.value >= duration;
      if invoked {
        lastCall := Some(now);
        fired := fired + [now];
      }
      calls := calls + [now];
      assert calls[..|calls| - 1] == old(calls);
    }
  }

  // ------------------------------------------------------- Times, Repeat

  method Times<T>(count: int, callback: int -> T) returns (result: seq<T>)
    ensures count <= 0 ==> result == []
    ensures count > 0 ==> |result| == count
    ensures forall i :: 0 <= i < |result| ==> result[i] == callback(i)
  {
    if count <= 0 {
      return [];
    }
    result := [];
    for i := 0 to count
      invariant |result| == i
      invariant forall k :: 0 <= k < i ==> result[k] == callback(k)
    {
      result := result + [callback(i)];
    }
  }

  method Repeat<T>(count: int, initial: T) returns (result: seq<T>)
    ensures count <= 0 ==> result == []
    ensures count > 0 ==> |result| == count
    ensures forall i :: 0 <= i < |result| ==> result[i] == initial
  {
    if count <= 0 {
      return [];
    }
    result := [];
    for i := 0 to count
      invariant |result| == i
      invariant forall k :: 0 <= k < i ==> result[k] == initial
    {
      result := result + [initial];
    }
  }
}
