/** The conditional helpers of condition.go: Ternary, TernaryF and the
    IfElse chain. The chain is a heap object whose ElseIf methods update its
    two fields in place and return the receiver; its behaviour is the pure
    step function `Step` over `Branch` values, about which the first-true-wins
    property is proved. A Go callback `func() T` is a total `() -> T`. */
module Condition {

  // ---------------------------------------------------- Ternary, TernaryF

  function Ternary<T>(condition: bool, ifOutput: T, elseOutput: T): (r: T)
    ensures condition ==> r == ifOutput
    ensures !condition ==> r == elseOutput
  {
    if condition then ifOutput else elseOutput
  }

  /** Only the callback of the taken branch supplies the result. */
  function TernaryF<T>(condition: bool, ifCallback: () -> T, elseCallback: () -> T): (r: T)
    ensures r == Ternary(condition, ifCallback(), elseCallback())
  {
    if condition then ifCallback() else elseCallback()
  }

  // ------------------------------------------------------ the chain state

  /** The two fields of an IfElse: the chosen result and whether a branch was taken. */
  datatype Branch<T> = Branch(result: T, ok: bool)

  /** The state before any branch: no result yet, holding Go's zero value. */
  function Initial<T>(zero: T): Branch<T> {
    Branch(zero, false)
  }

  /** One ElseIf: a true condition takes effect only when no branch was taken yet. */
  function Step<T>(b: Branch<T>, condition: bool, result: T): (r: Branch<T>)
    ensures b.ok ==> r == b
    ensures !b.ok && condition ==> r == Branch(result, true)
    ensures !b.ok && !condition ==> r == b
  {
    if condition && !b.ok then Branch(result, true) else b
  }

  /** Else on a chain state. */
  function Finish<T>(b: Branch<T>, fallback: T): (r: T)
    ensures b.ok ==> r == b.result
    ensures !b.ok ==> r == fallback
  {
    if b.ok then b.result else fallback
  }

  /** The state after IfValue followed by ElseIf for each further pair, in order. */
  function Run<T>(branches: seq<(bool, T)>, zero: T): Branch<T>
    decreases |branches|
  {
    if branches == [] then Initial(zero)
    else
      var last := branches[|branches| - 1];
      Step(Run(branches[..|branches| - 1], zero), last.0, last.1)
  }

  /** The index of the first branch whose condition holds, or |branches| if none does. */
  function FirstTrue<T>(branches: seq<(bool, T)>): (i: nat)
    ensures i <= |branches|
    ensures i < |branches| ==> branches[i].0
    ensures forall j :: 0 <= j < i ==> !branches[j].0
    decreases |branches|
  {
    if branches == [] then 0
    else if branches[0].0 then 0
    else 1 + FirstTrue(branches[1..])
  }

  /** The first true branch wins: the chain is Ok iff some condition held, and
      then its result is the one given with the first condition that held. */
  lemma {:induction false} FirstTrueWins<T>(branches: seq<(bool, T)>, zero: T)
    ensures Run(branches, zero).ok <==> FirstTrue(branches) < |branches|
    ensures Run(branches, zero).ok ==> Run(branches, zero).result == branches[FirstTrue(branches)].1
    ensures !Run(branches, zero).ok ==> Run(branches, zero).result == zero
    decreases |branches|
  {
    if branches != [] {
      var init := branches[..|branches| - 1];
      FirstTrueWins(init, zero);
      FirstTrueOfPrefix(branches);
    }
  }

  /** Dropping the last branch does not move a first true branch that lies before it. */
  lemma FirstTrueOfPrefix<T>(branches: seq<(bool, T)>)
    requires branches != []
    ensures var init := branches[..|branches| - 1];
      if FirstTrue(init) < |init| then FirstTrue(branches) == FirstTrue(init)
      else FirstTrue(branches) == if branches[|init|].0 then |init| else |branches|
  {
    var init := branches[..|branches| - 1];
    var i := FirstTrue(init);
    if i < |init| {
      assert branches[i] == init[i];
      FirstTrueUnique(branches, i);
    } else {
      assert forall j :: 0 <= j < |init| ==> branches[j] == init[j];
      if branches[|init|].0 {
        FirstTrueUnique(branches, |init|);
      } else {
        FirstTrueUnique(branches, |branches|);
      }
    }
  }

  /** FirstTrue is determined by its two defining properties. */
  lemma FirstTrueUnique<T>(branches: seq<(bool, T)>, i: nat)
    requires i <= |branches|
    requires i < |branches| ==> branches[i].0
    requires forall j :: 0 <= j < i ==> !branches[j].0
    ensures FirstTrue(branches) == i
  {
  }

  /** IfValue followed directly by Else is Ternary. */
  lemma TernaryIsChain<T>(condition: bool, ifOutput: T, elseOutput: T, zero: T)
    ensures Finish(Run([(condition, ifOutput)], zero), elseOutput) == Ternary(condition, ifOutput, elseOutput)
  {
    assert [(condition, ifOutput)][..0] == [];
  }

  // ----------------------------------------------------------- IfElse

  /** Go's IfElse: the chosen Result and the Ok flag, updated in place by ElseIf. */
  class IfElse<T> {
    var result: T
    var ok: bool

    function State(): Branch<T>
      reads this
    {
      Branch(result, ok)
    }

    /** IfValue: Ok is the condition; Result is the value if it holds, else the zero value. */
    constructor IfValue(condition: bool, result: T, zero: T)
      ensures ok == condition
      ensures this.result == (if condition then result else zero)
      ensures State() == Step(Initial(zero), condition, result)
    {
      if condition {
        this.result := result;
        this.ok := true;
      } else {
        this.result := zero;
        this.ok := false;
      }
    }

    /** IfFunc: as IfValue, with the result supplied by a callback. */
    constructor IfFunc(condition: bool, resultFn: () -> T, zero: T)
      ensures ok == condition
      ensures this.result == (if condition then resultFn() else zero)
      ensures State() == Step(Initial(zero), condition, resultFn())
    {
      if condition {
        this.result := resultFn();
        this.ok := true;
      } else {
        this.result := zero;
        this.ok := false;
      }
    }

    /** ElseIf: takes effect only if the condition holds and no earlier branch was taken. */
    method ElseIf(condition: bool, result: T) returns (self: IfElse<T>)
      modifies this
      ensures self == this
      ensures State() == Step(old(State()), condition, result)
      ensures old(ok) ==> unchanged(this)
    {
      if condition && !ok {
        this.result := result;
        this.ok := true;
      }
      self := this;
    }

    /** ElseIfFunc: as ElseIf, with the result supplied by a callback. */
    method ElseIfFunc(condition: bool, resultFn: () -> T) returns (self: IfElse<T>)
      modifies this
      ensures self == this
      ensures State() == Step(old(State()), condition, resultFn())
      ensures old(ok) ==> unchanged(this)
    {
      if condition && !ok {
        this.result := resultFn();
        this.ok := true;
      }
      self := this;
    }

    /** Else: Result if a branch was taken, otherwise the fallback. */
    function Else(result: T): (r: T)
      reads this
      ensures r == Finish(State(), result)
    {
      if ok then this.result else result
    }

    /** ElseFunc: Result if a branch was taken, otherwise the callback's value. */
    function ElseFunc(resultFn: () -> T): (r: T)
      reads this
      ensures r == Finish(State(), resultFn())
    {
      if ok then this.result else resultFn()
    }
  }
}
