/**
 * CheckConditionsContext: the context shared by a refactoring processor and
 * its participants during condition checking. It holds at most one condition
 * checker per checker class and runs them all, merging their statuses.
 */
module Participants {
  import opened Wrappers
  import opened Status
  import opened Progress
  import opened Checkers

  class CheckConditionsContext {
    /** `fCheckers`: the registered checkers, keyed by their class. */
    var checkers: Registry

    /** Every checker is filed under its own class, so no class has two checkers. */
    ghost predicate Valid()
      reads this
    {
      Keyed(checkers)
    }

    /** A new context has no checkers. */
    constructor ()
      ensures Valid() && checkers == map[]
    {
      checkers := map[];
    }

    /** `getChecker(clazz)`: the checker registered for `cls`, or `None` (Java `null`) if there is none. */
    function GetChecker(cls: ClassId): (r: Option<Checker>)
      reads this
      ensures r.Some? <==> cls in checkers
      ensures r.Some? ==> r.value == checkers[cls]
      ensures Valid() && r.Some? ==> r.value.cls == cls
    {
      if cls in checkers then Some(checkers[cls]) else None
    }

    /**
     * `add(checker)`: puts the checker under its class; if that replaced a
     * checker, puts the old one back and raises an error.
     */
    method Add(checker: Checker) returns (r: Outcome<CoreError>)
      requires Valid()
      modifies this
      ensures Valid()
      ensures Register(old(checkers), checker) == if r.Pass? then Success(checkers) else Failure(r.error)
      ensures r.Pass? <==> old(GetChecker(checker.cls)).None?
      ensures GetChecker(checker.cls) == if r.Pass? then Some(checker) else old(GetChecker(checker.cls))
      ensures forall cls :: cls != checker.cls ==> GetChecker(cls) == old(GetChecker(cls))
      ensures r.Fail? ==> checkers == old(checkers)
      ensures |checkers| == if r.Pass? then old(|checkers|) + 1 else old(|checkers|)
    {
      var previous := GetChecker(checker.cls);
      checkers := checkers[checker.cls := checker];
      if previous.Some? {
        checkers := checkers[checker.cls := previous.value];
        assert checkers == old(checkers);
        return Fail(CheckerAlreadyExists(checker.cls));
      }
      return Pass;
    }

    /**
     * `fCheckers.values()` as its iterator walks it: every registered checker
     * once, in an order the map does not specify.
     */
    method Values() returns (values: seq<Checker>)
      requires Valid()
      ensures Enumerates(checkers, values)
    {
      var rest := checkers.Keys;
      values := [];
      VisitsNothing(checkers);
      while rest != {}
        invariant Visits(checkers, values, rest)
        decreases rest
      {
        var cls :| cls in rest;
        VisitsStep(checkers, values, rest, cls);
        values := values + [checkers[cls]];
        rest := rest - {cls};
      }
    }

    /**
     * `check(pm)`: begins a task of one unit per registered checker, then, in
     * the iteration order `order` of the registry, hands each checker one unit
     * and runs it, merges the status it returns and polls `pm` for
     * cancellation. A checker's exception propagates; a cancellation aborts
     * and discards the partial status.
     */
    method Check(pm: ProgressMonitor, run: CheckerBehaviour) returns (r: CheckOutcome, ghost order: seq<Checker>)
      requires Valid()
      modifies pm
      ensures Enumerates(checkers, order)
      ensures r == RunCheckers(order, run, pm.cancelAt, old(pm.polls)).outcome
      ensures pm.taskSize == |checkers|
      ensures pm.allotted == old(pm.allotted) + RunCheckers(order, run, pm.cancelAt, old(pm.polls)).invoked
      ensures pm.polls == old(pm.polls) + RunCheckers(order, run, pm.cancelAt, old(pm.polls)).invoked - if r.Failed? then 1 else 0
      ensures |checkers| == 0 ==> r == Completed(Empty()) && pm.polls == old(pm.polls)
      ensures checkers == old(checkers)
    {
      var values := Values();
      order := values;
      assert |values| == |checkers|;
      pm.BeginTask(|values|);
      r := CheckEach(values, pm, run);
    }
  }

  /**
   * The loop of `check(pm)`: runs `values` in order, handing each checker one
   * unit of `pm` before it runs and polling `pm` after each status is merged;
   * the first exception or cancellation ends the loop.
   */
  method CheckEach(values: seq<Checker>, pm: ProgressMonitor, run: CheckerBehaviour) returns (r: CheckOutcome)
    modifies pm
    ensures r == RunCheckers(values, run, pm.cancelAt, old(pm.polls)).outcome
    ensures pm.taskSize == old(pm.taskSize)
    ensures pm.allotted == old(pm.allotted) + RunCheckers(values, run, pm.cancelAt, old(pm.polls)).invoked
    ensures pm.polls == old(pm.polls) + RunCheckers(values, run, pm.cancelAt, old(pm.polls)).invoked - if r.Failed? then 1 else 0
  {
    var result := Empty();
    var i := 0;
    while i < |values|
      invariant 0 <= i <= |values|
      invariant AllPass(values[..i], run, pm.cancelAt, old(pm.polls))
      invariant result == Merged(values[..i], run)
      invariant pm.taskSize == old(pm.taskSize)
      invariant pm.allotted == old(pm.allotted) + i
      invariant pm.polls == old(pm.polls) + i
    {
      var checker := values[i];
      pm.NewSubMonitor(1);
      var status := run(checker);
      CheckStep(values, run, pm.cancelAt, old(pm.polls), i, result);
      if status.Failure? {
        return Failed(status.error);
      }
      result := Merge(result, status.value);
      var canceled := pm.IsCanceled();
      if canceled {
        return Canceled;
      }
      i := i + 1;
    }
    assert values[..i] == values;
    AllPassCompletes(values, run, pm.cancelAt, old(pm.polls));
    r := Completed(result);
  }

  /** A client: of two checkers of one class, the first is kept and adding the second fails. */
  method AddTwiceKeepsFirst(first: Checker, second: Checker) returns (r1: Outcome<CoreError>, r2: Outcome<CoreError>, kept: Option<Checker>, size: nat)
    requires first.cls == second.cls
    ensures r1 == Pass && r2 == Fail(CheckerAlreadyExists(first.cls))
    ensures kept == Some(first) && size == 1
  {
    var context := new CheckConditionsContext();
    r1 := context.Add(first);
    r2 := context.Add(second);
    kept := context.GetChecker(first.cls);
    size := |context.checkers|;
  }

  /** A client: with no checker, `check` returns a fresh status although every poll would say "canceled". */
  method CheckWithNoCheckers(run: CheckerBehaviour) returns (r: CheckOutcome)
    ensures r == Completed(Empty())
  {
    var context := new CheckConditionsContext();
    var pm := new ProgressMonitor(p => true);
    ghost var order;
    r, order := context.Check(pm, run);
  }

  /**
   * A client: two checkers of different classes that both return, and a
   * monitor canceled from the start; `check` aborts after the first checker,
   * whichever that is, and the second one is never invoked.
   */
  method CancelAfterFirstChecker(a: Checker, b: Checker) returns (r: CheckOutcome, invoked: nat)
    requires a.cls != b.cls
    ensures r == Canceled && invoked == 1
  {
    var context := new CheckConditionsContext();
    var _ := context.Add(a);
    var _ := context.Add(b);
    var pm := new ProgressMonitor(p => true);
    ghost var order;
    r, order := context.Check(pm, c => Success(Empty()));
    invoked := pm.allotted;
    assert |order| == 2;
  }
}
