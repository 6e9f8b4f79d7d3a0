/**
 * Value-level reference semantics of condition checking: condition checkers,
 * the registry that maps a checker class to its one checker, and what running
 * a sequence of checkers against a cancellable progress monitor yields.
 * The class in module Participants is proved against these definitions.
 */
module Checkers {
  import opened Wrappers
  import opened Status

  /** The runtime class of a condition checker, as `checker.getClass()` gives it. */
  type ClassId = string

  /** A condition checker object: its class, and `id` telling apart instances of one class. */
  datatype Checker = Checker(cls: ClassId, id: nat)

  datatype CoreError =
    /** Raised by `add` when a checker of the same class is already registered. */
    | CheckerAlreadyExists(cls: ClassId)
    /** Raised by a checker's own `check`; its content is the checker's business. */
    | CheckerError(code: nat)

  /** What a checker's own `check` does: return a status or throw. */
  type CheckerBehaviour = Checker -> Result<RefactoringStatus, CoreError>

  /** How `check` ends: it returns the merged status, or throws. */
  datatype CheckOutcome =
    | Completed(status: RefactoringStatus)
    /** `OperationCanceledException`: the partial status is discarded. */
    | Canceled
    /** A checker's `CoreException`, propagated unchanged. */
    | Failed(error: CoreError)

  /** An outcome together with the number of checkers whose `check` was invoked. */
  datatype Run = Run(outcome: CheckOutcome, invoked: nat)

  type Registry = map<ClassId, Checker>

  /** The registry invariant: every checker is filed under its own class. */
  ghost predicate Keyed(m: Registry)
  {
    forall k :: k in m ==> m[k].cls == k
  }

  /** Because the registry is keyed by class, two registered checkers of one class are the same. */
  lemma AtMostOneCheckerPerClass(m: Registry, a: Checker, b: Checker)
    requires Keyed(m)
    requires a in m.Values && b in m.Values && a.cls == b.cls
    ensures a == b
  {
    var ka :| ka in m && m[ka] == a;
    var kb :| kb in m && m[kb] == b;
  }

  /** Reference meaning of `add`: the checker is filed under its class unless that class is taken. */
  function Register(m: Registry, c: Checker): (r: Result<Registry, CoreError>)
    ensures r.Success? <==> c.cls !in m
    ensures r.Success? ==> c.cls in r.value && r.value[c.cls] == c
    ensures r.Success? ==> r.value.Keys == m.Keys + {c.cls}
    ensures r.Success? ==> forall k :: k in m ==> r.value[k] == m[k]
    ensures r.Failure? ==> r.error == CheckerAlreadyExists(c.cls)
  {
    if c.cls in m then Failure(CheckerAlreadyExists(c.cls)) else Success(m[c.cls := c])
  }

  /** Registering keeps the registry keyed and grows it by exactly one entry. */
  lemma RegisterKeepsKeyed(m: Registry, c: Checker)
    requires Keyed(m)
    requires Register(m, c).Success?
    ensures Keyed(Register(m, c).value)
    ensures |Register(m, c).value| == |m| + 1
  {
  }

  /** The checkers up to this poll all returned a status and no poll reported cancellation. */
  predicate AllPass(order: seq<Checker>, run: CheckerBehaviour, cancelAt: nat -> bool, poll: nat)
  {
    forall j :: 0 <= j < |order| ==> run(order[j]).Success? && !cancelAt(poll + j)
  }

  /** One more checker that returned, with no cancellation on the poll after it, keeps `AllPass`. */
  lemma AllPassSnoc(order: seq<Checker>, c: Checker, run: CheckerBehaviour, cancelAt: nat -> bool, poll: nat)
    requires AllPass(order, run, cancelAt, poll)
    requires run(c).Success? && !cancelAt(poll + |order|)
    ensures AllPass(order + [c], run, cancelAt, poll)
  {
    assert forall j :: 0 <= j < |order| ==> (order + [c])[j] == order[j];
  }

  /**
   * `visited` lists, without repeating a class, the checkers of `m` whose
   * classes are no longer in `rest`: an iteration over `m` has produced every
   * checker filed outside `rest` exactly once.
   */
  ghost predicate Visits(m: Registry, visited: seq<Checker>, rest: set<ClassId>)
  {
    && rest <= m.Keys
    && |visited| + |rest| == |m|
    && (forall j :: 0 <= j < |visited| ==> visited[j].cls in m && m[visited[j].cls] == visited[j] && visited[j].cls !in rest)
    && (forall i, j :: 0 <= i < j < |visited| ==> visited[i].cls != visited[j].cls)
    && (forall k :: k in m && k !in rest ==> m[k] in visited)
  }

  /** `values` lists every checker of `m` exactly once, in some order: the iteration order of `m.values()`. */
  ghost predicate Enumerates(m: Registry, values: seq<Checker>)
  {
    Visits(m, values, {})
  }

  /** Nothing is visited before the iteration starts. */
  lemma VisitsNothing(m: Registry)
    ensures Visits(m, [], m.Keys)
  {
  }

  /** Visiting the checker of one more unvisited class keeps `Visits`. */
  lemma VisitsStep(m: Registry, visited: seq<Checker>, rest: set<ClassId>, k: ClassId)
    requires Keyed(m)
    requires Visits(m, visited, rest)
    requires k in rest
    ensures Visits(m, visited + [m[k]], rest - {k})
  {
    var v := visited + [m[k]];
    assert forall j :: 0 <= j < |visited| ==> v[j] == visited[j];
    assert v[|visited|] == m[k];
    forall k' | k' in m && k' !in rest - {k} ensures m[k'] in v {
      if k' != k {
        assert m[k'] in visited;
      }
    }
  }

  /** An enumeration of a keyed registry holds each registered checker once and nothing else. */
  lemma EnumerationIsExact(m: Registry, values: seq<Checker>)
    requires Keyed(m)
    requires Enumerates(m, values)
    ensures |values| == |m|
    ensures forall c :: c in values <==> c in m.Values
    ensures forall i, j :: 0 <= i < j < |values| ==> values[i] != values[j]
  {
    forall c | c in m.Values ensures c in values {
      var k :| k in m && m[k] == c;
    }
  }

  /** The status a checker's `check` contributes: what it returned, or nothing if it threw. */
  function Reported(res: Result<RefactoringStatus, CoreError>): (r: RefactoringStatus)
    ensures res.Success? ==> r == res.value
    ensures res.Failure? ==> r.entries == []
  {
    if res.Success? then res.value else Empty()
  }

  /** The merge of the statuses the checkers of `order` report, in that order. */
  function Merged(order: seq<Checker>, run: CheckerBehaviour): RefactoringStatus
  {
    if order == [] then Empty()
    else Merge(Reported(run(order[0])), Merged(order[1..], run))
  }

  /** How a run stops at a checker that threw, or after whose status a poll said "canceled". */
  function Interruption(res: Result<RefactoringStatus, CoreError>): CheckOutcome
  {
    if res.Failure? then Failed(res.error) else Canceled
  }

  /**
   * Reference meaning of `check` over the checkers in iteration order: each
   * checker runs; a throw propagates; after each returned status the monitor
   * is polled (`poll` is the number of polls made before) and a "canceled"
   * answer aborts; otherwise the statuses are merged.
   */
  function RunCheckers(order: seq<Checker>, run: CheckerBehaviour, cancelAt: nat -> bool, poll: nat): (r: Run)
    ensures 0 < |order| <==> 0 < r.invoked
    ensures r.invoked <= |order|
    ensures r.outcome.Completed? ==> r.invoked == |order|
    decreases |order|
  {
    if order == [] then Run(Completed(Empty()), 0)
    else
      match run(order[0])
      case Failure(e) => Run(Failed(e), 1)
      case Success(s) =>
        if cancelAt(poll) then Run(Canceled, 1)
        else
          var rest := RunCheckers(order[1..], run, cancelAt, poll + 1);
          Run(if rest.outcome.Completed? then Completed(Merge(s, rest.outcome.status)) else rest.outcome,
              rest.invoked + 1)
  }

  /** `AllPass` of a non-empty sequence is the head's pass together with `AllPass` of the tail. */
  lemma AllPassTail(order: seq<Checker>, run: CheckerBehaviour, cancelAt: nat -> bool, poll: nat)
    requires order != []
    ensures AllPass(order, run, cancelAt, poll) <==>
            run(order[0]).Success? && !cancelAt(poll) && AllPass(order[1..], run, cancelAt, poll + 1)
  {
    if run(order[0]).Success? && !cancelAt(poll) && AllPass(order[1..], run, cancelAt, poll + 1) {
      AllPassCons(order, run, cancelAt, poll);
    }
    if AllPass(order, run, cancelAt, poll) {
      AllPassOfTail(order, run, cancelAt, poll);
    }
  }

  lemma AllPassCons(order: seq<Checker>, run: CheckerBehaviour, cancelAt: nat -> bool, poll: nat)
    requires order != []
    requires run(order[0]).Success? && !cancelAt(poll) && AllPass(order[1..], run, cancelAt, poll + 1)
    ensures AllPass(order, run, cancelAt, poll)
  {
    forall j | 0 <= j < |order|
      ensures run(order[j]).Success? && !cancelAt(poll + j)
    {
      if j > 0 {
        assert order[j] == order[1..][j - 1];
        assert poll + j == (poll + 1) + (j - 1);
      }
    }
  }

  lemma AllPassOfTail(order: seq<Checker>, run: CheckerBehaviour, cancelAt: nat -> bool, poll: nat)
    requires order != []
    requires AllPass(order, run, cancelAt, poll)
    ensures run(order[0]).Success? && !cancelAt(poll)
    ensures AllPass(order[1..], run, cancelAt, poll + 1)
  {
    assert run(order[0]).Success? && !cancelAt(poll + 0);
    forall j | 0 <= j < |order[1..]|
      ensures run(order[1..][j]).Success? && !cancelAt((poll + 1) + j)
    {
      assert order[1..][j] == order[j + 1];
      assert (poll + 1) + j == poll + (j + 1);
    }
  }

  /** When every checker returns and no poll says "canceled", `check` returns the merge of all statuses. */
  lemma {:induction false} AllPassCompletes(order: seq<Checker>, run: CheckerBehaviour, cancelAt: nat -> bool, poll: nat)
    requires AllPass(order, run, cancelAt, poll)
    ensures RunCheckers(order, run, cancelAt, poll) == Run(Completed(Merged(order, run)), |order|)
    decreases |order|
  {
    if order != [] {
      AllPassTail(order, run, cancelAt, poll);
      AllPassCompletes(order[1..], run, cancelAt, poll + 1);
    }
  }

  /** `check` returns normally exactly when every checker returns and no poll says "canceled". */
  lemma {:induction false} CompletesIffAllPass(order: seq<Checker>, run: CheckerBehaviour, cancelAt: nat -> bool, poll: nat)
    ensures RunCheckers(order, run, cancelAt, poll).outcome.Completed? <==> AllPass(order, run, cancelAt, poll)
    decreases |order|
  {
    if order != [] {
      AllPassTail(order, run, cancelAt, poll);
      CompletesIffAllPass(order[1..], run, cancelAt, poll + 1);
    }
  }

  /**
   * Cancellation observed, or a throw, at the i-th checker (all before it having
   * passed) ends the run there: the outcome is that interruption and no checker
   * after the i-th is invoked.
   */
  lemma {:induction false} StopsAtFirstInterruption(order: seq<Checker>, run: CheckerBehaviour, cancelAt: nat -> bool, poll: nat, i: nat)
    requires i < |order|
    requires AllPass(order[..i], run, cancelAt, poll)
    requires run(order[i]).Failure? || cancelAt(poll + i)
    ensures RunCheckers(order, run, cancelAt, poll) == Run(Interruption(run(order[i])), i + 1)
    decreases i
  {
    if i > 0 {
      assert order[..i][0] == order[0];
      AllPassTail(order[..i], run, cancelAt, poll);
      assert order[..i][1..] == order[1..][..i - 1];
      assert order[1..][i - 1] == order[i];
      StopsAtFirstInterruption(order[1..], run, cancelAt, poll + 1, i - 1);
    }
  }

  /**
   * One turn of the loop in `check`: after the checkers before the i-th all
   * passed, with `acc` their merged status, invoking the i-th either ends the
   * run (a throw, or a canceled poll) or extends both the passing prefix and
   * the accumulated status by that checker.
   */
  lemma CheckStep(order: seq<Checker>, run: CheckerBehaviour, cancelAt: nat -> bool, poll: nat, i: nat, acc: RefactoringStatus)
    requires i < |order|
    requires AllPass(order[..i], run, cancelAt, poll)
    requires acc == Merged(order[..i], run)
    ensures run(order[i]).Failure? ==>
              RunCheckers(order, run, cancelAt, poll) == Run(Failed(run(order[i]).error), i + 1)
    ensures run(order[i]).Success? ==> Merge(acc, run(order[i]).value) == Merged(order[..i + 1], run)
    ensures run(order[i]).Success? && cancelAt(poll + i) ==>
              RunCheckers(order, run, cancelAt, poll) == Run(Canceled, i + 1)
    ensures run(order[i]).Success? && !cancelAt(poll + i) ==> AllPass(order[..i + 1], run, cancelAt, poll)
  {
    assert order[..i + 1] == order[..i] + [order[i]];
    MergedSnoc(order[..i], order[i], run);
    if run(order[i]).Failure? || cancelAt(poll + i) {
      StopsAtFirstInterruption(order, run, cancelAt, poll, i);
    } else {
      AllPassSnoc(order[..i], order[i], run, cancelAt, poll);
    }
  }

  /** Conversely, a run that does not complete stopped at the last checker it invoked, for that reason. */
  lemma {:induction false} InterruptedAtLastInvoked(order: seq<Checker>, run: CheckerBehaviour, cancelAt: nat -> bool, poll: nat)
    requires !RunCheckers(order, run, cancelAt, poll).outcome.Completed?
    ensures var r := RunCheckers(order, run, cancelAt, poll);
            && 0 < r.invoked <= |order|
            && AllPass(order[..r.invoked - 1], run, cancelAt, poll)
            && (run(order[r.invoked - 1]).Failure? || cancelAt(poll + r.invoked - 1))
            && r.outcome == Interruption(run(order[r.invoked - 1]))
    decreases |order|
  {
    var r := RunCheckers(order, run, cancelAt, poll);
    if run(order[0]).Success? && !cancelAt(poll) {
      var rest := RunCheckers(order[1..], run, cancelAt, poll + 1);
      InterruptedAtLastInvoked(order[1..], run, cancelAt, poll + 1);
      assert r.invoked == rest.invoked + 1;
      assert order[1..][rest.invoked - 1] == order[r.invoked - 1];
      assert order[..r.invoked - 1][1..] == order[1..][..rest.invoked - 1];
      AllPassTail(order[..r.invoked - 1], run, cancelAt, poll);
    } else {
      assert r.invoked == 1;
    }
  }

  /** Merging the statuses one after another, as `check` accumulates them, gives `Merged`. */
  lemma {:induction false} MergedSnoc(order: seq<Checker>, c: Checker, run: CheckerBehaviour)
    ensures Merged(order + [c], run) == Merge(Merged(order, run), Reported(run(c)))
    decreases |order|
  {
    if order == [] {
      assert order + [c] == [c];
      MergeMonoid(Reported(run(c)), Empty(), Empty());
    } else {
      assert (order + [c])[0] == order[0];
      assert (order + [c])[1..] == order[1..] + [c];
      MergedSnoc(order[1..], c, run);
      MergeMonoid(Reported(run(order[0])), Merged(order[1..], run), Reported(run(c)));
    }
  }

  /** The merged status holds exactly the entries of the statuses the checkers of `order` returned. */
  lemma {:induction false} MergedEntries(order: seq<Checker>, run: CheckerBehaviour, e: StatusEntry)
    ensures e in Merged(order, run).entries <==>
            exists j :: 0 <= j < |order| && run(order[j]).Success? && e in run(order[j]).value.entries
    decreases |order|
  {
    if order != [] {
      MergedEntries(order[1..], run, e);
      if exists j :: 0 <= j < |order| && run(order[j]).Success? && e in run(order[j]).value.entries {
        var j :| 0 <= j < |order| && run(order[j]).Success? && e in run(order[j]).value.entries;
        if j > 0 {
          assert order[1..][j - 1] == order[j];
        }
      }
      if exists j :: 0 <= j < |order[1..]| && run(order[1..][j]).Success? && e in run(order[1..][j]).value.entries {
        var j :| 0 <= j < |order[1..]| && run(order[1..][j]).Success? && e in run(order[1..][j]).value.entries;
        assert order[1..][j] == order[j + 1];
      }
    }
  }

  /** `AllPass` splits into "no poll said canceled" and "every checker in the sequence returned". */
  lemma AllPassSplit(order: seq<Checker>, run: CheckerBehaviour, cancelAt: nat -> bool, poll: nat)
    ensures AllPass(order, run, cancelAt, poll) <==>
            (forall p :: poll <= p < poll + |order| ==> !cancelAt(p)) &&
            (forall c :: c in order ==> run(c).Success?)
  {
    if (forall p :: poll <= p < poll + |order| ==> !cancelAt(p)) && (forall c :: c in order ==> run(c).Success?) {
      forall j | 0 <= j < |order| ensures run(order[j]).Success? && !cancelAt(poll + j) {
        assert order[j] in order;
      }
    }
    if AllPass(order, run, cancelAt, poll) {
      forall c | c in order ensures run(c).Success? {
        var j :| 0 <= j < |order| && order[j] == c;
      }
      forall p | poll <= p < poll + |order| ensures !cancelAt(p) {
        assert run(order[p - poll]).Success?;
      }
    }
  }

  /**
   * The iteration order of the registry is unspecified; two orders of the same
   * checkers agree on whether `check` completes, and on the entries of the
   * status it then returns.
   */
  lemma OutcomeIgnoresOrder(o1: seq<Checker>, o2: seq<Checker>, run: CheckerBehaviour, cancelAt: nat -> bool, poll: nat)
    requires |o1| == |o2|
    requires forall c :: c in o1 <==> c in o2
    ensures var r1, r2 := RunCheckers(o1, run, cancelAt, poll), RunCheckers(o2, run, cancelAt, poll);
            && (r1.outcome.Completed? <==> r2.outcome.Completed?)
            && (r1.outcome.Completed? ==> forall e :: e in r1.outcome.status.entries <==> e in r2.outcome.status.entries)
  {
    CompletesIffAllPass(o1, run, cancelAt, poll);
    CompletesIffAllPass(o2, run, cancelAt, poll);
    AllPassSplit(o1, run, cancelAt, poll);
    AllPassSplit(o2, run, cancelAt, poll);
    if AllPass(o1, run, cancelAt, poll) {
      AllPassCompletes(o1, run, cancelAt, poll);
      AllPassCompletes(o2, run, cancelAt, poll);
      forall e ensures e in Merged(o1, run).entries <==> e in Merged(o2, run).entries {
        MergedEntries(o1, run, e);
        MergedEntries(o2, run, e);
        if exists j :: 0 <= j < |o1| && run(o1[j]).Success? && e in run(o1[j]).value.entries {
          var j :| 0 <= j < |o1| && run(o1[j]).Success? && e in run(o1[j]).value.entries;
          assert o1[j] in o2;
          var j2 :| 0 <= j2 < |o2| && o2[j2] == o1[j];
        }
        if exists j :: 0 <= j < |o2| && run(o2[j]).Success? && e in run(o2[j]).value.entries {
          var j :| 0 <= j < |o2| && run(o2[j]).Success? && e in run(o2[j]).value.entries;
          assert o2[j] in o1;
          var j1 :| 0 <= j1 < |o1| && o1[j1] == o2[j];
        }
      }
    }
  }

  /**
   * Over a registry: `check` completes exactly when every registered checker
   * returns a status and none of the |m| polls says "canceled"; it then has
   * invoked each registered checker once, and the merged status holds exactly
   * the entries the registered checkers reported.
   */
  lemma CompletedCheckRunsEveryCheckerOnce(m: Registry, order: seq<Checker>, run: CheckerBehaviour, cancelAt: nat -> bool, poll: nat)
    requires Keyed(m)
    requires Enumerates(m, order)
    ensures var r := RunCheckers(order, run, cancelAt, poll);
            r.outcome.Completed? <==>
              (forall c :: c in m.Values ==> run(c).Success?) &&
              (forall p :: poll <= p < poll + |m| ==> !cancelAt(p))
    ensures var r := RunCheckers(order, run, cancelAt, poll);
            r.outcome.Completed? ==>
              && r.invoked == |m|
              && r.outcome.status == Merged(order, run)
              && forall e :: e in r.outcome.status.entries <==>
                               exists c :: c in m.Values && run(c).Success? && e in run(c).value.entries
  {
    EnumerationIsExact(m, order);
    CompletesIffAllPass(order, run, cancelAt, poll);
    AllPassSplit(order, run, cancelAt, poll);
    if AllPass(order, run, cancelAt, poll) {
      AllPassCompletes(order, run, cancelAt, poll);
      forall e ensures e in Merged(order, run).entries <==>
                       exists c :: c in m.Values && run(c).Success? && e in run(c).value.entries
      {
        MergedEntries(order, run, e);
        if exists c :: c in m.Values && run(c).Success? && e in run(c).value.entries {
          var c :| c in m.Values && run(c).Success? && e in run(c).value.entries;
          var j :| 0 <= j < |order| && order[j] == c;
        }
        if e in Merged(order, run).entries {
          var j :| 0 <= j < |order| && run(order[j]).Success? && e in run(order[j]).value.entries;
          assert order[j] in m.Values;
        }
      }
    }
  }

  /**
   * The registry does not fix its iteration order; any two iteration orders
   * agree on whether `check` completes, on the number of checkers it then ran,
   * and on the entries of the status it returns.
   */
  lemma CheckIgnoresIterationOrder(m: Registry, o1: seq<Checker>, o2: seq<Checker>, run: CheckerBehaviour, cancelAt: nat -> bool, poll: nat)
    requires Keyed(m)
    requires Enumerates(m, o1) && Enumerates(m, o2)
    ensures var r1, r2 := RunCheckers(o1, run, cancelAt, poll), RunCheckers(o2, run, cancelAt, poll);
            && (r1.outcome.Completed? <==> r2.outcome.Completed?)
            && (r1.outcome.Completed? ==> r1.invoked == r2.invoked)
            && (r1.outcome.Completed? ==> forall e :: e in r1.outcome.status.entries <==> e in r2.outcome.status.entries)
  {
    EnumerationIsExact(m, o1);
    EnumerationIsExact(m, o2);
    OutcomeIgnoresOrder(o1, o2, run, cancelAt, poll);
  }

  /** With no checker registered, `check` returns a fresh status and never polls, whatever the monitor says. */
  lemma EmptyRegistryCompletes(m: Registry, order: seq<Checker>, run: CheckerBehaviour, cancelAt: nat -> bool, poll: nat)
    requires Enumerates(m, order)
    requires |m| == 0
    ensures RunCheckers(order, run, cancelAt, poll) == Run(Completed(Empty()), 0)
  {
  }
}
