# CheckConditionsContext, modelled in Dafny

This project models `CheckConditionsContext` from Eclipse's refactoring core
(`org.eclipse.ltk.core.refactoring.participants`). A refactoring processor
and its participants share this context while they check conditions. It
holds at most one condition checker per checker class. `check` runs all
registered checkers against one progress monitor and merges their statuses
into one `RefactoringStatus`.

Files:

- `wrappers.dfy` (module `Wrappers`): `Option` stands for a Java `null`
  result. `Result` and `Outcome` stand for a value or a thrown exception.
- `status.dfy` (module `Status`): the part of `RefactoringStatus` that `check`
  uses. A status is a list of entries. `merge` appends the other status's
  entries.
- `progress.dfy` (module `Progress`): an abstract `IProgressMonitor`. It
  records the total work announced by `beginTask`, the units handed to
  `SubProgressMonitor`s, and the number of `isCanceled` polls. The answer to
  each poll comes from an oracle `cancelAt: nat -> bool`, indexed by poll
  number.
- `checkers.dfy` (module `Checkers`): the value-level reference semantics.
  `Register` gives the meaning of `add`. `RunCheckers` gives the meaning of
  `check` over one iteration order. The lemmas state what the source
  promises about them.
- `check_conditions_context.dfy` (module `Participants`): the class
  `CheckConditionsContext`. Its field `checkers` is `fCheckers`, of type
  `map<ClassId, Checker>`. `GetChecker`, `Add` and `Check` follow the Java
  statement by statement and are proved against `Checkers`; the loop of
  `check` (lines 94-100) is the method `CheckEach`, which `Check` calls once
  it has begun the task. Three small
  client methods show what callers can deduce from those contracts.

Modelling decisions:

- A checker's class (`checker.getClass()`) is a `ClassId`. A checker is a
  value that carries its class and an instance id.
- A checker's own `check` is a foreign call. It is a parameter
  `run: Checker -> Result<RefactoringStatus, CoreError>`, so each checker
  either returns a status or throws.
- `HashMap` does not specify its iteration order. `CheckConditionsContext.Values`
  picks each next key nondeterministically. So `Check` holds for every
  iteration order, and the lemmas that compare runs are stated for any two
  orders.
- `add` does not test for the class first. It puts the new checker, and if
  that displaced one, it puts the old checker back and throws. The model
  follows that code, and proves that the map afterwards equals the map
  before. A plain "refuse if present" reading would give the same result.
- Condition checking is sometimes described as reducing the merged status to
  its worst severity. The code only calls `RefactoringStatus.merge`, whose
  source is not part of this model, so no severity rule is claimed.

## Model

| member | source | states |
|---|---|---|
| `Status.Empty` | org.eclipse.ltk.core.refactoring/src/org/eclipse/ltk/core/refactoring/participants/CheckConditionsContext.java:91 | a freshly created status has no entries |
| `Status.Merge` | org.eclipse.ltk.core.refactoring/src/org/eclipse/ltk/core/refactoring/participants/CheckConditionsContext.java:96 | merging keeps every entry of both statuses and adds no other; its length is the sum |
| `Status.MergeMonoid` | org.eclipse.ltk.core.refactoring/src/org/eclipse/ltk/core/refactoring/participants/CheckConditionsContext.java:91-96 | merge is associative and the fresh status is its identity on both sides |
| `Progress.ProgressMonitor.BeginTask` | org.eclipse.ltk.core.refactoring/src/org/eclipse/ltk/core/refactoring/participants/CheckConditionsContext.java:93 | `beginTask` records the announced total work |
| `Progress.ProgressMonitor.NewSubMonitor` | org.eclipse.ltk.core.refactoring/src/org/eclipse/ltk/core/refactoring/participants/CheckConditionsContext.java:96 | creating a sub-monitor of `ticks` units hands out exactly that many more units |
| `Progress.ProgressMonitor.IsCanceled` | org.eclipse.ltk.core.refactoring/src/org/eclipse/ltk/core/refactoring/participants/CheckConditionsContext.java:97 | a poll answers with the oracle's value for this poll's number and counts one more poll |
| `Checkers.AtMostOneCheckerPerClass` | org.eclipse.ltk.core.refactoring/src/org/eclipse/ltk/core/refactoring/participants/CheckConditionsContext.java:70 | in a registry keyed by class, two registered checkers of the same class are the same checker |
| `Checkers.Register` | org.eclipse.ltk.core.refactoring/src/org/eclipse/ltk/core/refactoring/participants/CheckConditionsContext.java:69-77 | registering succeeds iff the class is not yet registered; on success the class maps to the new checker, the key set grows by that class alone and every other entry is kept; on failure the error names the class |
| `Checkers.RegisterKeepsKeyed` | org.eclipse.ltk.core.refactoring/src/org/eclipse/ltk/core/refactoring/participants/CheckConditionsContext.java:69-72 | a successful registration keeps every checker filed under its own class and grows the registry by exactly one |
| `Checkers.RunCheckers` | org.eclipse.ltk.core.refactoring/src/org/eclipse/ltk/core/refactoring/participants/CheckConditionsContext.java:90-101 | a run invokes at least one checker iff there is one, never more than there are, and all of them when it completes |
| `Checkers.AllPassCompletes` | org.eclipse.ltk.core.refactoring/src/org/eclipse/ltk/core/refactoring/participants/CheckConditionsContext.java:94-100 | when every checker returns and no poll says canceled, `check` returns the merge of all returned statuses in iteration order, having invoked every checker |
| `Checkers.CompletesIffAllPass` | org.eclipse.ltk.core.refactoring/src/org/eclipse/ltk/core/refactoring/participants/CheckConditionsContext.java:94-100 | `check` returns normally iff every checker returns and every poll, one after each checker, says not canceled |
| `Checkers.StopsAtFirstInterruption` | org.eclipse.ltk.core.refactoring/src/org/eclipse/ltk/core/refactoring/participants/CheckConditionsContext.java:96-98 | if the i-th checker throws, or the poll after it says canceled, while all earlier ones passed, the run ends with that exception or with cancellation and exactly i+1 checkers were invoked: none after the i-th |
| `Checkers.CheckStep` | org.eclipse.ltk.core.refactoring/src/org/eclipse/ltk/core/refactoring/participants/CheckConditionsContext.java:95-98 | after a prefix that all passed, the next checker either throws and ends the run with its exception after i+1 invocations, or its status extends the merged prefix and the poll after it either cancels the run after i+1 invocations or extends the passing prefix |
| `Checkers.InterruptedAtLastInvoked` | org.eclipse.ltk.core.refactoring/src/org/eclipse/ltk/core/refactoring/participants/CheckConditionsContext.java:96-98 | conversely, a run that does not complete stopped at the last checker it invoked: all earlier ones passed, and that one threw or was followed by a canceled poll |
| `Checkers.MergedSnoc` | org.eclipse.ltk.core.refactoring/src/org/eclipse/ltk/core/refactoring/participants/CheckConditionsContext.java:91-96 | merging statuses into one accumulator, one after another as the loop does, gives the merge of all of them |
| `Checkers.MergedEntries` | org.eclipse.ltk.core.refactoring/src/org/eclipse/ltk/core/refactoring/participants/CheckConditionsContext.java:96 | the merged status holds an entry iff some checker returned a status holding it |
| `Checkers.OutcomeIgnoresOrder` | org.eclipse.ltk.core.refactoring/src/org/eclipse/ltk/core/refactoring/participants/CheckConditionsContext.java:92-100 | two orders of the same checkers agree on whether the run completes and, if so, on the entries it returns |
| `Checkers.EnumerationIsExact` | org.eclipse.ltk.core.refactoring/src/org/eclipse/ltk/core/refactoring/participants/CheckConditionsContext.java:92-93 | an iteration over a keyed registry yields each registered checker once and nothing else, so its length is the registry's size |
| `Checkers.CompletedCheckRunsEveryCheckerOnce` | org.eclipse.ltk.core.refactoring/src/org/eclipse/ltk/core/refactoring/participants/CheckConditionsContext.java:80-101 | over a registry, `check` completes iff every registered checker returns and none of the first `size` polls says canceled; it then invoked `size` checkers and the result holds exactly the entries the registered checkers reported |
| `Checkers.CheckIgnoresIterationOrder` | org.eclipse.ltk.core.refactoring/src/org/eclipse/ltk/core/refactoring/participants/CheckConditionsContext.java:92-100 | any two iteration orders of a registry agree on completion, on the number of checkers run and on the returned entries |
| `Checkers.EmptyRegistryCompletes` | org.eclipse.ltk.core.refactoring/src/org/eclipse/ltk/core/refactoring/participants/CheckConditionsContext.java:91-100 | with no checker registered, `check` returns a fresh status and invokes nothing, whatever the monitor would answer |
| `Participants.CheckConditionsContext.constructor` | org.eclipse.ltk.core.refactoring/src/org/eclipse/ltk/core/refactoring/participants/CheckConditionsContext.java:46 | a new context has no checkers and satisfies the one-checker-per-class invariant |
| `Participants.CheckConditionsContext.GetChecker` | org.eclipse.ltk.core.refactoring/src/org/eclipse/ltk/core/refactoring/participants/CheckConditionsContext.java:48-58 | returns the checker registered for the class, `None` iff none is, and under the invariant the returned checker is of the requested class |
| `Participants.CheckConditionsContext.Add` | org.eclipse.ltk.core.refactoring/src/org/eclipse/ltk/core/refactoring/participants/CheckConditionsContext.java:60-78 | the put / put-back code has the meaning of `Register`: success iff the class was free, after which `GetChecker` returns the new checker; on a duplicate it raises an error, `GetChecker` still returns the old checker and the whole map equals its pre-state; other classes never change; the invariant is kept |
| `Participants.CheckConditionsContext.Values` | org.eclipse.ltk.core.refactoring/src/org/eclipse/ltk/core/refactoring/participants/CheckConditionsContext.java:92-94 | iterating `values()` yields every registered checker exactly once, in some order |
| `Participants.CheckConditionsContext.Check` | org.eclipse.ltk.core.refactoring/src/org/eclipse/ltk/core/refactoring/participants/CheckConditionsContext.java:80-101 | for the iteration order it used, the outcome is `RunCheckers` of that order; the task size equals the number of checkers; one unit was handed out per invoked checker; one poll was made per checker that returned; with no checkers it returns a fresh status and never polls; the registry is left unchanged |
| `Participants.CheckEach` | org.eclipse.ltk.core.refactoring/src/org/eclipse/ltk/core/refactoring/participants/CheckConditionsContext.java:94-100 | run over a given order, the loop's outcome is `RunCheckers` of that order; the task size is untouched; one unit was handed out per invoked checker; one poll was made per checker that returned |
| `Participants.AddTwiceKeepsFirst` | org.eclipse.ltk.core.refactoring/src/org/eclipse/ltk/core/refactoring/participants/CheckConditionsContext.java:60-78 | adding two checkers of one class: the first succeeds, the second fails, the first is still returned and one checker is registered |
| `Participants.CheckWithNoCheckers` | org.eclipse.ltk.core.refactoring/src/org/eclipse/ltk/core/refactoring/participants/CheckConditionsContext.java:90-100 | a context with no checkers returns a fresh status even when every poll would say canceled |
| `Participants.CancelAfterFirstChecker` | org.eclipse.ltk.core.refactoring/src/org/eclipse/ltk/core/refactoring/participants/CheckConditionsContext.java:93-98 | with two checkers and a monitor canceled from the start, `check` is canceled after exactly one checker, whichever comes first |

## Left out

- `CTabFolderTest.java`, `WorkbenchPreferenceDialog.java` and `ActionBars.java` are not part of this model. They are GUI code that needs a live SWT display or the workbench.
- `RenameProcessor.java` is not part of this model. It is an empty abstract class with no behaviour.
- Status.Merge: the severity rule of `RefactoringStatus.merge` is not stated, because `RefactoringStatus` is not part of this model. The model appends the entries; its contract states membership and length. `result.merge(...)` changes the status object in place; the model replaces it with a new value.
- `IProgressMonitor` and `SubProgressMonitor` are reduced to counters plus a cancellation oracle. How a sub-monitor reports its units to the parent is not modelled. The Java `check` never calls `pm.done()`, and neither does the model.
- A checker's own `check` is the parameter `run`. In the model a checker cannot see or change the monitor. It also cannot change the context, so adding a checker during `check` is out of scope. Only checked `CoreException`s are modelled; unchecked runtime exceptions from a checker are not.
- The error raised by `add` keeps only the class it names. The plugin id, the status code and the formatted message are not modelled.
- Java `null`s are not modelled. A null checker passed to `add`, or a null monitor passed to `check`, would throw `NullPointerException`. A checker's `check` that returns a null status reaches `result.merge(null)` at CheckConditionsContext.java:96. Modelled checkers, monitors and statuses are never null.
- `HashMap` hashing is not modelled. Its iteration order is an arbitrary enumeration chosen in `CheckConditionsContext.Values`.
