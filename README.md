# BasicOperation lifecycle model

A Dafny model of `BasicOperation`, a cancellable unit of asynchronous work
built on Foundation's `Operation`. An operation holds one lifecycle state
(`ready`, `executing`, `finished`, `cancelled`), starts as `ready`, and
reports three flags derived from it (`isExecuting`, `isFinished`,
`isCancelled`). Cancellation counts as finishing. Its readiness depends on its
dependency list: the list is scanned in order, and the first dependency that
is cancelled or finished decides. If no dependency has settled, the
operation's own state decides. Three mutators change the state: `start`,
`finish` and `cancel`; `cancel` also fires an optional callback. `main` does
not change the state: unless the operation is cancelled, it invokes the work
hook.

Everything is in `operations.dfy`, module `Operations`:

- `State`, with the derived flags as predicates on it.
- `ReadyFrom`: the readiness rule over the states of the dependencies, with
  lemmas that pin down its first-match behaviour.
- `Effect` and `Run`: the effect of each mutator, and of a sequence of calls,
  as values. Each value is the new state plus the events it produced, in
  order: state changes, calls of the work hook, and calls of the cancellation
  callback.
- Class `BasicOperation`. It holds the mutable `state`, the `dependencies`
  (other operations), whether a cancellation callback is registered, and a
  ghost `trace` of events. Each mutator is a method whose postcondition ties
  the new state and trace to `Effect` of the old state. `IsReady` is a method
  with the source's early-return loop, proved equal to `ReadyFrom`.

The model follows the code, which guards no transition. `finish` overwrites
`cancelled`. `cancel` overwrites `finished`. `start` moves a `finished`
operation back to `executing`, because it checks only that the operation is
not cancelled. In particular:

- Neither `finished` nor `cancelled` is terminal: `start` and `cancel` move a
  `finished` operation on, and `finish` moves a `cancelled` one to `finished`
  (`NoTerminalStates`). Only `start` and `main` skip a cancelled operation
  (`CancelledSkipsWork`).
- A cancelled dependency makes the operation not ready only when no finished
  dependency comes before it (`FinishedBeforeAnyCancelled`).
- The cancellation callback runs once per `cancel` call, not once in total
  (`CallbackOncePerCancel`).

## Model

| member | source | states |
|---|---|---|
| `Operations.BasicOperation.constructor` | BasicOperation.swift:53-55 | A fresh operation is `ready`; it is not executing, not finished and not cancelled; no callback is registered and nothing has happened yet. |
| `Operations.State.IsExecuting` | BasicOperation.swift:48 | What `isExecuting` reports for a state; the reference definition `DerivedFlags` characterises. |
| `Operations.State.IsFinished` | BasicOperation.swift:49 | What `isFinished` reports for a state (finished or cancelled); the reference definition `DerivedFlags` characterises. |
| `Operations.State.IsCancelled` | BasicOperation.swift:50 | What `isCancelled` reports for a state; the reference definition `DerivedFlags` characterises. |
| `Operations.BasicOperation.IsExecuting` | BasicOperation.swift:48 | The operation's `isExecuting`, read from its `state`. |
| `Operations.BasicOperation.IsFinished` | BasicOperation.swift:49 | The operation's `isFinished`, read from its `state`. |
| `Operations.BasicOperation.IsCancelled` | BasicOperation.swift:50 | The operation's `isCancelled`, read from its `state`. |
| `Operations.DerivedFlags` | BasicOperation.swift:48-50 | `isExecuting` holds exactly in `executing`. `isFinished` holds exactly in `finished` or `cancelled`, so `isCancelled` implies `isFinished`. `ready` is the state in which neither `isExecuting` nor `isFinished` holds. |
| `Operations.FlagsDetermineState` | BasicOperation.swift:48-50 | Two states with the same three flags are equal, so observers can tell cancelled from finished. |
| `Operations.ReadyFrom` | BasicOperation.swift:37-46 | The readiness rule over the dependencies' states and the own state; the reference definition that `IsReady` is proved equal to and that the lemmas below characterise on every list. |
| `Operations.ReadyWithoutDependencies` | BasicOperation.swift:37-46 | With no dependencies, readiness is exactly `state == ready`. |
| `Operations.ReadyDecidedByFirstSettled` | BasicOperation.swift:37-45 | When dependency `k` is the first that is finished or cancelled, the operation is ready if and only if that dependency is finished, whatever its own state. |
| `Operations.ReadyWhenNoneSettled` | BasicOperation.swift:37-46 | When no dependency is finished or cancelled, the operation is ready if and only if its own state is `ready`. |
| `Operations.SettledCases` | BasicOperation.swift:38-46 | Every dependency list either has no settled dependency or has a first one, so the two lemmas above decide readiness for every input. |
| `Operations.LaterDependenciesIgnored` | BasicOperation.swift:38-44 | Dependencies after the first settled one are never consulted: replacing them with any other list leaves readiness unchanged. |
| `Operations.FinishedBeforeAnyCancelled` | BasicOperation.swift:38-44 | For any list and any own state: a finished dependency with no cancelled dependency before it makes the operation ready ("any", not "all"). |
| `Operations.CancelledFirstDependencyBlocks` | BasicOperation.swift:38-41 | For any list and any own state: a cancelled first dependency makes the operation not ready, whatever follows it. |
| `Operations.AnyFinishedDependencySuffices` | BasicOperation.swift:37-46 | Concrete witnesses that "all finished" is not required: ready with a later dependency cancelled or not yet run and the own state not `ready`; not ready with a cancelled first dependency although a later one finished. |
| `Operations.BasicOperation.IsReady` | BasicOperation.swift:37-47 | The early-return scan over the dependency objects returns exactly `ReadyFrom` of their states and the operation's own state. |
| `Operations.BasicOperation.SetState` | BasicOperation.swift:58-71 | The setter stores the new state and records one state change; the dependencies and the callback are unchanged. |
| `Operations.BasicOperation.Start` | BasicOperation.swift:81-86 | The new state and the events are those of `Effect` for a start call: nothing on a cancelled operation, otherwise `executing` followed by one call of the hook. |
| `Operations.BasicOperation.RunMain` | BasicOperation.swift:88-92 | `main`: invokes the hook once unless cancelled; the state is unchanged. |
| `Operations.BasicOperation.Execute` | BasicOperation.swift:94-96 | The overridable work hook: records one invocation and changes nothing else. |
| `Operations.BasicOperation.Finish` | BasicOperation.swift:98-100 | The state becomes `finished` from any prior state; only one state change is recorded. |
| `Operations.BasicOperation.Cancel` | BasicOperation.swift:102-108 | The state becomes `cancelled` from any prior state. Then a registered callback is invoked once. The dependencies are untouched. |
| `Operations.Effect` | BasicOperation.swift:81-108 | The new state and the ordered events of one start, main, finish or cancel call; the reference definition the mutators' contracts are tied to and the lemmas below characterise. |
| `Operations.StartEffect` | BasicOperation.swift:81-92 | Start on a cancelled operation leaves it cancelled and does not invoke the hook. On any other operation, including a finished one, the state becomes `executing` first and the hook is then invoked exactly once. |
| `Operations.FinishAndCancelEffect` | BasicOperation.swift:98-108 | Finish always yields `finished` and cancel always yields `cancelled`. Cancel's first event is the state change, and a registered callback runs exactly once per call. |
| `Operations.NoTerminalStates` | BasicOperation.swift:81-108 | Start takes `finished` to `executing`, cancel takes `finished` to `cancelled`, and finish takes `cancelled` to `finished`. |
| `Operations.LastCallWins` | BasicOperation.swift:98-108 | After any sequence of calls ending in finish (or cancel), the state is `finished` (or `cancelled`). |
| `Operations.CallbackOncePerCancel` | BasicOperation.swift:102-108 | Over any sequence of calls, the callback runs as many times as cancel was called if one is registered, and never otherwise. |
| `Operations.CancelledSkipsWork` | BasicOperation.swift:81-92 | On a cancelled operation, any sequence of start and main calls changes nothing and never invokes the hook. |

## Left out

- Locking: `NSLock.critical` (NSLock+Operations.swift) and the lock in the `state` accessor. The model is sequential, so the getter is a field read and the setter a field write. Torn reads and concurrent `cancel` calls are not modelled.
- Property-change notification: `automaticallyNotifiesObservers`, the `keyPathsForValuesAffecting*` class methods, the key-path set, and `willChangeValue`/`didChangeValue`. These are runtime observer plumbing. The ghost `trace` records each state change once in their place.
- `super.cancel()` and everything inherited from Foundation's `Operation`. These are foreign calls whose effect is not visible. This includes `addDependency`, so the dependency list is given to the constructor and not changed afterwards.
- Dependencies that are Foundation operations of other classes: every dependency is a `BasicOperation`.
- `isAsynchronous`: a constant `true` flag read by an external scheduler.
- The base `execute` body's abort for a missing override: `Execute` stands for the override a concrete operation supplies. The work it does, typically ending in `finish`, is not modelled; only its invocation is recorded. So `Start` leaves the model `executing`, whereas a real override that calls `finish` leaves the operation `finished` when `start` returns.
- The cancellation callback's own effects: only its invocation is recorded, and a registered callback is a boolean flag.
