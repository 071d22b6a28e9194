/** A sequential model of BasicOperation: a cancellable unit of work whose
    lifecycle is one mutable state value, with a dependency-aware readiness
    check and a cancellation callback. */
module Operations {

  /** The four lifecycle states; a fresh operation is Ready. */
  datatype State = Ready | Executing | Finished | Cancelled {

    /** What `isExecuting` reports for an operation in this state. */
    predicate IsExecuting() { this == Executing }

    /** What `isCancelled` reports for an operation in this state. */
    predicate IsCancelled() { this == Cancelled }

    /** What `isFinished` reports: cancellation counts as finishing. */
    predicate IsFinished() { this == Finished || IsCancelled() }
  }

  /** The three observable flags tell every state apart, so a cancelled
      operation is never mistaken for a finished one. */
  lemma FlagsDetermineState(s: State, t: State)
    requires s.IsExecuting() == t.IsExecuting()
    requires s.IsFinished() == t.IsFinished()
    requires s.IsCancelled() == t.IsCancelled()
    ensures s == t
  {
  }

  /** The derived flags as functions of the state, and their implications. */
  lemma DerivedFlags(s: State)
    ensures s.IsExecuting() <==> s == Executing
    ensures s.IsFinished() <==> s == Finished || s == Cancelled
    ensures s.IsCancelled() <==> s == Cancelled
    ensures s.IsCancelled() ==> s.IsFinished()
    ensures s == Ready <==> !s.IsExecuting() && !s.IsFinished()
  {
  }

  // ---------------------------------------------------------------------
  // Readiness
  // ---------------------------------------------------------------------

  /** Readiness of an operation in state `own` whose dependencies are in the
      states `deps`, read in list order: the first dependency that reports
      cancelled makes it not ready, the first that reports finished makes it
      ready, and with neither the operation's own state decides. */
  function ReadyFrom(deps: seq<State>, own: State): (r: bool)
  {
    if deps == [] then own == Ready
    else if deps[0].IsCancelled() then false
    else if deps[0].IsFinished() then true
    else ReadyFrom(deps[1..], own)
  }

  /** `k` is the first dependency that is finished or cancelled. */
  ghost predicate FirstSettledAt(deps: seq<State>, k: int)
  {
    && 0 <= k < |deps|
    && deps[k].IsFinished()
    && forall j :: 0 <= j < k ==> !deps[j].IsFinished()
  }

  /** No dependency is finished or cancelled. */
  ghost predicate NoneSettled(deps: seq<State>)
  {
    forall j :: 0 <= j < |deps| ==> !deps[j].IsFinished()
  }

  /** With no dependencies readiness is exactly `own == Ready`. */
  lemma ReadyWithoutDependencies(own: State)
    ensures ReadyFrom([], own) <==> own == Ready
  {
  }

  /** The first settled dependency decides: ready exactly when it finished
      rather than was cancelled, whatever the operation's own state. */
  lemma {:induction false} ReadyDecidedByFirstSettled(deps: seq<State>, own: State, k: int)
    requires FirstSettledAt(deps, k)
    ensures ReadyFrom(deps, own) <==> deps[k] == Finished
  {
    if k > 0 {
      assert !deps[0].IsFinished();
      ReadyDecidedByFirstSettled(deps[1..], own, k - 1);
    }
  }

  /** When no dependency has settled, only the operation's own state counts. */
  lemma {:induction false} ReadyWhenNoneSettled(deps: seq<State>, own: State)
    requires NoneSettled(deps)
    ensures ReadyFrom(deps, own) <==> own == Ready
  {
    if deps != [] {
      assert !deps[0].IsFinished();
      ReadyWhenNoneSettled(deps[1..], own);
    }
  }

  /** Either no dependency has settled or there is a first one that has, so
      the two lemmas above cover every dependency list. */
  lemma {:induction false} SettledCases(deps: seq<State>)
    ensures NoneSettled(deps) || exists k :: FirstSettledAt(deps, k)
  {
    if deps != [] && !NoneSettled(deps) {
      if deps[0].IsFinished() {
        assert FirstSettledAt(deps, 0);
      } else {
        SettledCases(deps[1..]);
        if NoneSettled(deps[1..]) {
          forall j | 0 <= j < |deps| ensures !deps[j].IsFinished() {
            if j > 0 { assert deps[j] == deps[1..][j - 1]; }
          }
          assert false;
        } else {
          var k :| FirstSettledAt(deps[1..], k);
          assert FirstSettledAt(deps, k + 1);
        }
      }
    }
  }

  /** Dependencies after the first settled one are never consulted: any
      suffix may replace them without changing readiness. */
  lemma {:induction false} LaterDependenciesIgnored(deps: seq<State>, own: State, k: int, later: seq<State>)
    requires FirstSettledAt(deps, k)
    ensures ReadyFrom(deps[..k + 1] + later, own) == ReadyFrom(deps, own)
  {
    var other := deps[..k + 1] + later;
    assert other[k] == deps[k];
    assert forall j :: 0 <= j < k ==> other[j] == deps[j];
    assert FirstSettledAt(other, k);
    ReadyDecidedByFirstSettled(other, own, k);
    ReadyDecidedByFirstSettled(deps, own, k);
  }

  /** One finished dependency is enough ("any", not "all"): a finished
      dependency with no cancelled one before it makes the operation ready,
      whatever the other dependencies and its own state. */
  lemma {:induction false} FinishedBeforeAnyCancelled(deps: seq<State>, own: State, i: int)
    requires 0 <= i < |deps| && deps[i] == Finished
    requires forall j :: 0 <= j < i ==> !deps[j].IsCancelled()
    ensures ReadyFrom(deps, own)
  {
    if i > 0 && !deps[0].IsFinished() {
      assert !deps[0].IsCancelled();
      FinishedBeforeAnyCancelled(deps[1..], own, i - 1);
    }
  }

  /** A cancelled first dependency makes the operation not ready, whatever
      follows it and whatever its own state. */
  lemma CancelledFirstDependencyBlocks(deps: seq<State>, own: State)
    requires deps != [] && deps[0] == Cancelled
    ensures !ReadyFrom(deps, own)
  {
  }

  /** Witnesses that readiness does not require all dependencies to have
      finished: ready with a later dependency cancelled or not yet run and
      the operation's own state not Ready; not ready with a cancelled first
      dependency although a later one finished. */
  lemma AnyFinishedDependencySuffices()
    ensures ReadyFrom([Finished, Cancelled, Ready], Cancelled)
    ensures ReadyFrom([Executing, Finished, Executing], Executing)
    ensures !ReadyFrom([Cancelled, Finished], Ready)
  {
  }

  // ---------------------------------------------------------------------
  // Transitions as values
  // ---------------------------------------------------------------------

  /** What an operation does that an observer can see, in order. */
  datatype Event =
    | StateChanged(to: State)
    | ExecuteInvoked
    | CancelledCallbackInvoked

  /** The public mutators of an operation. */
  datatype Command = StartCall | MainCall | FinishCall | CancelCall

  /** The state after one call and the events it produced, in order. */
  datatype Step = Step(next: State, events: seq<Event>)

  /** The effect of one call on an operation in state `s`; `callback` says
      whether a cancellation callback is registered. No transition is
      guarded except that start and main skip a cancelled operation. */
  function Effect(s: State, c: Command, callback: bool): (r: Step)
  {
    match c
    case StartCall =>
      if s.IsCancelled() then Step(s, [])
      else Step(Executing, [StateChanged(Executing), ExecuteInvoked])
    case MainCall =>
      if s.IsCancelled() then Step(s, []) else Step(s, [ExecuteInvoked])
    case FinishCall =>
      Step(Finished, [StateChanged(Finished)])
    case CancelCall =>
      Step(Cancelled, [StateChanged(Cancelled)] + if callback then [CancelledCallbackInvoked] else [])
  }

  /** Number of occurrences of `x` in `s`. */
  function Count<T(==)>(s: seq<T>, x: T): (r: nat)
  {
    if s == [] then 0 else (if s[0] == x then 1 else 0) + Count(s[1..], x)
  }

  lemma {:induction false} CountAppend<T>(a: seq<T>, b: seq<T>, x: T)
    ensures Count(a + b, x) == Count(a, x) + Count(b, x)
  {
    if a != [] {
      assert (a + b)[0] == a[0];
      assert (a + b)[1..] == a[1..] + b;
      CountAppend(a[1..], b, x);
    } else {
      assert a + b == b;
    }
  }

  /** Start on a cancelled operation changes nothing and never reaches the
      hook; on any other operation, finished included, it moves to Executing
      and then invokes the hook exactly once. */
  lemma StartEffect(s: State, callback: bool)
    ensures s == Cancelled ==> Effect(s, StartCall, callback) == Step(Cancelled, [])
    ensures s != Cancelled ==>
      && Effect(s, StartCall, callback).next == Executing
      && Effect(s, StartCall, callback).events[0] == StateChanged(Executing)
      && Count(Effect(s, StartCall, callback).events, ExecuteInvoked) == 1
  {
  }

  /** Finish and cancel overwrite any state, terminal ones included; cancel
      invokes a registered callback once, after the state change. */
  lemma FinishAndCancelEffect(s: State, callback: bool)
    ensures Effect(s, FinishCall, callback).next == Finished
    ensures Effect(s, CancelCall, callback).next == Cancelled
    ensures Effect(s, CancelCall, callback).events[0] == StateChanged(Cancelled)
    ensures Count(Effect(s, CancelCall, callback).events, CancelledCallbackInvoked)
            == if callback then 1 else 0
  {
    CallbacksInEffect(s, CancelCall, callback);
  }

  /** Only cancel runs the callback, and only when one is registered. */
  lemma CallbacksInEffect(s: State, c: Command, callback: bool)
    ensures Count(Effect(s, c, callback).events, CancelledCallbackInvoked)
            == if callback && c == CancelCall then 1 else 0
  {
    if c == CancelCall && callback {
      assert Effect(s, c, callback).events == [StateChanged(Cancelled), CancelledCallbackInvoked];
    }
  }

  /** Neither Finished nor Cancelled is terminal. */
  lemma NoTerminalStates(callback: bool)
    ensures Effect(Finished, StartCall, callback).next == Executing
    ensures Effect(Finished, CancelCall, callback).next == Cancelled
    ensures Effect(Cancelled, FinishCall, callback).next == Finished
  {
  }

  /** The state and the events after a sequence of calls. */
  function Run(s: State, cmds: seq<Command>, callback: bool): (r: Step)
    decreases |cmds|
  {
    if cmds == [] then Step(s, [])
    else
      var first := Effect(s, cmds[0], callback);
      var rest := Run(first.next, cmds[1..], callback);
      Step(rest.next, first.events + rest.events)
  }

  /** Running two call sequences one after the other is running their
      concatenation. */
  lemma {:induction false} RunAppend(s: State, a: seq<Command>, b: seq<Command>, callback: bool)
    ensures Run(s, a + b, callback).next == Run(Run(s, a, callback).next, b, callback).next
    ensures Run(s, a + b, callback).events
            == Run(s, a, callback).events + Run(Run(s, a, callback).next, b, callback).events
    decreases |a|
  {
    if a != [] {
      assert (a + b)[0] == a[0];
      assert (a + b)[1..] == a[1..] + b;
      RunAppend(Effect(s, a[0], callback).next, a[1..], b, callback);
    } else {
      assert a + b == b;
    }
  }

  /** The last finish or cancel decides: the state after a sequence of calls
      ending in finish is Finished, ending in cancel is Cancelled, whatever
      came before. */
  lemma {:induction false} LastCallWins(s: State, cmds: seq<Command>, c: Command, callback: bool)
    requires c == FinishCall || c == CancelCall
    ensures Run(s, cmds + [c], callback).next == (if c == FinishCall then Finished else Cancelled)
  {
    RunAppend(s, cmds, [c], callback);
  }

  /** The callback runs once per cancel call, not once in total; without a
      registered callback it never runs. */
  lemma {:induction false} CallbackOncePerCancel(s: State, cmds: seq<Command>, callback: bool)
    ensures Count(Run(s, cmds, callback).events, CancelledCallbackInvoked)
            == if callback then Count(cmds, CancelCall) else 0
    decreases |cmds|
  {
    if cmds != [] {
      var first := Effect(s, cmds[0], callback);
      var rest := Run(first.next, cmds[1..], callback);
      CallbackOncePerCancel(first.next, cmds[1..], callback);
      CountAppend(first.events, rest.events, CancelledCallbackInvoked);
      CallbacksInEffect(s, cmds[0], callback);
    }
  }

  /** Once cancelled, any number of start and main calls leave the operation
      cancelled and never invoke the hook. */
  lemma {:induction false} CancelledSkipsWork(cmds: seq<Command>, callback: bool)
    requires forall i :: 0 <= i < |cmds| ==> cmds[i] == StartCall || cmds[i] == MainCall
    ensures Run(Cancelled, cmds, callback) == Step(Cancelled, [])
  {
    if cmds != [] {
      CancelledSkipsWork(cmds[1..], callback);
    }
  }

  // ---------------------------------------------------------------------
  // The operation object
  // ---------------------------------------------------------------------

  /** The states of a list of operations, in list order. */
  function StatesOf(deps: seq<BasicOperation>): (r: seq<State>)
    reads set d | d in deps
    ensures |r| == |deps|
    ensures forall i :: 0 <= i < |deps| ==> r[i] == deps[i].state
  {
    if deps == [] then [] else [deps[0].state] + StatesOf(deps[1..])
  }

  class BasicOperation {
    /** The lifecycle state (the private backing field and its accessor). */
    var state: State
    /** The operations this one waits on, in list order. */
    var dependencies: seq<BasicOperation>
    /** Whether a cancellation callback is registered. */
    var cancelCallbackRegistered: bool
    /** Everything observable this operation did, in order. */
    ghost var trace: seq<Event>

    /** A fresh operation is Ready, reports neither executing, finished nor
        cancelled, and has done nothing yet. */
    constructor (deps: seq<BasicOperation>)
      ensures state == Ready && dependencies == deps
      ensures !IsExecuting() && !IsFinished() && !IsCancelled()
      ensures !cancelCallbackRegistered && trace == []
    {
      state := Ready;
      dependencies := deps;
      cancelCallbackRegistered := false;
      trace := [];
    }

    predicate IsExecuting()
      reads this
    {
      state.IsExecuting()
    }

    predicate IsFinished()
      reads this
    {
      state.IsFinished()
    }

    predicate IsCancelled()
      reads this
    {
      state.IsCancelled()
    }

    /** Scans the dependencies in order and stops at the first one that is
        cancelled (not ready) or finished (ready); with neither, the
        operation is ready exactly when its own state is Ready. */
    method IsReady() returns (ready: bool)
      ensures ready == ReadyFrom(StatesOf(dependencies), state)
    {
      ghost var states := StatesOf(dependencies);
      for i := 0 to |dependencies|
        invariant ReadyFrom(states, state) == ReadyFrom(states[i..], state)
      {
        assert states[i..][1..] == states[i + 1..];
        var dep := dependencies[i];
        if dep.IsCancelled() {
          return false;
        }
        if dep.IsFinished() {
          return true;
        }
      }
      return state == Ready;
    }

    /** The state setter: stores the new state and nothing else. */
    method SetState(newState: State)
      modifies this
      ensures state == newState
      ensures trace == old(trace) + [StateChanged(newState)]
      ensures dependencies == old(dependencies)
      ensures cancelCallbackRegistered == old(cancelCallbackRegistered)
    {
      state := newState;
      trace := trace + [StateChanged(newState)];
    }

    /** Unless cancelled, moves to Executing (even from Finished) and runs
        the work through main. */
    method Start()
      modifies this
      ensures state == Effect(old(state), StartCall, cancelCallbackRegistered).next
      ensures trace == old(trace) + Effect(old(state), StartCall, cancelCallbackRegistered).events
      ensures dependencies == old(dependencies)
      ensures cancelCallbackRegistered == old(cancelCallbackRegistered)
    {
      if !IsCancelled() {
        SetState(Executing);
        RunMain();
      }
    }

    /** The `main` entry point: unless cancelled, invokes the work hook. */
    method RunMain()
      modifies this
      ensures state == Effect(old(state), MainCall, cancelCallbackRegistered).next
      ensures trace == old(trace) + Effect(old(state), MainCall, cancelCallbackRegistered).events
      ensures dependencies == old(dependencies)
      ensures cancelCallbackRegistered == old(cancelCallbackRegistered)
    {
      if !IsCancelled() {
        Execute();
      }
    }

    /** The work hook a concrete operation supplies; here it only records
        that it ran. */
    method Execute()
      modifies this`trace
      ensures trace == old(trace) + [ExecuteInvoked]
    {
      trace := trace + [ExecuteInvoked];
    }

    /** Moves to Finished from any state, Cancelled included. */
    method Finish()
      modifies this
      ensures state == Effect(old(state), FinishCall, cancelCallbackRegistered).next
      ensures trace == old(trace) + Effect(old(state), FinishCall, cancelCallbackRegistered).events
      ensures dependencies == old(dependencies)
      ensures cancelCallbackRegistered == old(cancelCallbackRegistered)
    {
      SetState(Finished);
    }

    /** Moves to Cancelled from any state, Finished included, then invokes
        the registered callback, if any. */
    method Cancel()
      modifies this
      ensures state == Effect(old(state), CancelCall, cancelCallbackRegistered).next
      ensures trace == old(trace) + Effect(old(state), CancelCall, cancelCallbackRegistered).events
      ensures dependencies == old(dependencies)
      ensures cancelCallbackRegistered == old(cancelCallbackRegistered)
    {
      SetState(Cancelled);
      if cancelCallbackRegistered {
        trace := trace + [CancelledCallbackInvoked];
      }
    }
  }
}
