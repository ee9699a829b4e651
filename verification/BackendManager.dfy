/** The manager object: one method per stretch of code between two awaits. */
module BackendManager {
  import opened Vault
  import opened BackendLifecycle

  class BackendManager {
    var activeBackend: Option<nat>
    var nextInstance: nat
    var made: nat
    var activations: seq<Activation>
    var calls: seq<Call>
    var closed: bool
    var disposal: Option<Disposal>

    /** The machine's state: backends are counted as they are made. */
    function S(): State
      reads this
    {
      State(closed, activeBackend, made, activations, calls, disposal)
    }

    constructor ()
      ensures Inv(S()) && S() == INIT && nextInstance == 1
    {
      activeBackend, nextInstance, made, activations, calls, closed, disposal := None, 1, 0, [], [], false, None;
    }

    method SetPhase(i: nat, phase: Phase)
      requires i < |activations|
      modifies this`activations
      ensures activations == old(activations)[i := old(activations)[i].(phase := phase)]
    {
      activations := activations[i := activations[i].(phase := phase)];
    }

    /** backend.dispose() is called; its promise settles later. */
    method CallDispose(backend: nat, owner: Option<nat>) returns (call: nat)
      modifies this`calls
      ensures calls == old(calls) + [Call(backend, owner, None)] && call == |old(calls)|
    {
      call := |calls|;
      calls := calls + [Call(backend, owner, None)];
    }

    /** activate up to its first await. A closed manager rejects at once. */
    method Activate() returns (rejected: bool)
      requires Inv(S())
      modifies this
      ensures Inv(S()) && nextInstance == old(nextInstance)
      ensures rejected <==> old(closed)
      ensures S() == if old(closed) then old(S()) else Next(old(S()), Step.Activate)
    {
      if closed { return true; }
      InvStep(S(), Step.Activate);
      var previousNow := activeBackend;
      activeBackend := None;
      var immediateDisposal: Option<nat> := None;
      if previousNow.Some? {
        var call := CallDispose(previousNow.value, Some(|activations|));
        immediateDisposal := Some(call);
      }
      activations := activations + [Activation(previousNow, immediateDisposal, AwaitPrior)];
      rejected := false;
    }

    method AfterPrior(i: nat)
      requires Inv(S()) && Enabled(S(), PriorSettled(i))
      modifies this
      ensures Inv(S()) && S() == Next(old(S()), PriorSettled(i))
    {
      InvStep(S(), PriorSettled(i));
      var previous := if i > 0 && activations[i - 1].phase.Resolved? then Some(activations[i - 1].phase.backend) else None;
      SetPhase(i, AwaitImmediate(previous));
    }

    /** The awaits before creation; `throws` says whether the factory, if it is called, throws. */
    method AfterImmediate(i: nat, throws: bool)
      requires Inv(S()) && Enabled(S(), ImmediateSettled(i))
      modifies this
      ensures Inv(S())
      ensures S() == Next(old(S()), if throws && Enabled(old(S()), FactoryThrows(i)) then FactoryThrows(i) else ImmediateSettled(i))
    {
      InvStep(S(), if throws && Enabled(S(), FactoryThrows(i)) then FactoryThrows(i) else ImmediateSettled(i));
      DisposeStray(i, throws);
    }

    /** A failed immediate disposal ends the activation; a stray previous backend is disposed of first. */
    method DisposeStray(i: nat, throws: bool)
      requires Enabled(S(), ImmediateSettled(i))
      modifies this
      ensures S() == Next(old(S()), if throws && Enabled(old(S()), FactoryThrows(i)) then FactoryThrows(i) else ImmediateSettled(i))
    {
      var activation := activations[i];
      if activation.immediate.Some? && calls[activation.immediate.value].settled == Some(false) {
        SetPhase(i, Rejected);
        return;
      }
      var previous := activation.phase.previous;
      if previous.Some? && previous != activation.previousNow {
        var call := CallDispose(previous.value, Some(i));
        SetPhase(i, AwaitPrevious(call));
        return;
      }
      Create(i, throws);
    }

    /** Under the invariant no activation waits here: NoStrayBackends. */
    method AfterPrevious(i: nat, throws: bool)
      requires Enabled(S(), PreviousSettled(i))
      modifies this
      ensures S() == Next(old(S()), if throws && Enabled(old(S()), FactoryThrows(i)) then FactoryThrows(i) else PreviousSettled(i))
    {
      if calls[activations[i].phase.call].settled == Some(false) {
        SetPhase(i, Rejected);
        return;
      }
      Create(i, throws);
    }

    /** Unless closed or superseded, make the backend, make it active, and call initialize. An instance id is used up either way. */
    method Create(i: nat, throws: bool)
      requires i < |activations|
      modifies this
      ensures S() == if throws && !Superseded(old(S()), i) then WithPhase(old(S()), i, Rejected) else Start(old(S()), i)
      ensures nextInstance == if Superseded(old(S()), i) then old(nextInstance) else old(nextInstance) + 1
    {
      if closed || i + 1 != |activations| {
        SetPhase(i, Rejected);
        return;
      }
      nextInstance := nextInstance + 1;
      if throws {
        SetPhase(i, Rejected);
        return;
      }
      var backend := made;
      made := made + 1;
      activeBackend := Some(backend);
      SetPhase(i, Initializing(backend));
    }

    method AfterInitialize(i: nat)
      requires Inv(S()) && Enabled(S(), InitializeSucceeded(i))
      modifies this
      ensures Inv(S()) && S() == Next(old(S()), InitializeSucceeded(i))
    {
      InvStep(S(), InitializeSucceeded(i));
      var backend := activations[i].phase.backend;
      if closed || i + 1 != |activations| {
        if activeBackend == Some(backend) { activeBackend := None; }
        var call := CallDispose(backend, Some(i));
        SetPhase(i, AwaitDispose(call));
        return;
      }
      SetPhase(i, Resolved(backend));
    }

    method AfterInitializeFailure(i: nat)
      requires Inv(S()) && Enabled(S(), InitializeFailed(i))
      modifies this
      ensures Inv(S()) && S() == Next(old(S()), InitializeFailed(i))
    {
      InvStep(S(), InitializeFailed(i));
      var backend := activations[i].phase.backend;
      if activeBackend == Some(backend) { activeBackend := None; }
      var call := CallDispose(backend, Some(i));
      SetPhase(i, AwaitDispose(call));
    }

    method AfterOwnDispose(i: nat)
      requires Inv(S()) && Enabled(S(), OwnDisposeSettled(i))
      modifies this
      ensures Inv(S()) && S() == Next(old(S()), OwnDisposeSettled(i))
    {
      InvStep(S(), OwnDisposeSettled(i));
      SetPhase(i, Rejected);
    }

    /** current, after its await: `seen` is what the activation gave. */
    method AfterCurrent(seen: Option<nat>) returns (backend: Option<nat>)
      ensures backend == Current(S(), seen)
      ensures backend == if !closed && seen.Some? && activeBackend == seen then seen else None
    {
      if closed { return None; }
      if seen.None? || seen != activeBackend { return None; }
      backend := seen;
    }

    /** dispose up to its first await; a second call returns the same disposal. */
    method Dispose()
      requires Inv(S())
      modifies this
      ensures Inv(S()) && S() == Next(old(S()), Step.Dispose)
    {
      InvStep(S(), Step.Dispose);
      if disposal.Some? { return; }
      closed := true;
      var active := activeBackend;
      activeBackend := None;
      var pendingCall: Option<nat> := None;
      if active.Some? {
        var call := CallDispose(active.value, None);
        pendingCall := Some(call);
      }
      disposal := Some(Disposal(active, pendingCall, AwaitActive));
    }

    method AfterActiveDisposed()
      requires Inv(S()) && Enabled(S(), ActiveDisposed)
      modifies this
      ensures Inv(S()) && S() == Next(old(S()), ActiveDisposed)
    {
      InvStep(S(), ActiveDisposed);
      var d := disposal.value;
      var failed := d.call.Some? && calls[d.call.value].settled == Some(false);
      disposal := Some(d.(phase := if failed then Failed else AwaitPending));
    }

    method AfterPending()
      requires Inv(S()) && Enabled(S(), PendingSettled)
      modifies this
      ensures Inv(S()) && S() == Next(old(S()), PendingSettled)
    {
      InvStep(S(), PendingSettled);
      DisposeLate();
    }

    /** The end of dispose: a backend that the pending activation still made is disposed of as well. */
    method DisposeLate()
      requires Enabled(S(), PendingSettled)
      modifies this
      ensures S() == Next(old(S()), PendingSettled)
    {
      var d := disposal.value;
      var n := |activations|;
      var late := if n > 0 && activations[n - 1].phase.Resolved? then Some(activations[n - 1].phase.backend) else None;
      if late.Some? && late != d.active {
        var call := CallDispose(late.value, None);
        disposal := Some(d.(phase := AwaitLate(call)));
        return;
      }
      disposal := Some(d.(phase := Done));
    }
  }
}
