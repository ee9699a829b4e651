/**
 Activation and disposal of search backends as a machine whose steps are the stretches of code between two
 awaits. Backends and dispose calls are numbered in the order in which they are made.
 */
module BackendLifecycle {
  import opened Vault

  /** Where an activation is waiting, or how it ended. */
  datatype Phase =
    | AwaitPrior
    | AwaitImmediate(previous: Option<nat>)
    | AwaitPrevious(call: nat)
    | Initializing(backend: nat)
    | AwaitDispose(call: nat)
    | Resolved(backend: nat)
    | Rejected

  /** One activate call: the backend it found active and the dispose call it made at once. */
  datatype Activation = Activation(previousNow: Option<nat>, immediate: Option<nat>, phase: Phase)

  /** A dispose call on a backend, made by an activation or by the manager's disposal. */
  datatype Call = Call(backend: nat, owner: Option<nat>, settled: Option<bool>)

  datatype DisposalPhase = AwaitActive | AwaitPending | AwaitLate(call: nat) | Done | Failed

  datatype Disposal = Disposal(active: Option<nat>, call: Option<nat>, phase: DisposalPhase)

  datatype State = State(
    closed: bool,
    active: Option<nat>,
    created: nat,
    activations: seq<Activation>,
    calls: seq<Call>,
    disposal: Option<Disposal>)

  datatype Step =
    | Activate
    | PriorSettled(i: nat)
    | ImmediateSettled(i: nat)
    | PreviousSettled(i: nat)
    | FactoryThrows(i: nat)
    | InitializeSucceeded(i: nat)
    | InitializeFailed(i: nat)
    | OwnDisposeSettled(i: nat)
    | SettleCall(c: nat, ok: bool)
    | Dispose
    | ActiveDisposed
    | PendingSettled
    | LateDisposed

  const INIT := State(false, None, 0, [], [], None)

  predicate Ended(p: Phase) { p.Resolved? || p.Rejected? }

  predicate PriorEnded(s: State, i: nat)
    requires i <= |s.activations|
  {
    i == 0 || Ended(s.activations[i - 1].phase)
  }

  function PriorResult(s: State, i: nat): Option<nat>
    requires i <= |s.activations|
  {
    if i > 0 && s.activations[i - 1].phase.Resolved? then Some(s.activations[i - 1].phase.backend) else None
  }

  predicate CallSettled(s: State, c: nat) {
    c < |s.calls| && s.calls[c].settled.Some?
  }

  predicate CallFailed(s: State, c: nat) {
    c < |s.calls| && s.calls[c].settled == Some(false)
  }

  /** The manager is closed, or a later activate has been called. */
  predicate Superseded(s: State, i: nat) {
    s.closed || i + 1 != |s.activations|
  }

  function WithPhase(s: State, i: nat, p: Phase): State
    requires i < |s.activations|
  {
    s.(activations := s.activations[i := s.activations[i].(phase := p)])
  }

  /** The tail of an activation once everything earlier is disposed: give up, or create and initialize. */
  function Start(s: State, i: nat): State
    requires i < |s.activations|
  {
    if Superseded(s, i) then WithPhase(s, i, Rejected)
    else WithPhase(s.(active := Some(s.created), created := s.created + 1), i, Initializing(s.created))
  }

  /** An activation's awaits before it makes its backend are over, and none of them failed. */
  predicate AtFactory(s: State, i: nat)
    requires i < |s.activations|
  {
    var a := s.activations[i];
    && (a.phase.AwaitImmediate? ==>
          && (a.immediate.Some? ==> CallSettled(s, a.immediate.value) && !CallFailed(s, a.immediate.value))
          && (a.phase.previous.None? || a.phase.previous == a.previousNow))
    && (a.phase.AwaitPrevious? ==> CallSettled(s, a.phase.call) && !CallFailed(s, a.phase.call))
    && (a.phase.AwaitImmediate? || a.phase.AwaitPrevious?)
  }

  function CallDispose(s: State, backend: nat, owner: Option<nat>): State {
    s.(calls := s.calls + [Call(backend, owner, None)])
  }

  predicate Enabled(s: State, step: Step) {
    match step
    case Activate => !s.closed
    case PriorSettled(i) => i < |s.activations| && s.activations[i].phase.AwaitPrior? && PriorEnded(s, i)
    case ImmediateSettled(i) =>
      i < |s.activations| && s.activations[i].phase.AwaitImmediate?
      && (s.activations[i].immediate.Some? ==> CallSettled(s, s.activations[i].immediate.value))
    case PreviousSettled(i) => i < |s.activations| && s.activations[i].phase.AwaitPrevious? && CallSettled(s, s.activations[i].phase.call)
    case FactoryThrows(i) => i < |s.activations| && AtFactory(s, i) && !Superseded(s, i)
    case InitializeSucceeded(i) => i < |s.activations| && s.activations[i].phase.Initializing?
    case InitializeFailed(i) => i < |s.activations| && s.activations[i].phase.Initializing?
    case OwnDisposeSettled(i) => i < |s.activations| && s.activations[i].phase.AwaitDispose? && CallSettled(s, s.activations[i].phase.call)
    case SettleCall(c, _) => c < |s.calls| && s.calls[c].settled.None?
    case Dispose => true
    case ActiveDisposed =>
      s.disposal.Some? && s.disposal.value.phase.AwaitActive?
      && (s.disposal.value.call.Some? ==> CallSettled(s, s.disposal.value.call.value))
    case PendingSettled =>
      s.disposal.Some? && s.disposal.value.phase.AwaitPending? && PriorEnded(s, |s.activations|)
    case LateDisposed =>
      s.disposal.Some? && s.disposal.value.phase.AwaitLate? && CallSettled(s, s.disposal.value.phase.call)
  }

  function Next(s: State, step: Step): State
    requires Enabled(s, step)
  {
    match step
    case Activate =>
      var s1 := if s.active.Some? then CallDispose(s, s.active.value, Some(|s.activations|)) else s;
      s1.(active := None,
          activations := s.activations
                         + [Activation(s.active, if s.active.Some? then Some(|s.calls|) else None, AwaitPrior)])
    case PriorSettled(i) => WithPhase(s, i, AwaitImmediate(PriorResult(s, i)))
    case ImmediateSettled(i) =>
      var a := s.activations[i];
      if a.immediate.Some? && CallFailed(s, a.immediate.value) then WithPhase(s, i, Rejected)
      else if a.phase.previous.Some? && a.phase.previous != a.previousNow then
        WithPhase(CallDispose(s, a.phase.previous.value, Some(i)), i, AwaitPrevious(|s.calls|))
      else Start(s, i)
    case PreviousSettled(i) =>
      if CallFailed(s, s.activations[i].phase.call) then WithPhase(s, i, Rejected) else Start(s, i)
    case FactoryThrows(i) => WithPhase(s, i, Rejected)
    case InitializeSucceeded(i) =>
      var b := s.activations[i].phase.backend;
      if Superseded(s, i) then
        var s1 := if s.active == Some(b) then s.(active := None) else s;
        WithPhase(CallDispose(s1, b, Some(i)), i, AwaitDispose(|s.calls|))
      else WithPhase(s, i, Resolved(b))
    case InitializeFailed(i) =>
      var b := s.activations[i].phase.backend;
      var s1 := if s.active == Some(b) then s.(active := None) else s;
      WithPhase(CallDispose(s1, b, Some(i)), i, AwaitDispose(|s.calls|))
    case OwnDisposeSettled(i) => WithPhase(s, i, Rejected)
    case SettleCall(c, ok) => s.(calls := s.calls[c := s.calls[c].(settled := Some(ok))])
    case Dispose =>
      if s.disposal.Some? then s
      else
        var s1 := if s.active.Some? then CallDispose(s, s.active.value, None) else s;
        s1.(closed := true, active := None,
            disposal := Some(Disposal(s.active, if s.active.Some? then Some(|s.calls|) else None, AwaitActive)))
    case ActiveDisposed =>
      var d := s.disposal.value;
      s.(disposal := Some(d.(phase := if d.call.Some? && CallFailed(s, d.call.value) then Failed else AwaitPending)))
    case PendingSettled =>
      var d := s.disposal.value;
      var late := PriorResult(s, |s.activations|);
      if late.Some? && late != d.active then
        CallDispose(s, late.value, None).(disposal := Some(d.(phase := AwaitLate(|s.calls|))))
      else s.(disposal := Some(d.(phase := Done)))
    case LateDisposed =>
      var d := s.disposal.value;
      s.(disposal := Some(d.(phase := if CallFailed(s, d.phase.call) then Failed else Done)))
  }

  /** A backend has been told to dispose. */
  predicate Told(s: State, b: nat) {
    exists c :: 0 <= c < |s.calls| && s.calls[c].backend == b
  }

  /// ---- the invariant ---------------------------------------------------------------------------

  /** A call that has not settled is one that its owner is still waiting for. */
  predicate Awaited(s: State, c: nat)
    requires c < |s.calls|
  {
    match s.calls[c].owner
    case Some(i) =>
      i < |s.activations|
      && (s.calls[c].settled.None? ==>
            var a := s.activations[i];
            || ((a.phase.AwaitPrior? || a.phase.AwaitImmediate?) && a.immediate == Some(c))
            || a.phase == AwaitPrevious(c)
            || a.phase == AwaitDispose(c))
    case None =>
      s.disposal.Some?
      && (s.calls[c].settled.None? ==>
            || s.disposal.value.phase.Failed?
            || (s.disposal.value.phase.AwaitActive? && s.disposal.value.call == Some(c))
            || s.disposal.value.phase == AwaitLate(c))
  }

  /** The backend an activation has made and not yet told to dispose itself. */
  function Held(p: Phase): Option<nat> {
    if p.Initializing? || p.Resolved? then Some(p.backend) else None
  }

  /** A backend held by an activation is the active one, or the next activation or the disposal found it active. */
  predicate HeldProperly(s: State, i: nat)
    requires i < |s.activations|
  {
    var h := Held(s.activations[i].phase);
    h.Some? ==>
      h.value < s.created
      && (if i + 1 < |s.activations| then s.activations[i + 1].previousNow == h && Told(s, h.value)
          else if s.closed then s.disposal.Some? && s.disposal.value.active == h
          else s.active == h)
  }

  /** The active backend is the one the last activation holds; every other one has been told to dispose. */
  predicate ActiveIsOnly(s: State) {
    && (s.closed <==> s.disposal.Some?)
    && (s.closed ==> s.active.None?)
    && (s.active.Some? ==> s.active.value < s.created && !Told(s, s.active.value)
                           && s.activations != []
                           && Held(s.activations[|s.activations| - 1].phase) == s.active)
    && (forall b :: 0 <= b < s.created && s.active != Some(b) ==> Told(s, b))
    && (forall c :: 0 <= c < |s.calls| ==> s.calls[c].backend < s.created)
  }

  /** Activations run one after another. */
  predicate InTurn(s: State) {
    && (forall i :: 0 <= i < |s.activations| && !s.activations[i].phase.AwaitPrior? ==> PriorEnded(s, i))
    && (forall i :: 0 <= i < |s.activations| && s.activations[i].phase.AwaitImmediate?
                    ==> s.activations[i].phase.previous == PriorResult(s, i))
    && (s.disposal.Some? && s.disposal.value.phase.Done? ==> PriorEnded(s, |s.activations|))
    && (s.disposal.Some? ==> !s.disposal.value.phase.AwaitLate?)
    && (forall i :: 0 <= i < |s.activations| ==> !s.activations[i].phase.AwaitPrevious?)
  }

  predicate Inv(s: State) {
    && ActiveIsOnly(s)
    && InTurn(s)
    && (forall c :: 0 <= c < |s.calls| ==> Awaited(s, c))
    && (forall i :: 0 <= i < |s.activations| ==> HeldProperly(s, i))
  }

  lemma CallDisposeTells(s: State, b: nat, owner: Option<nat>)
    ensures forall x :: Told(CallDispose(s, b, owner), x) <==> Told(s, x) || x == b
  {
    var s' := CallDispose(s, b, owner);
    assert s'.calls[|s.calls|].backend == b;
    forall x | Told(s, x) ensures Told(s', x) {
      var c :| 0 <= c < |s.calls| && s.calls[c].backend == x;
      assert s'.calls[c].backend == x;
    }
  }

  lemma SameCallsTell(s: State, s': State)
    requires |s'.calls| == |s.calls| && forall c :: 0 <= c < |s.calls| ==> s'.calls[c].backend == s.calls[c].backend
    ensures forall x :: Told(s', x) <==> Told(s, x)
  {
    forall x ensures Told(s', x) <==> Told(s, x) {
      if Told(s, x) {
        var c :| 0 <= c < |s.calls| && s.calls[c].backend == x;
        assert s'.calls[c].backend == x;
      }
      if Told(s', x) {
        var c :| 0 <= c < |s.calls| && s'.calls[c].backend == x;
        assert s.calls[c].backend == x;
      }
    }
  }

  /** The backend a step tells to dispose, if any. */
  function ToldBy(s: State, step: Step): Option<nat>
    requires Enabled(s, step)
  {
    if |Next(s, step).calls| > |s.calls| then Some(Next(s, step).calls[|s.calls|].backend) else None
  }

  lemma StepTells(s: State, step: Step)
    requires Enabled(s, step)
    ensures forall x: nat :: Told(Next(s, step), x) <==> Told(s, x) || ToldBy(s, step) == Some(x)
  {
    var s', t := Next(s, step), ToldBy(s, step);
    if t.Some? {
      var owner := s'.calls[|s.calls|].owner;
      CallDisposeTells(s, t.value, owner);
      SameCallsTell(CallDispose(s, t.value, owner), s');
    } else {
      SameCallsTell(s, s');
    }
  }

  lemma ActiveActivate(s: State)
    requires Inv(s) && Enabled(s, Activate)
    ensures ActiveIsOnly(Next(s, Activate))
  {
    StepTells(s, Activate);
  }

  lemma ActiveDispose(s: State)
    requires Inv(s)
    ensures ActiveIsOnly(Next(s, Dispose))
  {
    StepTells(s, Dispose);
  }

  /** The backend that an initializing activation gives up, and the last one keeps, is the active one only if it is last. */
  lemma InitializingIsActive(s: State, i: nat)
    requires Inv(s) && i < |s.activations| && s.activations[i].phase.Initializing?
    ensures s.activations[i].phase.backend < s.created
    ensures s.active == Some(s.activations[i].phase.backend) <==> !Superseded(s, i)
    ensures Superseded(s, i) && i + 1 == |s.activations| ==> s.active.None?
  {
    assert HeldProperly(s, i);
  }

  lemma ActiveInitialized(s: State, step: Step)
    requires Inv(s) && Enabled(s, step) && (step.InitializeSucceeded? || step.InitializeFailed?)
    ensures ActiveIsOnly(Next(s, step))
  {
    StepTells(s, step);
    InitializingIsActive(s, step.i);
  }

  lemma ActiveStart(s: State, i: nat)
    requires Inv(s) && i < |s.activations| && Held(s.activations[i].phase).None?
    ensures ActiveIsOnly(Start(s, i)) && ActiveIsOnly(WithPhase(s, i, Rejected))
  {
    SameCallsTell(s, Start(s, i));
    SameCallsTell(s, WithPhase(s, i, Rejected));
  }

  lemma ActiveStep(s: State, step: Step)
    requires Inv(s) && Enabled(s, step)
    ensures ActiveIsOnly(Next(s, step))
  {
    match step {
      case Activate => ActiveActivate(s);
      case Dispose => ActiveDispose(s);
      case InitializeSucceeded(_) => ActiveInitialized(s, step);
      case InitializeFailed(_) => ActiveInitialized(s, step);
      case ImmediateSettled(i) =>
        NoStrayPrevious(s, i);
        ActiveStart(s, i);
      case PreviousSettled(i) => ActiveStart(s, i);
      case FactoryThrows(i) => ActiveStart(s, i);
      case OwnDisposeSettled(i) => ActiveStart(s, i);
      case PendingSettled =>
        NoStrayLate(s);
        StepTells(s, step);
      case _ => StepTells(s, step);
    }
  }

  /** The result of the prior activation, if a backend, is the one found active: nothing is left over to dispose. */
  lemma NoStrayPrevious(s: State, i: nat)
    requires Inv(s) && i < |s.activations| && s.activations[i].phase.AwaitImmediate?
    ensures s.activations[i].phase.previous.Some? ==> s.activations[i].phase.previous == s.activations[i].previousNow
  {
    if i > 0 {
      assert HeldProperly(s, i - 1);
    }
  }

  /** Nor is anything left over once the manager has disposed of the backend it found active. */
  lemma NoStrayLate(s: State)
    requires Inv(s) && s.closed
    ensures PriorResult(s, |s.activations|).Some? ==> PriorResult(s, |s.activations|) == s.disposal.value.active
  {
    if s.activations != [] {
      assert HeldProperly(s, |s.activations| - 1);
    }
  }

  /** `s'` differs from `s` in the phase of activation `i` and by at most one more call, made by `i`. */
  predicate Resumed(s: State, s': State, i: nat) {
    && i < |s.activations| == |s'.activations| && !Ended(s.activations[i].phase)
    && s'.activations == s.activations[i := s.activations[i].(phase := s'.activations[i].phase)]
    && s'.closed == s.closed && s'.disposal == s.disposal
    && (s'.calls == s.calls || (|s'.calls| == |s.calls| + 1 && s'.calls[..|s.calls|] == s.calls))
  }

  lemma InTurnResumed(s: State, s': State, i: nat)
    requires InTurn(s) && Resumed(s, s', i) && PriorEnded(s, i)
    requires !s'.activations[i].phase.AwaitPrevious?
    requires s'.activations[i].phase.AwaitImmediate? ==> s'.activations[i].phase.previous == PriorResult(s, i)
    ensures InTurn(s')
  {
    forall k: nat | k < |s'.activations| ensures TurnOf(s', k) {
      InTurnBeside(s, s', i, k);
    }
    if s.disposal.Some? && s.disposal.value.phase.Done? {
      LastUntouched(s, s', i);
    }
    EachInTurn(s');
  }

  /** Once the last activation has ended, one that is resumed is an earlier one. */
  lemma LastUntouched(s: State, s': State, i: nat)
    requires Resumed(s, s', i) && PriorEnded(s, |s.activations|)
    ensures PriorEnded(s', |s'.activations|)
  {
  }

  lemma EachInTurn(s: State)
    requires forall k: nat :: k < |s.activations| ==> TurnOf(s, k)
    requires s.disposal.Some? && s.disposal.value.phase.Done? ==> PriorEnded(s, |s.activations|)
    requires s.disposal.Some? ==> !s.disposal.value.phase.AwaitLate?
    ensures InTurn(s)
  {
    forall i | 0 <= i < |s.activations|
      ensures !s.activations[i].phase.AwaitPrior? ==> PriorEnded(s, i)
      ensures s.activations[i].phase.AwaitImmediate? ==> s.activations[i].phase.previous == PriorResult(s, i)
      ensures !s.activations[i].phase.AwaitPrevious?
    {
      assert TurnOf(s, i);
    }
  }

  /** InTurn for one activation. */
  predicate TurnOf(s: State, k: nat)
    requires k < |s.activations|
  {
    && (!s.activations[k].phase.AwaitPrior? ==> PriorEnded(s, k))
    && (s.activations[k].phase.AwaitImmediate? ==> s.activations[k].phase.previous == PriorResult(s, k))
    && !s.activations[k].phase.AwaitPrevious?
  }

  /** What an activation before `k` ended with does not change. */
  lemma InTurnBeside(s: State, s': State, i: nat, k: nat)
    requires InTurn(s) && Resumed(s, s', i) && PriorEnded(s, i) && k < |s.activations|
    requires !s'.activations[i].phase.AwaitPrevious?
    requires s'.activations[i].phase.AwaitImmediate? ==> s'.activations[i].phase.previous == PriorResult(s, i)
    ensures TurnOf(s', k)
  {
    if k != i {
      assert s'.activations[k] == s.activations[k];
    }
    if k > 0 && k - 1 != i {
      assert s'.activations[k - 1] == s.activations[k - 1];
    }
  }

  /** The activations so far are unchanged; a new one has not begun. */
  predicate Extended(s: State, s': State) {
    && |s.activations| <= |s'.activations|
    && (forall k :: 0 <= k < |s.activations| ==> s'.activations[k] == s.activations[k])
    && (forall k :: |s.activations| <= k < |s'.activations| ==> s'.activations[k].phase.AwaitPrior?)
  }

  lemma InTurnExtended(s: State, s': State)
    requires InTurn(s) && Extended(s, s')
    requires s'.disposal.Some? && s'.disposal.value.phase.Done? ==> PriorEnded(s', |s'.activations|)
    requires s'.disposal.Some? ==> !s'.disposal.value.phase.AwaitLate?
    ensures InTurn(s')
  {
  }

  /** The activation a step resumes, if it resumes one. */
  function Resumes(step: Step): Option<nat> {
    match step
    case PriorSettled(i) => Some(i)
    case ImmediateSettled(i) => Some(i)
    case PreviousSettled(i) => Some(i)
    case FactoryThrows(i) => Some(i)
    case InitializeSucceeded(i) => Some(i)
    case InitializeFailed(i) => Some(i)
    case OwnDisposeSettled(i) => Some(i)
    case _ => None
  }

  lemma ResumesShape(s: State, step: Step)
    requires Enabled(s, step) && Resumes(step).Some?
    ensures Resumed(s, Next(s, step), Resumes(step).value)
  {
  }

  lemma InTurnStep(s: State, step: Step)
    requires Inv(s) && Enabled(s, step)
    ensures InTurn(Next(s, step))
  {
    if Resumes(step).Some? {
      ResumesShape(s, step);
      if step.ImmediateSettled? {
        NoStrayPrevious(s, step.i);
      }
      InTurnResumed(s, Next(s, step), Resumes(step).value);
    } else {
      if step.PendingSettled? {
        NoStrayLate(s);
      }
      InTurnExtended(s, Next(s, step));
    }
  }

  /** The new call of a step that resumes an activation is the one that activation now waits for. */
  lemma AwaitedNewCall(s: State, step: Step)
    requires Inv(s) && Enabled(s, step) && Resumes(step).Some? && |Next(s, step).calls| == |s.calls| + 1
    ensures Awaited(Next(s, step), |s.calls|)
  {
  }

  /** A step that resumes `i` owes nothing for the calls `i` made before. */
  lemma NothingOwed(s: State, step: Step, c: nat)
    requires Inv(s) && Enabled(s, step) && Resumes(step).Some? && !step.PriorSettled? && c < |s.calls|
    requires s.calls[c].owner == Resumes(step)
    ensures s.calls[c].settled.Some?
  {
    assert Awaited(s, c);
  }

  lemma AwaitedResumed(s: State, s': State, i: nat, c: nat)
    requires Resumed(s, s', i) && c < |s.calls| && Awaited(s, c)
    requires s.calls[c].owner == Some(i) && s.calls[c].settled.None? ==>
               s.activations[i].phase.AwaitPrior? && s'.activations[i].phase.AwaitImmediate?
    ensures Awaited(s', c)
  {
    assert s'.calls[c] == s.calls[c];
  }

  lemma AwaitedResumedStep(s: State, step: Step, c: nat)
    requires Inv(s) && Enabled(s, step) && Resumes(step).Some? && c < |Next(s, step).calls|
    ensures Awaited(Next(s, step), c)
  {
    ResumesShape(s, step);
    if c < |s.calls| {
      assert Awaited(s, c);
      if !step.PriorSettled? && s.calls[c].owner == Resumes(step) {
        NothingOwed(s, step, c);
      }
      AwaitedResumed(s, Next(s, step), Resumes(step).value, c);
    } else {
      AwaitedNewCall(s, step);
    }
  }

  /** Other steps change no activation but may append one, and leave every call's owner waiting for it. */
  lemma AwaitedOther(s: State, step: Step, c: nat)
    requires Inv(s) && Enabled(s, step) && Resumes(step).None? && c < |Next(s, step).calls|
    ensures Awaited(Next(s, step), c)
  {
    if c < |s.calls| {
      assert Awaited(s, c);
    }
    if step.PendingSettled? {
      NoStrayLate(s);
    }
  }

  /** Only the last activation changes which backend is active. */
  lemma ActiveUnlessLast(s: State, step: Step)
    requires Inv(s) && Enabled(s, step) && Resumes(step).Some? && Resumes(step).value + 1 != |s.activations|
    ensures Next(s, step).active == s.active && Next(s, step).created == s.created
  {
    assert HeldProperly(s, Resumes(step).value);
  }

  lemma HeldBeside(s: State, step: Step, i: nat)
    requires Inv(s) && Enabled(s, step) && Resumes(step).Some? && i < |s.activations| && i != Resumes(step).value
    requires Resumed(s, Next(s, step), Resumes(step).value)
    requires i + 1 == |s.activations| ==> Next(s, step).active == s.active
    requires forall x: nat :: Told(s, x) ==> Told(Next(s, step), x)
    requires s.created <= Next(s, step).created
    ensures HeldProperly(Next(s, step), i)
  {
    assert HeldProperly(s, i);
  }

  lemma HeldResumed(s: State, step: Step, i: nat)
    requires Inv(s) && Enabled(s, step) && Resumes(step).Some? && i < |s.activations|
    ensures HeldProperly(Next(s, step), i)
  {
    var j := Resumes(step).value;
    ResumesShape(s, step);
    StepTells(s, step);
    if i != j {
      if j + 1 != |s.activations| {
        ActiveUnlessLast(s, step);
      }
      HeldBeside(s, step, i);
    } else {
      HeldByResumed(s, step);
    }
  }

  lemma HeldByResumed(s: State, step: Step)
    requires Inv(s) && Enabled(s, step) && Resumes(step).Some?
    requires forall x: nat :: Told(s, x) ==> Told(Next(s, step), x)
    ensures HeldProperly(Next(s, step), Resumes(step).value)
  {
    assert HeldProperly(s, Resumes(step).value);
  }

  lemma HeldOther(s: State, step: Step, i: nat)
    requires Inv(s) && Enabled(s, step) && Resumes(step).None? && i < |Next(s, step).activations|
    ensures HeldProperly(Next(s, step), i)
  {
    StepTells(s, step);
    if i < |s.activations| {
      assert HeldProperly(s, i);
    }
  }

  lemma InvStep(s: State, step: Step)
    requires Inv(s) && Enabled(s, step)
    ensures Inv(Next(s, step))
  {
    var s' := Next(s, step);
    ActiveStep(s, step);
    InTurnStep(s, step);
    forall c: nat | c < |s'.calls| ensures Awaited(s', c) {
      if Resumes(step).Some? { AwaitedResumedStep(s, step, c); } else { AwaitedOther(s, step, c); }
    }
    forall i: nat | i < |s'.activations| ensures HeldProperly(s', i) {
      if Resumes(step).Some? {
        ResumesShape(s, step);
        HeldResumed(s, step, i);
      } else {
        HeldOther(s, step, i);
      }
    }
  }

  /// ---- what the manager promises --------------------------------------------------------------------

  ghost predicate IsRun(ss: seq<State>, steps: seq<Step>) {
    && |ss| == |steps| + 1 && ss[0] == INIT
    && forall k: nat :: k < |steps| ==> StepAt(ss, steps, k)
  }

  ghost predicate StepAt(ss: seq<State>, steps: seq<Step>, k: nat)
    requires k < |steps| && |ss| == |steps| + 1
  {
    Enabled(ss[k], steps[k]) && ss[k + 1] == Next(ss[k], steps[k])
  }

  lemma {:induction false} RunInv(ss: seq<State>, steps: seq<Step>, i: nat)
    requires IsRun(ss, steps) && i < |ss|
    ensures Inv(ss[i])
    decreases i
  {
    if i > 0 {
      RunInv(ss, steps, i - 1);
      assert StepAt(ss, steps, i - 1);
      InvStep(ss[i - 1], steps[i - 1]);
    }
  }

  predicate AllSettled(s: State) {
    forall c :: 0 <= c < |s.calls| ==> s.calls[c].settled.Some?
  }

  /** In every run at most one backend has not been told to dispose, and it is the active one. */
  lemma AtMostOneLive(ss: seq<State>, steps: seq<Step>, i: nat, b: nat)
    requires IsRun(ss, steps) && i < |ss| && b < ss[i].created
    ensures !Told(ss[i], b) <==> ss[i].active == Some(b)
  {
    RunInv(ss, steps, i);
  }

  /** Only the last activation makes a backend, once the dispose call it made has settled. */
  lemma CreatesWhen(s: State, step: Step)
    requires Inv(s) && Enabled(s, step) && Next(s, step).created > s.created
    ensures Next(s, step).created == s.created + 1
    ensures step.ImmediateSettled? && step.i + 1 == |s.activations| && s.active.None? && s.disposal.None?
  {
  }

  lemma CallsSettled(s: State, i: nat)
    requires Inv(s) && Enabled(s, ImmediateSettled(i)) && i + 1 == |s.activations| && s.disposal.None?
    ensures AllSettled(s)
  {
    AllActivationsEnded(s, i);
    forall c | 0 <= c < |s.calls| ensures s.calls[c].settled.Some? {
      assert Awaited(s, c);
    }
  }

  /** A backend is created only when every earlier one was told to dispose and every dispose call has settled. */
  lemma CreatedAfterDisposals(ss: seq<State>, steps: seq<Step>, i: nat)
    requires IsRun(ss, steps) && i < |steps| && ss[i + 1].created > ss[i].created
    ensures ss[i + 1].created == ss[i].created + 1
    ensures forall b :: 0 <= b < ss[i].created ==> Told(ss[i], b)
    ensures AllSettled(ss[i])
  {
    RunInv(ss, steps, i);
    assert StepAt(ss, steps, i);
    CreatesWhen(ss[i], steps[i]);
    CallsSettled(ss[i], steps[i].i);
  }

  /** Activations before one that has begun have ended. */
  lemma {:induction false} AllActivationsEnded(s: State, i: nat)
    requires Inv(s) && i <= |s.activations| && PriorEnded(s, i)
    ensures forall k :: 0 <= k < i ==> Ended(s.activations[k].phase)
  {
    if i > 0 {
      AllActivationsEnded(s, i - 1);
    }
  }

  /** Once the manager's disposal has resolved, every backend was told to dispose and every dispose call has settled. */
  lemma DisposalIsComplete(ss: seq<State>, steps: seq<Step>, i: nat)
    requires IsRun(ss, steps) && i < |ss|
    requires ss[i].disposal.Some? && ss[i].disposal.value.phase.Done?
    ensures forall b :: 0 <= b < ss[i].created ==> Told(ss[i], b)
    ensures AllSettled(ss[i])
  {
    RunInv(ss, steps, i);
    var s := ss[i];
    AllActivationsEnded(s, |s.activations|);
    forall c | 0 <= c < |s.calls| ensures s.calls[c].settled.Some? {
      assert Awaited(s, c);
    }
  }

  lemma DoneStep(s: State, step: Step)
    requires Inv(s) && Enabled(s, step) && s.disposal.Some? && s.disposal.value.phase.Done?
    ensures Next(s, step).created == s.created && Next(s, step).disposal == s.disposal
  {
    AllActivationsEnded(s, |s.activations|);
  }

  /** From then on, in every later state, that is still so: no backend is ever made again. */
  lemma {:induction false} DisposalIsFinal(ss: seq<State>, steps: seq<Step>, i: nat, j: nat)
    requires IsRun(ss, steps) && i <= j < |ss|
    requires ss[i].disposal.Some? && ss[i].disposal.value.phase.Done?
    ensures ss[j].created == ss[i].created && ss[j].disposal == ss[i].disposal
    ensures forall b :: 0 <= b < ss[j].created ==> Told(ss[j], b)
    ensures AllSettled(ss[j])
    decreases j
  {
    if i < j {
      DisposalIsFinal(ss, steps, i, j - 1);
      RunInv(ss, steps, j - 1);
      assert StepAt(ss, steps, j - 1);
      DoneStep(ss[j - 1], steps[j - 1]);
    }
    DisposalIsComplete(ss, steps, j);
  }

  /** The code that disposes of a stray previous or late backend never runs. */
  lemma NoStrayBackends(ss: seq<State>, steps: seq<Step>, i: nat)
    requires IsRun(ss, steps) && i < |steps|
    ensures steps[i] != LateDisposed && !steps[i].PreviousSettled?
  {
    RunInv(ss, steps, i);
    assert StepAt(ss, steps, i);
  }

  /** What `current` returns after its await: the backend it saw, provided it is still the active one. */
  function Current(s: State, seen: Option<nat>): Option<nat> {
    if s.closed || seen.None? || seen != s.active then None else seen
  }

  /** `current` never hands out a backend that has been told to dispose, whatever it saw before its await. */
  lemma CurrentIsLive(ss: seq<State>, steps: seq<Step>, i: nat, seen: Option<nat>)
    requires IsRun(ss, steps) && i < |ss|
    ensures Current(ss[i], seen).Some? ==> !Told(ss[i], Current(ss[i], seen).value) && Current(ss[i], seen) == ss[i].active
  {
    RunInv(ss, steps, i);
  }
}
