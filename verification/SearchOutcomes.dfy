/**
 What each turn of a search session does to the calls that are waiting, and which outcome the answer to a query
 gives it, told from the calls made before.
 */
module SearchOutcomes {
  import opened Vault
  import opened SearchScheduling

  /** No call but `c` is resolved by this turn; `c` gets this outcome. */
  predicate ResolvesOnly(s: State, s': State, c: nat, o: Outcome) {
    && c < |s.outcomes| == |s'.outcomes|
    && s'.outcomes[c] == s.outcomes[c] + [o]
    && forall d :: 0 <= d < |s.outcomes| && d != c ==> s'.outcomes[d] == s.outcomes[d]
  }

  /** The pending query, if there is one, is resolved as stale and its timer is gone. */
  predicate PendingStale(s: State, s': State) {
    && s'.pending == None && s'.timer == None
    && if s.pending.Some? then ResolvesOnly(s, s', s.pending.value.call, Stale) else s'.outcomes == s.outcomes
  }

  /// ---- single turns ------------------------------------------------------------------------------

  /**
   search resolves the pending query as stale. The new call is refused in a disposed session, is empty for a blank
   query, and otherwise is pending with a timer of its own, for the backend and the mode of this moment.
   */
  lemma SearchOutcome(s: State, blank: bool)
    requires Inv(s)
    ensures
      var s', c := Next(s, Search(blank)), |s.outcomes|;
      && |s'.outcomes| == c + 1 && s'.generation == s.generation + 1
      && s'.flights == s.flights && s'.activeInFlight == s.activeInFlight && s'.mode == s.mode && s'.disposed == s.disposed
      && s'.outcomes[c] == (if s.disposed then [Failed] else if blank then [Empty] else [])
      && (forall d :: 0 <= d < c ==>
            s'.outcomes[d] == s.outcomes[d] + (if s.pending.Some? && s.pending.value.call == d then [Stale] else []))
      && (if s.disposed || blank then s'.pending == None && s'.timer == None
          else s'.pending == Some(Entry(c, s.generation + 1, s.instance, s.mode, false)) && s'.timer == Some(c))
  {
  }

  /** An accepted mode change and the first dispose make the pending query stale; anything else they leave. */
  lemma InterruptOutcome(s: State, step: Step)
    requires Inv(s) && (step.SetMode? || step == Step.Dispose)
    ensures
      var s' := Next(s, step);
      if (step.SetMode? && step.mode !in s.supported) || (step.Dispose? && s.disposed) then s' == s
      else
        && PendingStale(s, s') && s'.generation == s.generation + 1
        && s'.mode == (if step.SetMode? then step.mode else s.mode) && (s'.disposed <==> s.disposed || step.Dispose?)
        && s'.flights == s.flights && s'.activeInFlight == s.activeInFlight && s'.instance == s.instance
  {
  }

  /**
   When a query's time has come and no request is with the backend, it is sent, or stale if the backend is another
   one by now. Until then it keeps waiting.
   */
  predicate Goes(s: State, s': State, e: Entry) {
    && s'.timer == None && s'.pending == None && s'.generation == s.generation && s'.disposed == s.disposed
    && s'.mode == s.mode && s'.instance == s.instance
    && if e.instance == s.instance then s'.outcomes == s.outcomes && s'.flights == [Flight(e.(dueReached := true), false)] && s'.activeInFlight
       else ResolvesOnly(s, s', e.call, Stale) && s'.flights == [] && !s'.activeInFlight
  }

  lemma TimerOutcome(s: State)
    requires Inv(s) && s.timer.Some?
    ensures
      s.pending.Some?
      && var s', e := Next(s, TimerFires), s.pending.value;
      if s.flights == [] then Goes(s, s', e)
      else s' == s.(timer := None, pending := Some(e.(dueReached := true)))
  {
  }

  /** When a request is over, a query that is due goes next; one whose time has not come keeps waiting for its timer. */
  lemma FlightEndOutcome(s: State, i: nat)
    requires Inv(s) && Enabled(s, FlightEnds(i))
    ensures
      var s' := Next(s, FlightEnds(i));
      if s.pending.Some? && s.pending.value.dueReached then Goes(s, s', s.pending.value)
      else s' == s.(flights := [], activeInFlight := false)
  {
    assert s.flights[..i] + s.flights[i + 1..] == [];
  }

  /// ---- the outcome of an answered query --------------------------------------------------------------

  /** A search, a dispose, or an accepted mode change. */
  predicate Interrupts(supported: set<Mode>, step: Step) {
    step.Search? || step.Dispose? || (step.SetMode? && step.mode in supported)
  }

  /** Nothing interrupted the session after step `i` and before step `j`. */
  predicate Uninterrupted(supported: set<Mode>, steps: seq<Step>, i: nat, j: nat)
    requires j <= |steps|
  {
    forall k :: i < k < j ==> !Interrupts(supported, steps[k])
  }

  lemma QuietStep(s: State, step: Step)
    requires Enabled(s, step)
    ensures Next(s, step).supported == s.supported
    ensures !Interrupts(s.supported, step) ==> Next(s, step).generation == s.generation && Next(s, step).disposed == s.disposed
    ensures Interrupts(s.supported, step) ==> Next(s, step).generation > s.generation || Next(s, step).disposed
    ensures s.disposed ==> Next(s, step).disposed
    ensures s.generation <= Next(s, step).generation
  {
  }

  /** The generation and disposal tell exactly whether the session was interrupted. */
  lemma {:induction false} UninterruptedIff(ss: seq<State>, steps: seq<Step>, i: nat, j: nat)
    requires IsRun(ss, steps) && i < j <= |steps|
    ensures ss[j].supported == ss[i + 1].supported && ss[j].generation >= ss[i + 1].generation
    ensures ss[i + 1].disposed ==> ss[j].disposed
    ensures !ss[i + 1].disposed ==>
              (Uninterrupted(ss[i + 1].supported, steps, i, j) <==> ss[j].generation == ss[i + 1].generation && !ss[j].disposed)
    decreases j
  {
    if i + 1 < j {
      UninterruptedIff(ss, steps, i, j - 1);
      assert StepAt(ss, steps, j - 1);
      QuietStep(ss[j - 1], steps[j - 1]);
      assert Uninterrupted(ss[i + 1].supported, steps, i, j) <==>
             Uninterrupted(ss[i + 1].supported, steps, i, j - 1) && !Interrupts(ss[i + 1].supported, steps[j - 1]);
    }
  }

  /** Wherever call `c` is still pending or in flight, it is for this backend and this mode. */
  ghost predicate EntryFor(s: State, c: nat, instance: InstanceId, mode: Mode) {
    && c < |s.outcomes|
    && (s.pending.Some? && s.pending.value.call == c ==> s.pending.value.instance == instance && s.pending.value.mode == mode)
    && (forall i :: 0 <= i < |s.flights| && s.flights[i].entry.call == c ==>
          s.flights[i].entry.instance == instance && s.flights[i].entry.mode == mode)
  }

  lemma EntryForStep(s: State, step: Step, c: nat, instance: InstanceId, mode: Mode)
    requires Inv(s) && Enabled(s, step) && EntryFor(s, c, instance, mode)
    ensures EntryFor(Next(s, step), c, instance, mode)
  {
    match step {
      case TimerFires => TimerOutcome(s);
      case FlightEnds(i) => FlightEndOutcome(s, i);
      case _ =>
    }
  }

  lemma {:induction false} EntryKeepsTarget(ss: seq<State>, steps: seq<Step>, i: nat, j: nat)
    requires IsRun(ss, steps) && i < j < |ss| && steps[i].Search?
    ensures EntryFor(ss[j], |ss[i].outcomes|, ss[i].instance, ss[i].mode)
    decreases j
  {
    RunInv(ss, steps, j - 1);
    assert StepAt(ss, steps, j - 1);
    if i + 1 < j {
      EntryKeepsTarget(ss, steps, i, j - 1);
      EntryForStep(ss[j - 1], steps[j - 1], |ss[i].outcomes|, ss[i].instance, ss[i].mode);
    } else {
      EntryForStarts(ss[i], steps[i].blank);
    }
  }

  lemma EntryForStarts(s: State, blank: bool)
    requires Inv(s)
    ensures EntryFor(Next(s, Search(blank)), |s.outcomes|, s.instance, s.mode)
  {
    SearchOutcome(s, blank);
  }

  /** What a query that was sent gets for an answer. */
  function OutcomeOf(uninterrupted: bool, atCall: State, now: State, a: Answer): Outcome {
    match a
    case Execution(instance, requested, effective) =>
      if uninterrupted && now.instance == atCall.instance && instance == atCall.instance
         && requested == atCall.mode && effective == atCall.mode
      then Results else Stale
    case Refusal(disposed) => if uninterrupted && !disposed then Failed else Stale
  }

  /**
   The call of step `i` is answered at step `j`. It gets results exactly if nothing interrupted the session in
   between, the backend is still the one of the call, and the answer is that backend's for the mode of the call; a
   refusal is its error exactly if nothing interrupted the session and the backend was not disposed of.
   */
  lemma AnswerOutcome(ss: seq<State>, steps: seq<Step>, i: nat, j: nat, x: nat, a: Answer)
    requires IsRun(ss, steps) && i < j < |steps| && steps[i].Search? && steps[j] == BackendAnswers(x, a)
    requires x < |ss[j].flights| && ss[j].flights[x].entry.call == |ss[i].outcomes|
    ensures ResolvesOnly(ss[j], ss[j + 1], |ss[i].outcomes|, OutcomeOf(Uninterrupted(ss[0].supported, steps, i, j), ss[i], ss[j], a))
  {
    var c := |ss[i].outcomes|;
    RunInv(ss, steps, i);
    RunInv(ss, steps, j);
    assert StepAt(ss, steps, i) && StepAt(ss, steps, j);
    EntryKeepsGeneration(ss, steps, i, j);
    EntryKeepsTarget(ss, steps, i, j);
    UninterruptedIff(ss, steps, i, j);
    SupportedStays(ss, steps, i + 1);
    NeverSentIfDisposed(ss, steps, i, j, x);
  }

  lemma {:induction false} SupportedStays(ss: seq<State>, steps: seq<Step>, j: nat)
    requires IsRun(ss, steps) && j < |ss|
    ensures ss[j].supported == ss[0].supported
    decreases j
  {
    if j > 0 {
      SupportedStays(ss, steps, j - 1);
      assert StepAt(ss, steps, j - 1);
      QuietStep(ss[j - 1], steps[j - 1]);
    }
  }

  /** A query of a disposed session is refused at once, so an answer is always to one made before. */
  lemma {:induction false} NeverSentIfDisposed(ss: seq<State>, steps: seq<Step>, i: nat, j: nat, x: nat)
    requires IsRun(ss, steps) && i < j < |ss| && steps[i].Search?
    requires x < |ss[j].flights| && ss[j].flights[x].entry.call == |ss[i].outcomes| && !ss[j].flights[x].answered
    ensures !ss[i + 1].disposed
  {
    RunInv(ss, steps, i);
    RunInv(ss, steps, j);
    assert StepAt(ss, steps, i);
    if ss[i].disposed {
      SearchOutcome(ss[i], steps[i].blank);
      ResolvedStays(ss, steps, |ss[i].outcomes|, i + 1, j);
      assert WaitsFor(ss[j], |ss[i].outcomes|);
    }
  }

  lemma {:induction false} ResolvedStays(ss: seq<State>, steps: seq<Step>, c: nat, i: nat, j: nat)
    requires IsRun(ss, steps) && i <= j < |ss| && c < |ss[i].outcomes| && ss[i].outcomes[c] != []
    ensures c < |ss[j].outcomes| && ss[j].outcomes[c] != []
    decreases j
  {
    if i < j {
      ResolvedStays(ss, steps, c, i, j - 1);
      assert StepAt(ss, steps, j - 1);
      OutcomesKept(ss[j - 1], steps[j - 1], c);
    }
  }

  lemma OutcomesKept(s: State, step: Step, c: nat)
    requires Enabled(s, step) && c < |s.outcomes|
    ensures c < |Next(s, step).outcomes| && s.outcomes[c] <= Next(s, step).outcomes[c]
  {
    match step {
      case Search(_) => ClearPendingKept(s.(generation := s.generation + 1, outcomes := s.outcomes + [[]]), c);
      case TimerFires =>
        if s.pending.Some? { DispatchKept(s.(timer := None, pending := Some(s.pending.value.(dueReached := true))), c); }
      case FlightEnds(i) => DispatchKept(s.(activeInFlight := false, flights := s.flights[..i] + s.flights[i + 1..]), c);
      case _ =>
    }
  }

  lemma ClearPendingKept(s: State, c: nat)
    requires c < |s.outcomes|
    ensures |ClearPending(s).outcomes| == |s.outcomes| && s.outcomes[c] <= ClearPending(s).outcomes[c]
  {
  }

  lemma DispatchKept(s: State, c: nat)
    requires c < |s.outcomes|
    ensures |TryDispatch(s).outcomes| == |s.outcomes| && s.outcomes[c] <= TryDispatch(s).outcomes[c]
  {
  }
}
