/**
 The search session's debounce, single-flight dispatch and staleness rules as a machine. A step is one turn:
 a caller's call, a timer, a backend answer, the turn after it, or a change of backend identity.
 */
module SearchScheduling {
  import opened Vault

  type Mode = string
  type InstanceId = string

  datatype Outcome = Results | Empty | Stale | Failed

  /** What the backend's promise settles with. */
  datatype Answer =
    | Execution(instance: InstanceId, requestedMode: Mode, effectiveMode: Mode)
    | Refusal(disposed: bool)

  /** A scheduled query; `call` numbers the search() call whose promise it resolves. */
  datatype Entry = Entry(call: nat, generation: nat, instance: InstanceId, mode: Mode, dueReached: bool)

  /** A dispatched query, and whether its promise has been resolved. */
  datatype Flight = Flight(entry: Entry, answered: bool)

  datatype State = State(
    generation: nat,
    disposed: bool,
    supported: set<Mode>,
    mode: Mode,
    instance: InstanceId,
    pending: Option<Entry>,
    timer: Option<nat>,
    activeInFlight: bool,
    flights: seq<Flight>,
    outcomes: seq<seq<Outcome>>)

  datatype Step =
    | Search(blank: bool)
    | SetMode(mode: Mode)
    | Dispose
    | TimerFires
    | BackendAnswers(i: nat, answer: Answer)
    | FlightEnds(i: nat)
    | IdentityChanges(instance: InstanceId)

  function Start(supported: set<Mode>, mode: Mode, instance: InstanceId): State {
    State(0, false, supported, mode, instance, None, None, false, [], [])
  }

  function Resolve(s: State, call: nat, o: Outcome): State {
    if call < |s.outcomes| then s.(outcomes := s.outcomes[call := s.outcomes[call] + [o]]) else s
  }

  function ClearPending(s: State): State {
    if s.pending.None? then s
    else Resolve(s.(pending := None, timer := None), s.pending.value.call, Stale)
  }

  /** Dispatch the pending query if it is due and nothing is in flight; identity drift makes it stale. */
  function TryDispatch(s: State): State {
    if s.activeInFlight || s.pending.None? || !s.pending.value.dueReached then s
    else if s.pending.value.instance != s.instance then
      Resolve(s.(pending := None), s.pending.value.call, Stale)
    else s.(pending := None, activeInFlight := true, flights := s.flights + [Flight(s.pending.value, false)])
  }

  function Searched(s: State, blank: bool): State {
    var call := |s.outcomes|;
    var s1 := s.(generation := s.generation + 1, outcomes := s.outcomes + [[]]);
    if s.disposed then Resolve(s1, call, Failed)
    else if blank then Resolve(ClearPending(s1), call, Empty)
    else if s.mode !in s.supported then Resolve(ClearPending(s1), call, Failed)
    else ClearPending(s1).(pending := Some(Entry(call, s1.generation, s.instance, s.mode, false)), timer := Some(call))
  }

  /** runSearch's verdict on an answer. */
  function Verdict(s: State, e: Entry, a: Answer): Outcome {
    match a
    case Execution(instance, requested, effective) =>
      if s.disposed || e.generation != s.generation || e.instance != s.instance || instance != e.instance
         || requested != e.mode || effective != e.mode
      then Stale else Results
    case Refusal(disposed) =>
      if s.disposed || e.generation != s.generation || disposed then Stale else Failed
  }

  predicate Enabled(s: State, step: Step) {
    match step
    case TimerFires => s.timer.Some?
    case BackendAnswers(i, _) => i < |s.flights| && !s.flights[i].answered
    case FlightEnds(i) => i < |s.flights| && s.flights[i].answered
    case _ => true
  }

  function Next(s: State, step: Step): State
    requires Enabled(s, step)
  {
    match step
    case Search(blank) => Searched(s, blank)
    case SetMode(mode) =>
      if mode !in s.supported then s
      else ClearPending(s.(generation := s.generation + 1, mode := mode))
    case Dispose => if s.disposed then s else ClearPending(s.(disposed := true, generation := s.generation + 1))
    case TimerFires =>
      var s1 := s.(timer := None);
      if s.pending.None? || s.pending.value.call != s.timer.value then s1
      else TryDispatch(s1.(pending := Some(s.pending.value.(dueReached := true))))
    case BackendAnswers(i, a) =>
      var e := s.flights[i].entry;
      Resolve(s, e.call, Verdict(s, e, a)).(flights := s.flights[i := Flight(e, true)])
    case FlightEnds(i) =>
      TryDispatch(s.(activeInFlight := false, flights := s.flights[..i] + s.flights[i + 1..]))
    case IdentityChanges(instance) => s.(instance := instance)
  }

  /// ---- the invariant ---------------------------------------------------------------------------

  /** The promise of this call is still to be resolved by its pending entry or its request. */
  predicate WaitsFor(s: State, call: nat) {
    || (s.pending.Some? && s.pending.value.call == call)
    || (exists i :: 0 <= i < |s.flights| && !s.flights[i].answered && s.flights[i].entry.call == call)
  }

  predicate Inv(s: State) {
    && s.mode in s.supported
    && |s.flights| <= 1
    && (s.activeInFlight <==> |s.flights| == 1)
    && (forall c :: 0 <= c < |s.outcomes| ==> |s.outcomes[c]| == if WaitsFor(s, c) then 0 else 1)
    && (s.pending.Some? ==> PendingWaits(s, s.pending.value))
    && (s.timer.Some? ==> s.pending.Some?)
    && (forall i :: 0 <= i < |s.flights| ==>
          && s.flights[i].entry.call < |s.outcomes|
          && s.flights[i].entry.generation <= s.generation
          && (s.pending.Some? ==> s.flights[i].entry.call < s.pending.value.call))
  }

  /** A pending query is the latest call, and waits on exactly one of its armed timer and the request in flight. */
  predicate PendingWaits(s: State, e: Entry) {
    && e.call + 1 == |s.outcomes|
    && e.generation == s.generation
    && e.mode == s.mode
    && !s.disposed
    && (if e.dueReached then s.timer.None? && s.activeInFlight else s.timer == Some(e.call))
  }

  lemma OneFlight(s: State)
    requires |s.flights| <= 1
    ensures forall c :: WaitsFor(s, c) <==>
                        || (s.pending.Some? && s.pending.value.call == c)
                        || (|s.flights| == 1 && !s.flights[0].answered && s.flights[0].entry.call == c)
  {
  }

  /** Superseding whatever is pending: its call resolves as stale. */
  lemma InvCleared(s: State, s': State)
    requires Inv(s) && s'.flights == s.flights && s'.activeInFlight == s.activeInFlight && s'.outcomes == s.outcomes
    requires s'.supported == s.supported && s'.mode in s.supported && s'.generation >= s.generation
    requires s'.pending == s.pending && s'.timer == s.timer
    ensures Inv(ClearPending(s')) && ClearPending(s').pending.None?
  {
    OneFlight(s);
    OneFlight(ClearPending(s'));
  }

  /** A new call joins a session with nothing pending, unresolved only if it becomes the pending query. */
  lemma InvCalled(s: State, s': State)
    requires Inv(s) && s.pending.None?
    requires s'.flights == s.flights && s'.activeInFlight == s.activeInFlight
    requires s'.supported == s.supported && s'.mode == s.mode && s'.generation >= s.generation
    requires |s'.outcomes| == |s.outcomes| + 1 && s'.outcomes[..|s.outcomes|] == s.outcomes
    requires |s'.outcomes[|s.outcomes|]| == if s'.pending.Some? then 0 else 1
    requires s'.pending.Some? ==> PendingWaits(s', s'.pending.value)
    requires s'.timer.Some? ==> s'.pending.Some?
    ensures Inv(s')
  {
    OneFlight(s);
    OneFlight(s');
    assert forall c :: 0 <= c < |s.outcomes| ==> s'.outcomes[c] == s.outcomes[c];
  }

  lemma InvSearch(s: State, blank: bool)
    requires Inv(s)
    ensures Inv(Searched(s, blank))
  {
    var raised := s.(generation := s.generation + 1);
    InvCleared(s, raised);
    InvCalled(ClearPending(raised), Searched(s, blank));
  }

  lemma InvTimer(s: State)
    requires Inv(s) && s.timer.Some?
    ensures Inv(Next(s, TimerFires))
  {
    OneFlight(s);
    OneFlight(Next(s, TimerFires));
  }

  lemma InvAnswer(s: State, i: nat, a: Answer)
    requires Inv(s) && Enabled(s, BackendAnswers(i, a))
    ensures Inv(Next(s, BackendAnswers(i, a)))
  {
    OneFlight(s);
    OneFlight(Next(s, BackendAnswers(i, a)));
  }

  lemma InvFlightEnds(s: State, i: nat)
    requires Inv(s) && Enabled(s, FlightEnds(i))
    ensures Inv(Next(s, FlightEnds(i)))
  {
    OneFlight(s);
    OneFlight(Next(s, FlightEnds(i)));
  }

  lemma InvStep(s: State, step: Step)
    requires Inv(s) && Enabled(s, step)
    ensures Inv(Next(s, step))
  {
    match step {
      case Search(blank) => InvSearch(s, blank);
      case SetMode(mode) =>
        if mode in s.supported { InvCleared(s, s.(generation := s.generation + 1, mode := mode)); }
      case Dispose => InvCleared(s, s.(disposed := true, generation := s.generation + 1));
      case TimerFires => InvTimer(s);
      case BackendAnswers(i, a) => InvAnswer(s, i, a);
      case FlightEnds(i) => InvFlightEnds(s, i);
      case IdentityChanges(_) => OneFlight(s); OneFlight(Next(s, step));
    }
  }

  /// ---- whole runs --------------------------------------------------------------------------------

  ghost predicate IsRun(ss: seq<State>, steps: seq<Step>) {
    && |ss| == |steps| + 1
    && ss[0].mode in ss[0].supported && ss[0] == Start(ss[0].supported, ss[0].mode, ss[0].instance)
    && forall k: nat :: k < |steps| ==> StepAt(ss, steps, k)
  }

  ghost predicate StepAt(ss: seq<State>, steps: seq<Step>, k: nat)
    requires k < |steps| && |ss| == |steps| + 1
  {
    Enabled(ss[k], steps[k]) && ss[k + 1] == Next(ss[k], steps[k])
  }

  lemma {:induction false} RunInv(ss: seq<State>, steps: seq<Step>, i: nat)
    requires IsRun(ss, steps) && i < |ss|
    ensures Inv(ss[i])
    decreases i
  {
    if i > 0 {
      RunInv(ss, steps, i - 1);
      assert StepAt(ss, steps, i - 1);
      InvStep(ss[i - 1], steps[i - 1]);
    }
  }

  /** In every run each call has resolved at most once, it is unresolved only while something is about to resolve it,
      and at most one request is with the backend. */
  lemma ResolvedAtMostOnce(ss: seq<State>, steps: seq<Step>, i: nat, c: nat)
    requires IsRun(ss, steps) && i < |ss| && c < |ss[i].outcomes|
    ensures |ss[i].outcomes[c]| <= 1
    ensures ss[i].outcomes[c] == [] <==> WaitsFor(ss[i], c)
    ensures |ss[i].flights| <= 1
  {
    RunInv(ss, steps, i);
  }

  /** A call that starts or invalidates: it makes every earlier query stale. */
  predicate Supersedes(s: State, step: Step) {
    match step
    case Search(_) => true
    case SetMode(mode) => mode in s.supported
    case Dispose => !s.disposed
    case _ => false
  }

  lemma GenerationStep(s: State, step: Step)
    requires Enabled(s, step)
    ensures s.generation <= Next(s, step).generation
    ensures Supersedes(s, step) ==> s.generation < Next(s, step).generation
  {
  }

  lemma {:induction false} GenerationCounts(ss: seq<State>, steps: seq<Step>, i: nat, j: nat)
    requires IsRun(ss, steps) && i <= j < |ss|
    ensures ss[i].generation <= ss[j].generation
    ensures (exists k :: i <= k < j && Supersedes(ss[k], steps[k])) ==> ss[i].generation < ss[j].generation
    decreases j
  {
    if i < j {
      GenerationCounts(ss, steps, i, j - 1);
      assert StepAt(ss, steps, j - 1);
      GenerationStep(ss[j - 1], steps[j - 1]);
    }
  }

  ghost predicate EntriesOf(s: State, c: nat, generation: nat) {
    && c < |s.outcomes|
    && (s.pending.Some? && s.pending.value.call == c ==> s.pending.value.generation == generation)
    && (forall i :: 0 <= i < |s.flights| && s.flights[i].entry.call == c ==> s.flights[i].entry.generation == generation)
  }

  lemma EntriesTimer(s: State, c: nat, generation: nat)
    requires Inv(s) && s.timer.Some? && EntriesOf(s, c, generation)
    ensures EntriesOf(Next(s, TimerFires), c, generation)
  {
  }

  lemma EntriesFlightEnds(s: State, i: nat, c: nat, generation: nat)
    requires Inv(s) && Enabled(s, FlightEnds(i)) && EntriesOf(s, c, generation)
    ensures EntriesOf(Next(s, FlightEnds(i)), c, generation)
  {
    assert s.flights[..i] + s.flights[i + 1..] == [];
  }

  lemma EntriesStep(s: State, step: Step, c: nat, generation: nat)
    requires Inv(s) && Enabled(s, step) && EntriesOf(s, c, generation)
    ensures EntriesOf(Next(s, step), c, generation)
  {
    match step {
      case TimerFires => EntriesTimer(s, c, generation);
      case FlightEnds(i) => EntriesFlightEnds(s, i, c, generation);
      case _ =>
    }
  }

  lemma EntryStarts(s: State, blank: bool)
    requires Inv(s)
    ensures EntriesOf(Next(s, Search(blank)), |s.outcomes|, Next(s, Search(blank)).generation)
  {
  }

  /** The entry of the call made at step `i` keeps that call's generation. */
  lemma {:induction false} EntryKeepsGeneration(ss: seq<State>, steps: seq<Step>, i: nat, j: nat)
    requires IsRun(ss, steps) && i < j < |ss| && steps[i].Search?
    ensures EntriesOf(ss[j], |ss[i].outcomes|, ss[i + 1].generation)
    decreases j
  {
    RunInv(ss, steps, j - 1);
    assert StepAt(ss, steps, j - 1);
    if i + 1 < j {
      EntryKeepsGeneration(ss, steps, i, j - 1);
      EntriesStep(ss[j - 1], steps[j - 1], |ss[i].outcomes|, ss[i + 1].generation);
    } else {
      EntryStarts(ss[i], steps[i].blank);
    }
  }

  /** Results come from an answer to the call's own request, judged at the generation the request was made in. */
  lemma ResultsComeFromAnswer(s: State, step: Step, c: nat)
    requires Inv(s) && Enabled(s, step) && c < |s.outcomes| <= |Next(s, step).outcomes|
    requires Results in Next(s, step).outcomes[c] && Results !in s.outcomes[c]
    ensures step.BackendAnswers? && s.flights[step.i].entry.call == c
    ensures s.flights[step.i].entry.generation == s.generation && !s.disposed && !Supersedes(s, step)
  {
  }

  /** A call gets results only if no later search, accepted mode change or dispose came before them. */
  lemma ResultsReachOnlyLatest(ss: seq<State>, steps: seq<Step>, i: nat, j: nat)
    requires IsRun(ss, steps) && i < j < |steps| && steps[i].Search?
    requires |ss[i].outcomes| < |ss[j].outcomes| && |ss[i].outcomes| < |ss[j + 1].outcomes|
    requires Results in ss[j + 1].outcomes[|ss[i].outcomes|] && Results !in ss[j].outcomes[|ss[i].outcomes|]
    ensures forall k :: i < k <= j ==> !Supersedes(ss[k], steps[k])
    ensures !ss[j].disposed
  {
    var c := |ss[i].outcomes|;
    EntryKeepsGeneration(ss, steps, i, j);
    RunInv(ss, steps, j);
    assert StepAt(ss, steps, j);
    OutcomesGrow(ss[j], steps[j]);
    ResultsComeFromAnswer(ss[j], steps[j], c);
    GenerationCounts(ss, steps, i + 1, j);
  }

  lemma OutcomesGrow(s: State, step: Step)
    requires Enabled(s, step)
    ensures |s.outcomes| <= |Next(s, step).outcomes|
  {
  }

  /// ---- no dispatch is lost --------------------------------------------------------------------------

  /** A timer firing, a backend answering, or the turn after an answer. */
  predicate Internal(step: Step) {
    step.TimerFires? || step.BackendAnswers? || step.FlightEnds?
  }

  /** How many internal steps are left at most. */
  function Rank(s: State): nat {
    (if s.pending.None? then 0 else if s.pending.value.dueReached then 3 else 4)
    + (if s.flights == [] then 0 else if s.flights[0].answered then 1 else 2)
  }

  lemma InternalDecreases(s: State, step: Step)
    requires Inv(s) && Enabled(s, step) && Internal(step)
    ensures Rank(Next(s, step)) < Rank(s)
  {
  }

  predicate Unresolved(s: State, c: nat) {
    c < |s.outcomes| && s.outcomes[c] == []
  }

  /** While a call is unresolved some internal step can happen. */
  lemma SomethingPending(s: State, c: nat)
    requires Inv(s) && Unresolved(s, c)
    ensures Enabled(s, TimerFires) || (exists a :: Enabled(s, BackendAnswers(0, a))) || Enabled(s, FlightEnds(0))
  {
    OneFlight(s);
    assert WaitsFor(s, c);
    if s.flights != [] && !s.flights[0].answered {
      assert Enabled(s, BackendAnswers(0, Refusal(false)));
    }
  }

  ghost predicate IsInternalRun(ss: seq<State>, steps: seq<Step>) {
    && |ss| == |steps| + 1 && Inv(ss[0])
    && forall k: nat :: k < |steps| ==> Internal(steps[k]) && StepAt(ss, steps, k)
  }

  /**
   When callers stop, timers and answers run out within Rank steps; once none is left every call has
   been resolved exactly once.
   */
  lemma {:induction false} EveryCallResolves(ss: seq<State>, steps: seq<Step>)
    requires IsInternalRun(ss, steps)
    ensures |steps| + Rank(ss[|steps|]) <= Rank(ss[0])
    ensures Inv(ss[|steps|])
    ensures (forall step :: Internal(step) ==> !Enabled(ss[|steps|], step))
            ==> forall c :: 0 <= c < |ss[|steps|].outcomes| ==> |ss[|steps|].outcomes[c]| == 1
    decreases |steps|
  {
    var n := |steps|;
    if n > 0 {
      var states, front := ss[..n], steps[..n - 1];
      forall k: nat | k < |front| ensures Internal(front[k]) && StepAt(states, front, k) {
        assert StepAt(ss, steps, k);
      }
      EveryCallResolves(states, front);
      assert StepAt(ss, steps, n - 1);
      InvStep(ss[n - 1], steps[n - 1]);
      InternalDecreases(ss[n - 1], steps[n - 1]);
    }
    if forall step :: Internal(step) ==> !Enabled(ss[n], step) {
      forall c | 0 <= c < |ss[n].outcomes| ensures |ss[n].outcomes[c]| == 1 {
        if Unresolved(ss[n], c) {
          SomethingPending(ss[n], c);
        }
      }
    }
  }
}
