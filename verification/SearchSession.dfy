/** The session object: one method per turn, each against the machine's step. */
module SearchSession {
  import opened Vault
  import opened SearchScheduling

  class SearchSessionController {
    var generation: nat
    var disposed: bool
    const supportedModes: set<Mode>
    var mode: Mode
    var instanceId: InstanceId
    var pending: Option<Entry>
    var timerHandle: Option<nat>
    var activeInFlight: bool
    var flights: seq<Flight>
    var outcomes: seq<seq<Outcome>>

    function S(): State
      reads this
    {
      State(generation, disposed, supportedModes, mode, instanceId, pending, timerHandle, activeInFlight, flights, outcomes)
    }

    /** An unsupported initial mode falls back to the first supported one. */
    constructor (supportedModes: seq<Mode>, initialMode: Mode, instanceId: InstanceId)
      requires supportedModes != []
      ensures S() == Start(set m | m in supportedModes, if initialMode in supportedModes then initialMode else supportedModes[0], instanceId)
      ensures Inv(S())
    {
      generation, disposed := 0, false;
      this.supportedModes := set m | m in supportedModes;
      mode := if initialMode in supportedModes then initialMode else supportedModes[0];
      this.instanceId := instanceId;
      pending, timerHandle, activeInFlight, flights, outcomes := None, None, false, [], [];
    }

    method Resolve(call: nat, outcome: Outcome)
      modifies this`outcomes
      ensures S() == SearchScheduling.Resolve(old(S()), call, outcome)
    {
      if call < |outcomes| {
        outcomes := outcomes[call := outcomes[call] + [outcome]];
      }
    }

    /** Cancels the pending query, if any, and resolves it as stale. */
    method ClearPending()
      modifies this
      ensures S() == SearchScheduling.ClearPending(old(S()))
    {
      if pending.None? { return; }
      var entry := pending.value;
      pending := None;
      if timerHandle.Some? { timerHandle := None; }
      Resolve(entry.call, Stale);
    }

    method SetMode(mode: Mode) returns (accepted: bool)
      modifies this
      ensures accepted <==> mode in supportedModes
      ensures S() == Next(old(S()), Step.SetMode(mode))
    {
      if mode !in supportedModes { return false; }
      generation := generation + 1;
      this.mode := mode;
      ClearPending();
      accepted := true;
    }

    /** search: `blank` says whether the trimmed query is empty. Returns the number of the call. */
    method Search(blank: bool) returns (call: nat)
      modifies this
      ensures call == |old(outcomes)|
      ensures S() == Next(old(S()), Step.Search(blank))
      ensures old(Inv(S())) ==> Inv(S())
    {
      if Inv(S()) { InvStep(S(), Step.Search(blank)); }
      call := |outcomes|;
      generation := generation + 1;
      outcomes := outcomes + [[]];
      var mine := generation;
      if disposed {
        Resolve(call, Failed);
        return;
      }
      if blank {
        ClearPending();
        Resolve(call, Empty);
        return;
      }
      if mode !in supportedModes {
        ClearPending();
        Resolve(call, Failed);
        return;
      }
      ClearPending();
      pending := Some(Entry(call, mine, instanceId, mode, false));
      timerHandle := Some(call);
    }

    method Dispose()
      requires Inv(S())
      modifies this
      ensures S() == Next(old(S()), Step.Dispose) && Inv(S())
    {
      InvStep(S(), Step.Dispose);
      if disposed { return; }
      disposed := true;
      generation := generation + 1;
      ClearPending();
    }

    method TryDispatch()
      modifies this
      decreases if pending.Some? then 1 else 0
      ensures S() == SearchScheduling.TryDispatch(old(S()))
    {
      if activeInFlight { return; }
      if pending.None? || !pending.value.dueReached { return; }
      var entry := pending.value;
      pending := None;
      if entry.instance != instanceId {
        Resolve(entry.call, Stale);
        TryDispatch();
        return;
      }
      activeInFlight := true;
      flights := flights + [Flight(entry, false)];
    }

    /** The debounce timer's callback. */
    method TimerFired()
      requires Inv(S()) && Enabled(S(), TimerFires)
      modifies this
      ensures S() == Next(old(S()), TimerFires) && Inv(S())
    {
      InvStep(S(), TimerFires);
      var armedFor := timerHandle.value;
      timerHandle := None;
      if pending.None? || pending.value.call != armedFor { return; }
      pending := Some(pending.value.(dueReached := true));
      TryDispatch();
    }

    /** runSearch after the backend has settled. */
    method Answered(i: nat, answer: Answer)
      requires Inv(S()) && Enabled(S(), BackendAnswers(i, answer))
      modifies this
      ensures S() == Next(old(S()), BackendAnswers(i, answer)) && Inv(S())
    {
      InvStep(S(), BackendAnswers(i, answer));
      var entry := flights[i].entry;
      var outcome: Outcome;
      match answer {
        case Execution(instance, requestedMode, effectiveMode) =>
          if disposed || entry.generation != generation || entry.instance != instanceId
             || instance != entry.instance || requestedMode != entry.mode || effectiveMode != entry.mode {
            outcome := Stale;
          } else {
            outcome := Results;
          }
        case Refusal(wasDisposed) =>
          outcome := if disposed || entry.generation != generation || wasDisposed then Stale else Failed;
      }
      Resolve(entry.call, outcome);
      flights := flights[i := Flight(entry, true)];
    }

    /** The finally turn of a dispatch. */
    method FlightEnded(i: nat)
      requires Inv(S()) && Enabled(S(), FlightEnds(i))
      modifies this
      ensures S() == Next(old(S()), FlightEnds(i)) && Inv(S())
    {
      InvStep(S(), FlightEnds(i));
      activeInFlight := false;
      flights := flights[..i] + flights[i + 1..];
      TryDispatch();
    }
  }
}
