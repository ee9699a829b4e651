/** The diagnostic ring buffer and the export plan taken from it. */
module DiagnosticRing {
  import opened Vault
  import opened Arithmetic

  const MAX_DIAGNOSTIC_CAPACITY := 10_000

  datatype Level = Debug | Info | Warn | Error {
    /** LEVELS.indexOf. */
    function Index(): nat {
      match this case Debug => 0 case Info => 1 case Warn => 2 case Error => 3
    }
  }

  datatype Event = Event(level: Level, code: string, details: string)

  datatype Entry = Entry(sequence: nat, event: Event)

  datatype Snapshot = Snapshot(capacity: nat, dropped: nat, entries: seq<Entry>)

  datatype ExportPlan = ExportPlan(
    retainedEntries: nat,
    selectedEntries: nat,
    droppedEntries: nat,
    filteredOutEntries: nat,
    entries: seq<Entry>)

  /** Entries of at least a level, in order. */
  function AtLeast(entries: seq<Entry>, minimum: Level): (kept: seq<Entry>)
    ensures |kept| <= |entries|
  {
    if entries == [] then []
    else
      var last := entries[|entries| - 1];
      AtLeast(entries[..|entries| - 1], minimum)
      + if last.event.level.Index() >= minimum.Index() then [last] else []
  }

  lemma AtLeastSnoc(entries: seq<Entry>, n: nat, minimum: Level)
    requires n < |entries|
    ensures AtLeast(entries[..n + 1], minimum) ==
            AtLeast(entries[..n], minimum) + if entries[n].event.level.Index() >= minimum.Index() then [entries[n]] else []
  {
    assert entries[..n + 1][..n] == entries[..n];
  }

  /** Entries of the given categories; None keeps all of them. */
  function InCategories(entries: seq<Entry>, categories: Option<seq<string>>): (kept: seq<Entry>)
    ensures |kept| <= |entries|
  {
    if entries == [] then []
    else
      var last := entries[|entries| - 1];
      InCategories(entries[..|entries| - 1], categories)
      + if categories.None? || last.event.code in categories.value then [last] else []
  }

  lemma {:induction false} DebugKeepsAll(entries: seq<Entry>)
    ensures AtLeast(entries, Debug) == entries
  {
    if entries != [] {
      DebugKeepsAll(entries[..|entries| - 1]);
    }
  }

  /** debug, info, warn, error: a level admits itself and the ones after it. */
  predicate Admits(minimum: Level, level: Level) {
    match minimum
    case Debug => true
    case Info => level != Debug
    case Warn => level == Warn || level == Error
    case Error => level == Error
  }

  predicate Wanted(e: Entry, minimum: Level, categories: Option<seq<string>>) {
    Admits(minimum, e.event.level) && (categories == None || e.event.code in categories.value)
  }

  /** The entries at these positions, in order. */
  predicate Picks(kept: seq<Entry>, entries: seq<Entry>, at: seq<nat>) {
    && |at| == |kept|
    && (forall k :: 0 <= k < |at| ==> at[k] < |entries| && kept[k] == entries[at[k]])
    && (forall j, k :: 0 <= j < k < |at| ==> at[j] < at[k])
  }

  /** Exactly the entries of an admitted level and a wanted category, in the order in which they were recorded. */
  ghost predicate Selects(kept: seq<Entry>, entries: seq<Entry>, minimum: Level, categories: Option<seq<string>>) {
    exists at: seq<nat> :: SelectsAt(kept, entries, minimum, categories, at)
  }

  ghost predicate SelectsAt(kept: seq<Entry>, entries: seq<Entry>, minimum: Level, categories: Option<seq<string>>, at: seq<nat>) {
    Picks(kept, entries, at) && forall i: nat :: i < |entries| ==> (i in at <==> Wanted(entries[i], minimum, categories))
  }

  /** One more entry is picked or passed over. */
  lemma SelectsNext(before: seq<Entry>, kept: seq<Entry>, entries: seq<Entry>, minimum: Level, categories: Option<seq<string>>,
                    picked: seq<nat>, at: seq<nat>)
    requires entries != []
    requires SelectsAt(before, entries[..|entries| - 1], minimum, categories, picked)
    requires var n := |entries| - 1;
             if Wanted(entries[n], minimum, categories) then kept == before + [entries[n]] && at == picked + [n]
             else kept == before && at == picked
    ensures SelectsAt(kept, entries, minimum, categories, at)
  {
    var n, front := |entries| - 1, entries[..|entries| - 1];
    assert forall i: nat :: i < n ==> entries[i] == front[i];
    forall i: nat | i in picked ensures i < n {
      var k :| 0 <= k < |picked| && picked[k] == i;
    }
    if Wanted(entries[n], minimum, categories) {
      assert at[|picked|] == n;
    }
    forall i: nat | i < |entries| ensures i in at <==> Wanted(entries[i], minimum, categories) {
      assert i < n ==> (i in picked <==> Wanted(front[i], minimum, categories));
    }
  }

  /** How the two filters treat the last entry. */
  lemma FiltersNext(entries: seq<Entry>, minimum: Level, categories: Option<seq<string>>)
    requires entries != []
    ensures
      var n := |entries| - 1;
      InCategories(AtLeast(entries, minimum), categories) ==
      if Wanted(entries[n], minimum, categories) then InCategories(AtLeast(entries[..n], minimum), categories) + [entries[n]]
      else InCategories(AtLeast(entries[..n], minimum), categories)
  {
    var n := |entries| - 1;
    var levels := AtLeast(entries[..n], minimum);
    assert (levels + [entries[n]])[..|levels|] == levels && levels + [] == levels;
  }

  lemma {:induction false} FiltersSelect(entries: seq<Entry>, minimum: Level, categories: Option<seq<string>>) returns (at: seq<nat>)
    ensures SelectsAt(InCategories(AtLeast(entries, minimum), categories), entries, minimum, categories, at)
  {
    if entries == [] {
      return [];
    }
    var n := |entries| - 1;
    var picked := FiltersSelect(entries[..n], minimum, categories);
    FiltersNext(entries, minimum, categories);
    at := if Wanted(entries[n], minimum, categories) then picked + [n] else picked;
    SelectsNext(InCategories(AtLeast(entries[..n], minimum), categories), InCategories(AtLeast(entries, minimum), categories),
                entries, minimum, categories, picked, at);
  }

  lemma {:induction false} AnyCategory(entries: seq<Entry>)
    ensures InCategories(entries, None) == entries
  {
    if entries != [] {
      AnyCategory(entries[..|entries| - 1]);
    }
  }

  /** Numbers that follow one another, ending just before `next`. */
  predicate Consecutive(entries: seq<Entry>, next: nat) {
    |entries| < next && forall k :: 0 <= k < |entries| ==> entries[k].sequence == next - |entries| + k
  }

  /** Sequence numbers identify entries, so a report's order is the order of capture. */
  lemma ConsecutiveIncreasing(entries: seq<Entry>, next: nat, i: nat, j: nat)
    requires Consecutive(entries, next) && i < j < |entries|
    ensures entries[j].sequence == entries[i].sequence + (j - i)
  {
  }

  /** The last `n` of a history. */
  function Last(history: seq<Entry>, n: nat): seq<Entry>
    requires n <= |history|
  {
    history[|history| - n..]
  }

  /** The position `k` slots after `start` in a ring. */
  function Slot(start: nat, k: nat, capacity: nat): nat
    requires start < capacity && k <= capacity
  {
    if start + k < capacity then start + k else start + k - capacity
  }

  lemma LastAfter(history: seq<Entry>, entry: Entry, n: nat)
    requires n <= |history|
    ensures Last(history + [entry], n + 1) == Last(history, n) + [entry]
    ensures n > 0 ==> Last(history + [entry], n) == Last(history, n)[1..] + [entry]
  {
  }

  /** The ring holds `retained`, oldest first from `start`. */
  predicate Ring(slots: seq<Option<Entry>>, start: nat, retained: seq<Entry>) {
    && start < |slots| && |retained| <= |slots|
    && forall k :: 0 <= k < |retained| ==> slots[Slot(start, k, |slots|)] == Some(retained[k])
  }

  lemma RingGrows(slots: seq<Option<Entry>>, start: nat, retained: seq<Entry>, entry: Entry)
    requires Ring(slots, start, retained) && |retained| < |slots|
    ensures Ring(slots[Slot(start, |retained|, |slots|) := Some(entry)], start, retained + [entry])
  {
  }

  lemma RingTurns(slots: seq<Option<Entry>>, start: nat, retained: seq<Entry>, entry: Entry)
    requires Ring(slots, start, retained) && |retained| == |slots|
    ensures Ring(slots[start := Some(entry)], Slot(start, 1, |slots|), retained[1..] + [entry])
  {
    var capacity, now, all := |slots|, slots[start := Some(entry)], retained[1..] + [entry];
    var next := Slot(start, 1, capacity);
    forall k | 0 <= k < |all| ensures now[Slot(next, k, capacity)] == Some(all[k]) {
      if k + 1 < capacity {
        assert Slot(next, k, capacity) == Slot(start, k + 1, capacity);
        assert all[k] == retained[k + 1];
      }
    }
  }

  lemma SlotIsModulo(start: nat, k: nat, capacity: nat)
    requires start < capacity && k <= capacity
    ensures (start + k) % capacity == Slot(start, k, capacity)
  {
    if start + k < capacity {
      DivUnique(0, start + k, capacity);
    } else {
      DivUnique(1, start + k - capacity, capacity);
    }
  }

  class DiagnosticLog {
    const capacity: nat
    const slots: array<Option<Entry>>
    var start: nat
    var size: nat
    var nextSequence: nat
    var dropped: nat
    /** Everything recorded since the last clear. */
    ghost var history: seq<Entry>

    ghost predicate Valid()
      reads this, slots
    {
      && 0 < capacity <= MAX_DIAGNOSTIC_CAPACITY && slots.Length == capacity
      && start < capacity
      && size == (if |history| < capacity then |history| else capacity)
      && dropped + size == |history|
      && Consecutive(history, nextSequence)
      && Ring(slots[..], start, Last(history, size))
    }

    constructor (capacity: nat)
      requires 0 < capacity <= MAX_DIAGNOSTIC_CAPACITY
      ensures Valid() && fresh(slots) && this.capacity == capacity && history == [] && nextSequence == 1
    {
      this.capacity := capacity;
      slots := new Option<Entry>[capacity](_ => None);
      start, size, nextSequence, dropped, history := 0, 0, 1, 0, [];
    }

    /** The slot `k` after the oldest entry's. */
    method SlotAt(k: nat) returns (slot: nat)
      requires start < capacity && k <= capacity
      ensures slot == Slot(start, k, capacity)
    {
      SlotIsModulo(start, k, capacity);
      slot := (start + k) % capacity;
    }

    method Append(event: Event)
      requires Valid()
      modifies this`start, this`size, this`nextSequence, this`dropped, this`history, slots
      ensures Valid()
      ensures history == old(history) + [Entry(old(nextSequence), event)]
      ensures nextSequence == old(nextSequence) + 1
    {
      var entry := Entry(nextSequence, event);
      nextSequence := nextSequence + 1;
      LastAfter(history, entry, size);
      Place(entry, Last(history, size));
      history := history + [entry];
    }

    /** Into the first free slot, or over the oldest entry. */
    method Place(entry: Entry, ghost retained: seq<Entry>)
      requires slots.Length == capacity && Ring(slots[..], start, retained) && size == |retained|
      modifies this`start, this`size, this`dropped, slots
      ensures Ring(slots[..], start, if old(size) < capacity then retained + [entry] else retained[1..] + [entry])
      ensures size == (if old(size) < capacity then old(size) + 1 else capacity)
      ensures dropped == (if old(size) < capacity then old(dropped) else old(dropped) + 1)
    {
      ghost var was := slots[..];
      if size < capacity {
        RingGrows(was, start, retained, entry);
        var free := SlotAt(size);
        slots[free] := Some(entry);
        assert slots[..] == was[Slot(start, size, capacity) := Some(entry)];
        size := size + 1;
      } else {
        RingTurns(was, start, retained, entry);
        slots[start] := Some(entry);
        assert slots[..] == was[start := Some(entry)];
        start := SlotAt(1);
        dropped := dropped + 1;
      }
    }

    method TakeSnapshot(minimumLevel: Level) returns (snapshot: Snapshot)
      requires Valid()
      ensures snapshot == Snapshot(capacity, dropped, AtLeast(Last(history, size), minimumLevel))
      ensures snapshot.dropped + size == |history|
      ensures Selects(snapshot.entries, Last(history, size), minimumLevel, None)
    {
      var entries: seq<Entry> := [];
      ghost var retained := Last(history, size);
      for offset := 0 to size
        invariant entries == AtLeast(retained[..offset], minimumLevel)
      {
        AtLeastSnoc(retained, offset, minimumLevel);
        var slot := SlotAt(offset);
        var entry := slots[slot];
        assert entry == Some(retained[offset]);
        if entry.Some? && entry.value.event.level.Index() >= minimumLevel.Index() {
          entries := entries + [entry.value];
        }
      }
      assert retained[..size] == retained;
      snapshot := Snapshot(capacity, dropped, entries);
      AnyCategory(entries);
      ghost var _ := FiltersSelect(retained, minimumLevel, None);
    }

    /** Forgets the entries but never the numbering. */
    method Clear()
      requires Valid()
      modifies this`start, this`size, this`dropped, this`history, slots
      ensures Valid() && history == [] && dropped == 0 && nextSequence == old(nextSequence)
      ensures forall k :: 0 <= k < capacity ==> slots[k] == None
    {
      for k := 0 to capacity
        modifies slots
        invariant forall j :: 0 <= j < k ==> slots[j] == None
      {
        slots[k] := None;
      }
      start, size, dropped, history := 0, 0, 0, [];
    }

    /** createDiagnosticExportPlan: the counts and the records come from one snapshot. */
    method CreateExportPlan(minimumLevel: Level, categories: Option<seq<string>>) returns (plan: ExportPlan)
      requires Valid()
      ensures plan.entries == InCategories(AtLeast(Last(history, size), minimumLevel), categories)
      ensures Selects(plan.entries, Last(history, size), minimumLevel, categories)
      ensures plan.selectedEntries == |plan.entries| && plan.retainedEntries == size
      ensures plan.selectedEntries + plan.filteredOutEntries == plan.retainedEntries
      ensures plan.retainedEntries + plan.droppedEntries == |history|
    {
      var snapshot := TakeSnapshot(Debug);
      DebugKeepsAll(Last(history, size));
      var selected := InCategories(AtLeast(snapshot.entries, minimumLevel), categories);
      ghost var _ := FiltersSelect(snapshot.entries, minimumLevel, categories);
      plan := ExportPlan(|snapshot.entries|, |selected|, snapshot.dropped, |snapshot.entries| - |selected|, selected);
    }
  }
}
