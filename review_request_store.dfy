/**
 * `ReviewRequestStore`: the three values that drive review prompts (the date
 * of the last prompt, and the launches and positive events since then),
 * kept in a user-defaults domain under keys with the `reviewRequester.`
 * prefix. The defaults domain is modelled as an in-memory map from key to
 * stored object; dates are instants on an abstract integer time line.
 */
module ReviewRequestStore {
  import opened Wrappers

  /** An instant (`Date`). */
  type Date = int

  /** An object stored in the defaults domain. */
  datatype StoredValue = IntValue(n: int) | DateValue(date: Date)

  const KeyPrefix: string := "reviewRequester."
  const PromptDateKey: string := KeyPrefix + "lastPromptDate"
  const LaunchCountKey: string := KeyPrefix + "launchesSincePrompt"
  const EventCountKey: string := KeyPrefix + "eventsSincePrompt"

  /** `integer(forKey:)`: the stored integer, or 0 when the key is absent or holds something else. */
  function IntegerFor(defaults: map<string, StoredValue>, key: string): (n: int)
    ensures key !in defaults ==> n == 0
    ensures key in defaults && defaults[key].IntValue? ==> n == defaults[key].n
  {
    if key in defaults && defaults[key].IntValue? then defaults[key].n else 0
  }

  /** `object(forKey:) as? Date`: the stored date, or none when the key is absent or holds something else. */
  function DateFor(defaults: map<string, StoredValue>, key: string): (d: Option<Date>)
    ensures d.Some? <==> key in defaults && defaults[key].DateValue?
    ensures d.Some? ==> d.value == defaults[key].date
  {
    if key in defaults && defaults[key].DateValue? then Some(defaults[key].date) else None
  }

  /** What a strategy reads from the store. */
  datatype Snapshot = Snapshot(lastPromptDate: Option<Date>, launchesSincePrompt: int, eventsSincePrompt: int)

  /** The store's three values as read from a defaults domain. */
  function SnapshotOf(defaults: map<string, StoredValue>): (s: Snapshot)
    ensures s.lastPromptDate == DateFor(defaults, PromptDateKey)
    ensures s.launchesSincePrompt == IntegerFor(defaults, LaunchCountKey)
    ensures s.eventsSincePrompt == IntegerFor(defaults, EventCountKey)
  {
    Snapshot(DateFor(defaults, PromptDateKey), IntegerFor(defaults, LaunchCountKey), IntegerFor(defaults, EventCountKey))
  }

  /** `set(_:forKey:)` with a date, or with `nil`, which removes the key. */
  function WriteDate(defaults: map<string, StoredValue>, key: string, d: Option<Date>): map<string, StoredValue> {
    if d.Some? then defaults[key := DateValue(d.value)] else defaults - {key}
  }

  /** The three keys are pairwise different and all carry the prefix. */
  lemma KeysDistinct()
    ensures PromptDateKey != LaunchCountKey && PromptDateKey != EventCountKey && LaunchCountKey != EventCountKey
    ensures forall k | k in {PromptDateKey, LaunchCountKey, EventCountKey} :: |KeyPrefix| <= |k| && k[..|KeyPrefix|] == KeyPrefix
  {
    assert PromptDateKey[|KeyPrefix|] == 'l';
    assert LaunchCountKey[|KeyPrefix|] == 'l';
    assert EventCountKey[|KeyPrefix|] == 'e';
    assert PromptDateKey[|KeyPrefix| + 1] == 'a';
    assert LaunchCountKey[|KeyPrefix| + 1] == 'a';
    assert PromptDateKey[|KeyPrefix| + 2] == 's';
    assert LaunchCountKey[|KeyPrefix| + 2] == 'u';
  }

  /** An empty defaults domain reads as no prompt yet and both counters at 0. */
  lemma FreshSnapshot()
    ensures SnapshotOf(map[]) == Snapshot(None, 0, 0)
  {
  }

  /** Writing the launch counter changes no other value. */
  lemma WriteLaunchesIsolated(defaults: map<string, StoredValue>, n: int)
    ensures SnapshotOf(defaults[LaunchCountKey := IntValue(n)]) == SnapshotOf(defaults).(launchesSincePrompt := n)
  {
    KeysDistinct();
  }

  /** Writing the event counter changes no other value. */
  lemma WriteEventsIsolated(defaults: map<string, StoredValue>, n: int)
    ensures SnapshotOf(defaults[EventCountKey := IntValue(n)]) == SnapshotOf(defaults).(eventsSincePrompt := n)
  {
    KeysDistinct();
  }

  /** Writing the prompt date changes no other value. */
  lemma WriteDateIsolated(defaults: map<string, StoredValue>, d: Option<Date>)
    ensures SnapshotOf(WriteDate(defaults, PromptDateKey, d)) == SnapshotOf(defaults).(lastPromptDate := d)
  {
    KeysDistinct();
  }

  /** The store's mutating operations. */
  datatype StoreOp = RecordLaunch | RecordEvent | RecordPromptShown(now: Date)

  /** The values after one operation. */
  function Step(s: Snapshot, op: StoreOp): (r: Snapshot)
    ensures op.RecordLaunch? ==> r.launchesSincePrompt == s.launchesSincePrompt + 1 && r.eventsSincePrompt == s.eventsSincePrompt
    ensures op.RecordEvent? ==> r.eventsSincePrompt == s.eventsSincePrompt + 1 && r.launchesSincePrompt == s.launchesSincePrompt
    ensures !op.RecordPromptShown? ==> r.lastPromptDate == s.lastPromptDate
    ensures op.RecordPromptShown? ==> r == Snapshot(Some(op.now), 0, 0)
  {
    match op
    case RecordLaunch => s.(launchesSincePrompt := s.launchesSincePrompt + 1)
    case RecordEvent => s.(eventsSincePrompt := s.eventsSincePrompt + 1)
    case RecordPromptShown(now) => Snapshot(Some(now), 0, 0)
  }

  /** The values after a sequence of operations. */
  function Run(s: Snapshot, ops: seq<StoreOp>): Snapshot
    decreases ops
  {
    if ops == [] then s else Run(Step(s, ops[0]), ops[1..])
  }

  /**
   * Without a prompt, the counters never go down and the prompt date stays;
   * each counter grows by exactly the number of matching operations.
   */
  lemma {:induction false} CountersOnlyResetByPrompt(s: Snapshot, ops: seq<StoreOp>)
    requires forall i | 0 <= i < |ops| :: !ops[i].RecordPromptShown?
    decreases ops
    ensures Run(s, ops).lastPromptDate == s.lastPromptDate
    ensures Run(s, ops).launchesSincePrompt == s.launchesSincePrompt + Count(ops, RecordLaunch)
    ensures Run(s, ops).eventsSincePrompt == s.eventsSincePrompt + Count(ops, RecordEvent)
    ensures Run(s, ops).launchesSincePrompt >= s.launchesSincePrompt
    ensures Run(s, ops).eventsSincePrompt >= s.eventsSincePrompt
  {
    if ops != [] {
      CountersOnlyResetByPrompt(Step(s, ops[0]), ops[1..]);
    }
  }

  /** After a prompt, only what followed it matters. */
  lemma {:induction false} PromptForgetsHistory(s: Snapshot, t: Snapshot, before: seq<StoreOp>, now: Date, after: seq<StoreOp>)
    decreases before
    ensures Run(s, before + [RecordPromptShown(now)] + after) == Run(t, [RecordPromptShown(now)] + after)
  {
    if before != [] {
      assert (before + [RecordPromptShown(now)] + after)[1..] == before[1..] + [RecordPromptShown(now)] + after;
      PromptForgetsHistory(Step(s, before[0]), t, before[1..], now, after);
    } else {
      assert before + [RecordPromptShown(now)] + after == [RecordPromptShown(now)] + after;
    }
  }

  /** How many operations of the sequence are `op`. */
  function Count(ops: seq<StoreOp>, op: StoreOp): nat {
    if ops == [] then 0 else (if ops[0] == op then 1 else 0) + Count(ops[1..], op)
  }

  class ReviewRequestStore {
    /** The defaults domain (`UserDefaults`). */
    var defaults: map<string, StoredValue>

    /** `init(suiteName:)`: a store over a domain with the given persisted contents. */
    constructor (persisted: map<string, StoredValue>)
      ensures defaults == persisted
    {
      defaults := persisted;
    }

    /** `lastPromptDate` (getter) */
    function LastPromptDate(): (d: Option<Date>)
      reads this
      ensures d == SnapshotOf(defaults).lastPromptDate
    {
      DateFor(defaults, PromptDateKey)
    }

    /** `launchesSincePrompt` (getter) */
    function LaunchesSincePrompt(): (n: int)
      reads this
      ensures n == SnapshotOf(defaults).launchesSincePrompt
    {
      IntegerFor(defaults, LaunchCountKey)
    }

    /** `eventsSincePrompt` (getter) */
    function EventsSincePrompt(): (n: int)
      reads this
      ensures n == SnapshotOf(defaults).eventsSincePrompt
    {
      IntegerFor(defaults, EventCountKey)
    }

    /** `lastPromptDate` (setter) */
    method SetLastPromptDate(d: Option<Date>)
      modifies this
      ensures defaults == WriteDate(old(defaults), PromptDateKey, d)
      ensures SnapshotOf(defaults) == SnapshotOf(old(defaults)).(lastPromptDate := d)
    {
      WriteDateIsolated(defaults, d);
      defaults := WriteDate(defaults, PromptDateKey, d);
    }

    /** `launchesSincePrompt` (setter) */
    method SetLaunchesSincePrompt(n: int)
      modifies this
      ensures defaults == old(defaults)[LaunchCountKey := IntValue(n)]
      ensures SnapshotOf(defaults) == SnapshotOf(old(defaults)).(launchesSincePrompt := n)
    {
      WriteLaunchesIsolated(defaults, n);
      defaults := defaults[LaunchCountKey := IntValue(n)];
    }

    /** `eventsSincePrompt` (setter) */
    method SetEventsSincePrompt(n: int)
      modifies this
      ensures defaults == old(defaults)[EventCountKey := IntValue(n)]
      ensures SnapshotOf(defaults) == SnapshotOf(old(defaults)).(eventsSincePrompt := n)
    {
      WriteEventsIsolated(defaults, n);
      defaults := defaults[EventCountKey := IntValue(n)];
    }

    /** `recordLaunch()`: one more launch since the last prompt. */
    method RecordLaunch()
      modifies this
      ensures SnapshotOf(defaults) == Step(SnapshotOf(old(defaults)), StoreOp.RecordLaunch)
    {
      SetLaunchesSincePrompt(LaunchesSincePrompt() + 1);
    }

    /** `recordEvent()`: one more positive event since the last prompt. */
    method RecordEvent()
      modifies this
      ensures SnapshotOf(defaults) == Step(SnapshotOf(old(defaults)), StoreOp.RecordEvent)
    {
      SetEventsSincePrompt(EventsSincePrompt() + 1);
    }

    /** `recordPromptShown()`: the prompt date becomes `now` (`Date()`) and both counters restart at 0. */
    method RecordPromptShown(now: Date)
      modifies this
      ensures SnapshotOf(defaults) == Step(SnapshotOf(old(defaults)), StoreOp.RecordPromptShown(now))
    {
      SetLastPromptDate(Some(now));
      SetLaunchesSincePrompt(0);
      SetEventsSincePrompt(0);
    }
  }
}
