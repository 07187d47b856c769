/** What the timer calls of glfw/backend_utils.c do to the set of timers, leaving the order of
    the array aside. Every reading of the clock is a parameter. */
module TimerTable {

  const MAX_TIMERS := 128
  const NEVER := 0x7fff_ffff_ffff_ffff  // MONOTONIC_T_MAX: the deadline of a disabled timer

  datatype Timer = Timer(id: int, interval: int, triggerAt: int, repeats: bool)

  datatype Table = Table(timers: set<Timer>, counter: nat)

  /** What a callback may call while timers are being dispatched. */
  datatype Call =
    | Add(now: int, interval: int, enabled: bool, repeats: bool)
    | Remove(id: int)
    | RemoveAll
    | Toggle(now: int, id: int, enabled: bool)
    | ChangeInterval(id: int, interval: int)

  function Deadline(now: int, interval: int, enabled: bool): int {
    if enabled then now + interval else NEVER
  }

  function Without(timers: set<Timer>, id: int): set<Timer> {
    set t | t in timers && t.id != id
  }

  /** A change to one field of a timer. */
  datatype Patch = Enabling(now: int, enabled: bool) | Pacing(interval: int)

  function Patched(t: Timer, patch: Patch): Timer {
    match patch
    case Enabling(now, enabled) => t.(triggerAt := Deadline(now, t.interval, enabled))
    case Pacing(interval) => t.(interval := interval)
  }

  function PatchedIf(t: Timer, id: int, patch: Patch): Timer { if t.id == id then Patched(t, patch) else t }

  function PatchedAll(timers: set<Timer>, id: int, patch: Patch): set<Timer> {
    set t | t in timers :: PatchedIf(t, id, patch)
  }

  function Do(table: Table, call: Call): Table {
    match call
    case Add(now, interval, enabled, repeats) =>
      if |table.timers| >= MAX_TIMERS then table
      else
        var id := table.counter + 1;
        Table(table.timers + {Timer(id, interval, Deadline(now, interval, enabled), repeats)}, id)
    case Remove(id) => table.(timers := Without(table.timers, id))
    case RemoveAll => table.(timers := {})
    case Toggle(now, id, enabled) =>
      table.(timers := PatchedAll(table.timers, id, Enabling(now, enabled)))
    case ChangeInterval(id, interval) =>
      table.(timers := PatchedAll(table.timers, id, Pacing(interval)))
  }

  function DoAll(table: Table, calls: seq<Call>): Table
    decreases |calls|
  {
    if calls == [] then table else DoAll(Do(table, calls[0]), calls[1..])
  }

  /** The calls take effect in the order in which they are made. */
  lemma {:induction false} CallsInOrder(table: Table, calls: seq<Call>, last: Call)
    ensures DoAll(table, []) == table && DoAll(table, calls + [last]) == Do(DoAll(table, calls), last)
    decreases |calls|
  {
    if calls == [] {
      assert calls + [last] == [last] && [last][1..] == [];
    } else {
      assert (calls + [last])[1..] == calls[1..] + [last];
      CallsInOrder(Do(table, calls[0]), calls[1..], last);
    }
  }

  /** Ids are unique, positive and not above the counter. */
  ghost predicate WellFormed(table: Table) {
    && (forall t, u :: t in table.timers && u in table.timers && t.id == u.id ==> t == u)
    && (forall t :: t in table.timers ==> 0 < t.id <= table.counter)
  }

  predicate HasId(table: Table, id: int) { exists t :: t in table.timers && t.id == id }

  // ----- dispatching -----

  /** An entry of `dispatches`. */
  datatype Dispatch = Dispatch(id: int, repeats: bool)

  predicate Due(t: Timer, now: int) { t.triggerAt <= now }

  /** Due timers get their next deadline before any callback runs. */
  function Rearm(t: Timer, now: int): Timer { if Due(t, now) then t.(triggerAt := now + t.interval) else t }

  function Rearmed(table: Table, now: int): Table {
    table.(timers := set t | t in table.timers :: Rearm(t, now))
  }

  /** One dispatch: the callback's calls, then removal if the timer does not repeat. */
  function AfterDispatch(table: Table, d: Dispatch, calls: seq<Call>): Table {
    var table := DoAll(table, calls);
    if d.repeats then table else Do(table, Remove(d.id))
  }

  /** All dispatches; `script[i]` is what the `i`-th callback calls. */
  function AfterDispatches(table: Table, ds: seq<Dispatch>, script: seq<seq<Call>>): Table
    requires |script| == |ds|
    decreases |ds|
  {
    if ds == [] then table else AfterDispatches(AfterDispatch(table, ds[0], script[0]), ds[1..], script[1..])
  }

  /** The dispatch list of a run: every due timer once, by deadline. `snapshot[i]` is the timer
      behind `ds[i]` as it was when dispatching began. */
  ghost predicate DueInOrder(table: Table, now: int, snapshot: seq<Timer>, ds: seq<Dispatch>) {
    && |snapshot| == |ds|
    && (forall i :: 0 <= i < |ds| ==> snapshot[i] in table.timers && Due(snapshot[i], now))
    && (forall i :: 0 <= i < |ds| ==> ds[i] == Dispatch(snapshot[i].id, snapshot[i].repeats))
    && (forall i, j :: 0 <= i < j < |ds| ==> ds[i].id != ds[j].id && snapshot[i].triggerAt <= snapshot[j].triggerAt)
    && (forall t :: t in table.timers && Due(t, now) ==> t in snapshot)
  }

  // ----- consequences -----

  /** No timer but the one with the id comes, goes or changes. */
  ghost predicate OthersKept(table: Table, table': Table, id: int) {
    forall t: Timer :: t.id != id ==> (t in table'.timers <==> t in table.timers)
  }

  lemma PatchedMember(timers: set<Timer>, id: int, patch: Patch, t: Timer)
    requires t in timers
    ensures PatchedIf(t, id, patch) in PatchedAll(timers, id, patch)
  {
  }

  lemma PatchedMembers(timers: set<Timer>, id: int, patch: Patch)
    ensures forall t: Timer :: t.id != id ==> (t in PatchedAll(timers, id, patch) <==> t in timers)
    ensures forall t :: t in timers && t.id == id ==> Patched(t, patch) in PatchedAll(timers, id, patch)
  {
    forall t | t in timers ensures PatchedIf(t, id, patch) in PatchedAll(timers, id, patch) { }
    forall t | t in timers && t.id != id ensures t in PatchedAll(timers, id, patch) {
      assert PatchedIf(t, id, patch) == t;
    }
  }

  /** Toggling puts the timer one interval ahead, or off. */
  lemma ToggleMembers(table: Table, now: int, id: int, enabled: bool)
    ensures OthersKept(table, Do(table, Toggle(now, id, enabled)), id)
    ensures forall t :: t in table.timers && t.id == id ==>
      t.(triggerAt := if enabled then now + t.interval else NEVER) in Do(table, Toggle(now, id, enabled)).timers
  {
    PatchedMembers(table.timers, id, Enabling(now, enabled));
  }

  /** A new interval leaves the deadline alone. */
  lemma PaceMembers(table: Table, id: int, interval: int)
    ensures OthersKept(table, Do(table, ChangeInterval(id, interval)), id)
    ensures forall t :: t in table.timers && t.id == id ==>
      t.(interval := interval) in Do(table, ChangeInterval(id, interval)).timers
  {
    PatchedMembers(table.timers, id, Pacing(interval));
  }

  lemma DoKeepsWellFormed(table: Table, call: Call)
    requires WellFormed(table)
    ensures WellFormed(Do(table, call)) && Do(table, call).counter >= table.counter
  {
    match call
    case Toggle(now, id, enabled) => PatchKeepsWellFormed(table, id, Enabling(now, enabled));
    case ChangeInterval(id, interval) => PatchKeepsWellFormed(table, id, Pacing(interval));
    case _ =>
  }

  lemma PatchKeepsWellFormed(table: Table, id: int, patch: Patch)
    requires WellFormed(table)
    ensures WellFormed(table.(timers := PatchedAll(table.timers, id, patch)))
  {
  }

  /** Ids are never reused: what is gone stays gone. */
  lemma {:induction false} GoneStaysGone(table: Table, calls: seq<Call>, id: int)
    requires WellFormed(table) && id <= table.counter && !HasId(table, id)
    ensures WellFormed(DoAll(table, calls)) && DoAll(table, calls).counter >= table.counter
    ensures !HasId(DoAll(table, calls), id)
    decreases |calls|
  {
    if calls != [] {
      DoKeepsWellFormed(table, calls[0]);
      GoneStaysGone(Do(table, calls[0]), calls[1..], id);
    }
  }

  lemma {:induction false} DoAllKeepsWellFormed(table: Table, calls: seq<Call>)
    requires WellFormed(table)
    ensures WellFormed(DoAll(table, calls)) && DoAll(table, calls).counter >= table.counter
    decreases |calls|
  {
    if calls != [] {
      DoKeepsWellFormed(table, calls[0]);
      DoAllKeepsWellFormed(Do(table, calls[0]), calls[1..]);
    }
  }

  lemma AfterDispatchKeeps(table: Table, d: Dispatch, calls: seq<Call>)
    requires WellFormed(table)
    ensures WellFormed(AfterDispatch(table, d, calls)) && AfterDispatch(table, d, calls).counter >= table.counter
    ensures !d.repeats ==> !HasId(AfterDispatch(table, d, calls), d.id)
  {
    DoAllKeepsWellFormed(table, calls);
  }

  lemma {:induction false} GoneThroughDispatches(table: Table, ds: seq<Dispatch>, script: seq<seq<Call>>, id: int)
    requires |script| == |ds| && WellFormed(table) && id <= table.counter && !HasId(table, id)
    ensures !HasId(AfterDispatches(table, ds, script), id)
    decreases |ds|
  {
    if ds != [] {
      GoneStaysGone(table, script[0], id);
      AfterDispatchKeeps(table, ds[0], script[0]);
      GoneThroughDispatches(AfterDispatch(table, ds[0], script[0]), ds[1..], script[1..], id);
    }
  }

  /** Whatever the callbacks add, remove or toggle, a dispatched one-shot timer is gone. */
  lemma {:induction false} OneShotsAreGone(table: Table, ds: seq<Dispatch>, script: seq<seq<Call>>, k: nat)
    requires |script| == |ds| && WellFormed(table) && k < |ds| && !ds[k].repeats
    requires forall i :: 0 <= i < |ds| ==> ds[i].id <= table.counter
    ensures !HasId(AfterDispatches(table, ds, script), ds[k].id)
    decreases |ds|
  {
    var next := AfterDispatch(table, ds[0], script[0]);
    AfterDispatchKeeps(table, ds[0], script[0]);
    if k == 0 {
      GoneThroughDispatches(next, ds[1..], script[1..], ds[0].id);
    } else {
      OneShotsAreGone(next, ds[1..], script[1..], k - 1);
    }
  }

  predicate Mentions(call: Call, id: int) {
    match call
    case Add(_, _, _, _) => false
    case Remove(x) => x == id
    case RemoveAll => true
    case Toggle(_, x, _) => x == id
    case ChangeInterval(x, _) => x == id
  }

  lemma {:induction false} UnmentionedStays(table: Table, calls: seq<Call>, t: Timer)
    requires t in table.timers && forall i :: 0 <= i < |calls| ==> !Mentions(calls[i], t.id)
    ensures t in DoAll(table, calls).timers
    decreases |calls|
  {
    if calls != [] {
      var next := Do(table, calls[0]);
      assert t in next.timers by {
        if calls[0].Toggle? { assert PatchedIf(t, calls[0].id, Enabling(calls[0].now, calls[0].enabled)) == t; }
        if calls[0].ChangeInterval? { assert PatchedIf(t, calls[0].id, Pacing(calls[0].interval)) == t; }
      }
      UnmentionedStays(next, calls[1..], t);
    }
  }

  /** A timer that no callback touches keeps its deadline if it was not due, and fires again
      one interval after the dispatch if it was due and repeats. */
  lemma {:induction false} UntouchedTimerIsKept(table: Table, ds: seq<Dispatch>, script: seq<seq<Call>>, t: Timer)
    requires |script| == |ds| && t in table.timers
    requires forall i :: 0 <= i < |ds| ==> ds[i].repeats || ds[i].id != t.id
    requires forall i, j :: 0 <= i < |ds| && 0 <= j < |script[i]| ==> !Mentions(script[i][j], t.id)
    ensures t in AfterDispatches(table, ds, script).timers
    decreases |ds|
  {
    if ds != [] {
      UnmentionedStays(table, script[0], t);
      UntouchedTimerIsKept(AfterDispatch(table, ds[0], script[0]), ds[1..], script[1..], t);
    }
  }

  // ----- when a timer runs -----

  ghost predicate Runs(ds: seq<Dispatch>, id: int) { exists k :: 0 <= k < |ds| && ds[k].id == id }

  /** A dispatch runs exactly the timers whose deadline has come. */
  lemma RunsIff(table: Table, clock: int, snapshot: seq<Timer>, ds: seq<Dispatch>, t: Timer)
    requires WellFormed(table) && DueInOrder(table, clock, snapshot, ds) && t in table.timers
    ensures Runs(ds, t.id) <==> t.triggerAt <= clock
  {
    if k :| 0 <= k < |ds| && ds[k].id == t.id { assert snapshot[k] == t; }
    if t.triggerAt <= clock {
      assert t in snapshot;
      var k :| 0 <= k < |snapshot| && snapshot[k] == t;
      assert ds[k].id == t.id;
    }
  }

  /** A timer just added runs in a dispatch if and only if it is enabled and its interval has passed. */
  lemma AddedRunsIff(table: Table, now: int, interval: int, enabled: bool, repeats: bool,
                     clock: int, snapshot: seq<Timer>, ds: seq<Dispatch>)
    requires WellFormed(table) && |table.timers| < MAX_TIMERS && clock < NEVER
    requires DueInOrder(Do(table, Add(now, interval, enabled, repeats)), clock, snapshot, ds)
    ensures Runs(ds, table.counter + 1) <==> enabled && now + interval <= clock
  {
    var next := Do(table, Add(now, interval, enabled, repeats));
    DoKeepsWellFormed(table, Add(now, interval, enabled, repeats));
    var t :| t in next.timers && t.id == table.counter + 1;
    RunsIff(next, clock, snapshot, ds, t);
  }

  /** A timer just toggled runs if and only if it was enabled and its interval has passed since. */
  lemma ToggledRunsIff(table: Table, now: int, t: Timer, enabled: bool,
                       clock: int, snapshot: seq<Timer>, ds: seq<Dispatch>)
    requires WellFormed(table) && t in table.timers && clock < NEVER
    requires DueInOrder(Do(table, Toggle(now, t.id, enabled)), clock, snapshot, ds)
    ensures Runs(ds, t.id) <==> enabled && now + t.interval <= clock
  {
    var toggled := Toggled(table, now, t, enabled);
    RunsIff(Do(table, Toggle(now, t.id, enabled)), clock, snapshot, ds, toggled);
  }

  lemma Toggled(table: Table, now: int, t: Timer, enabled: bool) returns (toggled: Timer)
    requires WellFormed(table) && t in table.timers
    ensures var next := Do(table, Toggle(now, t.id, enabled)); WellFormed(next) && toggled in next.timers
    ensures toggled.id == t.id && toggled.triggerAt == if enabled then now + t.interval else NEVER
  {
    toggled := t.(triggerAt := if enabled then now + t.interval else NEVER);
    ToggledIsThere(table, now, t, enabled);
    DoKeepsWellFormed(table, Toggle(now, t.id, enabled));
  }

  lemma ToggledIsThere(table: Table, now: int, t: Timer, enabled: bool)
    requires t in table.timers
    ensures t.(triggerAt := if enabled then now + t.interval else NEVER) in Do(table, Toggle(now, t.id, enabled)).timers
  {
    PatchedMember(table.timers, t.id, Enabling(now, enabled), t);
  }

  // ----- which timers the callbacks remove -----

  predicate Removes(call: Call, id: int) { call == Remove(id) || call.RemoveAll? }

  lemma PatchKeepsIds(timers: set<Timer>, target: int, patch: Patch, counter: nat, id: int)
    ensures HasId(Table(PatchedAll(timers, target, patch), counter), id) <==> HasId(Table(timers, counter), id)
  {
    if t :| t in timers && t.id == id {
      assert PatchedIf(t, target, patch) in PatchedAll(timers, target, patch);
    }
  }

  lemma RemovedByCallIff(table: Table, call: Call, id: int)
    requires id <= table.counter
    ensures Do(table, call).counter >= table.counter
    ensures HasId(Do(table, call), id) <==> HasId(table, id) && !Removes(call, id)
  {
    match call
    case Add(now, interval, enabled, repeats) =>
      if t :| t in table.timers && t.id == id { assert t in Do(table, call).timers; }
    case Remove(x) =>
      if t :| t in table.timers && t.id == id && x != id { assert t in Do(table, call).timers; }
    case RemoveAll =>
    case Toggle(now, x, enabled) => PatchKeepsIds(table.timers, x, Enabling(now, enabled), table.counter, id);
    case ChangeInterval(x, interval) => PatchKeepsIds(table.timers, x, Pacing(interval), table.counter, id);
  }

  ghost predicate RemovesIn(calls: seq<Call>, id: int) { exists j :: 0 <= j < |calls| && Removes(calls[j], id) }

  lemma {:induction false} RemovedByCallsIff(table: Table, calls: seq<Call>, id: int)
    requires id <= table.counter
    ensures DoAll(table, calls).counter >= table.counter
    ensures HasId(DoAll(table, calls), id) <==> HasId(table, id) && !RemovesIn(calls, id)
    decreases |calls|
  {
    if calls != [] {
      RemovedByCallIff(table, calls[0], id);
      RemovedByCallsIff(Do(table, calls[0]), calls[1..], id);
      assert RemovesIn(calls, id) <==> Removes(calls[0], id) || RemovesIn(calls[1..], id) by {
        if j :| 0 <= j < |calls[1..]| && Removes(calls[1..][j], id) { assert Removes(calls[j + 1], id); }
        if j :| 0 < j < |calls| && Removes(calls[j], id) { assert Removes(calls[1..][j - 1], id); }
      }
    }
  }

  ghost predicate RemovedIn(script: seq<seq<Call>>,
        id: int) { exists i :: 0 <= i < |script| && RemovesIn(script[i], id) }

  /** Dispatches of other timers remove a timer exactly if one of their callbacks does. */
  lemma {:induction false} RemovedByDispatchesIff(table: Table, ds: seq<Dispatch>, script: seq<seq<Call>>, id: int)
    requires |script| == |ds| && id <= table.counter && forall i :: 0 <= i < |ds| ==> ds[i].id != id
    ensures HasId(AfterDispatches(table, ds, script), id) <==> HasId(table, id) && !RemovedIn(script, id)
    decreases |ds|
  {
    if ds != [] {
      var next := AfterDispatch(table, ds[0], script[0]);
      RemovedByCallsIff(table, script[0], id);
      if !ds[0].repeats { RemovedByCallIff(DoAll(table, script[0]), Remove(ds[0].id), id); }
      RemovedByDispatchesIff(next, ds[1..], script[1..], id);
      assert RemovedIn(script, id) <==> RemovesIn(script[0], id) || RemovedIn(script[1..], id) by {
        if i :| 0 <= i < |script[1..]| && RemovesIn(script[1..][i], id) { assert RemovesIn(script[i + 1], id); }
        if i :| 0 < i < |script| && RemovesIn(script[i], id) { assert RemovesIn(script[1..][i - 1], id); }
      }
    }
  }
}
