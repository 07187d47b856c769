/** The bounded, deadline-ordered timer array of glfw/backend_utils.c. Methods change the array
    in place; contracts relate it to TimerTable. `qsort` is used only as "some sorted
    permutation", and each `now` is a reading of the monotonic clock. */
module TimerQueue {
  import opened Sorting
  import opened TimerTable

  ghost predicate Sorted(s: seq<Timer>) {
    forall i, j :: 0 <= i < j < |s| ==> s[i].triggerAt <= s[j].triggerAt
  }

  ghost predicate DistinctIds(s: seq<Timer>) {
    forall i, j :: 0 <= i < j < |s| ==> s[i].id != s[j].id
  }

  function SetOf(s: seq<Timer>): set<Timer> { set t | t in s }

  lemma {:induction false} SetSize(s: seq<Timer>)
    requires DistinctIds(s)
    ensures |SetOf(s)| == |s|
  {
    if s != [] {
      SetSize(s[1..]);
      assert s == [s[0]] + s[1..];
      assert SetOf(s) == {s[0]} + SetOf(s[1..]);
      assert s[0] !in s[1..];
    }
  }

  /** `compare_timers`. */
  function CompareTimers(a: Timer, b: Timer): int {
    if a.triggerAt > b.triggerAt then 1 else if a.triggerAt < b.triggerAt then -1 else 0
  }

  lemma PermutationKeeps(s: seq<Timer>, r: seq<Timer>)
    requires multiset(r) == multiset(s) && DistinctIds(s)
    ensures |r| == |s| && SetOf(r) == SetOf(s) && DistinctIds(r)
  {
    assert |multiset(r)| == |r| && |multiset(s)| == |s|;
    assert forall t :: t in r <==> t in multiset(r);
    assert forall t :: t in s <==> t in multiset(s);
    forall i, j | 0 <= i < j < |r|
      ensures r[i].id != r[j].id
    {
      TwoOccurrences(s, r, i, j);
    }
  }

  lemma TwoOccurrences(s: seq<Timer>, r: seq<Timer>, i: nat, j: nat)
    requires multiset(r) == multiset(s) && DistinctIds(s) && i < j < |r|
    ensures r[i].id != r[j].id
  {
    assert r[i] in multiset(s) && r[j] in multiset(s);
    if r[i] == r[j] {
      assert r == r[..j] + [r[j]] + r[j + 1..];
      assert r[..j][i] == r[i];
      assert multiset(r)[r[i]] >= 2;
      OnceOnly(s, r[i]);
    }
  }

  lemma {:induction false} OnceOnly(s: seq<Timer>, t: Timer)
    requires DistinctIds(s)
    ensures multiset(s)[t] <= 1
  {
    if s != [] {
      OnceOnly(s[1..], t);
      assert s == [s[0]] + s[1..];
      if s[0] == t { assert t !in s[1..]; }
    }
  }

  lemma RemoveAt(s: seq<Timer>, i: nat)
    requires DistinctIds(s) && i < |s|
    ensures DistinctIds(s[..i] + s[i + 1..])
    ensures SetOf(s[..i] + s[i + 1..]) == Without(SetOf(s), s[i].id)
  {
    var r := s[..i] + s[i + 1..];
    forall t
      ensures t in r <==> t in s && t.id != s[i].id
    {
      if t in s && t.id != s[i].id {
        var j :| 0 <= j < |s| && s[j] == t;
        if j < i { assert r[j] == t; } else { assert r[j - 1] == t; }
      }
    }
  }

  lemma AppendKeeps(s: seq<Timer>, t: Timer)
    requires DistinctIds(s) && forall j :: 0 <= j < |s| ==> s[j].id != t.id
    ensures DistinctIds(s + [t]) && SetOf(s + [t]) == SetOf(s) + {t}
  {
  }

  lemma NotThere(s: seq<Timer>, id: int)
    requires forall j :: 0 <= j < |s| ==> s[j].id != id
    ensures Without(SetOf(s), id) == SetOf(s)
  {
  }

  lemma PatchAt(s: seq<Timer>, i: nat, patch: Patch)
    requires DistinctIds(s) && i < |s|
    ensures DistinctIds(s[i := Patched(s[i], patch)])
    ensures SetOf(s[i := Patched(s[i], patch)]) == PatchedAll(SetOf(s), s[i].id, patch)
  {
    var r := s[i := Patched(s[i], patch)];
    forall j | 0 <= j < |s|
      ensures r[j] == PatchedIf(s[j], s[i].id, patch)
    {
    }
    forall u | u in r
      ensures u in PatchedAll(SetOf(s), s[i].id, patch)
    {
      var j :| 0 <= j < |r| && r[j] == u;
      assert s[j] in SetOf(s);
    }
    forall u | u in PatchedAll(SetOf(s), s[i].id, patch)
      ensures u in r
    {
      var t :| t in SetOf(s) && u == PatchedIf(t, s[i].id, patch);
      var j :| 0 <= j < |s| && s[j] == t;
      assert r[j] == u;
    }
  }

  lemma PatchNothing(s: seq<Timer>, id: int, patch: Patch)
    requires forall j :: 0 <= j < |s| ==> PatchedIf(s[j], id, patch) == s[j]
    ensures PatchedAll(SetOf(s), id, patch) == SetOf(s)
  {
    forall t | t in SetOf(s)
      ensures t in PatchedAll(SetOf(s), id, patch) && PatchedIf(t, id, patch) == t
    {
      var j :| 0 <= j < |s| && s[j] == t;
    }
  }

  lemma PacedStaysSorted(s: seq<Timer>, i: nat, interval: int)
    requires Sorted(s) && i < |s|
    ensures Sorted(s[i := Patched(s[i], Pacing(interval))])
  {
  }

  lemma PatchMissing(s: seq<Timer>, id: int, patch: Patch)
    requires forall j :: 0 <= j < |s| ==> s[j].id != id
    ensures PatchedAll(SetOf(s), id, patch) == SetOf(s)
  {
    PatchNothing(s, id, patch);
  }

  class EventLoop {
    var timers: array<Timer>
    var count: nat
    var counter: nat
    ghost var ran: seq<int>  // ids of the callbacks run so far

    ghost function Contents(): seq<Timer>
      reads this, timers
      requires count <= timers.Length
    {
      timers[..count]
    }

    ghost function Abs(): Table
      reads this, timers
      requires count <= timers.Length
    {
      Table(SetOf(Contents()), counter)
    }

    /** Holds at all times, also while callbacks run. */
    ghost predicate Valid()
      reads this, timers
    {
      && timers.Length == MAX_TIMERS && count <= MAX_TIMERS && DistinctIds(Contents())
      && forall t :: t in SetOf(Contents()) ==> 0 < t.id <= counter
    }

    /** Holds between dispatches: the earliest deadline is at the head. */
    ghost predicate Ready()
      reads this, timers
    {
      Valid() && Sorted(Contents())
    }

    constructor ()
      ensures Ready() && fresh(timers) && Abs() == Table({}, 0) && ran == []
    {
      timers := new Timer[MAX_TIMERS](_ => Timer(0, 0, 0, false));
      count, counter, ran := 0, 0, [];
    }

    /** `update_timers`. */
    method UpdateTimers()
      requires Valid()
      modifies timers
      ensures Ready() && Abs() == old(Abs())
    {
      if count > 1 {
        ghost var before := timers[..count];
        var sorted := QSort(timers[..count], CompareTimers);
        assert Sorted(sorted) by {
          assert forall i, j :: 0 <= i < j < |sorted| ==> CompareTimers(sorted[i], sorted[j]) <= 0;
        }
        PermutationKeeps(before, sorted);
        forall i | 0 <= i < count { timers[i] := sorted[i]; }
        assert timers[..count] == sorted;
      }
    }

    /** `addTimer`: one more timer, with an id never used before, or 0 when the table is full. */
    method AddTimer(now: int, interval: int, enabled: bool, repeats: bool) returns (id: int)
      requires Valid()
      modifies this`count, this`counter, timers
      ensures Valid() && (old(count) < MAX_TIMERS ==> Ready()) && (old(Ready()) ==> Ready())
      ensures Abs() == Do(old(Abs()), Add(now, interval, enabled, repeats))
      ensures old(count) >= MAX_TIMERS ==> id == 0 && Abs() == old(Abs())
      ensures old(count) < MAX_TIMERS ==> id == counter == old(counter) + 1 && !old(HasId(Abs(), counter + 1))
      ensures old(count) < MAX_TIMERS ==>
        Abs().timers == old(Abs()).timers + {Timer(id, interval, if enabled then now + interval else NEVER, repeats)}
    {
      SetSize(Contents());
      if count >= MAX_TIMERS { return 0; }
      FreshId(counter + 1);
      counter := counter + 1;
      Append(Timer(counter, interval, Deadline(now, interval, enabled), repeats));
      UpdateTimers();
      id := counter;
    }

    lemma FreshId(id: int)
      requires Valid() && id > counter
      ensures !HasId(Abs(), id)
    {
    }

    /** Change slot `i`. */
    method PatchSlot(i: nat, patch: Patch)
      requires Valid() && i < count
      modifies timers
      ensures Valid() && Contents() == old(Contents())[i := Patched(old(timers[i]), patch)]
      ensures Abs() == Table(PatchedAll(old(Abs()).timers, old(timers[i].id), patch), counter)
    {
      ghost var before := Contents();
      PatchAt(before, i, patch);
      timers[i] := Patched(timers[i], patch);
      assert Contents() == before[i := timers[i]];
    }

    /** Fill the next free slot. */
    method Append(t: Timer)
      requires Valid() && count < MAX_TIMERS && 0 < t.id <= counter && !HasId(Abs(), t.id)
      modifies this`count, timers
      ensures Valid() && Abs() == Table(old(Abs()).timers + {t}, counter)
    {
      ghost var before := Contents();
      forall j | 0 <= j < |before|
        ensures before[j].id != t.id
      {
        assert before[j] in SetOf(before);
      }
      AppendKeeps(before, t);
      timers[count] := t;
      count := count + 1;
      assert Contents() == before + [t];
    }

    method Find(id: int) returns (i: nat)
      requires Valid()
      ensures i <= count
      ensures i < count ==> timers[i].id == id
      ensures i == count ==> forall j :: 0 <= j < count ==> timers[j].id != id
    {
      i := 0;
      while i < count && timers[i].id != id
        invariant i <= count && forall j :: 0 <= j < i ==> timers[j].id != id
      {
        i := i + 1;
      }
    }

    /** `removeTimer`: the tail of the array moves down over the removed slot. */
    method RemoveTimer(id: int)
      requires Valid()
      modifies this`count, timers
      ensures Valid() && (old(Ready()) ==> Ready())
      ensures Abs() == Do(old(Abs()), Remove(id)) && counter == old(counter)
      ensures forall t :: t in Abs().timers <==> t in old(Abs()).timers && t.id != id
    {
      var i := Find(id);
      ghost var before := Contents();
      if i == count {
        NotThere(before, id);
        return;
      }
      RemoveAt(before, i);
      count := count - 1;
      ShiftDown(i);
      assert Contents() == before[..i] + before[i + 1..];
      UpdateTimers();
    }

    /** `memmove` over slot `i`. */
    method ShiftDown(i: nat)
      requires timers.Length == MAX_TIMERS && count < MAX_TIMERS && i <= count
      modifies timers
      ensures timers[..count] == old(timers[..i]) + old(timers[i + 1..count + 1])
    {
      for k := i to count
        invariant forall j :: 0 <= j < i ==> timers[j] == old(timers[j])
        invariant forall j :: i <= j < k ==> timers[j] == old(timers[j + 1])
        invariant forall j :: k <= j < timers.Length ==> timers[j] == old(timers[j])
      {
        timers[k] := timers[k + 1];
      }
    }

    /** `removeAllTimers`. */
    method RemoveAllTimers()
      requires Valid()
      modifies this`count
      ensures Ready() && Abs() == Do(old(Abs()), RemoveAll) && Abs() == Table({}, old(counter))
    {
      count := 0;
    }

    /** `toggleTimer`: the timer with the id, if there is one, gets a new deadline. */
    method ToggleTimer(now: int, id: int, enabled: bool)
      requires Valid()
      modifies timers
      ensures Valid() && (old(Ready()) ==> Ready())
      ensures Abs() == Do(old(Abs()), Toggle(now, id, enabled)) && counter == old(counter)
      ensures OthersKept(old(Abs()), Abs(), id)
      ensures forall t :: t in old(Abs()).timers && t.id == id ==>
        t.(triggerAt := if enabled then now + t.interval else NEVER) in Abs().timers
    {
      ToggleMembers(Abs(), now, id, enabled);
      SetDeadline(now, id, enabled);
    }

    method SetDeadline(now: int, id: int, enabled: bool)
      requires Valid()
      modifies timers
      ensures Valid() && (old(Ready()) ==> Ready())
      ensures Abs() == Do(old(Abs()), Toggle(now, id, enabled))
    {
      var i := Find(id);
      if i == count {
        PatchMissing(Contents(), id, Enabling(now, enabled));
      } else {
        Retime(i, now, enabled);
      }
    }

    method Retime(i: nat, now: int, enabled: bool)
      requires Valid() && i < count
      modifies timers
      ensures Valid() && (old(Ready()) ==> Ready())
      ensures Abs() == Table(PatchedAll(old(Abs()).timers, old(timers[i].id), Enabling(now, enabled)), counter)
    {
      var triggerAt := Deadline(now, timers[i].interval, enabled);
      if triggerAt != timers[i].triggerAt {
        PatchSlot(i, Enabling(now, enabled));
        UpdateTimers();
      } else {
        PatchNothing(Contents(), timers[i].id, Enabling(now, enabled));
      }
    }

    method PaceSlot(i: nat, interval: int)
      requires Valid() && i < count
      modifies timers
      ensures Valid() && (old(Ready()) ==> Ready())
      ensures Abs() == Table(PatchedAll(old(Abs()).timers, old(timers[i].id), Pacing(interval)), counter)
    {
      if Sorted(Contents()) { PacedStaysSorted(Contents(), i, interval); }
      PatchSlot(i, Pacing(interval));
    }

    /** `changeTimerInterval`: the timer keeps its deadline. */
    method ChangeTimerInterval(id: int, interval: int)
      requires Valid()
      modifies timers
      ensures Valid() && (old(Ready()) ==> Ready())
      ensures Abs() == Do(old(Abs()), ChangeInterval(id, interval)) && counter == old(counter)
      ensures OthersKept(old(Abs()), Abs(), id)
      ensures forall t :: t in old(Abs()).timers && t.id == id ==> t.(interval := interval) in Abs().timers
    {
      PaceMembers(Abs(), id, interval);
      SetInterval(id, interval);
    }

    method SetInterval(id: int, interval: int)
      requires Valid()
      modifies timers
      ensures Valid() && (old(Ready()) ==> Ready())
      ensures Abs() == Do(old(Abs()), ChangeInterval(id, interval))
    {
      var i := Find(id);
      if i < count {
        PaceSlot(i, interval);
      } else {
        PatchMissing(Contents(), id, Pacing(interval));
      }
    }

    /** `prepareForPoll`: how long to sleep, given the caller's timeout. */
    method PrepareForPoll(now: int, timeout: int) returns (r: int)
      requires Ready() && now < NEVER
      ensures forall i :: 0 <= i < count && now < timers[i].triggerAt < NEVER ==> now + r <= timers[i].triggerAt
      ensures (exists i :: 0 <= i < count && timers[i].triggerAt <= now) ==> r == 0
      ensures timeout >= 0 ==> 0 <= r <= timeout
      ensures r < 0 ==> r == timeout && forall i :: 0 <= i < count ==> timers[i].triggerAt >= NEVER
      ensures timeout < 0 && (forall i :: 0 <= i < count ==> timers[i].triggerAt == NEVER) ==> r == timeout
      ensures r != timeout ==>
        exists i :: 0 <= i < count && now + r == (if timers[i].triggerAt <= now then now else timers[i].triggerAt)
    {
      if count == 0 || timers[0].triggerAt == NEVER { return timeout; }
      var next := timers[0].triggerAt;
      r := timeout;
      if timeout < 0 || now + timeout > next {
        r := if next <= now then 0 else next - now;
      }
    }

    // ----- dispatching -----

    /** The first loop of `dispatchTimers`: note and re-arm what is due. */
    method Collect(now: int) returns (ds: seq<Dispatch>)
      requires Ready()
      modifies timers
      ensures Collected(old(Contents()), Contents(), ds, now)
      ensures forall j :: |ds| <= j < count ==> !Due(Contents()[j], now)
    {
      ds := [];
      var i := 0;
      ghost var before := Contents();
      while i < count && timers[i].triggerAt <= now
        invariant 0 <= i <= count && |ds| == i
        invariant Collected(before, Contents(), ds, now)
      {
        ghost var current := Contents();
        CollectOne(before, current, ds, now);
        ds := ds + [Dispatch(timers[i].id, timers[i].repeats)];
        timers[i] := timers[i].(triggerAt := now + timers[i].interval);
        assert Contents() == current[i := Rearm(current[i], now)];
        i := i + 1;
      }
      LaterNotDue(before, i, now);
    }

    /** ... which gives the dispatch list and re-arms the table. */
    method Snapshot(now: int) returns (ds: seq<Dispatch>, ghost snapshot: seq<Timer>)
      requires Ready()
      modifies timers
      ensures Valid() && Abs() == Rearmed(old(Abs()), now)
      ensures DueInOrder(old(Abs()), now, snapshot, ds)
      ensures ds == [] ==> Ready()
    {
      ghost var before := Contents();
      ds := Collect(now);
      snapshot := before[..|ds|];
      RearmEach(before, Contents(), now);
      PrefixIsDue(before, ds, now, counter);
      if ds == [] { assert Contents() == before; }
    }

    /** The calls one callback makes. */
    method Perform(calls: seq<Call>)
      requires Valid()
      modifies this`count, this`counter, timers
      ensures Valid() && Abs() == DoAll(old(Abs()), calls)
    {
      for i := 0 to |calls|
        invariant Valid() && DoAll(Abs(), calls[i..]) == DoAll(old(Abs()), calls)
      {
        assert calls[i..][1..] == calls[i + 1..];
        PerformOne(calls[i]);
      }
    }

    method PerformOne(call: Call)
      requires Valid()
      modifies this`count, this`counter, timers
      ensures Valid() && Abs() == Do(old(Abs()), call)
    {
      match call
      case Add(now, interval, enabled, repeats) => var _ := AddTimer(now, interval, enabled, repeats);
      case Remove(id) => RemoveTimer(id);
      case RemoveAll => RemoveAllTimers();
      case Toggle(now, id, enabled) => ToggleTimer(now, id, enabled);
      case ChangeInterval(id, interval) => ChangeTimerInterval(id, interval);
    }

    /** The second loop of `dispatchTimers`: run the callbacks, drop the one-shot timers. */
    method RunCallbacks(ds: seq<Dispatch>, script: seq<seq<Call>>)
      requires Valid() && |script| == |ds|
      modifies this`count, this`counter, this`ran, timers
      ensures Valid() && Abs() == AfterDispatches(old(Abs()), ds, script)
      ensures ran == old(ran) + IdsOf(ds)
    {
      for i := 0 to |ds|
        invariant Valid() && AfterDispatches(Abs(), ds[i..], script[i..]) == AfterDispatches(old(Abs()), ds, script)
        invariant ran == old(ran) + IdsOf(ds[..i])
      {
        assert ds[i..][1..] == ds[i + 1..] && script[i..][1..] == script[i + 1..];
        OneMoreId(ds, i);
        ran := ran + [ds[i].id];
        RunOne(ds[i], script[i]);
      }
      assert ds[..|ds|] == ds;
    }

    method RunOne(d: Dispatch, calls: seq<Call>)
      requires Valid()
      modifies this`count, this`counter, timers
      ensures Valid() && Abs() == AfterDispatch(old(Abs()), d, calls)
    {
      Perform(calls);
      if !d.repeats { RemoveTimer(d.id); }
    }

    /** `dispatchTimers`: `callbacks(i)` is what the `i`-th callback run calls. Every timer due
        on entry runs once, in deadline order, whatever the callbacks do, and the array is in
        order again afterwards. */
    method DispatchTimers(now: int, callbacks: int -> seq<Call>)
        returns (num: nat, ghost ds: seq<Dispatch>, ghost snapshot: seq<Timer>)
      requires Ready() && now < NEVER
      modifies this`count, this`counter, this`ran, timers
      ensures Ready() && num == |ds| && ran == old(ran) + IdsOf(ds)
      ensures DueInOrder(old(Abs()), now, snapshot, ds)
      ensures Abs() == AfterDispatches(Rearmed(old(Abs()), now), ds, Script(callbacks, |ds|))
    {
      if count == 0 || timers[0].triggerAt == NEVER {
        NothingDue(Contents(), now);
        num, ds, snapshot := 0, [], [];
      } else {
        num, ds, snapshot := DispatchDue(now, callbacks);
      }
    }

    method DispatchDue(now: int, callbacks: int -> seq<Call>)
        returns (num: nat, ghost ds: seq<Dispatch>, ghost snapshot: seq<Timer>)
      requires Ready() && now < NEVER
      modifies this`count, this`counter, this`ran, timers
      ensures Ready() && num == |ds| && ran == old(ran) + IdsOf(ds)
      ensures DueInOrder(old(Abs()), now, snapshot, ds)
      ensures Abs() == AfterDispatches(Rearmed(old(Abs()), now), ds, Script(callbacks, |ds|))
    {
      var dispatches;
      dispatches, snapshot := Snapshot(now);
      num, ds := |dispatches|, dispatches;
      if num > 0 {
        RunCallbacks(dispatches, Script(callbacks, num));
        UpdateTimers();
      }
    }
  }

  /** The state of the first loop of a dispatch: what is collected was due and is re-armed. */
  ghost predicate Collected(before: seq<Timer>, current: seq<Timer>, ds: seq<Dispatch>, now: int) {
    && |current| == |before| && |ds| <= |before|
    && (forall j :: 0 <= j < |ds| ==> Due(before[j], now) && current[j] == Rearm(before[j], now))
    && (forall j :: 0 <= j < |ds| ==> ds[j] == Dispatch(before[j].id, before[j].repeats))
    && (forall j :: |ds| <= j < |before| ==> current[j] == before[j])
  }

  lemma CollectOne(before: seq<Timer>, current: seq<Timer>, ds: seq<Dispatch>, now: int)
    requires Collected(before, current, ds, now) && |ds| < |before| && Due(current[|ds|], now)
    ensures var t := current[|ds|];
      Collected(before, current[|ds| := Rearm(t, now)], ds + [Dispatch(t.id, t.repeats)], now)
  {
  }

  lemma LaterNotDue(s: seq<Timer>, i: nat, now: int)
    requires Sorted(s) && i <= |s| && (i < |s| ==> !Due(s[i], now))
    ensures forall j :: i <= j < |s| ==> !Due(s[j], now)
  {
  }

  function Script(callbacks: int -> seq<Call>, n: nat): seq<seq<Call>> { seq(n, i => callbacks(i)) }

  function IdsOf(ds: seq<Dispatch>): seq<int> { seq(|ds|, i requires 0 <= i < |ds| => ds[i].id) }

  lemma OneMoreId(ds: seq<Dispatch>, i: nat)
    requires i < |ds|
    ensures IdsOf(ds[..i + 1]) == IdsOf(ds[..i]) + [ds[i].id]
  {
  }

  lemma RearmEach(s: seq<Timer>, r: seq<Timer>, now: int)
    requires DistinctIds(s) && |r| == |s| && forall j :: 0 <= j < |s| ==> r[j] == Rearm(s[j], now)
    ensures DistinctIds(r) && SetOf(r) == set t | t in SetOf(s) :: Rearm(t, now)
  {
    forall u | u in r
      ensures exists t :: t in SetOf(s) && u == Rearm(t, now)
    {
      var j :| 0 <= j < |r| && r[j] == u;
      assert s[j] in SetOf(s);
    }
    forall t | t in SetOf(s)
      ensures Rearm(t, now) in r
    {
      var j :| 0 <= j < |s| && s[j] == t;
      assert r[j] == Rearm(t, now);
    }
  }

  /** In a sorted array the due timers are a prefix, already by deadline. */
  lemma PrefixIsDue(s: seq<Timer>, ds: seq<Dispatch>, now: int, counter: nat)
    requires Sorted(s) && DistinctIds(s) && |ds| <= |s|
    requires forall j :: 0 <= j < |s| ==> (Due(s[j], now) <==> j < |ds|)
    requires forall j :: 0 <= j < |ds| ==> ds[j] == Dispatch(s[j].id, s[j].repeats)
    ensures DueInOrder(Table(SetOf(s), counter), now, s[..|ds|], ds)
  {
    forall t | t in SetOf(s) && Due(t, now)
      ensures t in s[..|ds|]
    {
      var j :| 0 <= j < |s| && s[j] == t;
      assert s[..|ds|][j] == t;
    }
  }

  lemma NothingDue(s: seq<Timer>, now: int)
    requires Sorted(s) && now < NEVER && (s == [] || s[0].triggerAt == NEVER)
    ensures (set t | t in SetOf(s) :: Rearm(t, now)) == SetOf(s)
    ensures forall t :: t in SetOf(s) ==> !Due(t, now)
  {
    forall t | t in SetOf(s)
      ensures !Due(t, now)
    {
      var j :| 0 <= j < |s| && s[j] == t;
    }
    forall t | t in SetOf(s)
      ensures t in set u | u in SetOf(s) :: Rearm(u, now)
    {
      assert Rearm(t, now) == t;
    }
  }

  /** Every callback of a dispatch runs (`DispatchTimers`). When the `k`-th does, its timer is no
      longer in the table if and only if a callback that ran before it removed that timer or all. */
  lemma {:induction false} RunsAfterRemovalIff(table: Table, now: int, snapshot: seq<Timer>, ds: seq<Dispatch>,
                                               script: seq<seq<Call>>, k: nat)
    requires WellFormed(table) && DueInOrder(table, now, snapshot, ds) && |script| == |ds| && k < |ds|
    ensures !HasId(AfterDispatches(Rearmed(table, now), ds[..k], script[..k]), ds[k].id)
      <==> exists i, j :: 0 <= i < k && 0 <= j < |script[i]| && Removes(script[i][j], ds[k].id)
  {
    var id := ds[k].id;
    assert snapshot[k] in table.timers;
    assert Rearm(snapshot[k], now) in Rearmed(table, now).timers;
    RemovedByDispatchesIff(Rearmed(table, now), ds[..k], script[..k], id);
    RemovedInIff(script, k, id);
  }

  lemma {:induction false} RemovedInIff(script: seq<seq<Call>>, k: nat, id: int)
    requires k <= |script|
    ensures RemovedIn(script[..k], id)
      <==> exists i, j :: 0 <= i < k && 0 <= j < |script[i]| && Removes(script[i][j], id)
  {
    if i :| 0 <= i < k && RemovesIn(script[..k][i], id) {
      var j :| 0 <= j < |script[i]| && Removes(script[i][j], id);
    }
    if i, j :| 0 <= i < k && 0 <= j < |script[i]| && Removes(script[i][j], id) {
      assert RemovesIn(script[..k][i], id);
    }
  }

  /** One-shot timers do not survive the dispatch that runs them. */
  lemma {:induction false} OneShots(table: Table, now: int, snapshot: seq<Timer>, ds: seq<Dispatch>,
        script: seq<seq<Call>>, k: nat)
    requires WellFormed(table) && DueInOrder(table, now, snapshot, ds) && |script| == |ds|
    requires k < |ds| && !ds[k].repeats
    ensures !HasId(AfterDispatches(Rearmed(table, now), ds, script), ds[k].id)
  {
    RearmedWellFormed(table, now);
    assert forall i :: 0 <= i < |ds| ==> snapshot[i] in table.timers && ds[i].id == snapshot[i].id;
    OneShotsAreGone(Rearmed(table, now), ds, script, k);
  }

  lemma RearmedWellFormed(table: Table, now: int)
    requires WellFormed(table)
    ensures WellFormed(Rearmed(table, now))
  {
  }

  /** A repeating timer that was due, and that no callback touches, is next due one interval
      after the dispatch. */
  lemma {:induction false} NextDeadline(table: Table, now: int, snapshot: seq<Timer>, ds: seq<Dispatch>,
        script: seq<seq<Call>>, k: nat)
    requires WellFormed(table) && DueInOrder(table, now, snapshot, ds) && |script| == |ds|
    requires k < |ds| && ds[k].repeats
    requires forall i, j :: 0 <= i < |ds| && 0 <= j < |script[i]| ==> !Mentions(script[i][j], ds[k].id)
    ensures snapshot[k].(triggerAt := now + snapshot[k].interval)
      in AfterDispatches(Rearmed(table, now), ds, script).timers
  {
    var t := Rearm(snapshot[k], now);
    assert snapshot[k] in table.timers;
    assert t in Rearmed(table, now).timers;
    forall i | 0 <= i < |ds|
      ensures ds[i].repeats || ds[i].id != t.id
    {
      assert i < k ==> ds[i].id != ds[k].id;
      assert k < i ==> ds[k].id != ds[i].id;
    }
    UntouchedTimerIsKept(Rearmed(table, now), ds, script, t);
  }
}
