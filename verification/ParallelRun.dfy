/** `parallel_run` of setup.py: commands started in list order, at most a fixed number at a time,
    for every order in which the children exit. A command is its position in the list. */
module ParallelRun {
  import opened Options

  datatype Event =
    | Started(cmd: nat)
    | Failed(cmd: nat)      // reaped with a non-zero status
    | Succeeded(cmd: nat)   // reaped with status zero
    | Hook(cmd: nat)        // the command's on_success was called
    | Rerun(cmd: nat)       // the failed command is run again in the foreground

  // ----- what a log of events must look like -----

  /** What an onlooker knows after some events. */
  datatype Seen = Seen(next: nat, running: set<nat>, succeeded: set<nat>, failed: Option<nat>)

  function Observe(log: seq<Event>): Seen {
    if log == [] then Seen(0, {}, {}, None) else After(Observe(log[..|log| - 1]), log[|log| - 1])
  }

  function After(s: Seen, e: Event): Seen {
    match e
    case Started(i) => s.(next := s.next + 1, running := s.running + {i})
    case Failed(i) => s.(running := s.running - {i}, failed := if s.failed.None? then Some(i) else s.failed)
    case Succeeded(i) => s.(running := s.running - {i}, succeeded := s.succeeded + {i})
    case Hook(_) => s
    case Rerun(_) => s
  }

  /** The rule for one event: commands start in order, while there is room and before any failure;
      only running commands are reaped; the first failed command is rerun once nothing runs. */
  predicate Allowed(s: Seen, e: Event, total: nat, room: nat) {
    match e
    case Started(i) => i == s.next < total && |s.running| < room && s.failed.None?
    case Failed(i) => i in s.running
    case Succeeded(i) => i in s.running
    case Hook(i) => i in s.succeeded
    case Rerun(i) => s.running == {} && s.failed == Some(i)
  }

  predicate Legal(log: seq<Event>, total: nat, room: nat) {
    log == [] || (Legal(log[..|log| - 1], total, room)
                  && Allowed(Observe(log[..|log| - 1]), log[|log| - 1], total, room))
  }

  function Starts(log: seq<Event>): seq<nat> {
    if log == [] then [] else
      Starts(log[..|log| - 1]) + if log[|log| - 1].Started? then [log[|log| - 1].cmd] else []
  }

  function Hooks(log: seq<Event>): seq<nat> {
    if log == [] then [] else
      Hooks(log[..|log| - 1]) + if log[|log| - 1].Hook? then [log[|log| - 1].cmd] else []
  }

  /** The commands reaped as successes that have an on_success. */
  function Successes(log: seq<Event>, hooked: set<nat>): seq<nat> {
    if log == [] then [] else
      var e := log[|log| - 1];
      Successes(log[..|log| - 1], hooked) + if e.Succeeded? && e.cmd in hooked then [e.cmd] else []
  }

  /** How often a command was reaped. */
  function Exits(log: seq<Event>): nat {
    if log == [] then 0 else
      Exits(log[..|log| - 1]) + if log[|log| - 1].Failed? || log[|log| - 1].Succeeded? then 1 else 0
  }

  /** What has started either runs or was reaped, once. */
  lemma {:induction false} ExitsCount(log: seq<Event>, total: nat, room: nat)
    requires Legal(log, total, room)
    ensures Exits(log) + |Observe(log).running| == Observe(log).next
  {
    if log != [] {
      ExitsCount(log[..|log| - 1], total, room);
      SeenIsConsistent(log[..|log| - 1], total, room);
    }
  }

  lemma Append(log: seq<Event>, e: Event, total: nat, room: nat, hooked: set<nat>)
    ensures Legal(log + [e], total, room) <==> Legal(log, total, room) && Allowed(Observe(log), e, total, room)
    ensures Observe(log + [e]) == After(Observe(log), e)
    ensures Exits(log + [e]) == Exits(log) + if e.Failed? || e.Succeeded? then 1 else 0
    ensures Hooks(log + [e]) == Hooks(log) + if e.Hook? then [e.cmd] else []
    ensures Successes(log + [e], hooked)
         == Successes(log, hooked) + if e.Succeeded? && e.cmd in hooked then [e.cmd] else []
  {
    assert (log + [e])[..|log|] == log;
  }

  // ----- what every legal log satisfies -----

  lemma {:induction false} LegalPrefix(log: seq<Event>, total: nat, room: nat, k: nat)
    requires Legal(log, total, room) && k <= |log|
    ensures Legal(log[..k], total, room)
    decreases |log|
  {
    if k < |log| {
      LegalPrefix(log[..|log| - 1], total, room, k);
      assert log[..|log| - 1][..k] == log[..k];
    } else {
      assert log[..k] == log;
    }
  }

  predicate Consistent(s: Seen, total: nat, room: nat) {
    && s.next <= total && |s.running| <= room && s.running !! s.succeeded
    && (forall i :: i in s.running ==> i < s.next)
    && (forall i :: i in s.succeeded ==> i < s.next)
    && (s.failed.None? ==> forall i :: 0 <= i < s.next ==> i in s.running || i in s.succeeded)
    && (s.failed.Some? ==> s.failed.value < s.next && s.failed.value !in s.running)
  }

  lemma StepIsConsistent(s: Seen, e: Event, total: nat, room: nat)
    requires Consistent(s, total, room) && Allowed(s, e, total, room)
    ensures Consistent(After(s, e), total, room)
  {
  }

  /** What is seen stays consistent: before a failure, everything started runs or has succeeded. */
  lemma {:induction false} SeenIsConsistent(log: seq<Event>, total: nat, room: nat)
    requires Legal(log, total, room)
    ensures Consistent(Observe(log), total, room)
  {
    if log != [] {
      SeenIsConsistent(log[..|log| - 1], total, room);
      StepIsConsistent(Observe(log[..|log| - 1]), log[|log| - 1], total, room);
    }
  }

  function AllOf(total: nat): (all: set<nat>)
    ensures forall i: nat :: i in all <==> i < total
  {
    if total == 0 then {} else AllOf(total - 1) + {total - 1}
  }

  lemma EverythingSucceeded(s: Seen, total: nat, room: nat)
    requires Consistent(s, total, room) && s.running == {}
    ensures s.failed.None? && s.next == total ==> s.succeeded == AllOf(total)
  {
    if s.failed.None? && s.next == total {
      forall i: nat ensures i in s.succeeded <==> i in AllOf(total) {
        assert i in s.succeeded ==> i < s.next;
      }
    }
  }

  /** At no point do more commands run than there is room for. */
  lemma RoomIsNeverExceeded(log: seq<Event>, total: nat, room: nat, k: nat)
    requires Legal(log, total, room) && k <= |log|
    ensures |Observe(log[..k]).running| <= room
  {
    LegalPrefix(log, total, room, k);
    SeenIsConsistent(log[..k], total, room);
  }

  /** Commands start in list order, each at most once. */
  lemma {:induction false} StartsInOrder(log: seq<Event>, total: nat, room: nat)
    requires Legal(log, total, room)
    ensures |Starts(log)| == Observe(log).next <= total
    ensures forall k :: 0 <= k < |Starts(log)| ==> Starts(log)[k] == k
  {
    if log != [] {
      StartsInOrder(log[..|log| - 1], total, room);
    }
  }

  lemma {:induction false} FailureIsSeen(log: seq<Event>, k: nat)
    requires k < |log| && log[k].Failed?
    ensures Observe(log).failed.Some?
  {
    if k < |log| - 1 {
      FailureIsSeen(log[..|log| - 1], k);
    }
  }

  /** Nothing starts after a failure. */
  lemma NoStartAfterFailure(log: seq<Event>, total: nat, room: nat, k: nat, l: nat)
    requires Legal(log, total, room) && k < l < |log| && log[k].Failed?
    ensures !log[l].Started?
  {
    LegalPrefix(log, total, room, l + 1);
    assert log[..l + 1][..l] == log[..l];
    FailureIsSeen(log[..l], k);
  }

  predicate Reaps(e: Event, i: nat) { e == Failed(i) || e == Succeeded(i) }

  lemma {:induction false} ReapedIsGone(log: seq<Event>, total: nat, room: nat, k: nat, i: nat)
    requires Legal(log, total, room) && k < |log| && Reaps(log[k], i)
    ensures i !in Observe(log).running && i < Observe(log).next
  {
    SeenIsConsistent(log[..|log| - 1], total, room);
    if k < |log| - 1 {
      ReapedIsGone(log[..|log| - 1], total, room, k, i);
    }
  }

  /** No command is reaped twice. */
  lemma ReapedAtMostOnce(log: seq<Event>, total: nat, room: nat, k: nat, l: nat, i: nat)
    requires Legal(log, total, room) && k < l < |log| && Reaps(log[k], i)
    ensures !Reaps(log[l], i)
  {
    LegalPrefix(log, total, room, l + 1);
    assert log[..l + 1][..l] == log[..l];
    LegalPrefix(log, total, room, l);
    ReapedIsGone(log[..l], total, room, k, i);
  }

  /** The command kept as failed is the first one reaped with a failure. */
  lemma {:induction false} FirstFailureIsKept(log: seq<Event>, k: nat)
    requires k < |log| && log[k].Failed? && forall j :: 0 <= j < k ==> !log[j].Failed?
    ensures Observe(log).failed == Some(log[k].cmd)
  {
    if k < |log| - 1 {
      FirstFailureIsKept(log[..|log| - 1], k);
    } else {
      NoFailureYet(log[..k]);
    }
  }

  lemma {:induction false} NoFailureYet(log: seq<Event>)
    requires forall j :: 0 <= j < |log| ==> !log[j].Failed?
    ensures Observe(log).failed.None?
  {
    if log != [] {
      NoFailureYet(log[..|log| - 1]);
    }
  }

  lemma {:induction false} AllowedAt(log: seq<Event>, total: nat, room: nat, k: nat)
    requires Legal(log, total, room) && k < |log|
    ensures Allowed(Observe(log[..k]), log[k], total, room)
  {
    LegalPrefix(log, total, room, k + 1);
    assert log[..k + 1][..k] == log[..k];
  }

  /** A command is rerun only when nothing runs any more, and it is the first that failed. */
  lemma {:induction false} RerunIsFirstFailure(log: seq<Event>, total: nat, room: nat, k: nat, i: nat) returns (j: nat)
    requires Legal(log, total, room) && k < |log| && log[k] == Rerun(i)
    ensures Observe(log[..k]).running == {}
    ensures j < k && log[j] == Failed(i) && forall l :: 0 <= l < j ==> !log[l].Failed?
  {
    AllowedAt(log, total, room, k);
    j := FirstFailure(log[..k], i);
  }

  lemma {:induction false} FirstFailure(log: seq<Event>, i: nat) returns (j: nat)
    requires Observe(log).failed == Some(i)
    ensures j < |log| && log[j] == Failed(i) && forall l :: 0 <= l < j ==> !log[l].Failed?
  {
    var before := log[..|log| - 1];
    if Observe(before).failed.Some? { j := FirstFailure(before, i); } else { j := |before|; NoneFailed(before); }
  }

  lemma {:induction false} NoneFailed(log: seq<Event>)
    requires Observe(log).failed.None?
    ensures forall l :: 0 <= l < |log| ==> !log[l].Failed?
  {
    forall l | 0 <= l < |log| ensures !log[l].Failed? {
      if log[l].Failed? { FailureIsSeen(log, l); }
    }
  }

  // ----- the scheduler -----

  /** A result of `os.wait`: the child's pid and whether its status is zero. */
  datatype Reap = Reap(pid: int, ok: bool)

  /** The pid `Popen` gives the child for a command, apart from those of the children that still
      run or wait to be reaped. */
  type Spawner = (nat, set<int>) -> int

  /** The dictionary of children holds running commands, each at most once. */
  predicate Tracks(workers: map<int, nat>, running: set<nat>) {
    && (forall p :: p in workers ==> workers[p] in running)
    && (forall p, q :: p in workers && q in workers && p != q ==> workers[p] != workers[q])
  }

  lemma TrackStart(workers: map<int, nat>, running: set<nat>, pid: int, cmd: nat)
    requires Tracks(workers, running) && pid !in workers && cmd !in running
    ensures Tracks(workers[pid := cmd], running + {cmd})
    ensures |workers[pid := cmd]| == |workers| + 1
  {
  }

  lemma TrackReap(workers: map<int, nat>, running: set<nat>, pid: int)
    requires Tracks(workers, running) && pid in workers
    ensures Tracks(workers - {pid}, running - {workers[pid]})
    ensures |workers - {pid}| == |workers| - 1
  {
    assert (workers - {pid}).Keys == workers.Keys - {pid};
  }

  /** What reaping a command adds to the log: a success calls the command's on_success, if any. */
  function Noted(cmd: nat, ok: bool, hooked: set<nat>): seq<Event> {
    if !ok then [Failed(cmd)] else if cmd in hooked then [Succeeded(cmd), Hook(cmd)] else [Succeeded(cmd)]
  }

  lemma NotedIsLegal(log: seq<Event>, cmd: nat, ok: bool, total: nat, room: nat, hooked: set<nat>)
    requires Legal(log, total, room) && cmd in Observe(log).running && Hooks(log) == Successes(log, hooked)
    ensures var noted, s := log + Noted(cmd, ok, hooked), Observe(log);
            && Legal(noted, total, room) && Hooks(noted) == Successes(noted, hooked)
            && Exits(noted) == Exits(log) + 1
            && Observe(noted).next == s.next && Observe(noted).running == s.running - {cmd}
            && Observe(noted).failed == if s.failed.None? && !ok then Some(cmd) else s.failed
  {
    var e := if ok then Succeeded(cmd) else Failed(cmd);
    Append(log, e, total, room, hooked);
    if ok && cmd in hooked {
      Append(log + [e], Hook(cmd), total, room, hooked);
      assert log + [e] + [Hook(cmd)] == log + Noted(cmd, ok, hooked);
    }
  }

  lemma {:induction false} StartedIsLegal(log: seq<Event>, children: nat, total: nat, room: nat, hooked: set<nat>)
    requires Legal(log, total, room) && Hooks(log) == Successes(log, hooked)
    requires Observe(log).next == Exits(log) + children < total && children < room && Observe(log).failed.None?
    ensures var s, log' := Observe(log), log + [Started(Observe(log).next)];
            && Legal(log', total, room) && Hooks(log') == Successes(log', hooked)
            && Exits(log') == Exits(log) && s.next !in s.running
            && Observe(log') == s.(next := s.next + 1, running := s.running + {s.next})
  {
    SeenIsConsistent(log, total, room);
    ExitsCount(log, total, room);
    Append(log, Started(Observe(log).next), total, room, hooked);
  }

  /** The commands from `first` on, up to `next`, are started in order. */
  function StartsFrom(first: nat, next: nat): seq<Event> {
    if next <= first then [] else StartsFrom(first, next - 1) + [Started(next - 1)]
  }

  lemma {:induction false} OneMoreStart(before: seq<Event>, first: nat, next: nat, log: seq<Event>, log': seq<Event>)
    requires first <= next && log == before + StartsFrom(first, next) && log' == log + [Started(next)]
    ensures log' == before + StartsFrom(first, next + 1)
  {
  }

  ghost predicate Fresh(spawn: Spawner) { forall i, running :: spawn(i, running) !in running }

  // ----- which children are known after some exits -----

  datatype Setting = Setting(total: nat, room: nat, spawn: Spawner)

  /** How many commands were started, the children by pid, and the first failure. */
  datatype Pool = Pool(next: nat, workers: map<int, nat>, failed: Option<nat>)

  function Filled(c: Setting, p: Pool): Pool
    decreases c.total - p.next
  {
    if p.failed.None? && |p.workers| < c.room && p.next < c.total then
      Filled(c, Pool(p.next + 1, p.workers[c.spawn(p.next, p.workers.Keys) := p.next], None))
    else p
  }

  /** A child that is not known is ignored. */
  function Without(p: Pool, r: Reap): Pool {
    if r.pid !in p.workers then p
    else Pool(p.next, p.workers - {r.pid}, if r.ok || p.failed.Some? then p.failed else Some(p.workers[r.pid]))
  }

  /** The children after some results of `os.wait`, before and after new ones are started. */
  function Pending(c: Setting, reaps: seq<Reap>): Pool
    decreases |reaps|, 0
  {
    if reaps == [] then Pool(0, map[], None)
    else Without(Waiting(c, reaps[..|reaps| - 1]), reaps[|reaps| - 1])
  }

  function Waiting(c: Setting, reaps: seq<Reap>): Pool
    decreases |reaps|, 1
  {
    Filled(c, Pending(c, reaps))
  }

  /** How many of the results are of children known at the time. */
  function KnownExits(c: Setting, reaps: seq<Reap>): nat {
    if reaps == [] then 0
    else
      var before := reaps[..|reaps| - 1];
      KnownExits(c, before) + if reaps[|reaps| - 1].pid in Waiting(c, before).workers then 1 else 0
  }

  lemma {:induction false} FillOne(c: Setting, p: Pool, more: Pool)
    requires p.failed.None? && |p.workers| < c.room && p.next < c.total
    requires more == Pool(p.next + 1, p.workers[c.spawn(p.next, p.workers.Keys) := p.next], None)
    ensures Filled(c, p) == Filled(c, more)
  {
  }

  lemma {:induction false} FilledKeepsCount(c: Setting, p: Pool, exits: nat)
    requires Fresh(c.spawn) && p.next == exits + |p.workers| <= c.total
    ensures Filled(c, p).next == exits + |Filled(c, p).workers| <= c.total
    decreases c.total - p.next
  {
    if p.failed.None? && |p.workers| < c.room && p.next < c.total {
      assert c.spawn(p.next, p.workers.Keys) !in p.workers.Keys;
      var more := p.workers[c.spawn(p.next, p.workers.Keys) := p.next];
      assert |more| == |p.workers| + 1;
      FilledKeepsCount(c, Pool(p.next + 1, more, None), exits);
    }
  }

  /** Every command started is a known child or one of the exits of known children. */
  lemma {:induction false} KnownExitsCount(c: Setting, reaps: seq<Reap>)
    requires Fresh(c.spawn)
    ensures Pending(c, reaps).next == KnownExits(c, reaps) + |Pending(c, reaps).workers|
    ensures Waiting(c, reaps).next == KnownExits(c, reaps) + |Waiting(c, reaps).workers| <= c.total
  {
    if reaps != [] {
      var before, last := reaps[..|reaps| - 1], reaps[|reaps| - 1];
      KnownExitsCount(c, before);
      var p := Waiting(c, before);
      assert last.pid in p.workers ==> (p.workers - {last.pid}).Keys == p.workers.Keys - {last.pid};
    }
    FilledKeepsCount(c, Pending(c, reaps), KnownExits(c, reaps));
  }

  predicate BadAt(c: Setting, reaps: seq<Reap>, k: nat)
    requires k < |reaps|
  {
    !reaps[k].ok && reaps[k].pid in WaitingAt(c, reaps, k).workers
  }

  lemma {:induction false} FilledKeepsFailure(c: Setting, p: Pool)
    ensures Filled(c, p).failed == p.failed
    decreases c.total - p.next
  {
    if p.failed.None? && |p.workers| < c.room && p.next < c.total {
      FilledKeepsFailure(c, Pool(p.next + 1, p.workers[c.spawn(p.next, p.workers.Keys) := p.next], None));
    }
  }

  lemma BadBefore(c: Setting, reaps: seq<Reap>, n: nat, k: nat)
    requires k < n <= |reaps|
    ensures WaitingAt(c, reaps[..n], k) == WaitingAt(c, reaps, k) && (BadAt(c, reaps[..n], k) <==> BadAt(c, reaps, k))
  {
    assert reaps[..n][..k] == reaps[..k];
  }

  /** A command counts as failed if and only if some result said so of a child known when it came ... */
  lemma {:induction false} FailedIffBadExit(c: Setting, reaps: seq<Reap>)
    ensures Waiting(c, reaps).failed.Some? <==> exists k: nat :: k < |reaps| && BadAt(c, reaps, k)
  {
    FilledKeepsFailure(c, Pending(c, reaps));
    if reaps != [] {
      var n := |reaps| - 1;
      FailedIffBadExit(c, reaps[..n]);
      if k: nat :| k < n && BadAt(c, reaps[..n], k) { BadBefore(c, reaps, n, k); }
      if k: nat :| k <= n && BadAt(c, reaps, k) {
        if k < n { BadBefore(c, reaps, n, k); assert BadAt(c, reaps[..n], k); }
      }
      assert BadAt(c, reaps, n) <==> !reaps[n].ok && reaps[n].pid in Waiting(c, reaps[..n]).workers;
    }
  }

  /** ... and it is the command of the first such result. */
  lemma {:induction false} FailedIsFirstBad(c: Setting, reaps: seq<Reap>, k: nat)
    requires k < |reaps| && BadAt(c, reaps, k) && forall j: nat :: j < k ==> !BadAt(c, reaps, j)
    ensures Waiting(c, reaps).failed == Some(WaitingAt(c, reaps, k).workers[reaps[k].pid])
  {
    var n := |reaps| - 1;
    FilledKeepsFailure(c, Pending(c, reaps));
    if k < n {
      forall j: nat | j <= k ensures BadAt(c, reaps[..n], j) <==> BadAt(c, reaps, j) { BadBefore(c, reaps, n, j); }
      FailedIsFirstBad(c, reaps[..n], k);
      BadBefore(c, reaps, n, k);
    } else {
      FailedIffBadExit(c, reaps[..n]);
      forall j: nat | j < n ensures !BadAt(c, reaps[..n], j) { BadBefore(c, reaps, n, j); }
    }
  }

  lemma {:induction false} KnownExitsGrow(c: Setting, reaps: seq<Reap>)
    ensures KnownExits(c, reaps) <= |reaps|
  {
    if reaps != [] { KnownExitsGrow(c, reaps[..|reaps| - 1]); }
  }

  lemma {:induction false} NextPending(c: Setting, reaps: seq<Reap>, at: nat)
    requires at < |reaps|
    ensures Pending(c, reaps[..at + 1]) == Without(Waiting(c, reaps[..at]), reaps[at])
  {
    assert reaps[..at + 1][..at] == reaps[..at];
  }

  function WaitingAt(c: Setting, reaps: seq<Reap>, k: nat): Pool
    requires k <= |reaps|
  {
    Waiting(c, reaps[..k])
  }

  predicate HasChild(c: Setting, reaps: seq<Reap>, k: nat)
    requires k <= |reaps|
  {
    |WaitingAt(c, reaps, k).workers| > 0
  }

  /** It was never waiting without a child. */
  ghost predicate Busy(c: Setting, reaps: seq<Reap>, at: nat)
    requires at <= |reaps|
  {
    forall k: nat :: k < at ==> HasChild(c, reaps, k)
  }

  class Scheduler {
    const total: nat
    const room: nat
    const hooked: set<nat>
    const spawn: Spawner
    var items: seq<nat>
    var workers: map<int, nat>
    var failed: Option<nat>
    var num: nat
    var log: seq<Event>

    ghost predicate Valid()
      reads this
    {
      var s := Observe(log);
      && Legal(log, total, room) && Hooks(log) == Successes(log, hooked) && Fresh(spawn)
      && room >= 2 && s.next == num && s.failed == failed
      && |items| == total - num && (forall k :: 0 <= k < |items| ==> items[k] == total - 1 - k)
      && Tracks(workers, s.running) && num == Exits(log) + |workers|
    }

    /** `items` is the list of commands reversed, so that commands are popped from its end. */
    constructor (total_: nat, cpus: nat, hooked_: set<nat>, spawn_: Spawner)
      requires Fresh(spawn_)
      ensures Valid() && log == [] && workers == map[]
      ensures total == total_ && hooked == hooked_ && spawn == spawn_
      ensures room == if cpus > 2 then cpus else 2
    {
      total, hooked, spawn := total_, hooked_, spawn_;
      room := if cpus > 2 then cpus else 2;
      items := seq(total_, k requires 0 <= k < total_ => total_ - 1 - k);
      workers, failed, num, log := map[], None, 0, [];
    }

    function Now(): Pool
      reads this
    {
      Pool(num, workers, failed)
    }

    function Ours(): Setting { Setting(total, room, spawn) }

    method StartNext()
      requires Valid() && items != [] && |workers| < room && failed.None?
      modifies this
      ensures Valid() && |items| == |old(items)| - 1 && failed.None?
      ensures log == old(log) + [Started(old(num))] && num == old(num) + 1 && |workers| == |old(workers)| + 1
      ensures Filled(Ours(), Now()) == Filled(Ours(), old(Now()))
    {
      StartedIsLegal(log, |workers|, total, room, hooked);
      var cmd := items[|items| - 1];
      items := items[..|items| - 1];
      num := num + 1;
      var pid := spawn(cmd, workers.Keys);
      TrackStart(workers, Observe(log).running, pid, cmd);
      workers := workers[pid := cmd];
      log := log + [Started(cmd)];
      FillOne(Ours(), old(Now()), Now());
    }

    /** `wait`, once `os.wait` has returned. An unknown child is ignored. */
    method Reaped(r: Reap)
      requires Valid()
      modifies this`workers, this`failed, this`log
      ensures Valid() && old(log) <= log
      ensures r.pid !in old(workers) ==> log == old(log) && workers == old(workers)
      ensures r.pid in old(workers) ==>
                && |workers| == |old(workers)| - 1
                && log == old(log) + Noted(old(workers)[r.pid], r.ok, hooked)
      ensures old(failed).Some? ==> failed == old(failed)
      ensures Now() == Without(old(Now()), r)
    {
      if r.pid !in workers { return; }
      var cmd := workers[r.pid];
      TrackReap(workers, Observe(log).running, r.pid);
      NotedIsLegal(log, cmd, r.ok, total, room, hooked);
      workers := workers - {r.pid};
      if !r.ok && failed.None? { failed := Some(cmd); }
      log := log + Noted(cmd, r.ok, hooked);
    }

    method StartAnother(ghost before: seq<Event>, ghost first: nat)
      requires Valid() && items != [] && |workers| < room && failed.None?
      requires first <= num && log == before + StartsFrom(first, num)
      modifies this
      ensures Valid() && |items| == |old(items)| - 1 && |workers| > 0 && failed.None?
      ensures first <= num && log == before + StartsFrom(first, num)
      ensures Filled(Ours(), Now()) == Filled(Ours(), old(Now()))
    {
      ghost var was, next := log, num;
      StartNext();
      OneMoreStart(before, first, next, was, log);
    }

    /** The inner loop: start the next commands while there is room, and do nothing else. */
    method Fill()
      requires Valid() && failed.None?
      modifies this
      ensures Valid() && failed.None?
      ensures |workers| >= room || items == []
      ensures |workers| > 0 || old(items) == []
      ensures num >= old(num) && log == old(log) + StartsFrom(old(num), num)
      ensures Now() == Filled(Ours(), old(Now()))
    {
      while |workers| < room && items != []
        invariant Valid() && failed.None?
        invariant num >= old(num) && log == old(log) + StartsFrom(old(num), num)
        invariant |workers| > 0 || items == old(items)
        invariant Filled(Ours(), Now()) == Filled(Ours(), old(Now()))
        decreases |items|
      {
        StartAnother(old(log), old(num));
      }
    }

    /** One `wait` while there are children. */
    method Wait(reaps: seq<Reap>, at: nat)
      requires Valid() && at < |reaps| && Now() == WaitingAt(Ours(), reaps, at) && |workers| > 0
      requires Busy(Ours(), reaps, at)
      modifies this`workers, this`failed, this`log
      ensures Valid() && Now() == Pending(Ours(), reaps[..at + 1]) && Busy(Ours(), reaps, at + 1)
      ensures old(failed).Some? ==> failed == old(failed)
    {
      NextPending(Ours(), reaps, at);
      Reaped(reaps[at]);
    }

    /** The first loop: it waits for a result that is not there, or has started all it will. */
    method StartAll(reaps: seq<Reap>) returns (waits: bool, at: nat)
      requires Valid() && log == [] && workers == map[]
      modifies this
      ensures Valid() && at <= |reaps| && Busy(Ours(), reaps, at)
      ensures if waits then at == |reaps| && |workers| > 0 && Now() == WaitingAt(Ours(), reaps, at)
              else (items == [] || failed.Some?) && Now() == Pending(Ours(), reaps[..at])
    {
      waits, at := false, 0;
      while items != [] && failed.None?
        invariant Valid() && at <= |reaps| && Now() == Pending(Ours(), reaps[..at]) && Busy(Ours(), reaps, at)
        decreases |reaps| - at
      {
        Fill();
        if at == |reaps| { return true, at; }
        Wait(reaps, at);
        at := at + 1;
      }
    }

    /** Nothing starts any more, and the pool is what some results of `os.wait` leave. */
    ghost predicate Draining(reaps: seq<Reap>, at: nat)
      reads this
    {
      && Valid() && (items == [] || failed.Some?)
      && at <= |reaps| && Now() == WaitingAt(Ours(), reaps, at) && Busy(Ours(), reaps, at)
    }

    method DrainOne(reaps: seq<Reap>, at: nat)
      requires Draining(reaps, at) && at < |reaps| && |workers| > 0
      modifies this`workers, this`failed, this`log
      ensures Draining(reaps, at + 1)
    {
      Wait(reaps, at);
      NothingToStart();
    }

    /** The second loop: what still runs is waited for. */
    method Drain(reaps: seq<Reap>, from: nat) returns (waits: bool, at: nat)
      requires Draining(reaps, from)
      modifies this`workers, this`failed, this`log
      ensures Draining(reaps, at)
      ensures if waits then at == |reaps| && |workers| > 0 else |workers| == 0
    {
      waits, at := false, from;
      while |workers| > 0
        invariant Draining(reaps, at)
        decreases |reaps| - at
      {
        if at == |reaps| { return true, at; }
        DrainOne(reaps, at);
        at := at + 1;
      }
    }

    lemma {:induction false} NothingToStart()
      requires Valid() && (items == [] || failed.Some?)
      ensures Filled(Ours(), Now()) == Now()
    {
    }

    /** `parallel_run` for the given results of `os.wait`, of which it uses the first `at`. Not done
        means that it waits for another: it has used all, and they hold fewer exits of its own
        children than there are commands. */
    method Run(reaps: seq<Reap>) returns (done: bool, at: nat)
      requires Valid() && log == [] && workers == map[]
      modifies this
      ensures Legal(log, total, room) && Hooks(log) == Successes(log, hooked)
      // its children are those that the results it used leave, and it waits only while it has children
      ensures at <= |reaps| && Now() == WaitingAt(Ours(), reaps, at) && Busy(Ours(), reaps, at)
      ensures Follows()
      ensures done <==> |workers| == 0
      ensures done ==>
                var s := Observe(log);
                && s.running == {}
                && (s.failed.None? ==> s.succeeded == AllOf(total))
                && (s.failed.Some? ==> log != [] && log[|log| - 1] == Rerun(s.failed.value))
      ensures !done ==> at == |reaps| && KnownExits(Ours(), reaps) < total && Observe(log).running != {}
    {
      var waits;
      waits, at := StartAll(reaps);
      if !waits {
        NothingToStart();
        waits, at := Drain(reaps, at);
      }
      done := !waits;
      if done {
        Finish();
      } else {
        StillWaiting(reaps, at);
      }
    }

    lemma {:induction false} StillWaiting(reaps: seq<Reap>, at: nat)
      requires Valid() && at == |reaps| && Now() == WaitingAt(Ours(), reaps, at) && |workers| > 0
      ensures KnownExits(Ours(), reaps) < total
      ensures Legal(log, total, room) && Hooks(log) == Successes(log, hooked) && Follows()
    {
      assert reaps[..at] == reaps;
      KnownExitsCount(Ours(), reaps);
      ExitsCount(log, total, room);
    }

    /** The log tells what the fields say. */
    ghost predicate Follows()
      reads this
    {
      var s := Observe(log);
      s.next == num && s.failed == failed && Tracks(workers, s.running) && |s.running| == |workers|
    }

    /** The failed command, if any, is run again in the foreground. */
    method Finish()
      requires Valid() && |workers| == 0 && (items == [] || failed.Some?)
      modifies this`log
      ensures Legal(log, total, room) && Hooks(log) == Successes(log, hooked)
      ensures Follows()
      ensures var s := Observe(log);
              && s.running == {}
              && (s.failed.None? ==> s.succeeded == AllOf(total))
              && (s.failed.Some? ==> log != [] && log[|log| - 1] == Rerun(s.failed.value))
    {
      SeenIsConsistent(log, total, room);
      ExitsCount(log, total, room);
      assert Observe(log).running == {};
      EverythingSucceeded(Observe(log), total, room);
      if failed.Some? {
        Append(log, Rerun(failed.value), total, room, hooked);
        log := log + [Rerun(failed.value)];
      }
    }
  }
}
