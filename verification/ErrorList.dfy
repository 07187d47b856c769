/** The per-thread error records of glfw/init.c: `_glfwInputError` and `glfwGetError` as
    interleaved single reads and writes of any number of threads, over one mutex-protected
    list and one thread-local slot. The library is initialised throughout. */
module ErrorList {
  import opened Options

  datatype Thread = Thread(n: nat)
  datatype Ref = Ref(n: nat)

  /** `_GLFWerror`; `owner` is the thread that allocated it. */
  datatype Record = Record(code: int, description: string, next: Option<Ref>, owner: Thread)

  const NO_ERROR := 0
  const MAIN := Thread(0)
  const MAIN_RECORD := Ref(0)  // _glfwMainThreadError, never on the list

  /** Where a thread is: each name is the access it performs next. */
  datatype Pc =
    | Idle
    | GetSlot | Allocate | SetSlot | Lock | ReadHead | WriteNext | WriteHead | Unlock | WriteCode | WriteDescription
    | FetchSlot | ReadCode | ClearCode

  datatype Local = Local(pc: Pc, code: int, description: string, record: Ref, head: Option<Ref>)

  const RESTING := Local(Idle, 0, "", MAIN_RECORD, None)

  /** What calls returned, in the order in which they returned. */
  datatype Event =
    | Raised(thread: Thread, code: int, description: string)
    | Got(thread: Thread, code: int, text: Option<string>)

  datatype State = State(
    heap: map<Ref, Record>,
    head: Option<Ref>,          // _glfw.errorListHead
    slot: map<Thread, Ref>,     // _glfw.errorSlot, absent while null
    holder: Option<Thread>,     // of _glfw.errorLock
    locals: map<Thread, Local>, // absent for threads at rest
    nextRef: nat,
    history: seq<Event>)

  /** After `glfwInit`. */
  const INITIAL := State(map[MAIN_RECORD := Record(NO_ERROR, "", None, MAIN)], None,
                         map[MAIN := MAIN_RECORD], None, map[], 1, [])

  function LocalOf(s: State, t: Thread): Local { if t in s.locals then s.locals[t] else RESTING }

  function Goto(s: State, t: Thread, l: Local): State { s.(locals := s.locals[t := l]) }

  datatype Choice = RaiseError(code: int, description: string) | GetError | Proceed

  /** One access by thread `t`; a thread that waits for the mutex, or whose record is missing,
      does not move. */
  function Next(s: State, t: Thread, choice: Choice): State {
    var l := LocalOf(s, t);
    match l.pc
    case Idle => (
      match choice
      case RaiseError(code, description) => Goto(s, t, Local(GetSlot, code, description, MAIN_RECORD, None))
      case GetError => Goto(s, t, Local(FetchSlot, NO_ERROR, "", MAIN_RECORD, None))
      case Proceed => s
    )
    case GetSlot =>
      if t in s.slot then Goto(s, t, l.(pc := WriteCode, record := s.slot[t])) else Goto(s, t, l.(pc := Allocate))
    case Allocate =>
      var r := Ref(s.nextRef);
      Goto(s, t, l.(pc := SetSlot, record := r)).(
        heap := s.heap[r := Record(NO_ERROR, "", None, t)], nextRef := s.nextRef + 1)
    case SetSlot => Goto(s, t, l.(pc := Lock)).(slot := s.slot[t := l.record])
    case Lock => if s.holder.Some? then s else Goto(s, t, l.(pc := ReadHead)).(holder := Some(t))
    case ReadHead => Goto(s, t, l.(pc := WriteNext, head := s.head))
    case WriteNext =>
      if l.record !in s.heap then s
      else Goto(s, t, l.(pc := WriteHead)).(heap := s.heap[l.record := s.heap[l.record].(next := l.head)])
    case WriteHead => Goto(s, t, l.(pc := Unlock)).(head := Some(l.record))
    case Unlock => Goto(s, t, l.(pc := WriteCode)).(holder := None)
    case WriteCode =>
      if l.record !in s.heap then s
      else Goto(s, t, l.(pc := WriteDescription)).(heap := s.heap[l.record := s.heap[l.record].(code := l.code)])
    case WriteDescription =>
      if l.record !in s.heap then s
      else Goto(s, t, RESTING).(
        heap := s.heap[l.record := s.heap[l.record].(description := l.description)],
        history := s.history + [Raised(t, l.code, l.description)])
    case FetchSlot =>
      if t in s.slot then Goto(s, t, l.(pc := ReadCode, record := s.slot[t]))
      else Goto(s, t, RESTING).(history := s.history + [Got(t, NO_ERROR, None)])
    case ReadCode =>
      if l.record !in s.heap then s else Goto(s, t, l.(pc := ClearCode, code := s.heap[l.record].code))
    case ClearCode =>
      if l.record !in s.heap then s
      else
        var description := if l.code != NO_ERROR then Some(s.heap[l.record].description) else None;
        Goto(s, t, RESTING).(
          heap := s.heap[l.record := s.heap[l.record].(code := NO_ERROR)],
          history := s.history + [Got(t, l.code, description)])
  }

  datatype Move = Move(thread: Thread, choice: Choice)

  /** Any interleaving. */
  function Run(s: State, moves: seq<Move>): State
    decreases |moves|
  {
    if moves == [] then s else Run(Next(s, moves[0].thread, moves[0].choice), moves[1..])
  }

  // ----- the list -----

  function At(list: seq<Ref>, i: nat): Option<Ref> { if i < |list| then Some(list[i]) else None }

  /** `list` is what following `next` from the head visits. */
  ghost predicate Chain(s: State, list: seq<Ref>) {
    && s.head == At(list, 0)
    && (forall i :: 0 <= i < |list| ==> list[i] in s.heap && s.heap[list[i]].next == At(list, i + 1))
    && (forall i, j :: 0 <= i < j < |list| ==> list[i] != list[j])
  }

  /** Between obtaining its record and publishing it on the list. */
  predicate Unpublished(pc: Pc) { pc in {Lock, ReadHead, WriteNext, WriteHead} }

  predicate Critical(pc: Pc) { pc in {ReadHead, WriteNext, WriteHead, Unlock} }

  /** Past the point where the thread has fetched its slot. */
  predicate HasRecord(pc: Pc) {
    pc in {Lock, ReadHead, WriteNext, WriteHead, Unlock, WriteCode, WriteDescription, ReadCode, ClearCode}
  }

  /** What holds of one thread: its record is its own and sits in its slot, or is about to. */
  ghost predicate ThreadOk(s: State, t: Thread) {
    var l := LocalOf(s, t);
    && (l.pc in {Allocate, SetSlot} ==> t !in s.slot)
    && (l.pc == SetSlot ==> l.record in s.heap && s.heap[l.record].owner == t)
    && (HasRecord(l.pc) ==> t in s.slot && s.slot[t] == l.record)
    && (Unpublished(l.pc) || l.pc == Unlock ==> t != MAIN)
    && (t in s.slot ==> s.slot[t] in s.heap && s.heap[s.slot[t]].owner == t)
  }

  /** What holds of one record: its owner will find it. */
  ghost predicate RecordOk(s: State, r: Ref) {
    r in s.heap ==>
      var t := s.heap[r].owner;
      && r.n < s.nextRef
      && if LocalOf(s, t).pc == SetSlot then LocalOf(s, t).record == r else t in s.slot && s.slot[t] == r
  }

  ghost predicate Ownership(s: State) {
    && MAIN in s.slot && s.slot[MAIN] == MAIN_RECORD
    && (forall t :: ThreadOk(s, t))
    && (forall r :: RecordOk(s, r))
  }

  /** The mutex is held exactly by the thread in the critical section, which has seen the
      current head. */
  ghost predicate MutexOk(s: State, t: Thread) {
    var l := LocalOf(s, t);
    && (Critical(l.pc) <==> s.holder == Some(t))
    && (l.pc == WriteNext ==> l.head == s.head)
    && (l.pc == WriteHead ==> l.record in s.heap && s.heap[l.record].next == s.head)
  }

  ghost predicate Mutex(s: State) { forall t :: MutexOk(s, t) }

  /** A record is on the list exactly if it is the slot of a thread other than the main one
      that has finished publishing it. */
  ghost predicate PublishedOk(s: State, list: seq<Ref>, r: Ref) {
    r in list <==>
      && r in s.heap && s.heap[r].owner != MAIN && s.heap[r].owner in s.slot
      && !Unpublished(LocalOf(s, s.heap[r].owner).pc)
  }

  ghost predicate Published(s: State, list: seq<Ref>) { forall r :: PublishedOk(s, list, r) }

  // ----- every step keeps the invariants -----

  lemma OthersRestWhileObtaining(s: State, t: Thread, choice: Choice, u: Thread)
    requires u != t && LocalOf(s, t).pc in {Idle, GetSlot, Allocate, SetSlot}
    ensures LocalOf(Next(s, t, choice), u) == LocalOf(s, u)
    ensures u in Next(s, t, choice).slot <==> u in s.slot
    ensures u in s.slot ==> Next(s, t, choice).slot[u] == s.slot[u]
  {
  }

  lemma OthersRestWhileListing(s: State, t: Thread, choice: Choice, u: Thread)
    requires u != t && LocalOf(s, t).pc in {Lock, ReadHead, WriteNext, WriteHead, Unlock}
    ensures LocalOf(Next(s, t, choice), u) == LocalOf(s, u)
    ensures u in Next(s, t, choice).slot <==> u in s.slot
    ensures u in s.slot ==> Next(s, t, choice).slot[u] == s.slot[u]
  {
  }

  lemma OthersRestWhileUsing(s: State, t: Thread, choice: Choice, u: Thread)
    requires u != t && LocalOf(s, t).pc in {WriteCode, WriteDescription, FetchSlot, ReadCode, ClearCode}
    ensures LocalOf(Next(s, t, choice), u) == LocalOf(s, u)
    ensures u in Next(s, t, choice).slot <==> u in s.slot
    ensures u in s.slot ==> Next(s, t, choice).slot[u] == s.slot[u]
  {
  }

  lemma OthersRest(s: State, t: Thread, choice: Choice, u: Thread)
    requires u != t
    ensures LocalOf(Next(s, t, choice), u) == LocalOf(s, u)
    ensures u in Next(s, t, choice).slot <==> u in s.slot
    ensures u in s.slot ==> Next(s, t, choice).slot[u] == s.slot[u]
  {
    match LocalOf(s, t).pc
    case Idle | GetSlot | Allocate | SetSlot => OthersRestWhileObtaining(s, t, choice, u);
    case Lock | ReadHead | WriteNext | WriteHead | Unlock => OthersRestWhileListing(s, t, choice, u);
    case WriteCode | WriteDescription | FetchSlot | ReadCode | ClearCode => OthersRestWhileUsing(s, t, choice, u);
  }

  /** Records are never freed, keep their owner, and only their owner's steps write them. */
  lemma RecordsKept(s: State, t: Thread, choice: Choice, r: Ref)
    requires ThreadOk(s, t) && RecordOk(s, r) && r in s.heap
    ensures r in Next(s, t, choice).heap && Next(s, t, choice).heap[r].owner == s.heap[r].owner
    ensures s.heap[r].owner != t ==> Next(s, t, choice).heap[r] == s.heap[r]
  {
  }

  lemma OwnThreadStep(s: State, t: Thread, choice: Choice)
    requires ThreadOk(s, t) && MAIN in s.slot
    ensures ThreadOk(Next(s, t, choice), t)
  {
  }

  lemma OtherThreadStep(s: State, t: Thread, choice: Choice, u: Thread)
    requires Ownership(s) && u != t
    ensures ThreadOk(Next(s, t, choice), u)
  {
    assert ThreadOk(s, u) && ThreadOk(s, t);
    OthersRest(s, t, choice, u);
    if u in s.slot {
      assert RecordOk(s, s.slot[u]);
      RecordsKept(s, t, choice, s.slot[u]);
    }
    if LocalOf(s, u).pc == SetSlot {
      assert RecordOk(s, LocalOf(s, u).record);
      RecordsKept(s, t, choice, LocalOf(s, u).record);
    }
  }

  lemma RecordStep(s: State, t: Thread, choice: Choice, r: Ref)
    requires Ownership(s)
    ensures RecordOk(Next(s, t, choice), r)
  {
    assert ThreadOk(s, t) && RecordOk(s, r);
    if r in s.heap {
      RecordsKept(s, t, choice, r);
      var u := s.heap[r].owner;
      if u != t { OthersRest(s, t, choice, u); }
    }
  }

  lemma OwnershipStep(s: State, t: Thread, choice: Choice)
    requires Ownership(s)
    ensures Ownership(Next(s, t, choice))
  {
    var s' := Next(s, t, choice);
    assert ThreadOk(s, t);
    forall u ensures ThreadOk(s', u) {
      if u == t { OwnThreadStep(s, t, choice); } else { OtherThreadStep(s, t, choice, u); }
    }
    forall r ensures RecordOk(s', r) { RecordStep(s, t, choice, r); }
  }

  lemma OwnMutexStep(s: State, t: Thread, choice: Choice)
    requires MutexOk(s, t) && ThreadOk(s, t)
    ensures MutexOk(Next(s, t, choice), t)
  {
  }

  /** While another thread is in the critical section, neither the mutex nor the head moves. */
  lemma OtherMutexStep(s: State, t: Thread, choice: Choice, u: Thread)
    requires Ownership(s) && MutexOk(s, t) && MutexOk(s, u) && u != t
    ensures MutexOk(Next(s, t, choice), u)
  {
    assert ThreadOk(s, t) && ThreadOk(s, u);
    OthersRest(s, t, choice, u);
    if LocalOf(s, u).pc == WriteHead {
      assert RecordOk(s, LocalOf(s, u).record);
      RecordsKept(s, t, choice, LocalOf(s, u).record);
    }
  }

  lemma MutexStep(s: State, t: Thread, choice: Choice)
    requires Ownership(s) && Mutex(s)
    ensures Mutex(Next(s, t, choice))
  {
    assert ThreadOk(s, t) && MutexOk(s, t);
    forall u ensures MutexOk(Next(s, t, choice), u) {
      if u == t { OwnMutexStep(s, t, choice); } else { OtherMutexStep(s, t, choice, u); }
    }
  }

  /** The list after a step: `WriteHead` puts the thread's record in front. */
  function ListAfter(s: State, t: Thread, list: seq<Ref>): seq<Ref> {
    if LocalOf(s, t).pc == WriteHead then [LocalOf(s, t).record] + list else list
  }

  /** A record being linked in is not on the list yet. */
  lemma NotYetListed(s: State, list: seq<Ref>, t: Thread)
    requires Ownership(s) && Published(s, list) && Unpublished(LocalOf(s, t).pc)
    ensures LocalOf(s, t).record !in list
  {
    var r := LocalOf(s, t).record;
    assert ThreadOk(s, t) && RecordOk(s, r) && PublishedOk(s, list, r);
  }

  lemma NextUnchanged(s: State, list: seq<Ref>, t: Thread, choice: Choice, r: Ref)
    requires Ownership(s) && Published(s, list) && r in list
    ensures r in s.heap && r in Next(s, t, choice).heap && Next(s, t, choice).heap[r].next == s.heap[r].next
  {
    assert ThreadOk(s, t) && PublishedOk(s, list, r) && RecordOk(s, r);
    RecordsKept(s, t, choice, r);
    if LocalOf(s, t).pc == WriteNext { NotYetListed(s, list, t); }
  }

  lemma ChainStep(s: State, list: seq<Ref>, t: Thread, choice: Choice)
    requires Ownership(s) && Mutex(s) && Published(s, list) && Chain(s, list)
    ensures Chain(Next(s, t, choice), ListAfter(s, t, list))
  {
    var s', list' := Next(s, t, choice), ListAfter(s, t, list);
    assert ThreadOk(s, t) && MutexOk(s, t);
    forall i | 0 <= i < |list|
      ensures list[i] in s'.heap && s'.heap[list[i]].next == s.heap[list[i]].next
    {
      NextUnchanged(s, list, t, choice, list[i]);
    }
    if LocalOf(s, t).pc == WriteHead {
      NotYetListed(s, list, t);
      ChainCons(s, s', list, LocalOf(s, t).record);
    }
  }

  lemma ChainCons(s: State, s': State, list: seq<Ref>, r: Ref)
    requires Chain(s, list) && r !in list && s'.head == Some(r)
    requires r in s'.heap && s'.heap[r].next == s.head
    requires forall i :: 0 <= i < |list| ==> list[i] in s'.heap && s'.heap[list[i]].next == s.heap[list[i]].next
    ensures Chain(s', [r] + list)
  {
  }

  lemma PublishedStep(s: State, list: seq<Ref>, t: Thread, choice: Choice)
    requires Ownership(s) && Published(s, list)
    ensures Published(Next(s, t, choice), ListAfter(s, t, list))
  {
    forall r ensures PublishedOk(Next(s, t, choice), ListAfter(s, t, list), r) {
      PublishedRecordStep(s, list, t, choice, r);
    }
  }

  lemma PublishedRecordStep(s: State, list: seq<Ref>, t: Thread, choice: Choice, r: Ref)
    requires Ownership(s) && Published(s, list)
    ensures PublishedOk(Next(s, t, choice), ListAfter(s, t, list), r)
  {
    assert ThreadOk(s, t) && RecordOk(s, r) && PublishedOk(s, list, r);
    if LocalOf(s, t).pc == WriteHead { assert RecordOk(s, LocalOf(s, t).record); }
    if r in s.heap {
      RecordsKept(s, t, choice, r);
      var u := s.heap[r].owner;
      if u != t { OthersRest(s, t, choice, u); }
    }
  }

  // ----- what callers see -----

  datatype Report = Report(code: int, description: string)

  /** A thread's error according to the calls that have returned: the last one it raised, or
      none if it has fetched it since. */
  function Latest(history: seq<Event>, t: Thread): Report {
    if history == [] then Report(NO_ERROR, "")
    else
      match history[|history| - 1]
      case Raised(u, code, description) =>
        if u == t then Report(code, description) else Latest(history[..|history| - 1], t)
      case Got(u, _, _) =>
        if u == t then Report(NO_ERROR, "") else Latest(history[..|history| - 1], t)
  }

  function Answer(report: Report): Option<string> {
    if report.code != NO_ERROR then Some(report.description) else None
  }

  lemma LatestAppend(history: seq<Event>, e: Event, t: Thread)
    ensures Latest(history + [e], t) ==
      if e.thread != t then Latest(history, t)
      else if e.Raised? then Report(e.code, e.description)
      else Report(NO_ERROR, "")
  {
    assert (history + [e])[..|history|] == history;
  }

  ghost predicate Matches(rec: Record, report: Report) {
    rec.code == report.code && (report.code != NO_ERROR ==> rec.description == report.description)
  }

  /** A thread's record says what its finished calls say, except half-way through a write. */
  ghost predicate ReportOk(s: State, t: Thread) {
    var l, report := LocalOf(s, t), Latest(s.history, t);
    && (t !in s.slot ==> report.code == NO_ERROR)
    && (l.pc == SetSlot ==> l.record in s.heap && s.heap[l.record].code == NO_ERROR)
    && (t in s.slot && s.slot[t] in s.heap ==>
        if l.pc == WriteDescription then s.heap[s.slot[t]].code == l.code else Matches(s.heap[s.slot[t]], report))
    && (l.pc == ClearCode ==> l.code == report.code)
  }

  /** Every answer given so far was the asking thread's latest error. */
  ghost predicate AnswersOk(history: seq<Event>) {
    forall k :: 0 <= k < |history| && history[k].Got? ==>
      && history[k].code == Latest(history[..k], history[k].thread).code
      && history[k].text == Answer(Latest(history[..k], history[k].thread))
  }

  lemma HistoryGrows(s: State, t: Thread, choice: Choice)
    ensures var h := Next(s, t, choice).history;
      h == s.history || (|h| == |s.history| + 1 && h == s.history + [h[|s.history|]] && h[|s.history|].thread == t)
  {
  }

  lemma OtherReportStep(s: State, t: Thread, choice: Choice, u: Thread)
    requires Ownership(s) && ReportOk(s, u) && u != t
    ensures ReportOk(Next(s, t, choice), u)
  {
    var h := Next(s, t, choice).history;
    assert ThreadOk(s, t) && ThreadOk(s, u);
    OthersRest(s, t, choice, u);
    HistoryGrows(s, t, choice);
    if h != s.history { LatestAppend(s.history, h[|s.history|], u); }
    if u in s.slot {
      assert RecordOk(s, s.slot[u]);
      RecordsKept(s, t, choice, s.slot[u]);
    }
    if LocalOf(s, u).pc == SetSlot {
      assert RecordOk(s, LocalOf(s, u).record);
      RecordsKept(s, t, choice, LocalOf(s, u).record);
    }
  }

  predicate UsesRecord(pc: Pc) { pc in {WriteCode, WriteDescription, FetchSlot, ReadCode, ClearCode} }

  /** Until the thread uses its record its reports do not change. */
  lemma OwnReportBeforeUse(s: State, t: Thread, choice: Choice)
    requires ThreadOk(s, t) && ReportOk(s, t) && !UsesRecord(LocalOf(s, t).pc)
    ensures ReportOk(Next(s, t, choice), t)
  {
    assert Next(s, t, choice).history == s.history;
  }

  lemma OwnReportInUse(s: State, t: Thread, choice: Choice)
    requires ThreadOk(s, t) && ReportOk(s, t) && UsesRecord(LocalOf(s, t).pc)
    ensures ReportOk(Next(s, t, choice), t)
  {
    var h := Next(s, t, choice).history;
    HistoryGrows(s, t, choice);
    if h != s.history { LatestAppend(s.history, h[|s.history|], t); }
  }

  lemma OwnReportStep(s: State, t: Thread, choice: Choice)
    requires ThreadOk(s, t) && ReportOk(s, t)
    ensures ReportOk(Next(s, t, choice), t)
  {
    if UsesRecord(LocalOf(s, t).pc) {
      OwnReportInUse(s, t, choice);
    } else {
      OwnReportBeforeUse(s, t, choice);
    }
  }

  lemma AnswersStep(s: State, t: Thread, choice: Choice)
    requires ThreadOk(s, t) && ReportOk(s, t) && AnswersOk(s.history)
    ensures AnswersOk(Next(s, t, choice).history)
  {
    var h := Next(s, t, choice).history;
    HistoryGrows(s, t, choice);
    if h != s.history {
      forall k | 0 <= k < |h| && h[k].Got?
        ensures h[k].code == Latest(h[..k], h[k].thread).code && h[k].text == Answer(Latest(h[..k], h[k].thread))
      {
        if k < |s.history| { assert h[..k] == s.history[..k]; } else { assert h[..k] == s.history; }
      }
    }
  }

  // ----- runs -----

  ghost predicate Inv(s: State, list: seq<Ref>) {
    && Ownership(s) && Mutex(s) && Published(s, list) && Chain(s, list)
    && (forall t :: ReportOk(s, t)) && AnswersOk(s.history)
  }

  lemma StepKeeps(s: State, list: seq<Ref>, t: Thread, choice: Choice)
    requires Inv(s, list)
    ensures Inv(Next(s, t, choice), ListAfter(s, t, list))
  {
    assert ThreadOk(s, t) && ReportOk(s, t);
    OwnershipStep(s, t, choice);
    MutexStep(s, t, choice);
    PublishedStep(s, list, t, choice);
    ChainStep(s, list, t, choice);
    AnswersStep(s, t, choice);
    forall u ensures ReportOk(Next(s, t, choice), u) {
      if u == t { OwnReportStep(s, t, choice); } else { OtherReportStep(s, t, choice, u); }
    }
  }

  lemma {:induction false} RunKeeps(s: State, list: seq<Ref>, moves: seq<Move>) returns (list': seq<Ref>)
    requires Inv(s, list)
    ensures Inv(Run(s, moves), list')
    decreases |moves|
  {
    if moves == [] {
      list' := list;
    } else {
      StepKeeps(s, list, moves[0].thread, moves[0].choice);
      list' := RunKeeps(Next(s, moves[0].thread, moves[0].choice), ListAfter(s, moves[0].thread, list), moves[1..]);
    }
  }

  lemma InitiallyOk()
    ensures Inv(INITIAL, [])
  {
    forall t ensures ThreadOk(INITIAL, t) && MutexOk(INITIAL, t) && ReportOk(INITIAL, t) { }
    forall r ensures RecordOk(INITIAL, r) && PublishedOk(INITIAL, [], r) { }
  }

  /** Thread `t` has put record `r` on the list for good. */
  predicate HasPublished(s: State, t: Thread, r: Ref) {
    t != MAIN && t in s.slot && s.slot[t] == r && !Unpublished(LocalOf(s, t).pc)
  }

  /** In every interleaving the list is a chain of distinct records, and it holds exactly the
      records of the threads, other than the main one, that have an error record and have
      finished putting it on the list; no two threads have the same record. So each such
      thread is on the list exactly once. */
  lemma ListHoldsEachThreadOnce(moves: seq<Move>) returns (list: seq<Ref>)
    ensures var s := Run(INITIAL, moves);
      && Chain(s, list)
      && (forall r :: r in list <==> exists t :: HasPublished(s, t, r))
      && (forall t, u :: t in s.slot && u in s.slot && s.slot[t] == s.slot[u] ==> t == u)
  {
    InitiallyOk();
    list := RunKeeps(INITIAL, [], moves);
    var s := Run(INITIAL, moves);
    forall r ensures r in list <==> exists t :: HasPublished(s, t, r) {
      ListedIffPublished(s, list, r);
    }
    forall t, u | t in s.slot && u in s.slot && s.slot[t] == s.slot[u] ensures t == u {
      assert ThreadOk(s, t) && ThreadOk(s, u);
    }
  }

  lemma ListedIffPublished(s: State, list: seq<Ref>, r: Ref)
    requires Ownership(s) && Published(s, list)
    ensures r in list <==> exists t :: HasPublished(s, t, r)
  {
    assert PublishedOk(s, list, r) && RecordOk(s, r);
    if r in list {
      assert ThreadOk(s, s.heap[r].owner);
      assert HasPublished(s, s.heap[r].owner, r);
    }
    if t :| HasPublished(s, t, r) {
      assert ThreadOk(s, t);
    }
  }

  // ----- progress -----

  /** The thread is in a call and does not wait for a mutex that is held. */
  predicate CanMove(s: State, t: Thread) {
    LocalOf(s, t).pc != Idle && (LocalOf(s, t).pc == Lock ==> s.holder.None?)
  }

  lemma MovesOn(s: State, t: Thread, choice: Choice)
    requires ThreadOk(s, t) && CanMove(s, t)
    ensures LocalOf(Next(s, t, choice), t).pc != LocalOf(s, t).pc
  {
  }

  /** In every reachable state each access that a thread in a call performs moves it on, unless it
      waits for the mutex; in particular no record it reads or writes is ever missing. A mutex that
      is held is held by a thread that can move. */
  lemma {:induction false} EveryAccessMovesOn(moves: seq<Move>, t: Thread, choice: Choice)
    ensures var s := Run(INITIAL, moves);
      && (CanMove(s, t) ==> LocalOf(Next(s, t, choice), t).pc != LocalOf(s, t).pc)
      && (s.holder.Some? ==> CanMove(s, s.holder.value) && Critical(LocalOf(s, s.holder.value).pc))
  {
    InitiallyOk();
    var list := RunKeeps(INITIAL, [], moves);
    var s := Run(INITIAL, moves);
    assert ThreadOk(s, t);
    if CanMove(s, t) { MovesOn(s, t, choice); }
    if s.holder.Some? { assert MutexOk(s, s.holder.value); }
  }

  /** In every interleaving, `glfwGetError` returns the calling thread's latest error, and its
      description, and no other thread's; asking again returns no error. */
  lemma AnswersAreTheCallersOwn(moves: seq<Move>, k: nat)
    requires k < |Run(INITIAL, moves).history| && Run(INITIAL, moves).history[k].Got?
    ensures var h := Run(INITIAL, moves).history;
      && h[k].code == Latest(h[..k], h[k].thread).code
      && h[k].text == Answer(Latest(h[..k], h[k].thread))
  {
    InitiallyOk();
    var list := RunKeeps(INITIAL, [], moves);
  }

  // ----- every call returns once, and as it was made -----

  /** The call that a thread is in. */
  function CallOf(l: Local): Option<Choice> {
    match l.pc
    case Idle => None
    case FetchSlot | ReadCode | ClearCode => Some(GetError)
    case _ => Some(RaiseError(l.code, l.description))
  }

  /** The calls that a thread has started, in order. */
  function Started(moves: seq<Move>, t: Thread): seq<Choice> {
    if moves == [] then []
    else
      var before, last := moves[..|moves| - 1], moves[|moves| - 1];
      Started(before, t) + StartedBy(Run(INITIAL, before), last, t)
  }

  function StartedBy(s: State, move: Move, t: Thread): seq<Choice> {
    if move.thread == t && move.choice != Proceed && LocalOf(s, t).pc == Idle then [move.choice] else []
  }

  /** The calls of a thread that have returned, in order. */
  function Returned(history: seq<Event>, t: Thread): seq<Event> {
    if history == [] then []
    else
      var last := history[|history| - 1];
      Returned(history[..|history| - 1], t) + if last.thread == t then [last] else []
  }

  /** An error is recorded with the code and description that it was raised with. */
  predicate IsReturnOf(e: Event, call: Choice) {
    match call
    case RaiseError(code, description) => e.Raised? && e.code == code && e.description == description
    case GetError => e.Got?
    case Proceed => false
  }

  /** All calls but the one that the thread is in have returned. */
  predicate AllReturned(calls: seq<Choice>, ends: seq<Event>, l: Local) {
    && |calls| == |ends| + (if l.pc == Idle then 0 else 1)
    && (l.pc != Idle ==> CallOf(l) == Some(calls[|calls| - 1]))
    && forall k :: 0 <= k < |ends| ==> IsReturnOf(ends[k], calls[k])
  }

  lemma ReturnedAppend(history: seq<Event>, e: Event, t: Thread)
    ensures Returned(history + [e], t) == Returned(history, t) + if e.thread == t then [e] else []
  {
    assert (history + [e])[..|history|] == history;
  }

  /** One access by the thread itself. */
  lemma OwnAccess(s: State, t: Thread, choice: Choice, calls: seq<Choice>, ends: seq<Event>)
    requires AllReturned(calls, ends, LocalOf(s, t))
    ensures var s' := Next(s, t, choice); var h := |s.history|;
      AllReturned(calls + StartedBy(s, Move(t, choice), t), ends + s'.history[h..], LocalOf(s', t))
  {
    HistoryGrows(s, t, choice);
    if LocalOf(s, t).pc in {WriteDescription, FetchSlot, ClearCode} {
      LastAccess(s, t, choice);
    } else {
      EarlierAccess(s, t, choice);
    }
  }

  lemma FirstAccess(s: State, t: Thread, choice: Choice)
    requires LocalOf(s, t).pc == Idle
    ensures var s' := Next(s, t, choice);
      && s'.history == s.history && (LocalOf(s', t).pc == Idle <==> choice == Proceed)
      && CallOf(LocalOf(s', t)) == if choice == Proceed then None else Some(choice)
  {
  }

  lemma AccessBeforeListing(s: State, t: Thread, choice: Choice)
    requires LocalOf(s, t).pc in {GetSlot, Allocate, SetSlot, Lock, ReadHead}
    ensures var s' := Next(s, t, choice);
      s'.history == s.history && LocalOf(s', t).pc != Idle && CallOf(LocalOf(s', t)) == CallOf(LocalOf(s, t))
  {
  }

  lemma AccessWithRecord(s: State, t: Thread, choice: Choice)
    requires LocalOf(s, t).pc in {WriteNext, WriteHead, Unlock, WriteCode, ReadCode}
    ensures var s' := Next(s, t, choice);
      s'.history == s.history && LocalOf(s', t).pc != Idle && CallOf(LocalOf(s', t)) == CallOf(LocalOf(s, t))
  {
  }

  /** The accesses that start a call or lie within it. */
  lemma EarlierAccess(s: State, t: Thread, choice: Choice)
    requires LocalOf(s, t).pc !in {WriteDescription, FetchSlot, ClearCode}
    ensures var s', l := Next(s, t, choice), LocalOf(s, t);
      && s'.history == s.history && (LocalOf(s', t).pc == Idle <==> l.pc == Idle && choice == Proceed)
      && CallOf(LocalOf(s', t)) == if l.pc != Idle then CallOf(l) else if choice == Proceed then None else Some(choice)
  {
    match LocalOf(s, t).pc
    case Idle => FirstAccess(s, t, choice);
    case GetSlot | Allocate | SetSlot | Lock | ReadHead => AccessBeforeListing(s, t, choice);
    case WriteNext | WriteHead | Unlock | WriteCode | ReadCode => AccessWithRecord(s, t, choice);
    case _ => assert false;
  }

  /** The accesses that end a call. */
  lemma LastAccess(s: State, t: Thread, choice: Choice)
    requires LocalOf(s, t).pc in {WriteDescription, FetchSlot, ClearCode}
    ensures var s' := Next(s, t, choice); var h := |s.history|;
      && h <= |s'.history| <= h + 1 && (|s'.history| == h <==> LocalOf(s', t).pc != Idle)
      && (|s'.history| == h ==> CallOf(LocalOf(s', t)) == CallOf(LocalOf(s, t)))
      && (|s'.history| > h ==> IsReturnOf(s'.history[h], CallOf(LocalOf(s, t)).value))
  {
  }

  lemma AccessReturns(s: State, move: Move, t: Thread, calls: seq<Choice>)
    requires AllReturned(calls, Returned(s.history, t), LocalOf(s, t))
    ensures var s' := Next(s, move.thread, move.choice);
      AllReturned(calls + StartedBy(s, move, t), Returned(s'.history, t), LocalOf(s', t))
  {
    var h := Next(s, move.thread, move.choice).history;
    HistoryGrows(s, move.thread, move.choice);
    if h != s.history { ReturnedAppend(s.history, h[|s.history|], t); }
    if move.thread == t {
      OwnAccess(s, t, move.choice, calls, Returned(s.history, t));
    } else {
      OthersRest(s, move.thread, move.choice, t);
    }
  }

  lemma {:induction false} RunOne(s: State, moves: seq<Move>, move: Move)
    ensures Run(s, moves + [move]) == Next(Run(s, moves), move.thread, move.choice)
    decreases |moves|
  {
    if moves == [] {
      assert moves + [move] == [move] && [move][1..] == [];
    } else {
      assert (moves + [move])[1..] == moves[1..] + [move];
      RunOne(Next(s, moves[0].thread, moves[0].choice), moves[1..], move);
    }
  }

  /** In every interleaving, each thread's calls return in the order in which it made them, each
      once, and an error is recorded with the code and description it was raised with; at most
      the last call is still under way. */
  lemma {:induction false} CallsReturnAsMade(moves: seq<Move>, t: Thread)
    ensures var s := Run(INITIAL, moves);
      AllReturned(Started(moves, t), Returned(s.history, t), LocalOf(s, t))
  {
    if moves != [] {
      var before, last := moves[..|moves| - 1], moves[|moves| - 1];
      CallsReturnAsMade(before, t);
      assert moves == before + [last];
      RunOne(INITIAL, before, last);
      AccessReturns(Run(INITIAL, before), last, t, Started(before, t));
    }
  }

  // ----- shutting down -----

  function Elements(list: seq<Ref>): set<Ref> { set r | r in list }

  /** The loop of `terminate` that frees the list: it stops, and frees each record on the list
      once and no other. */
  method DrainList(s: State, ghost list: seq<Ref>) returns (heap: map<Ref, Record>, freed: seq<Ref>)
    requires Chain(s, list)
    ensures freed == list && heap == s.heap - Elements(list)
  {
    heap, freed := s.heap, [];
    var head := s.head;
    while head.Some?
      invariant |freed| <= |list| && freed == list[..|freed|] && head == At(list, |freed|)
      invariant heap == s.heap - Elements(freed)
      decreases |list| - |freed|
    {
      var error := head.value;
      NotFreedYet(s, list, |freed|);
      head := heap[error].next;
      heap := heap - {error};
      freed := freed + [error];
      assert Elements(freed) == Elements(freed[..|freed| - 1]) + {error};
    }
    assert list[..|list|] == list;
  }

  lemma NotFreedYet(s: State, list: seq<Ref>, i: nat)
    requires Chain(s, list) && i < |list|
    ensures list[i] in s.heap - Elements(list[..i]) && s.heap[list[i]].next == At(list, i + 1)
  {
  }
}
