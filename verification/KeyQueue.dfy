/** What `_glfwInputKeyboard` in glfw/input.c makes of a stream of key events, with sticky keys
    off: a bounded first-in first-out queue of held keys. */
module KeyQueue {
  import opened Options

  const SLOTS := 16

  datatype Action = RELEASE | PRESS | REPEAT

  /** The values a press records for the matching release. */
  datatype KeyValues = KeyValues(nativeKey: int, key: int, shiftedKey: int, alternateKey: int)

  /** `GLFWkeyevent`; a `nativeId` of 0 means that the physical key is not known. */
  datatype KeyEvent = KeyEvent(nativeId: nat, action: Action, values: KeyValues)

  /** The queue after an event, and what the keyboard callback is given, if it is called. */
  datatype Result = Result(queue: seq<KeyEvent>, out: Option<KeyEvent>)

  function IndexOf(q: seq<KeyEvent>, id: nat): (i: int)
    ensures -1 <= i < |q|
    ensures i >= 0 ==> q[i].nativeId == id && forall j :: 0 <= j < i ==> q[j].nativeId != id
    ensures i < 0 ==> forall j :: 0 <= j < |q| ==> q[j].nativeId != id
  {
    if q == [] then -1
    else if q[0].nativeId == id then 0
    else var i := IndexOf(q[1..], id); if i < 0 then -1 else i + 1
  }

  /** A key that goes down keeps its place, or joins at the end; a full queue drops its head. */
  function Held(q: seq<KeyEvent>, ev: KeyEvent): seq<KeyEvent> {
    var i := IndexOf(q, ev.nativeId);
    if i >= 0 then q[i := ev]
    else if |q| < SLOTS then q + [ev]
    else q[1..] + [ev]
  }

  function Input(q: seq<KeyEvent>, ev: KeyEvent): Result {
    var i := IndexOf(q, ev.nativeId);
    if ev.nativeId == 0 then Result(q, Some(ev))
    else if ev.action == RELEASE then
      if i < 0 then Result(q, None) else Result(q[..i] + q[i + 1..], Some(ev.(values := q[i].values)))
    else
      var repeated := ev.action == PRESS && i >= 0 && q[i].action == PRESS;
      Result(Held(q, ev), Some(if repeated then ev.(action := REPEAT) else ev))
  }

  /** The queue after a history of events, the latest last. */
  function QueueAfter(h: seq<KeyEvent>): seq<KeyEvent> {
    if h == [] then [] else Input(QueueAfter(h[..|h| - 1]), h[|h| - 1]).queue
  }

  lemma NextQueue(h: seq<KeyEvent>, k: nat)
    requires k < |h|
    ensures QueueAfter(h[..k + 1]) == Input(QueueAfter(h[..k]), h[k]).queue
  {
    assert h[..k + 1][..k] == h[..k];
  }

  /** What the next event makes the callback see. */
  function Delivered(h: seq<KeyEvent>, ev: KeyEvent): Option<KeyEvent> { Input(QueueAfter(h), ev).out }

  /** The latest event of a key. */
  function Last(h: seq<KeyEvent>, id: nat): Option<KeyEvent> {
    if h == [] then None
    else if h[|h| - 1].nativeId == id then Some(h[|h| - 1])
    else Last(h[..|h| - 1], id)
  }

  predicate Down(e: Option<KeyEvent>) { e.Some? && e.value.action != RELEASE }

  /** Distinct known keys, all down, at most sixteen. */
  ghost predicate WellFormed(q: seq<KeyEvent>) {
    && |q| <= SLOTS
    && (forall i :: 0 <= i < |q| ==> q[i].nativeId > 0 && q[i].action != RELEASE)
    && (forall i, j :: 0 <= i < j < |q| ==> q[i].nativeId != q[j].nativeId)
  }

  lemma HeldKeepsWellFormed(q: seq<KeyEvent>, ev: KeyEvent)
    requires WellFormed(q) && ev.nativeId > 0 && ev.action != RELEASE
    ensures WellFormed(Held(q, ev))
  {
  }

  lemma RemovalKeepsWellFormed(q: seq<KeyEvent>, i: nat)
    requires WellFormed(q) && i < |q|
    ensures WellFormed(q[..i] + q[i + 1..])
  {
  }

  lemma InputKeepsWellFormed(q: seq<KeyEvent>, ev: KeyEvent)
    requires WellFormed(q)
    ensures WellFormed(Input(q, ev).queue)
  {
    var i := IndexOf(q, ev.nativeId);
    if ev.nativeId > 0 {
      if ev.action != RELEASE {
        HeldKeepsWellFormed(q, ev);
      } else if i >= 0 {
        RemovalKeepsWellFormed(q, i);
      }
    }
  }

  /** Each entry of the queue is the latest event of its key, which is a press or repeat. */
  lemma {:induction false} QueueIsHistory(h: seq<KeyEvent>)
    ensures WellFormed(QueueAfter(h))
    ensures forall i :: 0 <= i < |QueueAfter(h)| ==> Last(h, QueueAfter(h)[i].nativeId) == Some(QueueAfter(h)[i])
  {
    if h != [] {
      var before, ev := h[..|h| - 1], h[|h| - 1];
      QueueIsHistory(before);
      InputKeepsWellFormed(QueueAfter(before), ev);
      forall i | 0 <= i < |QueueAfter(h)|
        ensures Last(h, QueueAfter(h)[i].nativeId) == Some(QueueAfter(h)[i])
      {
        EntryComesFrom(QueueAfter(before), ev, i);
      }
    }
  }

  /** An entry after an event is the event, or an entry of another key from before. */
  lemma EntryComesFrom(q: seq<KeyEvent>, ev: KeyEvent, i: nat)
    requires WellFormed(q) && i < |Input(q, ev).queue|
    ensures var e := Input(q, ev).queue[i];
      e == ev || (e.nativeId != ev.nativeId && exists j :: 0 <= j < |q| && q[j] == e)
  {
    var k := IndexOf(q, ev.nativeId);
    if ev.nativeId > 0 && ev.action != RELEASE {
      HeldEntry(q, ev, i);
    } else if ev.nativeId > 0 && k >= 0 {
      var r := q[..k] + q[k + 1..];
      assert r[i] == q[if i < k then i else i + 1];
    }
  }

  lemma HeldEntry(q: seq<KeyEvent>, ev: KeyEvent, i: nat)
    requires WellFormed(q) && i < |Held(q, ev)|
    ensures var e := Held(q, ev)[i];
      e == ev || (e.nativeId != ev.nativeId && exists j :: 0 <= j < |q| && q[j] == e)
  {
    var k := IndexOf(q, ev.nativeId);
    var h := Held(q, ev);
    var j := if k >= 0 || |q| < SLOTS then i else i + 1;
    if h[i] != ev {
      assert 0 <= j < |q| && h[i] == q[j];
    }
  }

  /** A release is delivered only for a key that is down: its latest event is a press or repeat
      that no release has followed, and the release carries that event's key values. */
  lemma ReleaseCarriesItsPress(h: seq<KeyEvent>, ev: KeyEvent)
    requires ev.nativeId > 0 && ev.action == RELEASE && Delivered(h, ev).Some?
    ensures Down(Last(h, ev.nativeId))
    ensures Delivered(h, ev) == Some(ev.(values := Last(h, ev.nativeId).value.values))
  {
    QueueIsHistory(h);
  }

  /** A release is delivered exactly when its key is queued. */
  lemma {:induction false} ReleaseDeliveredIffQueued(h: seq<KeyEvent>, ev: KeyEvent)
    requires ev.nativeId > 0 && ev.action == RELEASE
    ensures Delivered(h, ev).Some? <==> IndexOf(QueueAfter(h), ev.nativeId) >= 0
  {
    QueueIsHistory(h);
    if IndexOf(QueueAfter(h), ev.nativeId) >= 0 {
      assert Input(QueueAfter(h), ev).out.Some?;
    }
  }

  /** An event of an unknown key is delivered as it came and leaves the queue alone; a repeat event is
      delivered as it came. */
  lemma {:induction false} OthersPassThrough(h: seq<KeyEvent>, ev: KeyEvent)
    requires ev.nativeId == 0 || ev.action == REPEAT
    ensures Delivered(h, ev) == Some(ev)
    ensures ev.nativeId == 0 ==> QueueAfter(h + [ev]) == QueueAfter(h)
  {
    assert (h + [ev])[..|h|] == h;
  }

  /** A press is reported as a repeat exactly when its key is in the queue and the latest
      event of the key is a press. */
  lemma RepeatIffHeld(h: seq<KeyEvent>, ev: KeyEvent)
    requires ev.nativeId > 0 && ev.action == PRESS
    ensures Delivered(h, ev) == Some(ev.(action := REPEAT)) <==>
      && IndexOf(QueueAfter(h), ev.nativeId) >= 0
      && Last(h, ev.nativeId).Some? && Last(h, ev.nativeId).value.action == PRESS
    ensures Delivered(h, ev) != Some(ev.(action := REPEAT)) ==> Delivered(h, ev) == Some(ev)
  {
    QueueIsHistory(h);
  }

  /** Queued is not enough: after a repeat event a press of the queued key is reported as a press. */
  lemma PressAfterRepeat(press: KeyEvent, repeated: KeyEvent, ev: KeyEvent)
    requires press.nativeId > 0 && press.nativeId == repeated.nativeId == ev.nativeId
    requires press.action == PRESS && repeated.action == REPEAT && ev.action == PRESS
    ensures IndexOf(QueueAfter([press, repeated]), ev.nativeId) >= 0
    ensures Delivered([press, repeated], ev) == Some(ev)
  {
    assert [press, repeated][..1] == [press] && [press][..0] == [];
    assert QueueAfter([press]) == [press];
    assert QueueAfter([press, repeated]) == [repeated];
  }

  // ----- when the queue is exact -----

  /** The keys that are down, whatever the queue thinks. */
  function HeldIds(h: seq<KeyEvent>): set<KeyId> {
    set i | 0 <= i < |h| && h[i].nativeId > 0 && Down(Last(h, h[i].nativeId)) :: KeyId(h[i].nativeId)
  }

  datatype KeyId = KeyId(n: nat)

  function QueueIds(q: seq<KeyEvent>): set<KeyId> {
    set i | 0 <= i < |q| :: KeyId(q[i].nativeId)
  }

  lemma {:induction false} QueueIdsSize(q: seq<KeyEvent>)
    requires WellFormed(q)
    ensures |QueueIds(q)| == |q|
  {
    if q != [] {
      var rest, last := q[..|q| - 1], KeyId(q[|q| - 1].nativeId);
      QueueIdsSize(rest);
      assert QueueIds(q) == QueueIds(rest) + {last} by {
        assert forall i :: 0 <= i < |rest| ==> rest[i] == q[i];
      }
      assert last !in QueueIds(rest);
    }
  }

  lemma {:induction false} LastOccurs(h: seq<KeyEvent>, id: nat)
    requires Last(h, id).Some?
    ensures exists i :: 0 <= i < |h| && h[i].nativeId == id
  {
    if h[|h| - 1].nativeId != id {
      LastOccurs(h[..|h| - 1], id);
      var i :| 0 <= i < |h| - 1 && h[..|h| - 1][i].nativeId == id;
      assert h[i].nativeId == id;
    }
  }

  /** The queue holds exactly the keys that are down. */
  ghost predicate Exact(h: seq<KeyEvent>) {
    forall id: nat :: id > 0 ==> (IndexOf(QueueAfter(h), id) >= 0 <==> Down(Last(h, id)))
  }

  ghost predicate NeverMoreThanSlots(h: seq<KeyEvent>) { forall k :: 0 <= k <= |h| ==> |HeldIds(h[..k])| <= SLOTS }

  lemma SlotsOfPrefix(h: seq<KeyEvent>, n: nat)
    requires NeverMoreThanSlots(h) && n <= |h|
    ensures NeverMoreThanSlots(h[..n])
  {
    forall k | 0 <= k <= n
      ensures |HeldIds(h[..n][..k])| <= SLOTS
    {
      assert h[..n][..k] == h[..k];
    }
  }

  lemma {:induction false} FewKeysAreExact(h: seq<KeyEvent>)
    requires NeverMoreThanSlots(h)
    ensures Exact(h)
  {
    if h != [] {
      var before, ev := h[..|h| - 1], h[|h| - 1];
      SlotsOfPrefix(h, |h| - 1);
      FewKeysAreExact(before);
      QueueIsHistory(before);
      assert h[..|h|] == h && h == before + [ev];
      NoEviction(before, ev);
      ExactStep(QueueAfter(before), ev);
    }
  }

  lemma ExactMeansFewKeys(h: seq<KeyEvent>)
    requires Exact(h)
    ensures |HeldIds(h)| <= SLOTS
  {
    var q := QueueAfter(h);
    QueueIsHistory(h);
    QueueIdsSize(q);
    forall i | 0 <= i < |h| && h[i].nativeId > 0 && Down(Last(h, h[i].nativeId))
      ensures KeyId(h[i].nativeId) in QueueIds(q)
    {
      assert q[IndexOf(q, h[i].nativeId)].nativeId == h[i].nativeId;
    }
    SubsetSize(HeldIds(h), QueueIds(q));
  }

  /** At every moment of a history the queue holds exactly the keys that are down, so that no
      press is forgotten and no release swallowed, if and only if at no moment more than
      sixteen keys are down. */
  lemma QueueIsExactIff(h: seq<KeyEvent>)
    ensures (forall k :: 0 <= k <= |h| ==> Exact(h[..k])) <==> NeverMoreThanSlots(h)
  {
    if forall k :: 0 <= k <= |h| ==> Exact(h[..k]) {
      forall k | 0 <= k <= |h| ensures |HeldIds(h[..k])| <= SLOTS { ExactMeansFewKeys(h[..k]); }
    }
    if NeverMoreThanSlots(h) {
      forall k | 0 <= k <= |h| ensures Exact(h[..k]) {
        SlotsOfPrefix(h, k);
        FewKeysAreExact(h[..k]);
      }
    }
  }

  /** What the callback should get, told from the latest event of the key alone: a release of a key that
      is not down is swallowed, another one carries the values of the event before it; a press
      directly after a press becomes a repeat; anything else is delivered as it came. */
  function FromHistory(h: seq<KeyEvent>, ev: KeyEvent): Option<KeyEvent> {
    var last := Last(h, ev.nativeId);
    if ev.nativeId == 0 then Some(ev)
    else match ev.action
      case RELEASE => if Down(last) then Some(ev.(values := last.value.values)) else None
      case PRESS => if last.Some? && last.value.action == PRESS then Some(ev.(action := REPEAT)) else Some(ev)
      case REPEAT => Some(ev)
  }

  /** While no more than sixteen keys are down at any moment, the queue is as good as the history. */
  lemma {:induction false} DeliveredFromHistory(h: seq<KeyEvent>, ev: KeyEvent)
    requires NeverMoreThanSlots(h)
    ensures Delivered(h, ev) == FromHistory(h, ev)
  {
    FewKeysAreExact(h);
    QueueIsHistory(h);
    if ev.nativeId > 0 && ev.action == RELEASE {
      ReleaseDeliveredIffQueued(h, ev);
      if Delivered(h, ev).Some? { ReleaseCarriesItsPress(h, ev); }
    } else if ev.nativeId > 0 && ev.action == PRESS {
      RepeatIffHeld(h, ev);
    } else {
      OthersPassThrough(h, ev);
    }
  }

  /** A result for each position. */
  ghost predicate Lists(outs: seq<Option<KeyEvent>>, f: int -> Option<KeyEvent>) {
    forall k :: 0 <= k < |outs| ==> outs[k] == f(k)
  }

  lemma {:induction false} OneMoreListed(outs: seq<Option<KeyEvent>>, f: int -> Option<KeyEvent>, out: Option<KeyEvent>)
    requires Lists(outs, f) && out == f(|outs|)
    ensures Lists(outs + [out], f)
  {
  }

  /** What the events of a stream make the callback see, one after the other. */
  function Deliveries(events: seq<KeyEvent>): int -> Option<KeyEvent> {
    k => if 0 <= k < |events| then Delivered(events[..k], events[k]) else None
  }

  lemma {:induction false} EachDelivered(events: seq<KeyEvent>, outs: seq<Option<KeyEvent>>)
    requires NeverMoreThanSlots(events) && |outs| == |events| && Lists(outs, Deliveries(events))
    ensures forall k :: 0 <= k < |events| ==> outs[k] == FromHistory(events[..k], events[k])
  {
    forall k | 0 <= k < |events| ensures outs[k] == FromHistory(events[..k], events[k]) {
      SlotsOfPrefix(events, k);
      DeliveredFromHistory(events[..k], events[k]);
    }
  }

  /** Keys 1 to `n` go down, in this order. */
  function Presses(n: nat): seq<KeyEvent> {
    if n == 0 then [] else Presses(n - 1) + [KeyEvent(n, PRESS, KeyValues(n, n, 0, 0))]
  }

  lemma {:induction false} PressesAre(n: nat)
    ensures |Presses(n)| == n && forall i :: 0 <= i < n ==> Presses(n)[i].nativeId == i + 1
  {
    if n > 0 { PressesAre(n - 1); }
  }

  lemma JoinsAtEnd(h: seq<KeyEvent>, ev: KeyEvent)
    requires ev.nativeId > 0 && ev.action != RELEASE && IndexOf(QueueAfter(h), ev.nativeId) < 0
    ensures QueueAfter(h + [ev]) == (if |QueueAfter(h)| < SLOTS then QueueAfter(h) else QueueAfter(h)[1..]) + [ev]
  {
    assert (h + [ev])[..|h|] == h;
  }

  lemma {:induction false} PressesQueued(n: nat)
    requires n <= SLOTS
    ensures QueueAfter(Presses(n)) == Presses(n)
  {
    if n > 0 {
      PressesQueued(n - 1);
      PressesAre(n - 1);
      JoinsAtEnd(Presses(n - 1), KeyEvent(n, PRESS, KeyValues(n, n, 0, 0)));
    }
  }

  /** With seventeen keys down the first of them has been forgotten: its release is swallowed. */
  lemma SeventeenKeysLoseOne(ev: KeyEvent)
    requires ev.nativeId == 1 && ev.action == RELEASE
    ensures Down(Last(Presses(SLOTS + 1), 1)) && Delivered(Presses(SLOTS + 1), ev) == None
  {
    var h, q := Presses(SLOTS + 1), Presses(SLOTS);
    PressesAre(SLOTS);
    PressesQueued(SLOTS);
    QueueIsHistory(q);
    assert Last(q, q[0].nativeId) == Some(q[0]);
    assert h[..SLOTS] == q;
    JoinsAtEnd(q, h[SLOTS]);
    PushedOut(q[1..], h[SLOTS], 1);
  }

  // ----- the order of the queue -----

  /** The position at which the current hold of a key that is down began. */
  function HoldStart(h: seq<KeyEvent>, id: nat): nat {
    if h == [] then 0
    else
      var before := h[..|h| - 1];
      if h[|h| - 1].nativeId == id && !Down(Last(before, id)) then |h| - 1 else HoldStart(before, id)
  }

  /** Earlier entries have been held for longer. */
  ghost predicate InHoldOrder(h: seq<KeyEvent>, q: seq<KeyEvent>) {
    && (forall i :: 0 <= i < |q| ==> HoldStart(h, q[i].nativeId) < |h|)
    && (forall i, j :: 0 <= i < j < |q| ==> HoldStart(h, q[i].nativeId) < HoldStart(h, q[j].nativeId))
  }

  /** As long as no more than sixteen keys are down at any moment, the queue is in the order in
      which the holds began. */
  lemma {:induction false} QueueInHoldOrder(h: seq<KeyEvent>)
    requires NeverMoreThanSlots(h)
    ensures InHoldOrder(h, QueueAfter(h))
  {
    if h != [] {
      var before, ev := h[..|h| - 1], h[|h| - 1];
      SlotsOfPrefix(h, |h| - 1);
      QueueInHoldOrder(before);
      FewKeysAreExact(before);
      QueueIsHistory(before);
      assert h[..|h|] == h && h == before + [ev];
      NoEviction(before, ev);
      HoldOrderStep(before, ev);
    }
  }

  lemma HoldStartGrows(h: seq<KeyEvent>, ev: KeyEvent, id: nat)
    ensures HoldStart(h + [ev], id) == if id == ev.nativeId && !Down(Last(h, id)) then |h| else HoldStart(h, id)
  {
    assert (h + [ev])[..|h|] == h;
  }

  lemma HoldOrderStep(h: seq<KeyEvent>, ev: KeyEvent)
    requires WellFormed(QueueAfter(h)) && Exact(h) && InHoldOrder(h, QueueAfter(h))
    requires ev.nativeId > 0 && ev.action != RELEASE && IndexOf(QueueAfter(h), ev.nativeId) < 0 ==>
      |QueueAfter(h)| < SLOTS
    ensures InHoldOrder(h + [ev], QueueAfter(h + [ev]))
  {
    var q, h' := QueueAfter(h), h + [ev];
    var k := IndexOf(q, ev.nativeId);
    assert h'[..|h|] == h;
    HoldsGoOn(h, ev);
    if ev.nativeId > 0 && ev.action != RELEASE {
      HeldKeepsOrder(h, ev);
    } else if ev.nativeId > 0 && k >= 0 {
      RemovalKeepsOrder(h', q, k);
    }
  }

  lemma HoldsGoOn(h: seq<KeyEvent>, ev: KeyEvent)
    requires WellFormed(QueueAfter(h)) && Exact(h) && InHoldOrder(h, QueueAfter(h))
    ensures InHoldOrder(h + [ev], QueueAfter(h))
    ensures forall i :: 0 <= i < |QueueAfter(h)| ==> HoldStart(h + [ev], QueueAfter(h)[i].nativeId) < |h|
  {
    var q := QueueAfter(h);
    forall i | 0 <= i < |q| ensures HoldStart(h + [ev], q[i].nativeId) == HoldStart(h, q[i].nativeId) {
      HoldStartGrows(h, ev, q[i].nativeId);
      Found(q, i, q[i].nativeId);
    }
  }

  lemma {:induction false} HeldKeepsOrder(h: seq<KeyEvent>, ev: KeyEvent)
    requires Exact(h) && InHoldOrder(h + [ev], QueueAfter(h)) && ev.nativeId > 0
    requires forall i :: 0 <= i < |QueueAfter(h)| ==> HoldStart(h + [ev], QueueAfter(h)[i].nativeId) < |h|
    requires IndexOf(QueueAfter(h), ev.nativeId) < 0 ==> |QueueAfter(h)| < SLOTS
    ensures InHoldOrder(h + [ev], Held(QueueAfter(h), ev))
  {
    var q := QueueAfter(h);
    var k, r := IndexOf(q, ev.nativeId), Held(q, ev);
    HoldStartGrows(h, ev, ev.nativeId);
    if k >= 0 {
      forall i | 0 <= i < |r| ensures r[i].nativeId == q[i].nativeId { }
    } else {
      forall i | 0 <= i < |q| ensures r[i] == q[i] { }
    }
  }

  lemma RemovalKeepsOrder(h: seq<KeyEvent>, q: seq<KeyEvent>, k: nat)
    requires InHoldOrder(h, q) && k < |q|
    ensures InHoldOrder(h, q[..k] + q[k + 1..])
  {
    var r := q[..k] + q[k + 1..];
    forall i | 0 <= i < |r| ensures r[i] == q[if i < k then i else i + 1] { }
  }

  lemma HeadIsHeldLongest(h: seq<KeyEvent>, q: seq<KeyEvent>, id: nat)
    requires InHoldOrder(h, q) && IndexOf(q, id) > 0
    ensures HoldStart(h, q[0].nativeId) < HoldStart(h, id)
  {
    var i := IndexOf(q, id);
    assert q[i].nativeId == id;
  }

  /** The key that a seventeenth one pushes out is, of all keys down, the one held longest. */
  lemma EvictedIsHeldLongest(h: seq<KeyEvent>, ev: KeyEvent)
    requires NeverMoreThanSlots(h) && |QueueAfter(h)| == SLOTS
    requires ev.nativeId > 0 && ev.action != RELEASE && IndexOf(QueueAfter(h), ev.nativeId) < 0
    ensures var out := QueueAfter(h)[0].nativeId;
      && Down(Last(h, out)) && IndexOf(QueueAfter(h + [ev]), out) < 0
      && forall id: nat :: id > 0 && id != out && Down(Last(h, id)) ==> HoldStart(h, out) < HoldStart(h, id)
  {
    var q := QueueAfter(h);
    QueueIsHistory(h);
    FewKeysAreExact(h);
    QueueInHoldOrder(h);
    JoinsAtEnd(h, ev);
    HeadGone(q, ev);
    forall id: nat | id > 0 && id != q[0].nativeId && Down(Last(h, id))
      ensures HoldStart(h, q[0].nativeId) < HoldStart(h, id)
    {
      HeadIsHeldLongest(h, q, id);
    }
  }

  lemma HeadGone(q: seq<KeyEvent>, ev: KeyEvent)
    requires WellFormed(q) && q != [] && ev.nativeId != q[0].nativeId
    ensures IndexOf(q[1..] + [ev], q[0].nativeId) < 0
  {
    PushedOut(q[1..], ev, q[0].nativeId);
  }

  lemma PushedOut(q: seq<KeyEvent>, ev: KeyEvent, id: nat)
    requires IndexOf(q, id) < 0 && ev.nativeId != id
    ensures IndexOf(q + [ev], id) < 0
  {
    forall k | 0 <= k < |q + [ev]| ensures (q + [ev])[k].nativeId != id { }
  }

  /** Without eviction, only the key of the event changes its place in or out of the queue. */
  lemma ExactStep(q: seq<KeyEvent>, ev: KeyEvent)
    requires WellFormed(q)
    requires ev.nativeId > 0 && ev.action != RELEASE && IndexOf(q, ev.nativeId) < 0 ==> |q| < SLOTS
    ensures forall id: nat :: id > 0 && id != ev.nativeId ==>
      (IndexOf(Input(q, ev).queue, id) >= 0 <==> IndexOf(q, id) >= 0)
    ensures ev.nativeId > 0 ==> (IndexOf(Input(q, ev).queue, ev.nativeId) >= 0 <==> ev.action != RELEASE)
  {
    var q' := Input(q, ev).queue;
    forall id: nat | id > 0 && id != ev.nativeId
      ensures IndexOf(q', id) >= 0 <==> IndexOf(q, id) >= 0
    {
      OthersStay(q, ev, id);
    }
    OwnPlace(q, ev);
  }

  lemma OwnPlace(q: seq<KeyEvent>, ev: KeyEvent)
    requires WellFormed(q) && (ev.nativeId > 0 && ev.action != RELEASE && IndexOf(q, ev.nativeId) < 0 ==> |q| < SLOTS)
    ensures ev.nativeId > 0 ==> (IndexOf(Input(q, ev).queue, ev.nativeId) >= 0 <==> ev.action != RELEASE)
  {
    var q', i := Input(q, ev).queue, IndexOf(q, ev.nativeId);
    if ev.nativeId > 0 {
      if ev.action != RELEASE {
        assert q'[if i >= 0 then i else |q|] == ev;
      } else if i >= 0 {
        RemovedIsGone(q, i);
      }
    }
  }

  lemma RemovedIsGone(q: seq<KeyEvent>, i: nat)
    requires WellFormed(q) && i < |q|
    ensures IndexOf(q[..i] + q[i + 1..], q[i].nativeId) < 0
  {
    var q' := q[..i] + q[i + 1..];
    forall k | 0 <= k < |q'|
      ensures q'[k].nativeId != q[i].nativeId
    {
      assert q'[k] == q[if k < i then k else k + 1];
    }
  }

  lemma OthersStay(q: seq<KeyEvent>, ev: KeyEvent, id: nat)
    requires WellFormed(q) && id != ev.nativeId
    requires ev.nativeId > 0 && ev.action != RELEASE && IndexOf(q, ev.nativeId) < 0 ==> |q| < SLOTS
    ensures IndexOf(Input(q, ev).queue, id) >= 0 <==> IndexOf(q, id) >= 0
  {
    var i := IndexOf(q, ev.nativeId);
    if ev.nativeId > 0 {
      if ev.action != RELEASE {
        HeldKeepsOthers(q, ev, id);
      } else if i >= 0 {
        RemovalKeepsOthers(q, i, id);
      }
    }
  }

  lemma HeldKeepsOthers(q: seq<KeyEvent>, ev: KeyEvent, id: nat)
    requires id != ev.nativeId && (IndexOf(q, ev.nativeId) < 0 ==> |q| < SLOTS)
    ensures IndexOf(Held(q, ev), id) >= 0 <==> IndexOf(q, id) >= 0
  {
    var h, j := Held(q, ev), IndexOf(q, id);
    if j >= 0 { assert h[j].nativeId == id; }
    var k := IndexOf(h, id);
    if k >= 0 { assert q[k].nativeId == id; }
  }

  lemma Found(q: seq<KeyEvent>, k: int, id: nat)
    requires 0 <= k < |q| && q[k].nativeId == id
    ensures IndexOf(q, id) >= 0
  {
  }

  lemma AfterRemoval(q: seq<KeyEvent>, i: nat, k: nat)
    requires i < |q| && k < |q| - 1
    ensures (q[..i] + q[i + 1..])[k] == q[if k < i then k else k + 1]
  {
  }

  lemma RemovalKeepsOthers(q: seq<KeyEvent>, i: nat, id: nat)
    requires i < |q| && q[i].nativeId != id
    ensures IndexOf(q[..i] + q[i + 1..], id) >= 0 <==> IndexOf(q, id) >= 0
  {
    var r, j := q[..i] + q[i + 1..], IndexOf(q, id);
    if j >= 0 {
      var to := if j < i then j else j - 1;
      AfterRemoval(q, i, to);
      Found(r, to, id);
    } else {
      NoneAfterRemoval(q, i, id);
    }
  }

  lemma NoneAfterRemoval(q: seq<KeyEvent>, i: nat, id: nat)
    requires i < |q| && IndexOf(q, id) < 0
    ensures IndexOf(q[..i] + q[i + 1..], id) < 0
  {
    var r := q[..i] + q[i + 1..];
    forall k | 0 <= k < |r|
      ensures r[k].nativeId != id
    {
      AfterRemoval(q, i, k);
    }
  }

  /** With at most sixteen keys down after it, a press never finds the queue full. */
  lemma NoEviction(h: seq<KeyEvent>, ev: KeyEvent)
    requires |HeldIds(h + [ev])| <= SLOTS && Exact(h)
    ensures ev.nativeId > 0 && ev.action != RELEASE && IndexOf(QueueAfter(h), ev.nativeId) < 0 ==>
      |QueueAfter(h)| < SLOTS
  {
    if ev.nativeId > 0 && ev.action != RELEASE && IndexOf(QueueAfter(h), ev.nativeId) < 0 {
      QueueIsHistory(h);
      QueueIdsSize(QueueAfter(h));
      HeldIncludesQueue(h, ev);
      SubsetSize(QueueIds(QueueAfter(h)) + {KeyId(ev.nativeId)}, HeldIds(h + [ev]));
    }
  }

  lemma HeldIncludesQueue(h: seq<KeyEvent>, ev: KeyEvent)
    requires ev.nativeId > 0 && ev.action != RELEASE && IndexOf(QueueAfter(h), ev.nativeId) < 0
    ensures QueueIds(QueueAfter(h)) + {KeyId(ev.nativeId)} <= HeldIds(h + [ev])
    ensures KeyId(ev.nativeId) !in QueueIds(QueueAfter(h))
  {
    var q, h' := QueueAfter(h), h + [ev];
    QueueIsHistory(h);
    assert h'[..|h'| - 1] == h && h'[|h|] == ev;
    forall i | 0 <= i < |q|
      ensures KeyId(q[i].nativeId) in HeldIds(h')
    {
      var id := q[i].nativeId;
      LastOccurs(h, id);
      var j :| 0 <= j < |h| && h[j].nativeId == id;
      assert h'[j].nativeId == id;
    }
  }

  lemma SubsetSize(a: set<KeyId>, b: set<KeyId>)
    requires a <= b
    ensures |a| <= |b|
  {
    assert b == a + (b - a);
  }
}
