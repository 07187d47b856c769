/** The array of activated keys in glfw/input.c, compacted in place, and its refinement of
    KeyQueue: used slots form a prefix that holds the queue. */
module HeldKeys {
  import opened KeyQueue
  import opened Options

  const NO_VALUES := KeyValues(0, 0, 0, 0)
  const FREE := KeyEvent(0, RELEASE, NO_VALUES)  // a slot cleared by memset

  class KeyTable {
    const slots: array<KeyEvent>
    ghost var queue: seq<KeyEvent>

    ghost predicate Valid()
      reads this, slots
    {
      && slots.Length == SLOTS && WellFormed(queue)
      && (forall i :: 0 <= i < |queue| ==> slots[i] == queue[i])
      && (forall i :: |queue| <= i < SLOTS ==> slots[i].nativeId == 0)
    }

    constructor ()
      ensures Valid() && fresh(slots) && queue == []
    {
      slots := new KeyEvent[SLOTS](_ => FREE);
      queue := [];
    }

    /** The search for the slot of a key. */
    method Find(id: nat) returns (idx: int)
      requires Valid() && id > 0
      ensures idx == IndexOf(queue, id)
    {
      idx := -1;
      for i := 0 to SLOTS
        invariant forall j :: 0 <= j < i ==> slots[j].nativeId != id
      {
        if slots[i].nativeId == id {
          return i;
        }
      }
    }

    /** `memmove` of the slots after `from` down by one; the last slot is left as it is. */
    method ShiftDown(from: nat)
      requires slots.Length == SLOTS && from < SLOTS
      modifies slots
      ensures forall j :: 0 <= j < SLOTS ==>
        slots[j] == if from <= j < SLOTS - 1 then old(slots[j + 1]) else old(slots[j])
    {
      for k := from to SLOTS - 1
        invariant forall j :: 0 <= j < SLOTS ==>
          slots[j] == if from <= j < k then old(slots[j + 1]) else old(slots[j])
      {
        slots[k] := slots[k + 1];
      }
    }

    /** The release branch of `set_key_action`. */
    method Clear(idx: nat)
      requires Valid() && idx < |queue|
      modifies this`queue, slots
      ensures Valid() && queue == old(queue)[..idx] + old(queue)[idx + 1..]
    {
      RemovalKeepsWellFormed(queue, idx);
      slots[idx] := FREE;
      if idx < SLOTS - 1 {
        ShiftDown(idx);
        slots[SLOTS - 1] := FREE;
      }
      queue := queue[..idx] + queue[idx + 1..];
    }

    /** The first free slot; if there is none, the oldest key makes room at the end. */
    method MakeRoom() returns (idx: nat)
      requires Valid()
      modifies this`queue, slots
      ensures Valid() && idx == |queue| < SLOTS
      ensures queue == if |old(queue)| < SLOTS then old(queue) else old(queue)[1..]
    {
      for i := 0 to SLOTS
        invariant forall j :: 0 <= j < i ==> slots[j].nativeId != 0
        invariant i <= |queue|
      {
        if slots[i].nativeId == 0 {
          assert i >= |queue|;
          return i;
        }
      }
      RemovalKeepsWellFormed(queue, 0);
      ShiftDown(0);
      slots[SLOTS - 1] := slots[SLOTS - 1].(nativeId := 0);
      queue := queue[1..];
      idx := SLOTS - 1;
    }

    /** The press branch of `set_key_action`. */
    method Store(ev: KeyEvent, idx: int)
      requires Valid() && ev.nativeId > 0 && ev.action != RELEASE && idx == IndexOf(queue, ev.nativeId)
      modifies this`queue, slots
      ensures Valid() && queue == Held(old(queue), ev)
    {
      HeldKeepsWellFormed(queue, ev);
      if idx >= 0 {
        slots[idx] := ev;
        queue := queue[idx := ev];
      } else {
        var at := MakeRoom();
        slots[at] := ev;
        queue := queue + [ev];
      }
    }

    /** `_glfwInputKeyboard`: what the callback is given, if it is called. A release is kept from it
        exactly if its key is not queued. */
    method InputKeyboard(ev: KeyEvent) returns (out: Option<KeyEvent>)
      requires Valid()
      modifies this`queue, slots
      ensures Valid() && Result(queue, out) == Input(old(queue), ev)
      ensures out.None? <==> ev.nativeId > 0 && ev.action == RELEASE && IndexOf(old(queue), ev.nativeId) < 0
      ensures ev.nativeId == 0 ==> out == Some(ev) && queue == old(queue)
      ensures out.Some? && ev.nativeId > 0 && ev.action == RELEASE ==>
        out == Some(ev.(values := old(queue)[IndexOf(old(queue), ev.nativeId)].values))
    {
      if ev.nativeId == 0 { return Some(ev); }
      var idx := Find(ev.nativeId);
      var current := if idx >= 0 then slots[idx].action else RELEASE;
      var sent := ev;
      if ev.action == RELEASE {
        if current == RELEASE { return None; }
        sent := sent.(values := slots[idx].values);
        Clear(idx);
      } else {
        Store(ev, idx);
        if ev.action == PRESS && current == PRESS { sent := sent.(action := REPEAT); }
      }
      out := Some(sent);
    }

    method FeedOne(events: seq<KeyEvent>, k: nat) returns (out: Option<KeyEvent>)
      requires Valid() && k < |events| && queue == QueueAfter(events[..k])
      modifies this`queue, slots
      ensures Valid() && queue == QueueAfter(events[..k + 1]) && out == Delivered(events[..k], events[k])
    {
      NextQueue(events, k);
      out := InputKeyboard(events[k]);
    }

    /** A whole stream of events: each is delivered as the queue of its history says. */
    method Feed(events: seq<KeyEvent>) returns (outs: seq<Option<KeyEvent>>)
      requires Valid() && queue == []
      modifies this`queue, slots
      ensures Valid() && queue == QueueAfter(events) && |outs| == |events| && Lists(outs, Deliveries(events))
    {
      outs := [];
      for k := 0 to |events|
        invariant Valid() && queue == QueueAfter(events[..k]) && |outs| == k && Lists(outs, Deliveries(events))
      {
        var out := FeedOne(events, k);
        OneMoreListed(outs, Deliveries(events), out);
        outs := outs + [out];
      }
      assert events[..|events|] == events;
    }

    /** As long as no more than sixteen keys are down at any moment, each is delivered as its history
        alone says. */
    method InputAll(events: seq<KeyEvent>) returns (outs: seq<Option<KeyEvent>>)
      requires Valid() && queue == []
      modifies this`queue, slots
      ensures Valid() && queue == QueueAfter(events) && |outs| == |events| && Lists(outs, Deliveries(events))
      ensures NeverMoreThanSlots(events) ==>
        forall k :: 0 <= k < |events| ==> outs[k] == FromHistory(events[..k], events[k])
    {
      outs := Feed(events);
      if NeverMoreThanSlots(events) { EachDelivered(events, outs); }
    }
  }
}
