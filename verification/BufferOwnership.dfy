/** What the client side of BufferProtocol keeps and guarantees: which buffers it owns, that every
    run is legal, that nothing leaks, and what a window shows after an update. */
module BufferOwnership {
  import opened BufferProtocol
  import opened DecorationFrame

  // ----- the invariant -----

  function Made(s: State): nat { |s.world.status| }

  predicate Touched(s: State, id: int) { 0 < id < Made(s) && s.world.status[id].attached }
  predicate Gone(s: State, id: int) { 0 < id < Made(s) && s.world.status[id].destroyed }

  /** A released buffer has been attached, and an attached one is destroyed once released. */
  predicate StatusOk(st: Status) {
    (st.released ==> st.attached) && (st.attached ==> (st.destroyed <==> st.released))
  }

  /** Every step so far was legal; a buffer once attached is destroyed exactly when it has
      been released, and only attached buffers are released. */
  ghost predicate Core(s: State) {
    && s.world.ok && Replay(s.world.log) == s.world && 0 < Made(s)
    && forall id :: 0 < id < Made(s) ==> StatusOk(s.world.status[id])
  }

  /** The pair holds buffers `a` and `a + 1`, and owns exactly those never attached, which
      are then not destroyed either. */
  ghost predicate PairOk(s: State, p: Pair, a: int) {
    && p.a == a && p.b == a + 1 && 0 < a && a + 1 < Made(s)
    && ((p.front == p.a && p.back == p.b) || (p.front == p.b && p.back == p.a))
    && (p.aOwned <==> !Touched(s, a)) && (p.bOwned <==> !Touched(s, a + 1))
    && (p.aOwned ==> !Gone(s, a)) && (p.bOwned ==> !Gone(s, a + 1))
  }

  /** The first buffer of edge `e`: pairs are allocated in edge order. */
  function FirstId(s: State, e: nat): int { Made(s) - 8 + 2 * e }

  ghost predicate EdgeOk(s: State, e: nat)
    requires e < 4
  {
    PairOk(s, s.pairs[e], FirstId(s, e))
  }

  ghost predicate PairsOk(s: State)
  {
    if s.mapped then s.alive && forall e: nat :: e < 4 ==> EdgeOk(s, e)
    else forall e: nat :: e < 4 ==> s.pairs[e] == NO_PAIR
  }

  predicate Current(s: State, id: int) { s.mapped && Made(s) - 8 <= id < Made(s) }

  ghost predicate Inv(s: State) {
    && Core(s) && PairsOk(s)
    && (forall id :: 0 < id < Made(s) ==> Touched(s, id) || Gone(s, id) || Current(s, id))
    && (!s.bufferDestroyed ==> forall id :: Current(s, id) ==> !Gone(s, id))
  }

  lemma ActKeepsStatus(s: State, act: Action, id: int)
    requires Core(s) && LegalNext(s.world, act) && !act.Released? && 0 < id < Made(Act(s, act))
    requires act.Destroyed? ==> !Touched(s, act.id)
    ensures StatusOk(Act(s, act).world.status[id])
  {
    assert id < Made(s) ==> StatusOk(s.world.status[id]);
  }

  lemma ActKeepsCore(s: State, act: Action)
    requires Core(s) && LegalNext(s.world, act) && !act.Released?
    requires act.Destroyed? ==> !Touched(s, act.id)
    ensures Core(Act(s, act))
    ensures !act.Created? ==> Made(Act(s, act)) == Made(s)
  {
    ReplayDo(s.world, act);
    forall id | 0 < id < Made(Act(s, act))
      ensures StatusOk(Act(s, act).world.status[id])
    {
      ActKeepsStatus(s, act, id);
    }
  }

  lemma FreeSlotKeeps(s: State, id: Id, owned: bool)
    requires Core(s) && 0 < id < Made(s) && (owned <==> !Touched(s, id)) && (owned ==> !Gone(s, id))
    ensures Core(FreeSlot(s, id, owned)) && Made(FreeSlot(s, id, owned)) == Made(s)
    ensures forall x :: Touched(FreeSlot(s, id, owned), x) <==> Touched(s, x)
    ensures forall x :: Gone(FreeSlot(s, id, owned), x) <==> Gone(s, x) || (x == id && !Touched(s, x))
  {
    if owned { ActKeepsCore(s, Destroyed(id)); }
  }

  lemma FreeEdgeKeeps(s: State, e: nat, a: Id)
    requires Core(s) && e < 4 && PairOk(s, s.pairs[e], a)
    ensures Core(FreeEdge(s, e)) && Made(FreeEdge(s, e)) == Made(s)
    ensures FreeEdge(s, e).pairs == s.pairs[e := NO_PAIR]
    ensures forall id :: Touched(FreeEdge(s, e), id) <==> Touched(s, id)
    ensures forall id :: Gone(FreeEdge(s, e), id) <==>
      Gone(s, id) || ((id == a || id == a + 1) && !Touched(s, id))
  {
    var p := s.pairs[e];
    FreeSlotKeeps(s, p.a, p.aOwned);
    FreeSlotKeeps(FreeSlot(s, p.a, p.aOwned), p.b, p.bOwned);
  }

  predicate OfEdge(s: State, e: nat, id: int) { id == FirstId(s, e) || id == FirstId(s, e) + 1 }

  ghost predicate NoRepeats(order: Order) { forall i, j :: 0 <= i < j < |order| ==> order[i] != order[j] }

  predicate OfEdges(s: State, order: Order, id: int) { exists k :: 0 <= k < |order| && OfEdge(s, order[k], id) }

  /** Freeing some edges destroys exactly their buffers that were never attached. */
  lemma {:induction false} FreeEdgesKeeps(s: State, order: Order)
    requires Core(s) && NoRepeats(order) && forall k :: 0 <= k < |order| ==> EdgeOk(s, order[k])
    ensures Core(FreeEdges(s, order)) && Made(FreeEdges(s, order)) == Made(s)
    ensures forall id :: Touched(FreeEdges(s, order), id) <==> Touched(s, id)
    ensures forall id :: Gone(FreeEdges(s, order), id) <==> Gone(s, id) || (OfEdges(s, order, id) && !Touched(s, id))
    decreases |order|
  {
    if order != [] {
      var s1, rest := FreeEdge(s, order[0]), order[1..];
      FreeEdgeKeeps(s, order[0], FirstId(s, order[0]));
      forall k | 0 <= k < |rest|
        ensures EdgeOk(s1, rest[k])
      {
        assert EdgeOk(s, order[k + 1]);
      }
      FreeEdgesKeeps(s1, rest);
      forall id
        ensures OfEdges(s, order, id) <==> OfEdge(s, order[0], id) || OfEdges(s1, rest, id)
      {
        OfEdgesSplit(s, s1, order, id);
      }
    }
  }

  lemma {:induction false} FreeEdgesEmpties(s: State, order: Order)
    ensures forall k :: 0 <= k < |order| ==> FreeEdges(s, order).pairs[order[k]] == NO_PAIR
    ensures forall e :: 0 <= e < 4 && s.pairs[e] == NO_PAIR ==> FreeEdges(s, order).pairs[e] == NO_PAIR
    decreases |order|
  {
    if order != [] {
      FreeEdgesEmpties(FreeEdge(s, order[0]), order[1..]);
      assert forall k :: 0 < k < |order| ==> order[k] == order[1..][k - 1];
    }
  }

  lemma OfEdgesSplit(s: State, s1: State, order: Order, id: int)
    requires order != [] && Made(s1) == Made(s)
    ensures OfEdges(s, order, id) <==> OfEdge(s, order[0], id) || OfEdges(s1, order[1..], id)
  {
    if OfEdges(s1, order[1..], id) {
      var k :| 0 <= k < |order[1..]| && OfEdge(s1, order[1..][k], id);
      assert OfEdge(s, order[k + 1], id);
    }
    if OfEdges(s, order, id) && !OfEdge(s, order[0], id) {
      var k :| 0 <= k < |order| && OfEdge(s, order[k], id);
      assert OfEdge(s1, order[1..][k - 1], id);
    }
  }

  /** Freeing destroys exactly the current buffers that were never attached. */
  lemma FreeBuffersDestroys(s: State)
    requires Inv(s) && s.mapped
    ensures Core(FreeBuffers(s)) && Made(FreeBuffers(s)) == Made(s)
    ensures forall e :: 0 <= e < 4 ==> FreeBuffers(s).pairs[e] == NO_PAIR
    ensures forall id :: Touched(FreeBuffers(s), id) <==> Touched(s, id)
    ensures forall id :: Gone(FreeBuffers(s), id) <==> Gone(s, id) || (Current(s, id) && !Touched(s, id))
  {
    forall k | 0 <= k < 4
      ensures EdgeOk(s, FREE_ORDER[k])
    {
    }
    FreeEdgesKeeps(s, FREE_ORDER);
    FreedAreEmpty(s);
    forall id
      ensures Gone(FreeBuffers(s), id) <==> Gone(s, id) || (Current(s, id) && !Touched(s, id))
    {
      EdgesAreCurrent(s, id);
    }
  }

  lemma FreedAreEmpty(s: State)
    ensures forall e :: 0 <= e < 4 ==> FreeBuffers(s).pairs[e] == NO_PAIR
  {
    FreeEdgesEmpties(s, FREE_ORDER);
    forall e | 0 <= e < 4
      ensures FreeBuffers(s).pairs[e] == NO_PAIR
    {
      var k := if e == LEFT then 0 else if e == TOP then 1 else if e == RIGHT then 2 else 3;
      assert FREE_ORDER[k] == e;
    }
  }

  /** The four edges have the last eight buffers. */
  lemma EdgesAreCurrent(s: State, id: int)
    requires s.mapped
    ensures OfEdges(s, FREE_ORDER, id) <==> Current(s, id)
  {
    assert OfEdge(s, FREE_ORDER[0], id) || OfEdge(s, FREE_ORDER[1], id) || OfEdge(s, FREE_ORDER[2], id)
        || OfEdge(s, FREE_ORDER[3], id) || !Current(s, id);
  }

  lemma {:induction false} FreeNothing(s: State, order: Order)
    requires forall e :: 0 <= e < 4 ==> s.pairs[e] == NO_PAIR
    ensures FreeEdges(s, order) == s
    decreases |order|
  {
    if order != [] {
      assert s.pairs[order[0] := NO_PAIR] == s.pairs;
      FreeNothing(s, order[1..]);
    }
  }

  lemma FreeBuffersKeeps(s: State)
    requires Inv(s)
    ensures Inv(FreeBuffers(s)) && !FreeBuffers(s).mapped
    ensures forall id :: Touched(FreeBuffers(s), id) <==> Touched(s, id)
  {
    if s.mapped {
      FreeBuffersDestroys(s);
    } else {
      FreeNothing(s, FREE_ORDER);
    }
  }

  lemma AllocKeeps(s: State, e: nat, v: View)
    requires Core(s) && e < 4
    ensures Core(AllocPair(s, e, v)) && Made(AllocPair(s, e, v)) == Made(s) + 2
    ensures forall id :: Touched(AllocPair(s, e, v), id) <==> Touched(s, id)
    ensures forall id :: Gone(AllocPair(s, e, v), id) <==> Gone(s, id)
    ensures AllocPair(s, e, v).pairs == s.pairs[e := FreshPair(Made(s))]
  {
    ActKeepsCore(s, Created(Made(s), EdgeSize(e, v)));
    ActKeepsCore(Act(s, Created(Made(s), EdgeSize(e, v))), Created(Made(s) + 1, EdgeSize(e, v)));
  }

  lemma {:induction false} AllocEdgesCore(s: State, order: Order, v: View)
    requires Core(s)
    ensures Core(AllocEdges(s, order, v)) && Made(AllocEdges(s, order, v)) == Made(s) + 2 * |order|
    ensures forall id :: Touched(AllocEdges(s, order, v), id) <==> Touched(s, id)
    ensures forall id :: Gone(AllocEdges(s, order, v), id) <==> Gone(s, id)
    decreases |order|
  {
    if order != [] {
      AllocKeeps(s, order[0], v);
      AllocEdgesCore(AllocPair(s, order[0], v), order[1..], v);
    }
  }

  lemma {:induction false} AllocEdgesOthers(s: State, order: Order, v: View, e: nat)
    requires e < 4 && forall k :: 0 <= k < |order| ==> order[k] != e
    ensures AllocEdges(s, order, v).pairs[e] == s.pairs[e]
    decreases |order|
  {
    if order != [] { AllocEdgesOthers(AllocPair(s, order[0], v), order[1..], v, e); }
  }

  lemma {:induction false} AllocEdgesPair(s: State, order: Order, v: View, k: nat)
    requires Core(s) && NoRepeats(order) && k < |order|
    ensures AllocEdges(s, order, v).pairs[order[k]] == FreshPair(Made(s) + 2 * k)
    decreases |order|
  {
    AllocKeeps(s, order[0], v);
    if k == 0 {
      AllocEdgesOthers(AllocPair(s, order[0], v), order[1..], v, order[0]);
    } else {
      AllocEdgesPair(AllocPair(s, order[0], v), order[1..], v, k - 1);
    }
  }

  lemma {:induction false} PaintAllKeeps(s: State, ds: seq<Drawing>)
    requires Core(s) && forall k :: 0 <= k < |ds| ==> 0 < ds[k].id < Made(s) && !Gone(s, ds[k].id)
    ensures Core(PaintAll(s, ds)) && PaintAll(s, ds).world.status == s.world.status
    ensures PaintAll(s, ds) == s.(world := PaintAll(s, ds).world)
    decreases |ds|
  {
    if ds != [] {
      ActKeepsCore(s, Painted(ds[0].id, ds[0].focused));
      PaintAllKeeps(Paint(s, ds[0]), ds[1..]);
    }
  }

  /** A state whose current buffers are all alive: what every attach starts from. */
  ghost predicate Ready(s: State) { Inv(s) && s.mapped && !s.bufferDestroyed }

  /** Steps that destroy nothing, given what they leave of each pair. */
  lemma ReadyFrame(s: State, s': State)
    requires Ready(s) && Core(s') && Made(s') == Made(s)
    requires s'.mapped && s'.alive == s.alive && !s'.bufferDestroyed
    requires forall id :: 0 < id < Made(s) ==> (Touched(s, id) ==> Touched(s', id)) && Gone(s', id) == Gone(s, id)
    requires forall e: nat :: e < 4 ==> EdgeOk(s', e)
    ensures Ready(s')
  {
    forall id | 0 < id < Made(s')
      ensures Touched(s', id) || Gone(s', id) || Current(s', id)
      ensures Current(s', id) ==> !Gone(s', id)
    {
      assert Touched(s, id) || Gone(s, id) || Current(s, id);
      assert Current(s, id) ==> !Gone(s, id);
    }
    assert forall e: nat :: e < 4 ==> EdgeOk(s', e);
  }

  function Allocated(s: State, v: View): State {
    AllocEdges(s, ALLOC_ORDER, v).(mapped := true, bufferDestroyed := false)
  }

  /** The eight newest buffers are untouched, and the older ones were done with before. */
  lemma AllocatedFresh(s: State, v: View)
    requires Inv(s) && !s.mapped
    ensures Core(Allocated(s, v)) && Made(Allocated(s, v)) == Made(s) + 8
    ensures forall id :: 0 < id < Made(s) ==> Touched(Allocated(s, v), id) || Gone(Allocated(s, v), id)
    ensures forall id :: Made(s) <= id < Made(s) + 8 ==> !Touched(Allocated(s, v), id) && !Gone(Allocated(s, v), id)
  {
    var raw := AllocEdges(s, ALLOC_ORDER, v);
    AllocEdgesCore(s, ALLOC_ORDER, v);
    forall id
      ensures Touched(Allocated(s, v), id) == Touched(s, id) && Gone(Allocated(s, v), id) == Gone(s, id)
      ensures 0 < id < Made(s) ==> Touched(s, id) || Gone(s, id)
    {
      assert Touched(raw, id) == Touched(s, id) && Gone(raw, id) == Gone(s, id);
      assert 0 < id < Made(s) ==> Touched(s, id) || Gone(s, id) || Current(s, id);
    }
  }

  lemma AllocatedReady(s: State, v: View, focused: bool)
    requires Inv(s) && !s.mapped && s.alive
    ensures Ready(Allocated(s, v)) && forall id :: Current(Allocated(s, v), id) ==> !Touched(Allocated(s, v), id)
    ensures forall k :: 0 <= k < |FirstPaint(Allocated(s, v).pairs, focused)| ==>
      Current(Allocated(s, v), FirstPaint(Allocated(s, v).pairs, focused)[k].id)
  {
    AllocatedFresh(s, v);
    forall k: nat | k < 4
      ensures AllocEdges(s, ALLOC_ORDER, v).pairs[ALLOC_ORDER[k]] == FreshPair(Made(s) + 2 * k)
    {
      AllocEdgesPair(s, ALLOC_ORDER, v, k);
    }
    AllocEdgesSameView(s, ALLOC_ORDER, v);
    FreshPairs(Allocated(s, v), focused);
    assert forall id :: Current(Allocated(s, v), id) ==> Made(s) <= id < Made(s) + 8;
  }

  lemma CreateBuffersReady(s: State, v: View)
    requires Inv(s) && !s.mapped && s.alive
    ensures Ready(CreateBuffers(s, v).(bufferDestroyed := false))
    ensures CreateBuffers(s, v).world.status == AllocEdges(s, ALLOC_ORDER, v).world.status
  {
    var s1 := Allocated(s, v);
    AllocatedReady(s, v, v.focused);
    var ds := FirstPaint(s1.pairs, v.focused);
    assert EdgeOk(s1, TOP);
    forall k | 0 <= k < |ds|
      ensures 0 < ds[k].id < Made(s1) && !Gone(s1, ds[k].id)
    {
      assert Current(s1, ds[k].id);
    }
    PaintAllKeeps(s1, ds);
    RepaintedReady(s1, PaintAll(s1, ds));
    PaintAllIgnores(AllocEdges(s, ALLOC_ORDER, v).(mapped := true), ds, false);
  }

  lemma {:induction false} PaintAllIgnores(s: State, ds: seq<Drawing>, flag: bool)
    ensures PaintAll(s, ds).(bufferDestroyed := flag) == PaintAll(s.(bufferDestroyed := flag), ds)
    decreases |ds|
  {
    if ds != [] { PaintAllIgnores(Paint(s, ds[0]), ds[1..], flag); }
  }

  lemma RepaintedReady(s: State, s': State)
    requires Ready(s) && Core(s') && s'.world.status == s.world.status && s' == s.(world := s'.world)
    ensures Ready(s')
  {
    forall e: nat | e < 4 ensures EdgeOk(s', e) { assert EdgeOk(s, e); }
    ReadyFrame(s, s');
  }

  lemma FreshPairs(s: State, focused: bool)
    requires Core(s) && s.mapped && s.alive && Made(s) > 8 && !s.bufferDestroyed
    requires forall k: nat :: k < 4 ==> s.pairs[ALLOC_ORDER[k]] == FreshPair(FirstId(s, k))
    requires forall id :: 0 < id < Made(s) ==>
      if id < Made(s) - 8 then Touched(s, id) || Gone(s, id) else !Touched(s, id) && !Gone(s, id)
    ensures Ready(s)
    ensures forall k :: 0 <= k < |FirstPaint(s.pairs, focused)| ==> Current(s, FirstPaint(s.pairs, focused)[k].id)
  {
    forall e: nat | e < 4
      ensures s.pairs[e] == FreshPair(FirstId(s, e)) && EdgeOk(s, e)
    {
      assert ALLOC_ORDER[e] == e;
    }
    forall id | 0 < id < Made(s)
      ensures Touched(s, id) || Gone(s, id) || Current(s, id)
      ensures Current(s, id) ==> !Gone(s, id)
    {
    }
  }

  function FreshPair(a: int): Pair
    requires a > 0
  {
    Pair(a, a + 1, a, a + 1, true, true)
  }

  lemma {:induction false} AllocEdgesSameView(s: State, order: Order, v: View)
    ensures AllocEdges(s, order, v)
      == s.(pairs := AllocEdges(s, order, v).pairs, world := AllocEdges(s, order, v).world)
    decreases |order|
  {
    if order != [] { AllocEdgesSameView(AllocPair(s, order[0], v), order[1..], v); }
  }

  lemma {:induction false} FreeEdgesSameView(s: State, order: Order)
    ensures FreeEdges(s, order) == s.(pairs := FreeEdges(s, order).pairs, world := FreeEdges(s, order).world)
    decreases |order|
  {
    if order != [] { FreeEdgesSameView(FreeEdge(s, order[0]), order[1..]); }
  }

  lemma RebuildReady(s: State, v: View)
    requires Inv(s) && s.alive
    ensures Ready(Rebuild(s, v))
  {
    if SizeChanged(s, v) || s.bufferDestroyed {
      FreeBuffersKeeps(s);
      FreeEdgesSameView(s, FREE_ORDER);
      CreateBuffersReady(FreeBuffers(s), v);
    }
  }

  lemma UpdateTitleKeeps(s: State, focused: bool)
    requires Ready(s)
    ensures Ready(UpdateTitle(s, focused)) && UpdateTitle(s, focused).shown == s.shown
    ensures UpdateTitle(s, focused).world.status == s.world.status
    ensures UpdateTitle(s, focused).pairs[TOP].front == s.pairs[TOP].back
  {
    var s' := UpdateTitle(s, focused);
    assert EdgeOk(s, TOP);
    assert Current(s, s.pairs[TOP].back);
    ActKeepsCore(s, Painted(s.pairs[TOP].back, focused));
    forall e: nat | e < 4
      ensures EdgeOk(s', e)
    {
      assert EdgeOk(s, e);
    }
    ReadyFrame(s, s');
  }

  lemma AttachKeeps(s: State, id: Id)
    requires Core(s) && 0 < id < Made(s) && !Gone(s, id)
    ensures Core(Act(s, Attached(id))) && Made(Act(s, Attached(id))) == Made(s)
    ensures forall x :: Touched(Act(s, Attached(id)), x) <==> Touched(s, x) || x == id
    ensures forall x :: Gone(Act(s, Attached(id)), x) <==> Gone(s, x)
  {
    ActKeepsCore(s, Attached(id));
  }

  lemma DamageKeeps(s: State, e: nat, id: Id)
    requires Ready(s) && e < 4 && (id == s.pairs[e].a || id == s.pairs[e].b)
    ensures Ready(Damage(s, e, id)) && Damage(s, e, id).shown == s.shown[e := id]
    ensures forall x :: Touched(Damage(s, e, id), x) <==> Touched(s, x) || x == id
    ensures forall x :: Gone(Damage(s, e, id), x) <==> Gone(s, x)
    ensures forall f :: 0 <= f < 4 ==> SameBuffers(s.pairs[f], Damage(s, e, id).pairs[f])
  {
    var s1, s' := Act(s, Attached(id)), Damage(s, e, id);
    assert EdgeOk(s, e);
    assert Current(s, id);
    AttachKeeps(s, id);
    forall f: nat | f < 4
      ensures EdgeOk(s', f)
    {
      assert EdgeOk(s, f);
      AttachedPair(s, s1, s.pairs[f], FirstId(s, f), id);
    }
    forall x
      ensures Touched(s', x) == Touched(s1, x) && Gone(s', x) == Gone(s1, x)
    {
    }
    ReadyFrame(s, s');
  }

  lemma AttachedPair(s: State, s1: State, p: Pair, a: int, id: Id)
    requires PairOk(s, p, a) && Made(s1) == Made(s)
    requires forall x :: Touched(s1, x) <==> Touched(s, x) || x == id
    requires forall x :: Gone(s1, x) <==> Gone(s, x)
    ensures id == a ==> PairOk(s1, p.(aOwned := false), a)
    ensures id == a + 1 ==> PairOk(s1, p.(bOwned := false), a)
    ensures id != a && id != a + 1 ==> PairOk(s1, p, a)
  {
  }

  predicate SameBuffers(p: Pair, q: Pair) {
    p.a == q.a && p.b == q.b && p.front == q.front && p.back == q.back
  }

  /** Attaching keeps the buffers of every pair and detaches nothing. */
  lemma {:induction false} DamageEdgesReady(s: State, order: Order, focused: bool)
    requires Ready(s) && NoRepeats(order)
    ensures Ready(DamageEdges(s, order, focused))
    ensures forall f :: 0 <= f < 4 ==> SameBuffers(s.pairs[f], DamageEdges(s, order, focused).pairs[f])
    ensures forall x :: Touched(s, x) ==> Touched(DamageEdges(s, order, focused), x)
    ensures forall x :: Gone(DamageEdges(s, order, focused), x) <==> Gone(s, x)
    decreases |order|
  {
    if order != [] {
      var e := order[0];
      assert EdgeOk(s, e);
      DamageKeeps(s, e, Wanted(s.pairs[e], e, focused));
      DamageEdgesReady(Damage(s, e, Wanted(s.pairs[e], e, focused)), order[1..], focused);
    }
  }

  lemma {:induction false} DamageEdgesOthers(s: State, order: Order, focused: bool, f: nat)
    requires f < 4 && forall k :: 0 <= k < |order| ==> order[k] != f
    ensures DamageEdges(s, order, focused).shown[f] == s.shown[f]
    decreases |order|
  {
    if order != [] {
      DamageEdgesOthers(Damage(s, order[0], Wanted(s.pairs[order[0]], order[0], focused)), order[1..], focused, f);
    }
  }

  /** The `k`-th edge ends up showing the buffer it wants, which is then attached. */
  lemma {:induction false} DamageEdgesShow(s: State, order: Order, focused: bool, k: nat)
    requires Ready(s) && NoRepeats(order) && k < |order|
    ensures var s', wanted := DamageEdges(s, order, focused), Wanted(s.pairs[order[k]], order[k], focused);
      s'.shown[order[k]] == wanted && Touched(s', wanted)
    decreases |order|
  {
    var e, rest := order[0], order[1..];
    var wanted := Wanted(s.pairs[e], e, focused);
    var s1 := Damage(s, e, wanted);
    assert EdgeOk(s, e);
    DamageKeeps(s, e, wanted);
    if k == 0 {
      DamageEdgesOthers(s1, rest, focused, e);
      DamageEdgesReady(s1, rest, focused);
    } else {
      assert rest[k - 1] == order[k];
      assert SameBuffers(s.pairs[order[k]], s1.pairs[order[k]]);
      DamageEdgesShow(s1, rest, focused, k - 1);
    }
  }

  /** After an update every edge shows the buffer meant for the focus state, and none of
      the buffers shown, all of them attached, is destroyed. */
  ghost predicate Showing(s: State, focused: bool) {
    && Ready(s)
    && forall e: nat :: e < 4 ==>
      s.shown[e] == Wanted(s.pairs[e], e, focused) && Touched(s, s.shown[e]) && !Gone(s, s.shown[e])
  }

  /** An update destroys no buffer that was ever handed to the compositor. */
  lemma RefreshSpares(s: State, v: View)
    requires Inv(s) && s.alive
    ensures forall id :: Touched(s, id) ==> Touched(Refresh(s, v), id) && (Gone(Refresh(s, v), id) <==> Gone(s, id))
  {
    var s1, s2 := Rebuild(s, v), BeforeDamage(s, v);
    RebuildSpares(s, v);
    BeforeDamageReady(s, v);
    RebuildReady(s, v);
    SameButSurfaces(s1, InPlace(s1, v));
    if v.focused != s.built.focused { UpdateTitleKeeps(InPlace(s1, v), v.focused); }
    assert s2.world.status == s1.world.status;
    DamageEdgesReady(s2, ALLOC_ORDER, v.focused);
    forall id | Touched(s, id)
      ensures Touched(Refresh(s, v), id) && (Gone(Refresh(s, v), id) <==> Gone(s, id))
    {
      assert Touched(s1, id) && Touched(s2, id) && Gone(s2, id) == Gone(s1, id);
      assert Touched(DamageEdges(s2, ALLOC_ORDER, v.focused), id);
      assert Gone(DamageEdges(s2, ALLOC_ORDER, v.focused), id) == Gone(s2, id);
    }
  }

  lemma RebuildSpares(s: State, v: View)
    requires Inv(s) && s.alive
    ensures forall id :: Touched(s, id) ==> Touched(Rebuild(s, v), id) && (Gone(Rebuild(s, v), id) <==> Gone(s, id))
  {
    if SizeChanged(s, v) || s.bufferDestroyed {
      var freed := FreeBuffers(s);
      FreeBuffersKeeps(s);
      FreeEdgesSameView(s, FREE_ORDER);
      if s.mapped { FreeBuffersDestroys(s); } else { FreeNothing(s, FREE_ORDER); }
      var raw := AllocEdges(freed, ALLOC_ORDER, v);
      AllocEdgesCore(freed, ALLOC_ORDER, v);
      CreateBuffersReady(freed, v);
      forall id | Touched(s, id)
        ensures Touched(Rebuild(s, v), id) && (Gone(Rebuild(s, v), id) <==> Gone(s, id))
      {
        assert Touched(freed, id) && Touched(raw, id) && Gone(raw, id) == Gone(freed, id);
      }
    }
  }

  lemma BeforeDamageReady(s: State, v: View)
    requires Inv(s) && s.alive
    ensures Ready(BeforeDamage(s, v))
  {
    var s1 := InPlace(Rebuild(s, v), v);
    RebuildReady(s, v);
    SameButSurfaces(Rebuild(s, v), s1);
    if v.focused != s.built.focused { UpdateTitleKeeps(s1, v.focused); }
  }

  lemma DamagedShows(s: State, focused: bool)
    requires Ready(s)
    ensures Showing(DamageEdges(s, ALLOC_ORDER, focused), focused)
  {
    var s' := DamageEdges(s, ALLOC_ORDER, focused);
    DamageEdgesReady(s, ALLOC_ORDER, focused);
    forall e: nat | e < 4
      ensures s'.shown[e] == Wanted(s'.pairs[e], e, focused)
      ensures Touched(s', s'.shown[e]) && !Gone(s', s'.shown[e])
    {
      assert ALLOC_ORDER[e] == e;
      DamageEdgesShow(s, ALLOC_ORDER, focused, e);
      assert SameBuffers(s.pairs[e], s'.pairs[e]);
      WantedAlive(s', e, focused);
    }
  }

  lemma WantedAlive(s: State, e: nat, focused: bool)
    requires Ready(s) && e < 4
    ensures !Gone(s, Wanted(s.pairs[e], e, focused))
  {
    assert EdgeOk(s, e);
    assert Current(s, Wanted(s.pairs[e], e, focused));
  }

  lemma RefreshShows(s: State, v: View)
    requires Inv(s) && s.alive
    ensures Showing(Refresh(s, v), v.focused)
  {
    BeforeDamageReady(s, v);
    DamagedShows(BeforeDamage(s, v), v.focused);
    var s3 := DamageEdges(BeforeDamage(s, v), ALLOC_ORDER, v.focused);
    SameButSurfaces(s3, s3.(built := v));
  }

  lemma SameButSurfaces(s: State, s': State)
    requires Ready(s) && s' == s.(surfaces := s'.surfaces, places := s'.places, built := s'.built)
    ensures Ready(s')
  {
    forall e: nat | e < 4 ensures EdgeOk(s', e) { assert EdgeOk(s, e); }
    ReadyFrame(s, s');
  }

  // ----- the protocol theorems -----

  lemma SurfacesKeep(s: State)
    requires Inv(s)
    ensures Inv(FreeSurfaces(s))
  {
    InvFrame(s, FreeSurfaces(s));
  }

  /** Steps that keep the pairs' shape; `s'` may have destroyed more. */
  lemma InvFrame(s: State, s': State)
    requires Inv(s) && Core(s') && Made(s') == Made(s) && s'.mapped == s.mapped && s'.alive == s.alive
    requires s'.pairs == s.pairs
    requires forall id :: 0 < id < Made(s) ==> Touched(s', id) == Touched(s, id)
    requires forall id :: 0 < id < Made(s) ==>
      (Gone(s, id) ==> Gone(s', id)) && (Gone(s', id) ==> Gone(s, id) || Touched(s, id))
    requires !s'.bufferDestroyed ==> !s.bufferDestroyed && forall id :: Current(s, id) ==> Gone(s', id) == Gone(s, id)
    ensures Inv(s')
  {
    forall id | 0 < id < Made(s')
      ensures Touched(s', id) || Gone(s', id) || Current(s', id)
    {
      assert Touched(s, id) || Gone(s, id) || Current(s, id);
    }
    if s.mapped {
      forall e: nat | e < 4 ensures EdgeOk(s', e) { assert EdgeOk(s, e); }
    }
    if !s'.bufferDestroyed {
      forall id | Current(s', id) ensures !Gone(s', id) { assert Current(s, id); }
    }
  }

  /** A released buffer has been attached, so its slot has already lost the destroy flag. */
  lemma ReleaseKeepsPairs(s: State, id: Id)
    requires Inv(s) && LegalNext(s.world, Released(id))
    ensures Release(s, id).pairs == s.pairs
    ensures Release(s, id).bufferDestroyed == (s.bufferDestroyed || Current(s, id))
  {
    assert Touched(s, id);
    var e := HolderFrom(s.pairs, FREE_ORDER, id);
    if s.mapped {
      assert EdgeOk(s, TOP) && EdgeOk(s, LEFT) && EdgeOk(s, BOTTOM) && EdgeOk(s, RIGHT);
      if e >= 0 {
        assert EdgeOk(s, e);
        assert s.pairs[e := s.pairs[e]] == s.pairs;
      } else {
        assert !Holds(s.pairs[FREE_ORDER[0]], id) && !Holds(s.pairs[FREE_ORDER[1]], id);
        assert !Holds(s.pairs[FREE_ORDER[2]], id) && !Holds(s.pairs[FREE_ORDER[3]], id);
      }
    }
  }

  lemma ReleasedFirst(s: State, id: Id) returns (w: World)
    requires Core(s) && LegalNext(s.world, Released(id))
    ensures w == Do(s.world, Released(id)) && w.ok && Replay(w.log) == w && LegalNext(w, Destroyed(id))
    ensures w.status == s.world.status[id := s.world.status[id].(released := true)]
  {
    w := Do(s.world, Released(id));
    ReplayDo(s.world, Released(id));
    assert StatusOk(s.world.status[id]);
  }

  lemma ReleaseCore(s: State, id: Id)
    requires Core(s) && LegalNext(s.world, Released(id))
    ensures var s1 := Act(Act(s, Released(id)), Destroyed(id));
      && Core(s1) && Made(s1) == Made(s)
      && (forall x :: Touched(s1, x) == Touched(s, x))
      && (forall x :: Gone(s1, x) <==> Gone(s, x) || x == id)
  {
    var w := ReleasedFirst(s, id);
    ReplayDo(w, Destroyed(id));
  }

  lemma ReleaseKeeps(s: State, id: Id)
    requires Inv(s) && LegalNext(s.world, Released(id))
    ensures Inv(Release(s, id))
    ensures forall x :: Touched(Release(s, id), x) <==> Touched(s, x)
    ensures forall x :: Gone(Release(s, id), x) <==> Gone(s, x) || x == id
  {
    var s1, s' := Act(Act(s, Released(id)), Destroyed(id)), Release(s, id);
    ReleaseCore(s, id);
    ReleaseKeepsPairs(s, id);
    assert Touched(s, id);
    forall x
      ensures Touched(s', x) == Touched(s1, x) && Gone(s', x) == Gone(s1, x)
    {
    }
    InvFrame(s, s');
  }

  /** Every step of the client or the compositor keeps the invariant. */
  lemma StepKeeps(s: State, step: Step)
    requires Inv(s)
    ensures Inv(Apply(s, step))
  {
    if Enabled(s, step) {
      match step
      case EnsureStep(win) =>
        if Decorates(win) && NeedsUpdate(s, win.view) { RefreshShows(s, win.view); }
      case TitleStep(win) =>
        TitleKeeps(s, win);
      case SurfacesStep =>
        SurfacesKeep(s);
      case DestroyStep =>
        FreeAllFrees(s);
      case ReleaseStep(id) =>
        ReleaseKeeps(s, id);
    }
  }

  lemma DeadKeeps(s: State)
    requires Inv(s) && !s.mapped
    ensures Inv(s.(alive := false))
  {
    var s' := s.(alive := false);
    forall id | 0 < id < Made(s')
      ensures Touched(s', id) || Gone(s', id)
    {
      assert Touched(s, id) || Gone(s, id) || Current(s, id);
    }
  }

  /** Destroying the window destroys exactly the current buffers never attached; every other
      buffer made so far is gone already or is left to its release event. */
  lemma FreeAllFrees(s: State)
    requires Inv(s)
    ensures Inv(FreeAll(s)) && Made(FreeAll(s)) == Made(s)
    ensures forall id :: Touched(FreeAll(s), id) <==> Touched(s, id)
    ensures forall id :: Gone(FreeAll(s), id) <==> Gone(s, id) || (Current(s, id) && !Touched(s, id))
  {
    var s1 := FreeSurfaces(s);
    SurfacesKeep(s);
    FreeBuffersKeeps(s1);
    if s1.mapped { FreeBuffersDestroys(s1); } else { FreeNothing(s1, FREE_ORDER); }
    var s2 := FreeBuffers(s1);
    DeadKeeps(s2);
    forall id
      ensures Touched(FreeAll(s), id) <==> Touched(s, id)
      ensures Gone(FreeAll(s), id) <==> Gone(s, id) || (Current(s, id) && !Touched(s, id))
    {
      assert Touched(FreeAll(s), id) == Touched(s2, id) && Gone(FreeAll(s), id) == Gone(s2, id);
      assert Touched(s1, id) == Touched(s, id) && Gone(s1, id) == Gone(s, id) && Current(s1, id) == Current(s, id);
    }
  }

  lemma TitleKeeps(s: State, win: Window)
    requires Inv(s) && s.alive
    ensures Inv(ChangeTitle(s, win))
  {
    if Decorates(win) {
      if NeedsUpdate(s, win.view) {
        RefreshShows(s, win.view);
      } else if s.surfaces[TOP] {
        UpdateTitleKeeps(s, win.view.focused);
        var s1 := UpdateTitle(s, win.view.focused);
        assert EdgeOk(s1, TOP);
        DamageKeeps(s1, TOP, s1.pairs[TOP].front);
      }
    }
  }

  lemma {:induction false} RunKeeps(s: State, steps: seq<Step>)
    requires Inv(s)
    ensures Inv(Run(s, steps))
    decreases |steps|
  {
    if steps != [] {
      StepKeeps(s, steps[0]);
      RunKeeps(Apply(s, steps[0]), steps[1..]);
    }
  }

  /** In every run, at every position of its history: a buffer is destroyed at most once, is
      never attached or painted after that, and if it was ever attached then its destruction
      directly follows its own release event. */
  lemma RunIsLegal(steps: seq<Step>, i: nat)
    requires i < |Run(INITIAL, steps).world.log|
    ensures LegalAt(Run(INITIAL, steps).world.log, i)
  {
    RunKeeps(INITIAL, steps);
    LegalHistory(Run(INITIAL, steps).world.log, i);
  }

  /** No leak: in a run after which the window is gone and every buffer ever attached has
      been released, every buffer ever created has been destroyed. */
  lemma RunLeaksNothing(steps: seq<Step>, id: Id)
    requires var log := Run(INITIAL, steps).world.log;
      && !Run(INITIAL, steps).alive
      && (forall x: Id :: Attached(x) in log ==> Released(x) in log)
      && Born(log, id)
    ensures Destroyed(id) in Run(INITIAL, steps).world.log
  {
    RunKeeps(INITIAL, steps);
    LeaksNothing(Run(INITIAL, steps), id);
  }

  lemma LeaksNothing(s: State, id: Id)
    requires Inv(s) && !s.alive && Born(s.world.log, id)
    requires forall x: Id :: Attached(x) in s.world.log ==> Released(x) in s.world.log
    ensures Destroyed(id) in s.world.log
  {
    ReplayStatus(s.world.log);
    assert Exists(s.world, id);
    assert !Current(s, id);
    assert Touched(s, id) || Gone(s, id);
    assert Touched(s, id) ==> s.world.status[id].released;
  }

  lemma EnsureShows(s: State, win: Window)
    requires Inv(s) && s.alive && Decorates(win) && NeedsUpdate(s, win.view)
    ensures Showing(Ensure(s, win), win.view.focused)
    ensures !NeedsUpdate(Ensure(s, win), win.view) && Ensure(Ensure(s, win), win) == Ensure(s, win)
  {
    RefreshShows(s, win.view);
    RefreshSurfaces(s, win.view);
  }

  lemma RefreshSurfaces(s: State, v: View)
    ensures Refresh(s, v).surfaces == [true, true, true, true]
  {
    DamageSurfaces(BeforeDamage(s, v), ALLOC_ORDER, v.focused);
  }

  lemma {:induction false} DamageSurfaces(s: State, order: Order, focused: bool)
    ensures DamageEdges(s, order, focused).surfaces == s.surfaces
    decreases |order|
  {
    if order != [] {
      DamageSurfaces(Damage(s, order[0], Wanted(s.pairs[order[0]], order[0], focused)), order[1..], focused);
    }
  }
}
