/** What the decorations of BufferProtocol paint and when: the look of every buffer shown, and
    exactly which steps draw into a buffer that the compositor still reads. */
module BufferPainting {
  import opened BufferOwnership
  import opened BufferProtocol
  import opened DecorationFrame
  import opened Options

  // ----- what a stretch of history paints -----

  /** What was last drawn into a buffer: for a focused window or not. */
  function Look(log: seq<Action>, id: Id): Option<bool> {
    if log == [] then None
    else
      var last := log[|log| - 1];
      if last.Painted? && last.id == id then Some(last.focused) else Look(log[..|log| - 1], id)
  }

  /** The compositor may read the buffer: it was handed over and has not come back. */
  ghost predicate Held(log: seq<Action>, id: Id) { Attached(id) in log && Released(id) !in log }

  ghost predicate PaintsHeld(log: seq<Action>, i: nat)
    requires i < |log|
  {
    log[i].Painted? && Held(log[..i], log[i].id)
  }

  ghost predicate Grows(log: seq<Action>, log': seq<Action>) { |log| <= |log'| && log'[..|log|] == log }

  /** Nothing new is painted. */
  ghost predicate Quiet(log: seq<Action>, log': seq<Action>) {
    Grows(log, log') && forall i :: |log| <= i < |log'| ==> !log'[i].Painted?
  }

  /** Nothing new is painted into a buffer that is held at that moment. */
  ghost predicate Clean(log: seq<Action>, log': seq<Action>) {
    Grows(log, log') && forall i :: |log| <= i < |log'| ==> !PaintsHeld(log', i)
  }

  lemma GrowsOn(a: seq<Action>, b: seq<Action>, c: seq<Action>)
    requires Grows(a, b) && Grows(b, c)
    ensures Grows(a, c)
  {
    assert c[..|a|] == c[..|b|][..|a|];
  }

  lemma QuietOn(a: seq<Action>, b: seq<Action>, c: seq<Action>)
    requires Quiet(a, b) && Quiet(b, c)
    ensures Quiet(a, c)
  {
    GrowsOn(a, b, c);
    forall i | |a| <= i < |c| ensures !c[i].Painted? {
      if i < |b| { assert c[..|b|][i] == b[i]; }
    }
  }

  lemma CleanOn(a: seq<Action>, b: seq<Action>, c: seq<Action>)
    requires Clean(a, b) && Clean(b, c)
    ensures Clean(a, c)
  {
    GrowsOn(a, b, c);
    forall i | |a| <= i < |c| ensures !PaintsHeld(c, i) {
      if i < |b| { SamePosition(b, c, i); }
    }
  }

  /** A position of a history keeps its meaning when the history grows. */
  lemma SamePosition(log: seq<Action>, log': seq<Action>, i: nat)
    requires Grows(log, log') && i < |log|
    ensures log'[i] == log[i] && log'[..i] == log[..i]
    ensures PaintsHeld(log', i) <==> PaintsHeld(log, i)
  {
    assert log'[i] == log'[..|log|][i];
    assert log'[..i] == log'[..|log|][..i];
  }

  lemma QuietIsClean(log: seq<Action>, log': seq<Action>)
    requires Quiet(log, log')
    ensures Clean(log, log')
  {
  }

  lemma {:induction false} QuietLook(log: seq<Action>, log': seq<Action>, id: Id)
    requires Quiet(log, log')
    ensures Look(log', id) == Look(log, id)
    decreases |log'|
  {
    if |log| < |log'| {
      var before := log'[..|log'| - 1];
      assert before[..|log|] == log'[..|log|];
      QuietLook(log, before, id);
    } else {
      assert log' == log;
    }
  }

  lemma OneMore(log: seq<Action>, act: Action)
    ensures Grows(log, log + [act])
    ensures !act.Painted? ==> Quiet(log, log + [act])
    ensures !(act.Painted? && Held(log, act.id)) ==> Clean(log, log + [act])
    ensures act.Painted? ==> Look(log + [act], act.id) == Some(act.focused)
    ensures forall id :: !(act.Painted? && act.id == id) ==> Look(log + [act], id) == Look(log, id)
  {
    assert (log + [act])[..|log|] == log;
  }

  // ----- what each part of an update paints -----

  function Log(s: State): seq<Action> { s.world.log }

  lemma {:induction false} FreeEdgesQuiet(s: State, order: Order)
    ensures Quiet(Log(s), Log(FreeEdges(s, order)))
    decreases |order|
  {
    if order != [] {
      var p := s.pairs[order[0]];
      var s1 := FreeSlot(s, p.a, p.aOwned);
      OneMore(Log(s), Destroyed(p.a));
      OneMore(Log(s1), Destroyed(p.b));
      QuietOn(Log(s), Log(s1), Log(FreeEdge(s, order[0])));
      FreeEdgesQuiet(FreeEdge(s, order[0]), order[1..]);
      QuietOn(Log(s), Log(FreeEdge(s, order[0])), Log(FreeEdges(s, order)));
    }
  }

  lemma {:induction false} AllocEdgesQuiet(s: State, order: Order, v: View)
    ensures Quiet(Log(s), Log(AllocEdges(s, order, v)))
    decreases |order|
  {
    if order != [] {
      var size := EdgeSize(order[0], v);
      var s1 := Act(s, Created(|s.world.status|, size));
      var s2 := AllocPair(s, order[0], v);
      OneMore(Log(s), Created(|s.world.status|, size));
      OneMore(Log(s1), Created(|s.world.status| + 1, size));
      QuietOn(Log(s), Log(s1), Log(s2));
      AllocEdgesQuiet(s2, order[1..], v);
      QuietOn(Log(s), Log(s2), Log(AllocEdges(s, order, v)));
    }
  }

  lemma {:induction false} DamageEdgesQuiet(s: State, order: Order, focused: bool)
    ensures Quiet(Log(s), Log(DamageEdges(s, order, focused)))
    decreases |order|
  {
    if order != [] {
      var wanted := Wanted(s.pairs[order[0]], order[0], focused);
      var s1 := Damage(s, order[0], wanted);
      OneMore(Log(s), Attached(wanted));
      DamageEdgesQuiet(s1, order[1..], focused);
      QuietOn(Log(s), Log(s1), Log(DamageEdges(s, order, focused)));
    }
  }

  /** Drawing into buffers that nobody holds. */
  lemma {:induction false} PaintAllClean(s: State, ds: seq<Drawing>)
    requires forall k :: 0 <= k < |ds| ==> Attached(ds[k].id) !in Log(s)
    ensures Clean(Log(s), Log(PaintAll(s, ds)))
    decreases |ds|
  {
    if ds != [] {
      var s1 := Paint(s, ds[0]);
      OneMore(Log(s), Painted(ds[0].id, ds[0].focused));
      PaintAllClean(s1, ds[1..]);
      CleanOn(Log(s), Log(s1), Log(PaintAll(s, ds)));
    }
  }

  lemma {:induction false} PaintAllOthers(s: State, ds: seq<Drawing>, id: Id)
    requires forall k :: 0 <= k < |ds| ==> ds[k].id != id
    ensures Look(Log(PaintAll(s, ds)), id) == Look(Log(s), id)
    decreases |ds|
  {
    if ds != [] {
      OneMore(Log(s), Painted(ds[0].id, ds[0].focused));
      PaintAllOthers(Paint(s, ds[0]), ds[1..], id);
    }
  }

  /** Each buffer has the look of the last drawing into it. */
  lemma {:induction false} PaintAllLooks(s: State, ds: seq<Drawing>, k: nat)
    requires k < |ds| && forall j :: k < j < |ds| ==> ds[j].id != ds[k].id
    ensures Look(Log(PaintAll(s, ds)), ds[k].id) == Some(ds[k].focused)
    decreases |ds|
  {
    OneMore(Log(s), Painted(ds[0].id, ds[0].focused));
    if k == 0 {
      PaintAllOthers(Paint(s, ds[0]), ds[1..], ds[0].id);
    } else {
      PaintAllLooks(Paint(s, ds[0]), ds[1..], k - 1);
    }
  }

  // ----- the look of the buffers that are shown -----

  /** The title bar's front is drawn for one focus state; the other edges keep one buffer for each. */
  ghost predicate DrawnEdge(log: seq<Action>, p: Pair, e: nat, focused: bool) {
    if e == TOP then Look(log, p.front) == Some(focused)
    else Look(log, p.front) == Some(true) && Look(log, p.back) == Some(false)
  }

  ghost predicate DrawnFor(s: State, focused: bool) {
    forall e: nat :: e < 4 ==> DrawnEdge(Log(s), s.pairs[e], e, focused)
  }

  /** Whatever is on the screen was drawn for the focus state it was built for. */
  ghost predicate Drawn(s: State) { s.mapped ==> DrawnFor(s, s.built.focused) }

  lemma DrawnStays(s: State, s': State, focused: bool)
    requires DrawnFor(s, focused) && Quiet(Log(s), Log(s'))
    requires forall e :: 0 <= e < 4 ==> SameBuffers(s.pairs[e], s'.pairs[e])
    ensures DrawnFor(s', focused)
  {
    forall e: nat | e < 4 ensures DrawnEdge(Log(s'), s'.pairs[e], e, focused) {
      assert DrawnEdge(Log(s), s.pairs[e], e, focused) && SameBuffers(s.pairs[e], s'.pairs[e]);
      QuietLook(Log(s), Log(s'), s.pairs[e].front);
      QuietLook(Log(s), Log(s'), s.pairs[e].back);
    }
  }

  lemma {:induction false} PaintAllPairs(s: State, ds: seq<Drawing>)
    ensures PaintAll(s, ds).pairs == s.pairs
    decreases |ds|
  {
    if ds != [] { PaintAllPairs(Paint(s, ds[0]), ds[1..]); }
  }

  lemma FirstPaintDraws(s: State, focused: bool)
    requires Ready(s)
    ensures DrawnFor(PaintAll(s, FirstPaint(s.pairs, focused)), focused)
  {
    var ds := FirstPaint(s.pairs, focused);
    var s' := PaintAll(s, ds);
    PaintAllPairs(s, ds);
    FirstPaintDistinct(s, focused);
    forall e: nat | e < 4 ensures DrawnEdge(Log(s'), s'.pairs[e], e, focused) {
      var front := if e == TOP then 0 else if e == BOTTOM then 1 else if e == LEFT then 2 else 3;
      PaintAllLooks(s, ds, front);
      if e != TOP {
        PaintAllLooks(s, ds, if e == LEFT then 4 else if e == BOTTOM then 5 else 6);
      }
    }
  }

  lemma FirstPaintDistinct(s: State, focused: bool)
    requires Ready(s)
    ensures var ds := FirstPaint(s.pairs, focused); forall j, k :: 0 <= j < k < |ds| ==> ds[j].id != ds[k].id
  {
    assert EdgeOk(s, TOP) && EdgeOk(s, LEFT) && EdgeOk(s, BOTTOM) && EdgeOk(s, RIGHT);
  }

  /** A rebuild paints only its own new buffers. */
  lemma RebuildPaints(s: State, v: View)
    requires Inv(s) && s.alive && RebuildDue(s, v)
    ensures Ready(Rebuild(s, v)) && DrawnFor(Rebuild(s, v), v.focused)
    ensures Clean(Log(s), Log(Rebuild(s, v)))
    ensures forall id :: Current(Rebuild(s, v), id) ==> !Touched(Rebuild(s, v), id)
  {
    var freed := FreeBuffers(s);
    var new8 := Allocated(freed, v);
    var ds := FirstPaint(new8.pairs, v.focused);
    FreeBuffersKeeps(s);
    FreeEdgesSameView(s, FREE_ORDER);
    FreeEdgesQuiet(s, FREE_ORDER);
    AllocatedReady(freed, v, v.focused);
    AllocEdgesQuiet(freed, ALLOC_ORDER, v);
    QuietOn(Log(s), Log(freed), Log(new8));
    QuietIsClean(Log(s), Log(new8));
    RebuildReady(s, v);
    PaintAllIgnores(AllocEdges(freed, ALLOC_ORDER, v).(mapped := true), ds, false);
    assert Rebuild(s, v) == PaintAll(new8, ds);
    NewPaints(new8, ds);
    CleanOn(Log(s), Log(new8), Log(PaintAll(new8, ds)));
    FirstPaintDraws(new8, v.focused);
  }

  lemma {:induction false} NewPaints(s: State, ds: seq<Drawing>)
    requires Ready(s) && forall id :: Current(s, id) ==> !Touched(s, id)
    requires forall k :: 0 <= k < |ds| ==> Current(s, ds[k].id)
    ensures Clean(Log(s), Log(PaintAll(s, ds)))
    ensures forall id :: Current(PaintAll(s, ds), id) ==> !Touched(PaintAll(s, ds), id)
  {
    NewStayClean(s, ds);
    forall k | 0 <= k < |ds| ensures 0 < ds[k].id < Made(s) && !Gone(s, ds[k].id) {
      HeldIffTouched(s, ds[k].id);
    }
    PaintAllKeeps(s, ds);
    forall id | Current(PaintAll(s, ds), id) ensures !Touched(PaintAll(s, ds), id) {
      assert Current(s, id);
    }
  }

  lemma {:induction false} NewStayClean(s: State, ds: seq<Drawing>)
    requires Ready(s) && forall k :: 0 <= k < |ds| ==> Current(s, ds[k].id) && !Touched(s, ds[k].id)
    ensures Clean(Log(s), Log(PaintAll(s, ds)))
  {
    forall k | 0 <= k < |ds| ensures Attached(ds[k].id) !in Log(s) {
      HeldIffTouched(s, ds[k].id);
    }
    PaintAllClean(s, ds);
  }

  predicate RebuildDue(s: State, v: View) { SizeChanged(s, v) || s.bufferDestroyed }

  /** Nothing current has been released, so it is held as soon as it is attached. */
  lemma HeldIffTouched(s: State, id: Id)
    requires Ready(s) && Current(s, id)
    ensures 0 < id < Made(s) && (Held(Log(s), id) <==> Touched(s, id))
    ensures Attached(id) in Log(s) <==> Touched(s, id)
  {
    ReplayStatus(Log(s));
    assert EdgeOk(s, TOP);
    assert Exists(s.world, id);
    assert StatusOk(s.world.status[id]) && !Gone(s, id);
  }

  lemma UpdateTitleDraws(s: State, focused: bool, before: bool)
    requires Ready(s) && DrawnFor(s, before)
    ensures DrawnFor(UpdateTitle(s, focused), focused)
  {
    var s' := UpdateTitle(s, focused);
    OneMore(Log(s), Painted(s.pairs[TOP].back, focused));
    forall e: nat | e < 4 ensures DrawnEdge(Log(s'), s'.pairs[e], e, focused) {
      assert DrawnEdge(Log(s), s.pairs[e], e, before) && EdgeOk(s, e) && EdgeOk(s, TOP);
    }
  }

  lemma BeforeDamageDraws(s: State, v: View)
    requires Inv(s) && s.alive && Drawn(s)
    ensures Ready(BeforeDamage(s, v)) && DrawnFor(BeforeDamage(s, v), v.focused)
  {
    var s0 := Rebuild(s, v);
    var s1 := InPlace(s0, v);
    var before := if RebuildDue(s, v) then v.focused else s.built.focused;
    if RebuildDue(s, v) { RebuildPaints(s, v); } else { RebuildReady(s, v); }
    assert DrawnFor(s0, before);
    DrawnStays(s0, s1, before);
    SameButSurfaces(s0, s1);
    BeforeDamageReady(s, v);
    if v.focused != s.built.focused { UpdateTitleDraws(s1, v.focused, before); }
  }

  lemma RefreshDraws(s: State, v: View)
    requires Inv(s) && s.alive && Drawn(s)
    ensures DrawnFor(Refresh(s, v), v.focused)
  {
    var s1 := BeforeDamage(s, v);
    BeforeDamageDraws(s, v);
    DamageEdgesQuiet(s1, ALLOC_ORDER, v.focused);
    DamageEdgesReady(s1, ALLOC_ORDER, v.focused);
    DrawnStays(s1, Refresh(s, v), v.focused);
  }

  lemma RedrawDraws(s: State, focused: bool)
    requires Ready(s) && DrawnFor(s, focused)
    ensures DrawnFor(RedrawTitle(s, focused), focused)
  {
    var s1 := UpdateTitle(s, focused);
    UpdateTitleKeeps(s, focused);
    UpdateTitleDraws(s, focused, focused);
    OneMore(Log(s1), Attached(s1.pairs[TOP].front));
    DrawnStays(s1, RedrawTitle(s, focused), focused);
  }

  lemma ReleaseQuiet(s: State, id: Id)
    ensures Quiet(Log(s), Log(Release(s, id)))
  {
    var s1 := Act(s, Released(id));
    OneMore(Log(s), Released(id));
    OneMore(Log(s1), Destroyed(id));
    QuietOn(Log(s), Log(s1), Log(Release(s, id)));
  }

  /** Every step keeps what is on the screen drawn for the focus state it was built for. */
  lemma StepDraws(s: State, step: Step)
    requires Inv(s) && Drawn(s)
    ensures Drawn(Apply(s, step))
  {
    if Enabled(s, step) {
      match step
      case EnsureStep(win) =>
        if Decorates(win) && NeedsUpdate(s, win.view) { RefreshDraws(s, win.view); }
      case TitleStep(win) =>
        if Decorates(win) && NeedsUpdate(s, win.view) {
          RefreshDraws(s, win.view);
        } else if Decorates(win) && s.surfaces[TOP] {
          RedrawDraws(s, win.view.focused);
        }
      case SurfacesStep =>
        if s.mapped { DrawnStays(s, Apply(s, step), s.built.focused); }
      case DestroyStep =>
      case ReleaseStep(id) =>
        ReleaseKeepsPairs(s, id);
        ReleaseQuiet(s, id);
        if s.mapped { DrawnStays(s, Apply(s, step), s.built.focused); }
    }
  }

  // ----- the size of the buffers -----

  function SizeOf(s: State, id: nat): Size { if id < Made(s) then s.world.status[id].size else Size(0, 0) }

  /** A buffer's size is for life. */
  ghost predicate KeepsSizes(s: State, s': State) {
    Made(s) <= Made(s') && forall id: nat :: id < Made(s) ==> SizeOf(s', id) == SizeOf(s, id)
  }

  lemma ActKeepsSizes(s: State, act: Action)
    ensures KeepsSizes(s, Act(s, act))
  {
  }

  lemma {:induction false} DamageEdgesKeepSizes(s: State, order: Order, focused: bool)
    ensures KeepsSizes(s, DamageEdges(s, order, focused))
    decreases |order|
  {
    if order != [] {
      var wanted := Wanted(s.pairs[order[0]], order[0], focused);
      ActKeepsSizes(s, Attached(wanted));
      DamageEdgesKeepSizes(Damage(s, order[0], wanted), order[1..], focused);
    }
  }

  /** Two buffers of one size, the next to be made. */
  predicate TwoOf(s: State, id: nat, size: Size) {
    id + 1 < Made(s) && SizeOf(s, id) == size && SizeOf(s, id + 1) == size
  }

  lemma AllocPairSizes(s: State, e: nat, v: View)
    requires Core(s) && e < 4
    ensures var s' := AllocPair(s, e, v);
      Core(s') && KeepsSizes(s, s') && Made(s') == Made(s) + 2 && TwoOf(s', Made(s), EdgeSize(e, v))
  {
    AllocKeeps(s, e, v);
    ActKeepsSizes(s, Created(Made(s), EdgeSize(e, v)));
  }

  lemma {:induction false} AllocEdgesKeepSizes(s: State, order: Order, v: View)
    requires Core(s)
    ensures KeepsSizes(s, AllocEdges(s, order, v))
    decreases |order|
  {
    if order != [] {
      AllocPairSizes(s, order[0], v);
      AllocEdgesKeepSizes(AllocPair(s, order[0], v), order[1..], v);
    }
  }

  lemma TwoStay(s: State, s': State, id: nat, size: Size)
    requires KeepsSizes(s, s') && TwoOf(s, id, size)
    ensures TwoOf(s', id, size)
  {
  }

  /** Two buffers for each edge, of its size. */
  lemma {:induction false} AllocEdgesSizes(s: State, order: Order, v: View, k: nat)
    requires Core(s) && k < |order|
    ensures TwoOf(AllocEdges(s, order, v), Made(s) + 2 * k, EdgeSize(order[k], v))
    decreases |order|
  {
    var s1 := AllocPair(s, order[0], v);
    AllocPairSizes(s, order[0], v);
    if k == 0 {
      AllocEdgesKeepSizes(s1, order[1..], v);
      TwoStay(s1, AllocEdges(s1, order[1..], v), Made(s), EdgeSize(order[0], v));
    } else {
      assert order[1..][k - 1] == order[k];
      AllocEdgesSizes(s1, order[1..], v, k - 1);
    }
  }

  /** The buffers of an edge were created for the size and scale of a view. */
  predicate PairSized(s: State, e: nat, v: View)
    requires e < 4
  {
    && s.pairs[e].a < Made(s) && s.pairs[e].b < Made(s)
    && SizeOf(s, s.pairs[e].a) == SizeOf(s, s.pairs[e].b) == EdgeSize(e, v)
  }

  ghost predicate SizedFor(s: State, v: View) { forall e: nat :: e < 4 ==> PairSized(s, e, v) }

  /** The buffers in use were created for the size and scale that the decorations were built for. */
  ghost predicate Sized(s: State) { s.mapped ==> SizedFor(s, s.built) }

  predicate SameSlots(p: Pair, q: Pair) { p.a == q.a && p.b == q.b }

  lemma SizedStays(s: State, s': State, v: View)
    requires SizedFor(s, v) && KeepsSizes(s, s')
    requires forall e :: 0 <= e < 4 ==> SameSlots(s.pairs[e], s'.pairs[e])
    ensures SizedFor(s', v)
  {
    forall e: nat | e < 4 ensures PairSized(s', e, v) {
      assert PairSized(s, e, v) && SameSlots(s.pairs[e], s'.pairs[e]);
    }
  }

  lemma CreatedSized(s: State, v: View)
    requires Inv(s) && !s.mapped && s.alive
    ensures SizedFor(CreateBuffers(s, v), v)
  {
    var raw := AllocEdges(s, ALLOC_ORDER, v).(mapped := true);
    CreateBuffersReady(s, v);
    PaintAllPairs(raw, FirstPaint(raw.pairs, v.focused));
    forall e: nat | e < 4 ensures PairSized(CreateBuffers(s, v), e, v) {
      assert ALLOC_ORDER[e] == e;
      AllocEdgesPair(s, ALLOC_ORDER, v, e);
      AllocEdgesSizes(s, ALLOC_ORDER, v, e);
    }
  }

  lemma RebuildSized(s: State, v: View)
    requires Inv(s) && s.alive && Sized(s)
    ensures Ready(Rebuild(s, v)) && SizedFor(Rebuild(s, v), v)
  {
    RebuildReady(s, v);
    if RebuildDue(s, v) {
      FreeBuffersKeeps(s);
      FreeEdgesSameView(s, FREE_ORDER);
      CreatedSized(FreeBuffers(s), v);
      SizedStays(CreateBuffers(FreeBuffers(s), v), Rebuild(s, v), v);
    } else {
      forall e: nat | e < 4 ensures PairSized(s, e, v) {
        assert PairSized(s, e, s.built);
        FrameDependsOn(v, s.built, e);
      }
    }
  }

  lemma UpdateTitleSized(s: State, focused: bool, v: View)
    requires Ready(s) && SizedFor(s, v)
    ensures Ready(UpdateTitle(s, focused)) && SizedFor(UpdateTitle(s, focused), v)
  {
    UpdateTitleKeeps(s, focused);
    ActKeepsSizes(s, Painted(s.pairs[TOP].back, focused));
    SizedStays(s, UpdateTitle(s, focused), v);
  }

  lemma RefreshSized(s: State, v: View)
    requires Inv(s) && s.alive && Sized(s)
    ensures SizedFor(Refresh(s, v), v)
  {
    var s0 := Rebuild(s, v);
    var s1, s2 := InPlace(s0, v), BeforeDamage(s, v);
    RebuildSized(s, v);
    SizedStays(s0, s1, v);
    SameButSurfaces(s0, s1);
    if v.focused != s.built.focused { UpdateTitleSized(s1, v.focused, v); }
    DamageEdgesReady(s2, ALLOC_ORDER, v.focused);
    DamageEdgesKeepSizes(s2, ALLOC_ORDER, v.focused);
    SizedStays(s2, Refresh(s, v), v);
  }

  lemma RedrawSized(s: State, focused: bool, v: View)
    requires Ready(s) && SizedFor(s, v)
    ensures SizedFor(RedrawTitle(s, focused), v)
  {
    var s1 := UpdateTitle(s, focused);
    UpdateTitleSized(s, focused, v);
    ActKeepsSizes(s1, Attached(s1.pairs[TOP].front));
    SizedStays(s1, RedrawTitle(s, focused), v);
  }

  lemma ReleaseSized(s: State, id: Id)
    requires Inv(s) && Sized(s) && LegalNext(s.world, Released(id))
    ensures Sized(Release(s, id))
  {
    var s1 := Act(s, Released(id));
    ReleaseKeepsPairs(s, id);
    ActKeepsSizes(s, Released(id));
    ActKeepsSizes(s1, Destroyed(id));
    if s.mapped { SizedStays(s, Release(s, id), s.built); }
  }

  /** Every step keeps the buffers in use of the size that the decorations were built for. */
  lemma StepSized(s: State, step: Step)
    requires Inv(s) && Sized(s)
    ensures Sized(Apply(s, step))
  {
    if Enabled(s, step) {
      match step
      case EnsureStep(win) =>
        if Decorates(win) && NeedsUpdate(s, win.view) { RefreshSized(s, win.view); }
      case TitleStep(win) =>
        if Decorates(win) && NeedsUpdate(s, win.view) {
          RefreshSized(s, win.view);
        } else if Decorates(win) && s.surfaces[TOP] {
          RedrawSized(s, win.view.focused, s.built);
        }
      case SurfacesStep =>
        if s.mapped { SizedStays(s, Apply(s, step), s.built); }
      case DestroyStep =>
      case ReleaseStep(id) => ReleaseSized(s, id);
    }
  }

  // ----- what is on the screen whenever nothing is due -----

  /** The surface of an edge is where the window needs it, and shows an attached live buffer of the
      size that the window needs, last drawn for the focus state. */
  ghost predicate EdgeOnScreen(s: State, e: nat, v: View)
    requires e < 4
  {
    && s.surfaces[e] && s.places[e] == PlaceOf(e, v)
    && Touched(s, s.shown[e]) && !Gone(s, s.shown[e])
    && Created(s.shown[e], EdgeSize(e, v)) in Log(s) && Look(Log(s), s.shown[e]) == Some(v.focused)
  }

  /** All four edges are. */
  ghost predicate OnScreen(s: State, v: View) {
    Showing(s, v.focused) && forall e: nat :: e < 4 ==> EdgeOnScreen(s, e, v)
  }

  /** The state that an update finds current, apart from size and focus. */
  predicate Cached(s: State) { s.mapped && s.surfaces[LEFT] && !s.bufferDestroyed }

  /** What an update would find current is what is on the screen. */
  ghost predicate Steady(s: State) {
    Cached(s) ==> Showing(s, s.built.focused) && InPlace(s, s.built) == s
  }

  ghost predicate Right(s: State) { Inv(s) && Drawn(s) && Sized(s) && Steady(s) }

  lemma RedrawShowing(s: State, focused: bool)
    requires Showing(s, focused)
    ensures Showing(RedrawTitle(s, focused), focused)
  {
    var s1, s2, back := UpdateTitle(s, focused), RedrawTitle(s, focused), s.pairs[TOP].back;
    UpdateTitleKeeps(s, focused);
    assert EdgeOk(s1, TOP);
    assert Current(s1, back) && s1.pairs[TOP].front == back;
    DamageKeeps(s1, TOP, back);
    forall e: nat | e < 4
      ensures s2.shown[e] == Wanted(s2.pairs[e], e, focused) && Touched(s2, s2.shown[e]) && !Gone(s2, s2.shown[e])
    {
      assert SameBuffers(s1.pairs[e], s2.pairs[e]);
      WantedAlive(s2, e, focused);
      assert Touched(s, s.shown[e]) ==> Touched(s1, s.shown[e]);
    }
  }

  lemma ReleaseShowing(s: State, id: Id, focused: bool)
    requires Showing(s, focused) && LegalNext(s.world, Released(id)) && !Current(s, id)
    ensures Showing(Release(s, id), focused)
  {
    var s' := Release(s, id);
    ReleaseKeeps(s, id);
    ReleaseKeepsPairs(s, id);
    forall e: nat | e < 4
      ensures s'.shown[e] == Wanted(s'.pairs[e], e, focused) && Touched(s', s'.shown[e]) && !Gone(s', s'.shown[e])
    {
      assert EdgeOk(s, e);
      assert Current(s, s.shown[e]);
    }
  }

  lemma StepSteady(s: State, step: Step)
    requires Inv(s) && Steady(s)
    ensures Steady(Apply(s, step))
  {
    if Enabled(s, step) {
      match step
      case EnsureStep(win) =>
        if Decorates(win) && NeedsUpdate(s, win.view) { RefreshSteady(s, win.view); }
      case TitleStep(win) =>
        if Decorates(win) && NeedsUpdate(s, win.view) {
          RefreshSteady(s, win.view);
        } else if Decorates(win) {
          RedrawShowing(s, win.view.focused);
        }
      case SurfacesStep =>
      case DestroyStep =>
      case ReleaseStep(id) =>
        ReleaseKeepsPairs(s, id);
        if Cached(Release(s, id)) { ReleaseShowing(s, id, s.built.focused); }
    }
  }

  lemma RefreshSteady(s: State, v: View)
    requires Inv(s) && s.alive
    ensures Steady(Refresh(s, v)) && Refresh(s, v).built == v
  {
    RefreshShows(s, v);
    RefreshInPlace(s, v);
  }

  lemma RefreshInPlace(s: State, v: View)
    ensures InPlace(Refresh(s, v), v) == Refresh(s, v)
  {
    DamageInPlace(BeforeDamage(s, v), ALLOC_ORDER, v.focused);
  }

  lemma {:induction false} DamageInPlace(s: State, order: Order, focused: bool)
    ensures DamageEdges(s, order, focused).surfaces == s.surfaces && DamageEdges(s, order, focused).places == s.places
    decreases |order|
  {
    if order != [] {
      DamageInPlace(Damage(s, order[0], Wanted(s.pairs[order[0]], order[0], focused)), order[1..], focused);
    }
  }

  lemma StepRight(s: State, step: Step)
    requires Right(s)
    ensures Right(Apply(s, step))
  {
    StepKeeps(s, step);
    StepDraws(s, step);
    StepSized(s, step);
    StepSteady(s, step);
  }

  lemma {:induction false} RunRight(s: State, steps: seq<Step>)
    requires Right(s)
    ensures Right(Run(s, steps))
    decreases |steps|
  {
    if steps != [] {
      StepRight(s, steps[0]);
      RunRight(Apply(s, steps[0]), steps[1..]);
    }
  }

  lemma DrawnShows(s: State, v: View)
    requires Showing(s, v.focused) && DrawnFor(s, v.focused) && SizedFor(s, v) && InPlace(s, v) == s
    ensures OnScreen(s, v)
  {
    ReplayStatus(Log(s));
    forall e: nat | e < 4 ensures EdgeOnScreen(s, e, v) {
      assert DrawnEdge(Log(s), s.pairs[e], e, v.focused) && PairSized(s, e, v) && EdgeOk(s, e);
      assert Exists(s.world, s.shown[e]);
    }
  }

  /** When nothing is due the decorations are built for the window as it is, and the screen is right
      already. */
  lemma CurrentIsRight(s: State, v: View)
    requires Right(s) && !NeedsUpdate(s, v)
    ensures OnScreen(s, v) && s.built == v
  {
    DrawnShows(s, v);
  }

  /** An update leaves the screen right, whether or not it found something due. */
  lemma EnsureIsRight(s: State, win: Window)
    requires Right(s) && s.alive && Decorates(win)
    ensures OnScreen(Ensure(s, win), win.view) && Ensure(s, win).built == win.view
    ensures !NeedsUpdate(Ensure(s, win), win.view) && Ensure(Ensure(s, win), win) == Ensure(s, win)
  {
    StepRight(s, EnsureStep(win));
    if NeedsUpdate(s, win.view) { EnsureShows(s, win); }
    CurrentIsRight(Ensure(s, win), win.view);
  }

  /** So does a title change. */
  lemma TitleIsRight(s: State, win: Window)
    requires Right(s) && s.alive && Decorates(win)
    ensures OnScreen(ChangeTitle(s, win), win.view) && ChangeTitle(s, win).built == win.view
    ensures !NeedsUpdate(ChangeTitle(s, win), win.view)
  {
    StepRight(s, TitleStep(win));
    if NeedsUpdate(s, win.view) {
      EnsureShows(s, win);
    } else {
      assert Ready(RedrawTitle(s, win.view.focused)) by { RedrawShowing(s, win.view.focused); }
    }
    CurrentIsRight(ChangeTitle(s, win), win.view);
  }

  /** After any run, an update or a title change on a decorated window leaves every edge in its place
      around the window, showing a live buffer of the size for the window and its scale that was drawn
      for its focus state, and nothing due; a second identical update changes nothing. */
  lemma EnsureSettles(steps: seq<Step>, win: Window)
    requires Run(INITIAL, steps).alive && win.decorated && !win.serverSide
    ensures var s := Ensure(Run(INITIAL, steps), win);
      OnScreen(s, win.view) && s.built == win.view && !NeedsUpdate(s, win.view) && Ensure(s, win) == s
    ensures var s := ChangeTitle(Run(INITIAL, steps), win);
      OnScreen(s, win.view) && s.built == win.view && !NeedsUpdate(s, win.view)
  {
    RunRight(INITIAL, steps);
    EnsureIsRight(Run(INITIAL, steps), win);
    TitleIsRight(Run(INITIAL, steps), win);
  }

  /** A title redraw shows what was the back buffer, drawn for the focus state, and leaves the
      other edges alone. */
  lemma RedrawShows(s: State, focused: bool)
    requires Ready(s)
    ensures var s' := RedrawTitle(s, focused);
      && Ready(s') && s'.shown == s.shown[TOP := s.pairs[TOP].back]
      && Touched(s', s'.shown[TOP]) && !Gone(s', s'.shown[TOP]) && Look(Log(s'), s'.shown[TOP]) == Some(focused)
  {
    var s1, back := UpdateTitle(s, focused), s.pairs[TOP].back;
    UpdateTitleKeeps(s, focused);
    assert EdgeOk(s1, TOP);
    assert Current(s1, back) && s1.pairs[TOP].front == back;
    DamageKeeps(s1, TOP, back);
    OneMore(Log(s), Painted(back, focused));
    OneMore(Log(s1), Attached(back));
  }

  // ----- which steps paint a buffer that the compositor still holds -----

  predicate BackOwned(p: Pair) { if p.back == p.a then p.aOwned else p.bOwned }

  /** The step redraws the title bar without replacing its buffers. */
  predicate RedrawsTitle(s: State, step: Step) {
    && (step.EnsureStep? || step.TitleStep?) && s.alive && Decorates(step.win) && !RebuildDue(s, step.win.view)
    && (step.win.view.focused != s.built.focused
        || (step.TitleStep? && !NeedsUpdate(s, step.win.view) && s.surfaces[TOP]))
  }

  /** The history grows by a drawing into a buffer that is held at that moment. */
  ghost predicate NewHeldPaint(log: seq<Action>, log': seq<Action>) {
    exists i :: |log| <= i < |log'| && PaintsHeld(log', i)
  }

  /** A redraw paints the back buffer, which is held exactly when it is no longer owned. */
  lemma TitlePaintsHeldIff(s: State, focused: bool, log': seq<Action>)
    requires Ready(s) && Quiet(Log(UpdateTitle(s, focused)), log')
    ensures Grows(Log(s), log') && |Log(s)| < |log'|
    ensures PaintsHeld(log', |Log(s)|) <==> !BackOwned(s.pairs[TOP])
    ensures NewHeldPaint(Log(s), log') <==> !BackOwned(s.pairs[TOP])
  {
    var back, mid := s.pairs[TOP].back, Log(UpdateTitle(s, focused));
    assert EdgeOk(s, TOP);
    HeldIffTouched(s, back);
    OneMore(Log(s), Painted(back, focused));
    GrowsOn(Log(s), mid, log');
    assert mid[..|Log(s)|] == Log(s);
    SamePosition(mid, log', |Log(s)|);
    forall i | |Log(s)| < i < |log'| ensures !PaintsHeld(log', i) { }
  }

  lemma CleanHasNone(log: seq<Action>, log': seq<Action>)
    requires Clean(log, log')
    ensures !NewHeldPaint(log, log')
  {
  }

  lemma RefreshPaintsHeldIff(s: State, v: View)
    requires Inv(s) && s.alive
    ensures Grows(Log(s), Log(Refresh(s, v)))
    ensures NewHeldPaint(Log(s), Log(Refresh(s, v))) <==>
      !RebuildDue(s, v) && v.focused != s.built.focused && !BackOwned(s.pairs[TOP])
  {
    var s1, s2 := InPlace(Rebuild(s, v), v), BeforeDamage(s, v);
    RebuildReady(s, v);
    SameButSurfaces(Rebuild(s, v), s1);
    DamageEdgesQuiet(s2, ALLOC_ORDER, v.focused);
    if v.focused != s.built.focused {
      TitlePaintsHeldIff(s1, v.focused, Log(Refresh(s, v)));
      if RebuildDue(s, v) {
        RebuildPaints(s, v);
        NewBackIsOwned(Rebuild(s, v));
        AfterClean(Log(s), Log(s1), Log(Refresh(s, v)));
      }
    } else {
      QuietIsClean(Log(s1), Log(Refresh(s, v)));
      if RebuildDue(s, v) {
        RebuildPaints(s, v);
        CleanOn(Log(s), Log(s1), Log(Refresh(s, v)));
      }
      CleanHasNone(Log(s), Log(Refresh(s, v)));
    }
  }

  lemma NewBackIsOwned(s: State)
    requires Ready(s) && forall id :: Current(s, id) ==> !Touched(s, id)
    ensures BackOwned(s.pairs[TOP])
  {
    assert EdgeOk(s, TOP);
    assert Current(s, s.pairs[TOP].back);
  }

  lemma AfterClean(a: seq<Action>, b: seq<Action>, c: seq<Action>)
    requires Clean(a, b) && Grows(b, c) && !NewHeldPaint(b, c)
    ensures Grows(a, c) && !NewHeldPaint(a, c)
  {
    assert Clean(b, c);
    CleanOn(a, b, c);
    CleanHasNone(a, c);
  }

  lemma FreeAllQuiet(s: State)
    ensures Quiet(Log(s), Log(FreeAll(s)))
  {
    FreeEdgesQuiet(FreeSurfaces(s), FREE_ORDER);
  }

  lemma RedrawPaintsHeldIff(s: State, focused: bool)
    requires Ready(s)
    ensures Grows(Log(s), Log(RedrawTitle(s, focused)))
    ensures NewHeldPaint(Log(s), Log(RedrawTitle(s, focused))) <==> !BackOwned(s.pairs[TOP])
  {
    var s1 := UpdateTitle(s, focused);
    OneMore(Log(s1), Attached(s1.pairs[TOP].front));
    TitlePaintsHeldIff(s, focused, Log(RedrawTitle(s, focused)));
  }

  lemma StepPaintsHeldIff(s: State, step: Step)
    requires Inv(s)
    ensures Grows(Log(s), Log(Apply(s, step)))
    ensures NewHeldPaint(Log(s), Log(Apply(s, step))) <==> RedrawsTitle(s, step) && !BackOwned(s.pairs[TOP])
  {
    if Enabled(s, step) {
      match step
      case EnsureStep(win) =>
        if Decorates(win) && NeedsUpdate(s, win.view) { RefreshPaintsHeldIff(s, win.view); }
      case TitleStep(win) =>
        if Decorates(win) && NeedsUpdate(s, win.view) {
          RefreshPaintsHeldIff(s, win.view);
        } else if Decorates(win) && s.surfaces[TOP] {
          RedrawPaintsHeldIff(s, win.view.focused);
        }
      case SurfacesStep =>
      case DestroyStep =>
        FreeAllQuiet(s);
        CleanHasNone(Log(s), Log(Apply(s, step)));
      case ReleaseStep(id) =>
        ReleaseQuiet(s, id);
        CleanHasNone(Log(s), Log(Apply(s, step)));
    }
  }

  /** From every reachable state, a step draws into a buffer that the compositor still holds
      if and only if it redraws the title bar without replacing the buffers while the back
      buffer's destroy flag is clear. */
  lemma PaintsHeldIff(steps: seq<Step>, step: Step)
    ensures var s := Run(INITIAL, steps);
      Grows(Log(s), Log(Apply(s, step)))
      && (NewHeldPaint(Log(s), Log(Apply(s, step))) <==> RedrawsTitle(s, step) && !BackOwned(s.pairs[TOP]))
  {
    RunKeeps(INITIAL, steps);
    StepPaintsHeldIff(Run(INITIAL, steps), step);
  }

  ghost predicate PaintsHeldAt(steps: seq<Step>, k: nat)
    requires k < |steps|
  {
    var s := Run(INITIAL, steps[..k]);
    RedrawsTitle(s, steps[k]) && !BackOwned(s.pairs[TOP])
  }

  /** A whole run never draws into a held buffer if and only if none of its steps is such a redraw. */
  lemma {:induction false} RunPaintsHeldIff(steps: seq<Step>)
    ensures NewHeldPaint([], Log(Run(INITIAL, steps))) <==> exists k :: 0 <= k < |steps| && PaintsHeldAt(steps, k)
  {
    if steps != [] {
      var before, n := steps[..|steps| - 1], |steps| - 1;
      assert steps == before + [steps[n]];
      RunPaintsHeldIff(before);
      RunOne(INITIAL, before, steps[n]);
      PaintsHeldIff(before, steps[n]);
      LongerHistory(Log(Run(INITIAL, before)), Log(Run(INITIAL, steps)));
      assert PaintsHeldAt(steps, n) <==> NewHeldPaint(Log(Run(INITIAL, before)), Log(Run(INITIAL, steps)));
      forall k | 0 <= k < n ensures PaintsHeldAt(steps, k) <==> PaintsHeldAt(before, k) {
        assert before[..k] == steps[..k];
      }
    }
  }

  lemma LongerHistory(log: seq<Action>, log': seq<Action>)
    requires Grows(log, log')
    ensures NewHeldPaint([], log') <==> NewHeldPaint([], log) || NewHeldPaint(log, log')
  {
    if i :| 0 <= i < |log'| && PaintsHeld(log', i) {
      if i < |log| { SamePosition(log, log', i); }
    }
    if i :| 0 <= i < |log| && PaintsHeld(log, i) {
      SamePosition(log, log', i);
    }
  }

  lemma {:induction false} RunOne(s: State, steps: seq<Step>, step: Step)
    ensures Run(s, steps + [step]) == Apply(Run(s, steps), step)
    decreases |steps|
  {
    if steps == [] {
      assert [step][1..] == [];
      assert steps + [step] == [step];
    } else {
      assert (steps + [step])[1..] == steps[1..] + [step];
      RunOne(Apply(s, steps[0]), steps[1..], step);
    }
  }

  // ----- both kinds of redraw do so in runs without any release -----

  /** A redraw leaves the buffer shown until then, which is still held, at the back. */
  lemma SwapLeavesHeld(s: State, s': State, focused: bool)
    requires Ready(s) && Ready(s') && Made(s') == Made(s) && Touched(s', s.pairs[TOP].front)
    requires SameBuffers(UpdateTitle(s, focused).pairs[TOP], s'.pairs[TOP])
    ensures !BackOwned(s'.pairs[TOP])
  {
    assert EdgeOk(s, TOP) && EdgeOk(s', TOP);
  }

  lemma RedrawLeavesHeld(s: State, focused: bool)
    requires Ready(s) && Touched(s, s.pairs[TOP].front)
    ensures Ready(RedrawTitle(s, focused)) && !BackOwned(RedrawTitle(s, focused).pairs[TOP])
    ensures RedrawTitle(s, focused).surfaces == s.surfaces && RedrawTitle(s, focused).built == s.built
  {
    var s1 := UpdateTitle(s, focused);
    UpdateTitleKeeps(s, focused);
    assert EdgeOk(s1, TOP);
    DamageKeeps(s1, TOP, s1.pairs[TOP].front);
    SwapLeavesHeld(s, RedrawTitle(s, focused), focused);
  }

  lemma {:induction false} DamagedLeavesHeld(s: State, focused: bool)
    requires Ready(s) && Touched(s, s.pairs[TOP].front)
    ensures Ready(UpdateTitle(s, focused))
    ensures !BackOwned(DamageEdges(UpdateTitle(s, focused), ALLOC_ORDER, focused).pairs[TOP])
  {
    var s1 := UpdateTitle(s, focused);
    UpdateTitleKeeps(s, focused);
    DamageEdgesReady(s1, ALLOC_ORDER, focused);
    DamageEdgesMade(s1, ALLOC_ORDER, focused);
    assert Touched(s1, s.pairs[TOP].front);
    SwapLeavesHeld(s, DamageEdges(s1, ALLOC_ORDER, focused), focused);
  }

  lemma {:induction false} RefocusLeavesHeld(s: State, v: View)
    requires Ready(s) && s.alive && Touched(s, s.pairs[TOP].front) && !RebuildDue(s, v) && v.focused != s.built.focused
    ensures Ready(Refresh(s, v)) && !BackOwned(Refresh(s, v).pairs[TOP]) && Refresh(s, v).built == v
  {
    var s1 := InPlace(s, v);
    SameButSurfaces(s, s1);
    DamagedLeavesHeld(s1, v.focused);
    RefreshShows(s, v);
  }

  lemma {:induction false} DamageEdgesMade(s: State, order: Order, focused: bool)
    requires Ready(s)
    ensures Made(DamageEdges(s, order, focused)) == Made(s)
    decreases |order|
  {
    if order != [] {
      var wanted := Wanted(s.pairs[order[0]], order[0], focused);
      assert EdgeOk(s, order[0]);
      DamageKeeps(s, order[0], wanted);
      DamageEdgesMade(Damage(s, order[0], wanted), order[1..], focused);
    }
  }

  lemma FirstShown(win: Window) returns (s: State)
    requires Decorates(win)
    ensures s == Ensure(INITIAL, win) && Ready(s) && s.alive && s.built == win.view
    ensures Touched(s, s.pairs[TOP].front) && s.surfaces[TOP] && !NeedsUpdate(s, win.view)
  {
    s := Refresh(INITIAL, win.view);
    EnsureShows(INITIAL, win);
    RefreshSurfaces(INITIAL, win.view);
    assert s.shown[TOP] == Wanted(s.pairs[TOP], TOP, win.view.focused);
  }

  lemma RunThree(a: Step, b: Step, c: Step)
    ensures Run(INITIAL, [a, b]) == Apply(Apply(INITIAL, a), b)
    ensures Run(INITIAL, [a, b, c]) == Apply(Run(INITIAL, [a, b]), c)
  {
    RunTwo(INITIAL, a, b);
    RunTwo(Apply(INITIAL, a), b, c);
    assert [a, b, c][1..] == [b, c];
  }

  lemma RunTwo(s: State, a: Step, b: Step)
    ensures Run(s, [a, b]) == Apply(Apply(s, a), b)
  {
    assert [a, b][1..] == [b] && [b][1..] == [];
    assert Run(Apply(s, a), [b]) == Run(Apply(Apply(s, a), b), []);
  }

  /** Show a window and change its title twice: the second change draws into the buffer of the
      first frame. */
  lemma TitleChangesPaintHeld(win: Window)
    requires Decorates(win)
    ensures NewHeldPaint(Log(Run(INITIAL, [EnsureStep(win), TitleStep(win)])),
                         Log(Run(INITIAL, [EnsureStep(win), TitleStep(win), TitleStep(win)])))
  {
    var s := FirstShown(win);
    RedrawLeavesHeld(s, win.view.focused);
    RunThree(EnsureStep(win), TitleStep(win), TitleStep(win));
    PaintsHeldIff([EnsureStep(win), TitleStep(win)], TitleStep(win));
    Redrawn(s, win);
  }

  lemma Redrawn(s: State, win: Window)
    requires Ready(s) && s.alive && Decorates(win) && !NeedsUpdate(s, win.view) && s.surfaces[TOP]
    requires Ready(RedrawTitle(s, win.view.focused))
    ensures Apply(s, TitleStep(win)) == RedrawTitle(s, win.view.focused)
    ensures RedrawsTitle(RedrawTitle(s, win.view.focused), TitleStep(win))
  {
  }

  /** Show a window, move the focus away and back: the last move draws into the buffer of the
      first frame. */
  lemma FocusChangesPaintHeld(win: Window, other: Window)
    requires Decorates(win) && Decorates(other) && other.view == win.view.(focused := !win.view.focused)
    ensures NewHeldPaint(Log(Run(INITIAL, [EnsureStep(win), EnsureStep(other)])),
                         Log(Run(INITIAL, [EnsureStep(win), EnsureStep(other), EnsureStep(win)])))
  {
    var s := FirstShown(win);
    RefocusLeavesHeld(s, other.view);
    RunThree(EnsureStep(win), EnsureStep(other), EnsureStep(win));
    PaintsHeldIff([EnsureStep(win), EnsureStep(other)], EnsureStep(win));
    Refocused(s, win, other);
  }

  lemma Refocused(s: State, win: Window, other: Window)
    requires s.alive && Decorates(win) && Decorates(other) && s.built.focused != other.view.focused
    requires Ready(Refresh(s, other.view)) && Refresh(s, other.view).built == other.view
    requires other.view == win.view.(focused := !win.view.focused)
    ensures Apply(s, EnsureStep(other)) == Refresh(s, other.view)
    ensures RedrawsTitle(Refresh(s, other.view), EnsureStep(win))
  {
  }
}
