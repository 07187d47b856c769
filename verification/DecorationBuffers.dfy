/** The decoration buffers as the object glfw/wl_client_side_decorations.c updates in place:
    each method changes the fields as the source does, takes the step that BufferProtocol
    specifies and keeps the ownership invariant. */
module DecorationBuffers {
  import opened BufferOwnership
  import opened BufferPainting
  import opened BufferProtocol
  import opened DecorationFrame
  import opened Options

  class Decorations {
    var alive: bool
    var pairs: Pairs
    var surfaces: Flags
    var places: Places
    var mapped: bool
    var bufferDestroyed: bool
    var built: View
    var shown: Buffers
    var world: World  // the connection: numbers new buffers and records requests

    function Abs(): State
      reads this
    {
      State(alive, pairs, surfaces, places, mapped, bufferDestroyed, built, shown, world)
    }

    /** Every request so far was legal, ownership is exact, what is on the screen was drawn for
        the focus state it was built for, and whatever an update would find current is on it. */
    ghost predicate Valid()
      reads this
    {
      Right(Abs())
    }

    constructor ()
      ensures Abs() == INITIAL && Valid()
    {
      alive, pairs, surfaces := true, [NO_PAIR, NO_PAIR, NO_PAIR, NO_PAIR], [false, false, false, false];
      places, mapped, bufferDestroyed := [NOWHERE, NOWHERE, NOWHERE, NOWHERE], false, false;
      built := View(0, 0, 0, false);
      shown, world := [0, 0, 0, 0], EMPTY_WORLD;
    }

    /** `wl_shm_pool_create_buffer`. */
    method CreateBuffer(size: Size) returns (id: Id)
      modifies this`world
      ensures id == |old(world).status| && world == Do(old(world), Created(id, size))
    {
      id := |world.status|;
      world := Do(world, Created(id, size));
    }

    method FreeCsdBuffers()
      modifies this
      ensures Abs() == FreeBuffers(old(Abs()))
    {
      var order := FREE_ORDER;
      var i := 0;
      while i < |order|
        invariant 0 <= i <= |order|
        invariant FreeEdges(Abs(), order[i..]) == FreeEdges(old(Abs()), order)
      {
        var e := order[i];
        var p := pairs[e];
        if p.aOwned && p.a != 0 { world := Do(world, Destroyed(p.a)); }
        if p.bOwned && p.b != 0 { world := Do(world, Destroyed(p.b)); }
        pairs := pairs[e := NO_PAIR];
        assert order[i..][1..] == order[i + 1..];
        i := i + 1;
      }
      mapped := false;
    }

    /** `alloc_buffer_pair`. */
    method AllocBufferPair(e: nat, v: View)
      requires e < 4 && Core(Abs())
      modifies this
      ensures Abs() == AllocPair(old(Abs()), e, v) && Core(Abs())
      ensures var p := pairs[e]; p.a != p.b && p.front == p.a && p.back == p.b && p.aOwned && p.bOwned
      // both buffers are new, of the edge's size, alive, and not handed to the compositor
      ensures forall id: Id :: id == pairs[e].a || id == pairs[e].b ==>
        && !Exists(old(world), id) && Exists(world, id) && Created(id, EdgeSize(e, v)) in world.log
        && !Touched(Abs(), id) && !Gone(Abs(), id) && Attached(id) !in world.log
      ensures forall id: Id :: Exists(old(world), id) ==> Exists(world, id) && world.status[id] == old(world).status[id]
    {
      AllocKeeps(Abs(), e, v);
      NewIds(Abs(), e, v);
      var a := CreateBuffer(EdgeSize(e, v));
      var b := CreateBuffer(EdgeSize(e, v));
      pairs := pairs[e := Pair(a, b, a, b, true, true)];
    }

    method PaintBuffers(ds: seq<Drawing>)
      modifies this`world
      ensures Abs() == PaintAll(old(Abs()), ds)
    {
      var i := 0;
      while i < |ds|
        invariant 0 <= i <= |ds|
        invariant PaintAll(Abs(), ds[i..]) == PaintAll(old(Abs()), ds)
      {
        world := Do(world, Painted(ds[i].id, ds[i].focused));
        assert ds[i..][1..] == ds[i + 1..];
        i := i + 1;
      }
    }

    method CreateShmBuffers(v: View)
      requires Core(Abs())
      modifies this
      ensures Abs() == CreateBuffers(old(Abs()), v)
    {
      var order := ALLOC_ORDER;
      var i := 0;
      while i < |order|
        invariant 0 <= i <= |order| && Core(Abs())
        invariant AllocEdges(Abs(), order[i..], v) == AllocEdges(old(Abs()), order, v)
      {
        AllocBufferPair(order[i], v);
        assert order[i..][1..] == order[i + 1..];
        i := i + 1;
      }
      mapped := true;
      PaintBuffers(FirstPaint(pairs, v.focused));
    }

    method UpdateTitleBar(focused: bool)
      modifies this
      ensures Abs() == UpdateTitle(old(Abs()), focused)
    {
      var p := pairs[TOP];
      world := Do(world, Painted(p.back, focused));
      pairs := pairs[TOP := p.(front := p.back, back := p.front)];
    }

    /** `damage_csd`: exactly this buffer is handed to the compositor, this edge shows it, and
        nothing is destroyed. */
    method DamageCsd(e: nat, id: Id)
      requires e < 4 && Ready(Abs()) && (id == pairs[e].a || id == pairs[e].b)
      modifies this
      ensures Abs() == Damage(old(Abs()), e, id)
      ensures Ready(Abs()) && shown == old(shown)[e := id]
      ensures forall x :: Touched(Abs(), x) <==> Touched(old(Abs()), x) || x == id
      ensures forall x :: Gone(Abs(), x) <==> Gone(old(Abs()), x)
      ensures forall f :: 0 <= f < 4 ==> SameBuffers(old(pairs)[f], pairs[f])
    {
      DamageKeeps(Abs(), e, id);
      world := Do(world, Attached(id));
      shown := shown[e := id];
      var p := pairs[e];
      pairs := pairs[e := if p.a == id then p.(aOwned := false) else p.(bOwned := false)];
    }

    method ReplaceBuffers(v: View)
      requires Valid()
      modifies this
      ensures Abs() == CreateBuffers(FreeBuffers(old(Abs())), v).(bufferDestroyed := false)
    {
      FreeBuffersKeeps(Abs());
      FreeCsdBuffers();
      CreateShmBuffers(v);
      bufferDestroyed := false;
    }

    /** `ensure_csd_resources`; the result says whether anything was redrawn. Either way every edge
        of a decorated window is in its place and shows a live buffer of the right size drawn for the
        focus state, nothing is due any more, and no buffer that the compositor was ever given has
        been destroyed. */
    method EnsureCsdResources(win: Window) returns (updated: bool)
      requires Valid() && alive
      modifies this
      ensures Abs() == Ensure(old(Abs()), win) && Valid() && alive
      ensures updated
        == (win.decorated && !win.serverSide
            && !(old(built) == win.view && old(mapped) && old(surfaces)[LEFT] && !old(bufferDestroyed)))
      ensures win.decorated && !win.serverSide ==>
        OnScreen(Abs(), win.view) && built == win.view && !NeedsUpdate(Abs(), win.view)
      ensures !updated ==> Abs() == old(Abs())
      ensures forall id :: Touched(old(Abs()), id) ==>
        Touched(Abs(), id) && (Gone(Abs(), id) <==> Gone(old(Abs()), id))
    {
      EnsureMeets(Abs(), win);
      var v := win.view;
      if !win.decorated || win.serverSide { return false; }
      var focusChanged := v.focused != built.focused;
      var sizeChanged := built.width != v.width || built.height != v.height || built.scale != v.scale || !mapped;
      if !(focusChanged || sizeChanged || !surfaces[LEFT] || bufferDestroyed) { return false; }
      RefreshCsd(v, focusChanged, sizeChanged);
      updated := true;
    }

    /** The rest of `ensure_csd_resources`, with something due. */
    method RefreshCsd(v: View, focusChanged: bool, sizeChanged: bool)
      requires Valid() && alive
      requires focusChanged == (v.focused != built.focused) && sizeChanged == SizeChanged(Abs(), v)
      modifies this
      ensures Abs() == Refresh(old(Abs()), v)
    {
      PrepareBuffers(v, focusChanged, sizeChanged);
      ShowEdges(v.focused);
      built := v;
    }

    method PrepareBuffers(v: View, focusChanged: bool, sizeChanged: bool)
      requires Valid() && alive
      requires focusChanged == (v.focused != built.focused) && sizeChanged == SizeChanged(Abs(), v)
      modifies this
      ensures Abs() == BeforeDamage(old(Abs()), v) && Ready(Abs())
    {
      BeforeDamageReady(Abs(), v);
      if sizeChanged || bufferDestroyed { ReplaceBuffers(v); }
      surfaces := [true, true, true, true];
      places := [PlaceOf(TOP, v), PlaceOf(LEFT, v), PlaceOf(BOTTOM, v), PlaceOf(RIGHT, v)];
      if focusChanged { UpdateTitleBar(v.focused); }
    }

    method ShowEdges(focused: bool)
      requires Ready(Abs())
      modifies this
      ensures Abs() == DamageEdges(old(Abs()), ALLOC_ORDER, focused)
    {
      var order := ALLOC_ORDER;
      var i := 0;
      while i < |order|
        invariant 0 <= i <= |order| && Ready(Abs())
        invariant DamageEdges(Abs(), order[i..], focused) == DamageEdges(old(Abs()), order, focused)
      {
        var e := order[i];
        assert EdgeOk(Abs(), e);
        DamageCsd(e, if e == TOP || focused then pairs[e].front else pairs[e].back);
        assert order[i..][1..] == order[i + 1..];
        i := i + 1;
      }
    }

    /** `change_csd_title`: every edge of a decorated window ends up showing a live buffer drawn for
        the focus state; if nothing was due, the title bar then shows its former back buffer and
        the other edges still show what they did. */
    method ChangeCsdTitle(win: Window)
      requires Valid() && alive
      modifies this
      ensures Abs() == ChangeTitle(old(Abs()), win) && Valid()
      ensures !win.decorated || win.serverSide ==> Abs() == old(Abs())
      ensures win.decorated && !win.serverSide ==>
        OnScreen(Abs(), win.view) && built == win.view && !NeedsUpdate(Abs(), win.view)
      ensures Decorates(win) && !NeedsUpdate(old(Abs()), win.view) ==> shown == old(shown)[TOP := old(pairs)[TOP].back]
    {
      TitleMeets(Abs(), win);
      if !win.decorated || win.serverSide { return; }
      var updated := EnsureCsdResources(win);
      if updated { return; }
      if surfaces[TOP] {
        UpdateTitleBar(win.view.focused);
        UpdateTitleKeeps(old(Abs()), win.view.focused);
        assert EdgeOk(Abs(), TOP);
        DamageCsd(TOP, pairs[TOP].front);
      }
    }

    /** `buffer_release_event`: exactly this buffer is destroyed; a window that still uses it
        learns that it has to rebuild. */
    method BufferReleaseEvent(id: Id)
      requires Valid() && LegalNext(world, Released(id))
      modifies this
      ensures Abs() == Release(old(Abs()), id) && Valid()
      ensures forall x :: Gone(Abs(), x) <==> Gone(old(Abs()), x) || x == id
      ensures forall x :: Touched(Abs(), x) <==> Touched(old(Abs()), x)
      ensures pairs == old(pairs) && bufferDestroyed == (old(bufferDestroyed) || Current(old(Abs()), id))
    {
      ReleaseMeets(Abs(), id);
      world := Do(Do(world, Released(id)), Destroyed(id));
      if alive {
        var e := HolderFrom(pairs, FREE_ORDER, id);
        if e >= 0 {
          pairs := pairs[e := ForgetSlot(pairs[e], id)];
          bufferDestroyed := true;
        }
      }
    }

    /** `free_csd_surfaces`. */
    method FreeCsdSurfaces()
      requires Valid()
      modifies this`surfaces
      ensures Valid() && Abs() == old(Abs()).(surfaces := [false, false, false, false])
    {
      SurfacesMeet(Abs());
      surfaces := [false, false, false, false];
    }

    /** `free_all_csd_resources`: exactly the buffers never handed to the compositor are destroyed
        now; every other one is gone already or waits for its release event. */
    method FreeAllCsdResources()
      requires Valid()
      modifies this
      ensures Abs() == FreeAll(old(Abs())) && Valid() && !alive
      ensures surfaces == [false, false, false, false] && !mapped && pairs == [NO_PAIR, NO_PAIR, NO_PAIR, NO_PAIR]
      ensures forall id: Id :: Exists(world, id) <==> Exists(old(world), id)
      ensures forall id :: Touched(Abs(), id) <==> Touched(old(Abs()), id)
      ensures forall id :: Touched(old(Abs()), id) ==> (Gone(Abs(), id) <==> Gone(old(Abs()), id))
      ensures forall id: Id :: Exists(world, id) && !Touched(old(Abs()), id) ==> Gone(Abs(), id)
    {
      FreeAllMeets(Abs());
      FreeCsdSurfaces();
      FreeCsdBuffers();
      alive := false;
    }

    method PerformStep(step: Step)
      requires Valid()
      modifies this
      ensures Abs() == Apply(old(Abs()), step) && Valid()
    {
      if Enabled(Abs(), step) {
        match step
        case EnsureStep(win) => var _ := EnsureCsdResources(win);
        case TitleStep(win) => ChangeCsdTitle(win);
        case SurfacesStep => FreeCsdSurfaces();
        case DestroyStep => FreeAllCsdResources();
        case ReleaseStep(id) => BufferReleaseEvent(id);
      }
    }

    /** Any interleaving of client calls and release events. Its whole history is legal, and if
        the window is gone and all attached buffers have come back, nothing is left. */
    method Perform(steps: seq<Step>)
      requires Valid()
      modifies this
      ensures Abs() == Run(old(Abs()), steps) && Valid()
      ensures forall i :: 0 <= i < |world.log| ==> LegalAt(world.log, i)
      ensures !alive && (forall id: Id :: Attached(id) in world.log ==> Released(id) in world.log) ==>
        forall id: Id :: Born(world.log, id) ==> Destroyed(id) in world.log
    {
      var i := 0;
      while i < |steps|
        invariant 0 <= i <= |steps| && Valid()
        invariant Run(Abs(), steps[i..]) == Run(old(Abs()), steps)
      {
        assert steps[i..][1..] == steps[i + 1..];
        PerformStep(steps[i]);
        i := i + 1;
      }
      HistoryMeets(Abs());
      assert Log(Abs()) == world.log;
    }
  }

  // ----- what each specified step gives its caller -----

  lemma NewIds(s: State, e: nat, v: View)
    requires Core(s) && e < 4
    ensures var s' := AllocPair(s, e, v);
      && (forall id: Id :: Exists(s.world, id) ==> Exists(s'.world, id) && s'.world.status[id] == s.world.status[id])
      && (forall id: Id :: id == s'.pairs[e].a || id == s'.pairs[e].b ==>
        && !Exists(s.world, id) && Exists(s'.world, id) && Created(id, EdgeSize(e, v)) in Log(s')
        && !Touched(s', id) && !Gone(s', id) && Attached(id) !in Log(s'))
  {
    AllocKeeps(s, e, v);
    ReplayStatus(Log(AllocPair(s, e, v)));
  }

  lemma EnsureMeets(s: State, win: Window)
    requires Right(s) && s.alive
    ensures var s' := Ensure(s, win);
      && Right(s') && s'.alive
      && (Decorates(win) ==> OnScreen(s', win.view) && s'.built == win.view && !NeedsUpdate(s', win.view))
      && (forall id :: Touched(s, id) ==> Touched(s', id) && (Gone(s', id) <==> Gone(s, id)))
  {
    StepRight(s, EnsureStep(win));
    if Decorates(win) {
      EnsureIsRight(s, win);
      RefreshSpares(s, win.view);
    }
  }

  lemma TitleMeets(s: State, win: Window)
    requires Right(s) && s.alive
    ensures var s' := ChangeTitle(s, win);
      && Right(s')
      && (Decorates(win) ==> OnScreen(s', win.view) && s'.built == win.view && !NeedsUpdate(s', win.view))
      && (Decorates(win) && !NeedsUpdate(s, win.view) ==> s'.shown == s.shown[TOP := s.pairs[TOP].back])
  {
    StepRight(s, TitleStep(win));
    if Decorates(win) {
      TitleIsRight(s, win);
      if !NeedsUpdate(s, win.view) { RedrawShows(s, win.view.focused); }
    }
  }

  lemma ReleaseMeets(s: State, id: Id)
    requires Right(s) && LegalNext(s.world, Released(id))
    ensures var s' := Release(s, id);
      && Right(s') && s'.pairs == s.pairs && s'.bufferDestroyed == (s.bufferDestroyed || Current(s, id))
      && (forall x :: Gone(s', x) <==> Gone(s, x) || x == id) && (forall x :: Touched(s', x) <==> Touched(s, x))
  {
    StepRight(s, ReleaseStep(id));
    ReleaseKeeps(s, id);
    ReleaseKeepsPairs(s, id);
  }

  lemma FreeAllMeets(s: State)
    requires Right(s)
    ensures var s' := FreeAll(s);
      && Right(s') && Made(s') == Made(s)
      && s'.surfaces == [false, false, false, false] && s'.pairs == [NO_PAIR, NO_PAIR, NO_PAIR, NO_PAIR]
      && (forall id :: Touched(s', id) <==> Touched(s, id))
      && (forall id :: Touched(s, id) ==> (Gone(s', id) <==> Gone(s, id)))
      && (forall id :: 0 < id < Made(s) && !Touched(s, id) ==> Gone(s', id))
  {
    FreeAllFrees(s);
    FreeEdgesSameView(FreeSurfaces(s), FREE_ORDER);
    forall id | 0 < id < Made(s) && !Touched(s, id)
      ensures Gone(FreeAll(s), id)
    {
      assert Gone(s, id) || Current(s, id);
    }
  }

  lemma SurfacesMeet(s: State)
    requires Right(s)
    ensures Right(FreeSurfaces(s))
  {
    SurfacesKeep(s);
    if s.mapped {
      DrawnStays(s, FreeSurfaces(s), s.built.focused);
      SizedStays(s, FreeSurfaces(s), s.built);
    }
  }

  lemma HistoryMeets(s: State)
    requires Inv(s)
    ensures forall i :: 0 <= i < |Log(s)| ==> LegalAt(Log(s), i)
    ensures !s.alive && (forall id: Id :: Attached(id) in Log(s) ==> Released(id) in Log(s)) ==>
      forall id: Id :: Born(Log(s), id) ==> Destroyed(id) in Log(s)
  {
    forall i | 0 <= i < |Log(s)| ensures LegalAt(Log(s), i) {
      LegalHistory(Log(s), i);
    }
    if !s.alive && (forall id: Id :: Attached(id) in Log(s) ==> Released(id) in Log(s)) {
      forall id: Id | Born(Log(s), id) ensures Destroyed(id) in Log(s) {
        LeaksNothing(s, id);
      }
    }
  }
}
