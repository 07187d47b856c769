/** Ownership of the `wl_buffer` objects behind the client-side decorations of a Wayland
    window (glfw/wl_client_side_decorations.c), as a protocol between the client code and a
    compositor that releases committed buffers at times of its own choosing. */
module BufferProtocol {
  import opened DecorationFrame

  type Id = nat  // 0 is the null pointer

  // ----- the wire: what happens to buffers, and which histories are legal -----

  datatype Action =
    | Created(id: Id, size: Size)
    | Painted(id: Id, focused: bool)  // the client draws, as for a focused window or faded
    | Attached(id: Id)  // attach and commit to a surface
    | Released(id: Id)  // the compositor's release event
    | Destroyed(id: Id)

  datatype Status = Status(size: Size, attached: bool, released: bool, destroyed: bool)

  /** The history so far, what it says of each buffer, and whether every step was legal.
      `status` is indexed by buffer; index 0 stands for the null pointer. */
  datatype World = World(log: seq<Action>, status: seq<Status>, ok: bool)

  const EMPTY_WORLD := World([], [Status(Size(0, 0), false, false, false)], true)

  predicate Exists(w: World, id: Id) { 0 < id < |w.status| }

  /** No buffer is destroyed twice, attached or painted after it was destroyed, or used
      before it was created; a buffer that was ever attached is destroyed only by the
      handler of its own release event. */
  predicate LegalNext(w: World, act: Action) {
    match act
    case Created(id, _) => id == |w.status|
    case Painted(id, _) => Exists(w, id) && !w.status[id].destroyed
    case Attached(id) => Exists(w, id) && !w.status[id].destroyed
    case Released(id) => Exists(w, id) && w.status[id].attached && !w.status[id].released
    case Destroyed(id) =>
      && Exists(w, id) && !w.status[id].destroyed
      && (w.status[id].attached ==> w.log != [] && w.log[|w.log| - 1] == Released(id))
  }

  function StatusAfter(w: World, act: Action): seq<Status>
    requires LegalNext(w, act)
  {
    match act
    case Created(_, size) => w.status + [Status(size, false, false, false)]
    case Painted(_, _) => w.status
    case Attached(id) => w.status[id := w.status[id].(attached := true)]
    case Released(id) => w.status[id := w.status[id].(released := true)]
    case Destroyed(id) => w.status[id := w.status[id].(destroyed := true)]
  }

  function Do(w: World, act: Action): World {
    if LegalNext(w, act) then World(w.log + [act], StatusAfter(w, act), w.ok) else World(w.log + [act], w.status, false)
  }

  function Replay(log: seq<Action>): World {
    if log == [] then EMPTY_WORLD else Do(Replay(log[..|log| - 1]), log[|log| - 1])
  }

  lemma ReplayDo(w: World, act: Action)
    requires Replay(w.log) == w
    ensures Replay(w.log + [act]) == Do(w, act) && Do(w, act).log == w.log + [act]
  {
    assert (w.log + [act])[..|w.log|] == w.log;
  }

  ghost predicate Born(log: seq<Action>, id: Id) { exists size :: Created(id, size) in log }

  /** The same rules, read off the positions of a history. */
  ghost predicate LegalAt(log: seq<Action>, i: nat)
    requires i < |log|
  {
    var before := log[..i];
    match log[i]
    case Created(id, _) => !Born(before, id)
    case Painted(id, _) => Born(before, id) && Destroyed(id) !in before
    case Attached(id) => Born(before, id) && Destroyed(id) !in before
    case Released(id) => Attached(id) in before && Released(id) !in before
    case Destroyed(id) =>
      && Born(before, id) && Destroyed(id) !in before
      && (Attached(id) in before ==> i > 0 && log[i - 1] == Released(id))
  }

  ghost predicate StatusIsHistory(w: World) {
    && (forall id: Id, size :: Created(id, size) in w.log ==> Exists(w, id) && w.status[id].size == size)
    && (forall id: Id :: Exists(w, id) ==>
        && Created(id, w.status[id].size) in w.log
        && (w.status[id].attached <==> Attached(id) in w.log)
        && (w.status[id].released <==> Released(id) in w.log)
        && (w.status[id].destroyed <==> Destroyed(id) in w.log))
    && (forall id: Id :: !Exists(w, id) ==>
        Attached(id) !in w.log && Released(id) !in w.log && Destroyed(id) !in w.log)
  }

  lemma {:induction false} ReplayStatus(log: seq<Action>)
    requires Replay(log).ok
    ensures Replay(log).log == log && |Replay(log).status| > 0 && StatusIsHistory(Replay(log))
  {
    if log != [] {
      var before, last := log[..|log| - 1], log[|log| - 1];
      assert log == before + [last];
      ReplayStatus(before);
      DoStatus(Replay(before), last);
    }
  }

  lemma DoStatus(w: World, act: Action)
    requires |w.status| > 0 && StatusIsHistory(w) && LegalNext(w, act)
    ensures StatusIsHistory(Do(w, act))
  {
    var log' := w.log + [act];
    assert forall a: Action :: a in log' <==> a in w.log || a == act;
  }

  /** A history whose every step was legal when taken obeys the rules at every position. */
  lemma {:induction false} LegalHistory(log: seq<Action>, i: nat)
    requires Replay(log).ok && i < |log|
    ensures LegalAt(log, i)
  {
    var before, last := log[..|log| - 1], log[|log| - 1];
    ReplayStatus(before);
    if i < |log| - 1 {
      LegalHistory(before, i);
      assert before[..i] == log[..i];
    } else {
      assert before == log[..i];
      assert i > 0 ==> log[i - 1] == before[|before| - 1];
    }
  }

  // ----- the client's state -----

  /** `_GLFWWaylandBufferPair`; `aOwned` is `a_needs_to_be_destroyed`. */
  datatype Pair = Pair(a: Id, b: Id, front: Id, back: Id, aOwned: bool, bOwned: bool)

  const NO_PAIR := Pair(0, 0, 0, 0, false, false)

  // one for each of the four edges
  type Pairs = p: seq<Pair> | |p| == 4 witness [NO_PAIR, NO_PAIR, NO_PAIR, NO_PAIR]
  type Flags = f: seq<bool> | |f| == 4 witness [false, false, false, false]
  type Buffers = b: seq<Id> | |b| == 4 witness [0, 0, 0, 0]
  type Places = p: seq<Place> | |p| == 4 witness [NOWHERE, NOWHERE, NOWHERE, NOWHERE]

  const NOWHERE := Place(0, 0, 0)

  datatype Window = Window(decorated: bool, serverSide: bool, view: View)

  datatype State = State(
    alive: bool,               // the window still exists
    pairs: Pairs,              // indexed by edge
    surfaces: Flags,           // does the edge have a surface
    places: Places,            // where it was put
    mapped: bool,              // decs.mapping.data
    bufferDestroyed: bool,
    built: View,               // decs.for_window_state: what the decorations were last built for
    shown: Buffers,            // what each edge's surface last had attached
    world: World)

  const INITIAL := State(true, [NO_PAIR, NO_PAIR, NO_PAIR, NO_PAIR], [false, false, false, false],
                         [NOWHERE, NOWHERE, NOWHERE, NOWHERE], false, false, View(0, 0, 0, false), [0, 0, 0, 0],
                         EMPTY_WORLD)

  function Act(s: State, act: Action): State { s.(world := Do(s.world, act)) }

  function FreeSlot(s: State, id: Id, owned: bool): State {
    if owned && id != 0 then Act(s, Destroyed(id)) else s
  }

  /** One edge of `free_csd_buffers`. */
  function FreeEdge(s: State, e: nat): State
    requires e < 4
  {
    var p := s.pairs[e];
    var s := FreeSlot(FreeSlot(s, p.a, p.aOwned), p.b, p.bOwned);
    s.(pairs := s.pairs[e := NO_PAIR])
  }

  type Order = o: seq<nat> | forall k :: 0 <= k < |o| ==> o[k] < 4

  const FREE_ORDER: Order := [LEFT, TOP, RIGHT, BOTTOM]
  const ALLOC_ORDER: Order := [TOP, LEFT, BOTTOM, RIGHT]

  function FreeEdges(s: State, order: Order): State
    decreases |order|
  {
    if order == [] then s else FreeEdges(FreeEdge(s, order[0]), order[1..])
  }

  /** `free_csd_buffers`. */
  function FreeBuffers(s: State): State {
    FreeEdges(s, FREE_ORDER).(mapped := false)
  }

  /** `alloc_buffer_pair`: two fresh objects of the edge's size, neither attached yet. */
  function AllocPair(s: State, e: nat, v: View): State
    requires e < 4
  {
    var a, b := |s.world.status|, |s.world.status| + 1;
    Act(Act(s, Created(a, EdgeSize(e, v))), Created(b, EdgeSize(e, v)))
      .(pairs := s.pairs[e := Pair(a, b, a, b, true, true)])
  }

  datatype Drawing = Drawing(id: Id, focused: bool)

  function Paint(s: State, d: Drawing): State { Act(s, Painted(d.id, d.focused)) }

  function PaintAll(s: State, ds: seq<Drawing>): State
    decreases |ds|
  {
    if ds == [] then s else PaintAll(Paint(s, ds[0]), ds[1..])
  }

  function AllocEdges(s: State, order: Order, v: View): State
    decreases |order|
  {
    if order == [] then s else AllocEdges(AllocPair(s, order[0], v), order[1..], v)
  }

  /** What `render_title_bar` and `render_edges` draw into new buffers: the title bar for the
      focus state of the window, the fronts of the other edges as for a focused window and
      their backs as faded copies. */
  function FirstPaint(pairs: Pairs, focused: bool): seq<Drawing> {
    [Drawing(pairs[TOP].front, focused),
     Drawing(pairs[BOTTOM].front, true), Drawing(pairs[LEFT].front, true), Drawing(pairs[RIGHT].front, true),
     Drawing(pairs[LEFT].back, false), Drawing(pairs[BOTTOM].back, false), Drawing(pairs[RIGHT].back, false)]
  }

  /** `create_shm_buffers`, allocation succeeding. */
  function CreateBuffers(s: State, v: View): State {
    var s := AllocEdges(s, ALLOC_ORDER, v).(mapped := true);
    PaintAll(s, FirstPaint(s.pairs, v.focused))
  }

  /** `update_title_bar`: draw the back buffer, then swap. */
  function UpdateTitle(s: State, focused: bool): State {
    var s := Paint(s, Drawing(s.pairs[TOP].back, focused));
    var p := s.pairs[TOP];
    s.(pairs := s.pairs[TOP := p.(front := p.back, back := p.front)])
  }

  /** `damage_csd`: attach, commit, and give up the right to destroy. */
  function Damage(s: State, e: nat, id: Id): State
    requires e < 4
  {
    var p := s.pairs[e];
    var p' := if p.a == id then p.(aOwned := false) else p.(bOwned := false);
    Act(s, Attached(id)).(pairs := s.pairs[e := p'], shown := s.shown[e := id])
  }

  /** The buffer an edge should show: the title bar draws for the focus state, the other
      edges keep one buffer for each. */
  function Wanted(p: Pair, e: nat, focused: bool): Id {
    if e == TOP || focused then p.front else p.back
  }

  function DamageEdges(s: State, order: Order, focused: bool): State
    decreases |order|
  {
    if order == [] then s
    else DamageEdges(Damage(s, order[0], Wanted(s.pairs[order[0]], order[0], focused)), order[1..], focused)
  }

  predicate SizeChanged(s: State, v: View) {
    s.built.width != v.width || s.built.height != v.height || s.built.scale != v.scale || !s.mapped
  }

  predicate NeedsUpdate(s: State, v: View)
  {
    v.focused != s.built.focused || SizeChanged(s, v) || !s.surfaces[LEFT] || s.bufferDestroyed
  }

  /** The first half of the update: new buffers if the old ones cannot be used. */
  function Rebuild(s: State, v: View): State {
    if SizeChanged(s, v) || s.bufferDestroyed then CreateBuffers(FreeBuffers(s), v).(bufferDestroyed := false)
    else s
  }

  /** Every edge gets a surface, and its place around the window. */
  function InPlace(s: State, v: View): State {
    s.(surfaces := [true, true, true, true],
       places := [PlaceOf(TOP, v), PlaceOf(LEFT, v), PlaceOf(BOTTOM, v), PlaceOf(RIGHT, v)])
  }

  /** The state from which `Refresh` attaches. */
  function BeforeDamage(s: State, v: View): State {
    var s1 := InPlace(Rebuild(s, v), v);
    if v.focused != s.built.focused then UpdateTitle(s1, v.focused) else s1
  }

  function Refresh(s: State, v: View): State {
    DamageEdges(BeforeDamage(s, v), ALLOC_ORDER, v.focused).(built := v)
  }

  predicate Decorates(win: Window) { win.decorated && !win.serverSide }

  /** `ensure_csd_resources`. */
  function Ensure(s: State, win: Window): State {
    if Decorates(win) && NeedsUpdate(s, win.view) then Refresh(s, win.view) else s
  }

  /** `change_csd_title`. */
  function ChangeTitle(s: State, win: Window): State {
    if !Decorates(win) then s
    else if NeedsUpdate(s, win.view) then Refresh(s, win.view)
    else if s.surfaces[TOP] then RedrawTitle(s, win.view.focused)
    else s
  }

  function RedrawTitle(s: State, focused: bool): State {
    var s := UpdateTitle(s, focused);
    Damage(s, TOP, s.pairs[TOP].front)
  }

  /** `window_has_buffer`: the first slot that holds the buffer loses its destroy flag. */
  function ForgetSlot(p: Pair, id: Id): Pair {
    if p.a == id then p.(aOwned := false) else if p.b == id then p.(bOwned := false) else p
  }

  predicate Holds(p: Pair, id: Id) { p.a == id || p.b == id }

  function HolderFrom(pairs: Pairs, order: Order, id: Id): (e: int)
    ensures e == -1 || (0 <= e < 4 && Holds(pairs[e], id))
    ensures e == -1 ==> forall k :: 0 <= k < |order| ==> !Holds(pairs[order[k]], id)
  {
    if order == [] then -1
    else if Holds(pairs[order[0]], id) then order[0]
    else HolderFrom(pairs, order[1..], id)
  }

  /** `buffer_release_event`. */
  function Release(s: State, id: Id): State {
    var s := Act(Act(s, Released(id)), Destroyed(id));
    var e := HolderFrom(s.pairs, FREE_ORDER, id);
    if s.alive && e >= 0 then s.(pairs := s.pairs[e := ForgetSlot(s.pairs[e], id)], bufferDestroyed := true) else s
  }

  /** `free_csd_surfaces`. */
  function FreeSurfaces(s: State): State { s.(surfaces := [false, false, false, false]) }

  /** `free_all_csd_resources`, called when the window is destroyed. */
  function FreeAll(s: State): State {
    FreeBuffers(FreeSurfaces(s)).(alive := false)
  }

  // ----- runs -----

  datatype Step =
    | EnsureStep(win: Window)
    | TitleStep(win: Window)
    | SurfacesStep
    | DestroyStep
    | ReleaseStep(id: Id)

  /** The client acts on a window that exists; the compositor releases a buffer that was
      committed and that it has not released before. */
  predicate Enabled(s: State, step: Step) {
    if step.ReleaseStep? then LegalNext(s.world, Released(step.id)) else s.alive
  }

  function Apply(s: State, step: Step): State {
    if !Enabled(s, step) then s
    else
      match step
      case EnsureStep(win) => Ensure(s, win)
      case TitleStep(win) => ChangeTitle(s, win)
      case SurfacesStep => FreeSurfaces(s)
      case DestroyStep => FreeAll(s)
      case ReleaseStep(id) => Release(s, id)
  }

  function Run(s: State, steps: seq<Step>): State
    decreases |steps|
  {
    if steps == [] then s else Run(Apply(s, steps[0]), steps[1..])
  }
}
