/** The geometry of the decorations that glfw/wl_client_side_decorations.c draws around a window: where
    the four edges go and how large their buffers are. */
module DecorationFrame {

  const TOP := 0
  const LEFT := 1
  const BOTTOM := 2
  const RIGHT := 3

  // `initialize_csd_metrics`
  const BORDER := 12
  const TITLE := 36

  /** What the decorations are built for; `wl.width` and so on when current. */
  datatype View = View(width: int, height: int, scale: int, focused: bool)

  /** In pixels of a buffer. */
  datatype Size = Size(width: int, height: int)

  /** A subsurface's position relative to the window, and how many pixels of its buffer make a unit. */
  datatype Place = Place(x: int, y: int, scale: int)

  function ScaleOf(v: View): int { if v.scale < 1 then 1 else v.scale }

  /** The arguments of the `init_buffer_pair` calls. */
  function EdgeWidth(e: nat, v: View): int {
    if e == TOP then v.width else if e == BOTTOM then v.width + 2 * BORDER else BORDER
  }

  function EdgeHeight(e: nat, v: View): int {
    if e == TOP then TITLE else if e == BOTTOM then BORDER else v.height + TITLE
  }

  /** The size of both buffers of an edge. */
  function EdgeSize(e: nat, v: View): Size { Size(EdgeWidth(e, v) * ScaleOf(v), EdgeHeight(e, v) * ScaleOf(v)) }

  /** The arguments of the `position_csd_surface` calls. */
  function PlaceOf(e: nat, v: View): Place {
    var x := if e == TOP then 0 else if e == RIGHT then v.width else -BORDER;
    var y := if e == BOTTOM then v.height else -TITLE;
    Place(x, y, ScaleOf(v))
  }

  /** A point, relative to the window, that a buffer of that size shows at that place. */
  predicate Shows(p: Place, size: Size, x: int, y: int) {
    0 <= (x - p.x) * p.scale < size.width && 0 <= (y - p.y) * p.scale < size.height
  }

  predicate InWindow(v: View, x: int, y: int) { 0 <= x < v.width && 0 <= y < v.height }

  /** A point of the decorated window: a border of 12 on three sides and 36 on top. */
  predicate InFrame(v: View, x: int, y: int) { -12 <= x < v.width + 12 && -36 <= y < v.height + 12 }

  lemma SameSign(d: int, scale: int)
    requires scale >= 1
    ensures d * scale > 0 <==> d > 0
    ensures d * scale < 0 <==> d < 0
  {
  }

  lemma Unscaled(d: int, extent: int, scale: int)
    requires scale >= 1
    ensures 0 <= d * scale < extent * scale <==> 0 <= d < extent
  {
    SameSign(d, scale);
    SameSign(extent - d, scale);
    assert (extent - d) * scale == extent * scale - d * scale;
  }

  lemma ShowsIff(e: nat, v: View, x: int, y: int)
    requires e < 4
    ensures var p := PlaceOf(e, v);
      Shows(p, EdgeSize(e, v), x, y) <==> 0 <= x - p.x < EdgeWidth(e, v) && 0 <= y - p.y < EdgeHeight(e, v)
  {
    Unscaled(x - PlaceOf(e, v).x, EdgeWidth(e, v), ScaleOf(v));
    Unscaled(y - PlaceOf(e, v).y, EdgeHeight(e, v), ScaleOf(v));
  }

  /** The four edges frame the window without gap or overlap, at any size and scale: each point around
      the window is shown by exactly one of them, and no point of the window by any. */
  lemma EdgesFrameTheWindow(v: View, x: int, y: int)
    requires v.width >= 0 && v.height >= 0
    ensures InFrame(v, x, y) && !InWindow(v, x, y)
      <==> exists e: nat :: e < 4 && Shows(PlaceOf(e, v), EdgeSize(e, v), x, y)
    ensures forall e: nat :: e < 4 ==> PlaceOf(e, v).scale == if v.scale < 1 then 1 else v.scale
    ensures forall e: nat, f: nat ::
      e < f < 4 ==> !(Shows(PlaceOf(e, v), EdgeSize(e, v), x, y) && Shows(PlaceOf(f, v), EdgeSize(f, v), x, y))
  {
    forall e: nat | e < 4
      ensures var p := PlaceOf(e, v);
        Shows(p, EdgeSize(e, v), x, y) <==> 0 <= x - p.x < EdgeWidth(e, v) && 0 <= y - p.y < EdgeHeight(e, v)
    {
      ShowsIff(e, v, x, y);
    }
    assert InFrame(v, x, y) && !InWindow(v, x, y) ==>
      || Shows(PlaceOf(TOP, v), EdgeSize(TOP, v), x, y) || Shows(PlaceOf(LEFT, v), EdgeSize(LEFT, v), x, y)
      || Shows(PlaceOf(BOTTOM, v), EdgeSize(BOTTOM, v), x, y) || Shows(PlaceOf(RIGHT, v), EdgeSize(RIGHT, v), x, y);
  }

  /** The focus state does not matter to the geometry; nothing else than size and scale does. */
  lemma FrameDependsOn(v: View, w: View, e: nat)
    requires v.width == w.width && v.height == w.height && v.scale == w.scale
    ensures EdgeSize(e, v) == EdgeSize(e, w) && PlaceOf(e, v) == PlaceOf(e, w)
  {
  }
}
