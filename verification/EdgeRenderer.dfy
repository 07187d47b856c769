/** Painting the left, right and bottom decoration edges from the shadow tile, and the layout
    of the shared mapping (glfw/wl_client_side_decorations.c). Lengths are in pixels; `m` is
    the margin, and the tile is 7 margins square. */
module EdgeRenderer {
  import opened ShadowMask
  import opened ShadowTile

  /** `memcpy` of `n` pixels. */
  method CopySpan(src: array<int>, s: nat, dst: array<int>, d: nat, n: nat)
    requires src != dst && s + n <= src.Length && d + n <= dst.Length
    modifies dst
    ensures forall i :: 0 <= i < dst.Length ==> dst[i] == if d <= i < d + n then src[s + i - d] else old(dst[i])
  {
    for x := 0 to n
      invariant forall i :: 0 <= i < dst.Length ==> dst[i] == if d <= i < d + x then src[s + i - d] else old(dst[i])
    {
      dst[d + x] := src[s + x];
    }
  }

  /** The tile as a function of column and row. */
  type View = (int, int) -> int

  function TileAt(tile: seq<int>, m: nat, x: int, y: int): int {
    if 0 <= x < 7 * m && 0 <= y < 7 * m && 0 <= y * (7 * m) + x < |tile| then tile[y * (7 * m) + x] else 0
  }

  function ViewOf(tile: seq<int>, m: nat): View {
    (x, y) => TileAt(tile, m, x, y)
  }

  predicate SideBuffers(tile: array<int>, left: array<int>, right: array<int>, h: nat, m: nat) {
    && m > 0 && tile != left && tile != right && left != right
    && tile.Length == (7 * m) * (7 * m) && left.Length == right.Length == h * m
  }

  ghost predicate SidesDrawn(tile: array<int>, left: array<int>, right: array<int>, m: nat, rows: seq<int>)
    requires m > 0
    reads tile, left, right
  {
    && Drawn(left[..], ViewOf(tile[..], m), m, 0, rows)
    && Drawn(right[..], ViewOf(tile[..], m), m, 6 * m, rows)
  }

  // ----- the bottom edge -----

  function Limit(length: nat, corner: nat): nat { if length > corner then length - corner else 0 }

  /** A pattern of `m` columns, repeated. */
  ghost predicate Repeats(again: int -> int, m: nat) {
    && (forall x :: 0 <= x ==> 0 <= again(x) < m)
    && (forall x :: 0 <= x < m ==> again(x) == x)
    && (forall x, y :: 0 <= x && y == x + m ==> again(y) == again(x))
  }

  function Remainder(m: nat): int -> int
    requires m > 0
  {
    x => x % m
  }

  lemma RemainderRepeats(m: nat)
    requires m > 0
    ensures Repeats(Remainder(m), m)
  {
    forall x: int | x >= m
      ensures x % m == (x - m) % m
    {
      OneTurnLess(m, x, x / m, x % m);
    }
    forall x: int | 0 <= x < m
      ensures x % m == x
    {
      DivModUnique(m, x, 0);
    }
  }

  lemma OneTurnLess(m: nat, x: nat, q: int, r: nat)
    requires r < m <= x && x == m * q + r
    ensures (x - m) % m == r
  {
    MulAtLeast(m, q);
    DivModUnique(m, r, q - 1);
    assert (q - 1) * m + r == x - m;
  }

  /** The tile column that column `x` of a bottom edge of width `w` shows. */
  function BottomColumn(w: nat, m: nat, x: int): int
    requires m > 0
  {
    ColumnOf(Remainder(m), w, m, x)
  }

  function ColumnOf(again: int -> int, w: nat, m: nat, x: int): int {
    var limit := Limit(w, 3 * m);
    if x >= limit then 4 * m + (x - limit) else if x < 3 * m then x else 3 * m + again(x - 3 * m)
  }

  /** One row of the bottom edge: left corner, repeated middle, right corner. */
  method RenderBottomRow(tile: array<int>, s: nat, dst: array<int>, d: nat, w: nat, m: nat)
    requires m > 0 && tile != dst && s + 7 * m <= tile.Length && d + w <= dst.Length
    modifies dst
    ensures forall i :: 0 <= i < dst.Length ==>
      dst[i] == if d <= i < d + w then tile[s + BottomColumn(w, m, i - d)] else old(dst[i])
  {
    var corner := 3 * m;
    var limit := Limit(w, corner);
    CopySpan(tile, s, dst, d, if corner < w then corner else w);
    RemainderRepeats(m);
    RepeatMiddle(tile, s + corner, dst, d + corner, d + limit, m, Remainder(m));
    CopySpan(tile, s + 4 * m, dst, d + limit, if corner < w - limit then corner else w - limit);
  }

  /** The loop over the middle, from one place of the destination to another. */
  method RepeatMiddle(tile: array<int>, s: nat, dst: array<int>, from: nat, to: nat, m: nat, ghost again: int -> int)
    requires m > 0 && tile != dst && s + m <= tile.Length && to <= dst.Length && Repeats(again, m)
    modifies dst
    ensures forall i :: 0 <= i < dst.Length ==>
      dst[i] == if from <= i < to then tile[s + again(i - from)] else old(dst[i])
  {
    var pos := from;
    ghost var done := 0;
    while pos < to
      invariant done >= 0 && pos == from + done
      invariant forall x :: done <= x < done + m ==> again(x) == x - done
      invariant forall i :: 0 <= i < dst.Length ==>
        dst[i] == if from <= i < pos && i < to then tile[s + again(i - from)] else old(dst[i])
    {
      CopySpan(tile, s, dst, pos, if pos + m < to then m else to - pos);
      NextTurn(again, m, done);
      pos, done := pos + m, done + m;
    }
  }

  lemma NextTurn(again: int -> int, m: nat, done: nat)
    requires Repeats(again, m) && forall x :: done <= x < done + m ==> again(x) == x - done
    ensures forall x :: done + m <= x < done + m + m ==> again(x) == x - (done + m)
  {
    forall x | done + m <= x < done + m + m ensures again(x) == x - (done + m) {
      assert again(x) == again(x - m);
    }
  }

  // ----- the sides -----

  /** The tile row that row `y` of a side of height `h` shows. */
  function SideRow(h: nat, m: nat, y: nat): int
    requires m > 0
  {
    var top := Limit(h, 2 * m);
    if y >= top then 4 * m + (y - top) else if y < 3 * m then y else 3 * m + (y - 3 * m) % m
  }

  /** The pixel that row `rows[y]` of the tile gives a side; rows not painted yet are negative. */
  ghost predicate Drawn(dst: seq<int>, view: View, m: nat, column: int, rows: seq<int>)
    requires m > 0
  {
    && (forall y :: 0 <= y < |rows| ==> rows[y] < 7 * m)
    && forall i :: 0 <= i < |dst| && i / m < |rows| && rows[i / m] >= 0 ==> dst[i] == view(column + i % m, rows[i / m])
  }

  /** One row of a side: `memcpy` of a margin of pixels. */
  method DrawRow(tile: array<int>, dst: array<int>, m: nat, column: nat, y: nat, r: nat, ghost rows: seq<int>)
    requires m > 0 && tile != dst && tile.Length == (7 * m) * (7 * m) && column + m <= 7 * m && r < 7 * m
    requires y < |rows| && dst.Length == |rows| * m
    requires Drawn(dst[..], ViewOf(tile[..], m), m, column, rows)
    modifies dst
    ensures Drawn(dst[..], ViewOf(tile[..], m), m, column, rows[y := r])
  {
    RowsUpTo(m, |rows|, y);
    RowsUpTo(7 * m, 7 * m, r);
    CopyRow(tile, dst, m, column, r, r * (7 * m), y, y * m, rows);
  }

  method CopyRow(tile: array<int>, dst: array<int>, m: nat, column: nat, r: nat, from: nat, y: nat, base: nat,
        ghost rows: seq<int>)
    requires m > 0 && tile != dst && column + m <= 7 * m
    requires r < 7 * m && from == r * (7 * m) && from + 7 * m <= tile.Length
    requires y < |rows| && base == y * m && base + m <= dst.Length
    requires Drawn(dst[..], ViewOf(tile[..], m), m, column, rows)
    modifies dst
    ensures Drawn(dst[..], ViewOf(tile[..], m), m, column, rows[y := r])
  {
    ghost var before := dst[..];
    CopySpan(tile, from + column, dst, base, m);
    TileRow(tile[..], m, r, from);
    RowDrawn(before, dst[..], ViewOf(tile[..], m), m, column, base, y, r, rows);
  }

  lemma TileRow(tile: seq<int>, m: nat, r: nat, from: nat)
    requires r < 7 * m && from == r * (7 * m) && from + 7 * m <= |tile|
    ensures forall x :: 0 <= x < 7 * m ==> ViewOf(tile, m)(x, r) == tile[from + x]
  {
  }

  lemma RowDrawn(before: seq<int>, after: seq<int>, view: View, m: nat, column: int, base: nat, y: nat, r: nat,
        rows: seq<int>)
    requires m > 0 && |after| == |before| && y < |rows| && base == y * m && r < 7 * m
    requires Drawn(before, view, m, column, rows)
    requires forall i :: 0 <= i < |after| ==>
      after[i] == if base <= i < base + m then view(column + (i - base), r) else before[i]
    ensures Drawn(after, view, m, column, rows[y := r])
  {
    RowIndex(m, y);
  }

  method DrawSides(tile: array<int>, left: array<int>, right: array<int>, h: nat, m: nat, y: nat, r: nat,
        ghost rows: seq<int>)
    requires SideBuffers(tile, left, right, h, m) && y < h == |rows| && r < 7 * m
    requires SidesDrawn(tile, left, right, m, rows)
    modifies left, right
    ensures SidesDrawn(tile, left, right, m, rows[y := r])
  {
    DrawRow(tile, left, m, 0, y, r, rows);
    DrawRow(tile, right, m, 6 * m, y, r, rows);
  }

  lemma RowIndex(m: nat, y: nat)
    requires m > 0
    ensures forall i: int :: i >= 0 ==> (y * m <= i < y * m + m <==> i / m == y)
    ensures forall i: int :: y * m <= i < y * m + m ==> i % m == i - y * m
  {
    forall i: int | i >= 0
      ensures y * m <= i < y * m + m <==> i / m == y
      ensures y * m <= i < y * m + m ==> i % m == i - y * m
    {
      if y * m <= i < y * m + m { DivModUnique(m, i - y * m, y); }
      assert i == m * (i / m) + i % m;
    }
  }

  /** The row sources once the upper corners are drawn down to row `y`. */
  function UpperRows(h: nat, m: nat, y: nat): seq<int> {
    seq(h, i => if i < y && i < 3 * m then i else -1)
  }

  /** ... and the lower corners from their top down to row `y`. */
  function LowerRows(h: nat, m: nat, y: nat): seq<int> {
    var top := Limit(h, 2 * m);
    seq(h, i => if top <= i < y && i - top < 2 * m then 4 * m + (i - top) else if i < 3 * m then i else -1)
  }

  /** ... and the repeated middle from below the upper corner down to row `y`. */
  function MiddleRows(h: nat, m: nat, y: nat): seq<int>
    requires m > 0
  {
    seq(h, i requires 0 <= i < h =>
      if 3 * m <= i < y && i < Limit(h, 2 * m) then 3 * m + (i - 3 * m) % m else LowerRows(h, m, h)[i])
  }

  function SideRows(h: nat, m: nat): seq<int>
    requires m > 0
  {
    seq(h, y requires 0 <= y < h => SideRow(h, m, y))
  }

  lemma NothingDrawn(dst: seq<int>, view: View, m: nat, column: int, rows: seq<int>)
    requires m > 0 && forall y :: 0 <= y < |rows| ==> rows[y] < 0
    ensures Drawn(dst, view, m, column, rows)
  {
  }

  method DrawUpper(tile: array<int>, left: array<int>, right: array<int>, h: nat, m: nat)
    requires SideBuffers(tile, left, right, h, m)
    modifies left, right
    ensures SidesDrawn(tile, left, right, m, UpperRows(h, m, h))
  {
    var y := 0;
    NothingDrawn(left[..], ViewOf(tile[..], m), m, 0, UpperRows(h, m, y));
    NothingDrawn(right[..], ViewOf(tile[..], m), m, 6 * m, UpperRows(h, m, y));
    while y < 3 * m && y < h
      invariant 0 <= y <= 3 * m && y <= h && SidesDrawn(tile, left, right, m, UpperRows(h, m, y))
    {
      DrawSides(tile, left, right, h, m, y, y, UpperRows(h, m, y));
      assert UpperRows(h, m, y)[y := y] == UpperRows(h, m, y + 1);
      y := y + 1;
    }
    assert UpperRows(h, m, y) == UpperRows(h, m, h);
  }

  method DrawLower(tile: array<int>, left: array<int>, right: array<int>, h: nat, m: nat)
    requires SideBuffers(tile, left, right, h, m) && SidesDrawn(tile, left, right, m, UpperRows(h, m, h))
    modifies left, right
    ensures SidesDrawn(tile, left, right, m, LowerRows(h, m, h))
  {
    var srcHeight := 2 * m;
    var top, srcTop := Limit(h, srcHeight), 4 * m;
    var srcY, destY := srcTop, top;
    assert UpperRows(h, m, h) == LowerRows(h, m, destY);
    while srcY < srcTop + srcHeight && destY < h
      invariant srcTop <= srcY <= srcTop + srcHeight && destY == top + (srcY - srcTop) <= h
      invariant SidesDrawn(tile, left, right, m, LowerRows(h, m, destY))
    {
      DrawSides(tile, left, right, h, m, destY, srcY, LowerRows(h, m, destY));
      assert LowerRows(h, m, destY)[destY := srcY] == LowerRows(h, m, destY + 1);
      srcY, destY := srcY + 1, destY + 1;
    }
    assert LowerRows(h, m, destY) == LowerRows(h, m, h);
  }

  method DrawMiddle(tile: array<int>, left: array<int>, right: array<int>, h: nat, m: nat)
    requires SideBuffers(tile, left, right, h, m) && SidesDrawn(tile, left, right, m, LowerRows(h, m, h))
    modifies left, right
    ensures SidesDrawn(tile, left, right, m, SideRows(h, m))
  {
    var limit := Limit(h, 2 * m);
    var destY, srcY := 3 * m, 0;
    assert LowerRows(h, m, h) == MiddleRows(h, m, destY);
    while destY < limit
      invariant 3 * m <= destY && 0 <= srcY < m && srcY == (destY - 3 * m) % m
      invariant SidesDrawn(tile, left, right, m, MiddleRows(h, m, destY))
    {
      DrawSides(tile, left, right, h, m, destY, 3 * m + srcY, MiddleRows(h, m, destY));
      assert MiddleRows(h, m, destY)[destY := 3 * m + srcY] == MiddleRows(h, m, destY + 1);
      NextModulo(m, destY - 3 * m);
      destY, srcY := destY + 1, (srcY + 1) % m;
    }
    AllRowsPainted(h, m, destY);
  }

  /** The three loops together leave no row unpainted. */
  lemma AllRowsPainted(h: nat, m: nat, y: nat)
    requires m > 0 && y >= Limit(h, 2 * m)
    ensures MiddleRows(h, m, y) == SideRows(h, m)
  {
    forall i | 0 <= i < h
      ensures MiddleRows(h, m, y)[i] == SideRow(h, m, i)
    {
      var top := Limit(h, 2 * m);
      assert LowerRows(h, m, h)[i]
        == if top <= i && i - top < 2 * m then 4 * m + (i - top) else if i < 3 * m then i else -1;
      assert i >= top ==> i - top < 2 * m;
    }
  }

  lemma NextModulo(m: nat, n: nat)
    requires m > 0
    ensures (n + 1) % m == (n % m + 1) % m
  {
    NextRemainder(m, n, n / m, n % m);
  }

  lemma NextRemainder(m: nat, n: nat, q: nat, r: nat)
    requires r < m && n == m * q + r
    ensures (n + 1) % m == (r + 1) % m
  {
    if r + 1 < m {
      DivModUnique(m, r + 1, q);
      DivModUnique(m, r + 1, 0);
      assert n + 1 == q * m + (r + 1);
    } else {
      DivModUnique(m, 0, q + 1);
      DivModUnique(m, 0, 1);
      assert n + 1 == (q + 1) * m + 0;
      assert r + 1 == 1 * m + 0;
    }
  }

  // ----- the bottom edge, all rows -----

  /** What the bottom edge shows: the last margin of tile rows. */
  ghost function BottomPixels(view: View, w: nat, m: nat): View
    requires m > 0
  {
    (x, y) => view(BottomColumn(w, m, x), 6 * m + y)
  }

  ghost predicate BottomDrawn(dst: seq<int>, view: View, w: nat, m: nat, n: nat)
    requires m > 0
  {
    Holds(dst, w, n, BottomPixels(view, w, m))
  }

  method DrawBottom(tile: array<int>, bottom: array<int>, w: nat, m: nat)
    requires m > 0 && tile != bottom && tile.Length == (7 * m) * (7 * m) && bottom.Length == m * w
    modifies bottom
    ensures BottomDrawn(bottom[..], ViewOf(tile[..], m), w, m, m * w)
  {
    ghost var done := 0;
    for y := 0 to m
      invariant done == y * w && BottomDrawn(bottom[..], ViewOf(tile[..], m), w, m, done)
    {
      RowsUpTo(w, m, y);
      DrawBottomRow(tile, bottom, w, m, y, done);
      done := done + w;
    }
  }

  method DrawBottomRow(tile: array<int>, bottom: array<int>, w: nat, m: nat, y: nat, ghost base: nat)
    requires m > 0 && tile != bottom && tile.Length == (7 * m) * (7 * m) && bottom.Length == m * w
    requires y < m && base == y * w && base + w <= m * w && BottomDrawn(bottom[..], ViewOf(tile[..], m), w, m, base)
    modifies bottom
    ensures BottomDrawn(bottom[..], ViewOf(tile[..], m), w, m, base + w)
  {
    RowsUpTo(7 * m, 7 * m, 6 * m + y);
    CopyBottomRow(tile, (6 * m + y) * (7 * m), bottom, w, m, y, y * w);
  }

  method CopyBottomRow(tile: array<int>, from: nat, bottom: array<int>, w: nat, m: nat, y: nat, base: nat)
    requires m > 0 && tile != bottom && y < m && from == (6 * m + y) * (7 * m) && from + 7 * m <= tile.Length
    requires base == y * w && base + w <= bottom.Length && BottomDrawn(bottom[..], ViewOf(tile[..], m), w, m, base)
    modifies bottom
    ensures BottomDrawn(bottom[..], ViewOf(tile[..], m), w, m, base + w)
  {
    ghost var before := bottom[..];
    RenderBottomRow(tile, from, bottom, base, w, m);
    TileRow(tile[..], m, 6 * m + y, from);
    forall i | base <= i < base + w
      ensures bottom[i] == BottomPixels(ViewOf(tile[..], m), w, m)(i - base, y)
    {
      BottomColumnInside(w, m, i - base);
    }
    RowAdded(before, bottom[..], w, y, base, BottomPixels(ViewOf(tile[..], m), w, m));
  }

  lemma BottomColumnInside(w: nat, m: nat, x: nat)
    requires m > 0 && x < w
    ensures 0 <= BottomColumn(w, m, x) < 7 * m
  {
  }

  // ----- the faded back buffers -----

  /** `(A(x) / 2) << 24`. */
  function Faded(pixel: int): int { (pixel / 0x100_0000 % 256) / 2 * 0x100_0000 }

  /** An ARGB word that holds only alpha, half of the alpha of another, rounded down. */
  predicate IsHalf(half: int, pixel: int) {
    var a, alpha := half / 0x100_0000, pixel / 0x100_0000 % 256;
    half == a * 0x100_0000 && 2 * a <= alpha < 2 * a + 2
  }

  lemma FadedIsHalf(pixel: int)
    ensures IsHalf(Faded(pixel), pixel)
  {
  }

  /** The `copy` macro. */
  method FadeCopy(front: array<int>, back: array<int>)
    requires front != back && front.Length == back.Length
    modifies back
    ensures forall i :: 0 <= i < back.Length ==> IsHalf(back[i], front[i])
  {
    forall pixel ensures IsHalf(Faded(pixel), pixel) { FadedIsHalf(pixel); }
    for i := 0 to front.Length
      invariant forall j :: 0 <= j < i ==> back[j] == Faded(front[j])
    {
      back[i] := Faded(front[i]);
    }
  }

  /** Front and back of the three edges that are drawn from the tile. */
  datatype Edges = Edges(left: array<int>, leftBack: array<int>, right: array<int>, rightBack: array<int>,
                         bottom: array<int>, bottomBack: array<int>)
  {
    predicate Separate(tile: array<int>) {
      && tile !in {left, leftBack, right, rightBack, bottom, bottomBack}
      && left !in {leftBack, right, rightBack, bottom, bottomBack}
      && leftBack !in {right, rightBack, bottom, bottomBack}
      && right !in {rightBack, bottom, bottomBack}
      && rightBack !in {bottom, bottomBack} && bottom != bottomBack
    }

    predicate Sized(w: nat, h: nat, m: nat) {
      && left.Length == leftBack.Length == right.Length == rightBack.Length == h * m
      && bottom.Length == bottomBack.Length == m * w
    }
  }

  /** `render_edges`, for sides of height `h` and a bottom edge of width `w`. */
  method RenderEdges(tile: array<int>, e: Edges, w: nat, h: nat, m: nat)
    requires m > 0 && tile.Length == (7 * m) * (7 * m) && e.Separate(tile) && e.Sized(w, h, m)
    modifies e.left, e.leftBack, e.right, e.rightBack, e.bottom, e.bottomBack
    ensures BottomDrawn(e.bottom[..], ViewOf(tile[..], m), w, m, m * w)
    ensures SidesDrawn(tile, e.left, e.right, m, SideRows(h, m))
    ensures forall i :: 0 <= i < h * m ==> IsHalf(e.leftBack[i], e.left[i]) && IsHalf(e.rightBack[i], e.right[i])
    ensures forall i :: 0 <= i < m * w ==> IsHalf(e.bottomBack[i], e.bottom[i])
  {
    DrawBottom(tile, e.bottom, w, m);
    DrawUpper(tile, e.left, e.right, h, m);
    DrawLower(tile, e.left, e.right, h, m);
    DrawMiddle(tile, e.left, e.right, h, m);
    FadeCopy(e.left, e.leftBack);
    FadeCopy(e.bottom, e.bottomBack);
    FadeCopy(e.right, e.rightBack);
  }

  /** Every pixel of both sides is painted, and with a pixel from inside the tile. */
  lemma SidesCovered(h: nat, m: nat, y: nat)
    requires m > 0 && y < h
    ensures 0 <= SideRows(h, m)[y] < 7 * m
  {
  }

  /** From six margins on, a bottom row is three margins of corner, a middle that repeats one
      margin of the tile, and three margins of corner. */
  lemma WideBottomFormula(w: nat, m: nat, x: nat)
    requires m > 0 && 6 * m <= w && x < w
    ensures BottomColumn(w, m, x) ==
      if x < 3 * m then x else if x < w - 3 * m then 3 * m + (x - 3 * m) % m else 7 * m - (w - x)
  {
  }

  /** A narrower row is the right corner, over what is left of the left one. */
  lemma NarrowBottomFormula(w: nat, m: nat, x: nat)
    requires m > 0 && w < 6 * m && x < w
    ensures BottomColumn(w, m, x) == if w <= 3 * m then 4 * m + x else if x < w - 3 * m then x else 7 * m - (w - x)
  {
  }

  /** From five margins on, a side is three margins of upper corner, a middle that repeats one margin
      of the tile, and two margins of lower corner, after which the bottom edge goes on with the next
      row of the tile. */
  lemma TallSideFormula(h: nat, m: nat, y: nat)
    requires m > 0 && 5 * m <= h && y < h
    ensures SideRow(h, m, y) ==
      if y < 3 * m then y else if y < h - 2 * m then 3 * m + (y - 3 * m) % m else 6 * m - (h - y)
  {
  }

  /** A shorter one is the lower corner, over what is left of the upper one. */
  lemma ShortSideFormula(h: nat, m: nat, y: nat)
    requires m > 0 && h < 5 * m && y < h
    ensures SideRow(h, m, y) == if h <= 2 * m then 4 * m + y else if y < h - 2 * m then y else 6 * m - (h - y)
  {
  }

  // ----- no seams -----

  lemma ViewOfTile(tile: seq<int>, m: nat, k: seq<real>, x: int, y: int)
    requires m > 0 && IsTile(tile, m, k) && 0 <= x < 7 * m && 0 <= y < 7 * m
    ensures ViewOf(tile, m)(x, y) == TilePixel(k, m, x, y)
  {
    InBounds(7 * m, 7 * m, x, y);
  }

  /** Half of an alpha of at most 178, rounded down: at most 89, and 0 exactly for 0 and 1. */
  predicate HalfTheTile(back: int, alpha: int) {
    var a := back / 0x100_0000;
    && 0 <= alpha <= 178 && back == a * 0x100_0000 && 2 * a <= alpha < 2 * a + 2
    && a <= 89 && (back == 0 <==> alpha <= 1)
  }

  /** A pixel copied from the tile, and its faded copy. */
  lemma HalfOfTile(tile: seq<int>, m: nat, k: seq<real>, x: int, y: int, front: int, back: int)
    requires m > 0 && IsTile(tile, m, k) && Kernel(k) && 0 <= x < 7 * m && 0 <= y < 7 * m
    requires front == ViewOf(tile, m)(x, y) && IsHalf(back, front)
    ensures front == TileAlpha(k, m, x, y) * 0x100_0000 && HalfTheTile(back, TileAlpha(k, m, x, y))
  {
    ViewOfTile(tile, m, k, x, y);
    OpacityFits(k, m, x, y);
  }

  /** With fronts drawn from the tile, every pixel of a back of the sides has half the alpha of the tile
      at the row and column of its front. */
  lemma SideBackIsHalf(front: seq<int>, back: seq<int>, tile: seq<int>, h: nat, m: nat, column: nat, k: seq<real>,
        i: nat)
    requires m > 0 && IsTile(tile, m, k) && Kernel(k) && column + m <= 7 * m
    requires |front| == h * m && Drawn(front, ViewOf(tile, m), m, column, SideRows(h, m))
    requires i < h * m && i < |back| && IsHalf(back[i], front[i])
    ensures HalfTheTile(back[i], TileAlpha(k, m, column + i % m, SideRow(h, m, i / m)))
  {
    RowOf(m, h, i);
    SidesCovered(h, m, i / m);
    HalfOfTile(tile, m, k, column + i % m, SideRow(h, m, i / m), front[i], back[i]);
  }

  /** The same for the bottom edge. */
  lemma BottomBackIsHalf(front: seq<int>, back: seq<int>, tile: seq<int>, w: nat, m: nat, k: seq<real>, i: nat)
    requires m > 0 && w > 0 && IsTile(tile, m, k) && Kernel(k)
    requires |front| == m * w && BottomDrawn(front, ViewOf(tile, m), w, m, m * w)
    requires i < m * w && i < |back| && IsHalf(back[i], front[i])
    ensures HalfTheTile(back[i], TileAlpha(k, m, BottomColumn(w, m, i % w), 6 * m + i / w))
  {
    RowOf(w, m, i);
    HalfOfTile(tile, m, k, BottomColumn(w, m, i % w), 6 * m + i / w, front[i], back[i]);
  }

  /** Wherever the corners and the repeated middle meet, the shadow does not show it: except
      within two margins of its ends, a bottom edge of any width has one colour per row. */
  lemma BottomIsSeamless(dst: seq<int>, tile: seq<int>, w: nat, m: nat, k: seq<real>, i: nat, j: nat)
    requires m > 0 && IsTile(tile, m, k) && Kernel(k) && |k| == 2 * m + 1
    requires BottomDrawn(dst, ViewOf(tile, m), w, m, m * w)
    requires i < m * w && j < m * w && w > 0 && i / w == j / w
    requires 2 * m <= i % w < w - 2 * m && 2 * m <= j % w < w - 2 * m
    ensures dst[i] == dst[j]
  {
    RowOf(w, m, i);
    var r := 6 * m + i / w;
    ViewOfTile(tile, m, k, BottomColumn(w, m, i % w), r);
    ViewOfTile(tile, m, k, BottomColumn(w, m, j % w), r);
    MiddleIsUniform(k, m, BottomColumn(w, m, i % w), BottomColumn(w, m, j % w), r);
  }

  /** The same down the sides: from two margins below the top to one margin above the bottom,
      a column has one colour. */
  lemma SideIsSeamless(dst: seq<int>, tile: seq<int>, h: nat, m: nat, column: nat, k: seq<real>, i: nat, j: nat)
    requires m > 0 && IsTile(tile, m, k) && Kernel(k) && |k| == 2 * m + 1 && column + m <= 7 * m
    requires |dst| == h * m && Drawn(dst, ViewOf(tile, m), m, column, SideRows(h, m))
    requires i < h * m && j < h * m && i % m == j % m
    requires 2 * m <= i / m < h - m && 2 * m <= j / m < h - m
    ensures dst[i] == dst[j]
  {
    var c := column + i % m;
    ViewOfTile(tile, m, k, c, SideRow(h, m, i / m));
    ViewOfTile(tile, m, k, c, SideRow(h, m, j / m));
    MiddleIsUniform(k, m, SideRow(h, m, i / m), SideRow(h, m, j / m), c);
  }

  // ----- the shared mapping -----

  /** `_GLFWWaylandBufferPair` as far as sizes go. */
  datatype PairSize = PairSize(width: nat, height: nat, stride: nat, sizeInBytes: nat)

  /** `init_buffer_pair`. */
  function InitPair(width: nat, height: nat, scale: nat): PairSize {
    var w, h := width * scale, height * scale;
    PairSize(w, h, 4 * w, 4 * w * h)
  }

  function TotalSize(pairs: seq<PairSize>): nat {
    if pairs == [] then 0 else TotalSize(pairs[..|pairs| - 1]) + 2 * pairs[|pairs| - 1].sizeInBytes
  }

  /** A sub-buffer of the mapping. */
  datatype Chunk = Chunk(offset: nat, size: nat)

  /** Two chunks for each pair, of its size. */
  ghost predicate TwoOfEach(chunks: seq<Chunk>, pairs: seq<PairSize>) {
    && |chunks| == 2 * |pairs|
    && forall p :: 0 <= p < |pairs| ==>
      chunks[2 * p].size == pairs[p].sizeInBytes && chunks[2 * p + 1].size == pairs[p].sizeInBytes
  }

  /** Each pair takes the next two sub-buffers. */
  function Layout(pairs: seq<PairSize>): seq<Chunk> {
    if pairs == [] then []
    else
      var before, n := pairs[..|pairs| - 1], pairs[|pairs| - 1].sizeInBytes;
      Layout(before) + [Chunk(TotalSize(before), n), Chunk(TotalSize(before) + n, n)]
  }

  lemma {:induction false} LayoutTiles(pairs: seq<PairSize>)
    ensures Tiles(Layout(pairs), TotalSize(pairs))
  {
    if pairs != [] {
      var before := pairs[..|pairs| - 1];
      LayoutTiles(before);
      TilesAppendPair(Layout(before), TotalSize(before), pairs[|pairs| - 1].sizeInBytes);
    }
  }

  lemma {:induction false} LayoutPairs(pairs: seq<PairSize>)
    ensures TwoOfEach(Layout(pairs), pairs)
  {
    if pairs != [] { LayoutPairs(pairs[..|pairs| - 1]); }
  }

  /** The `alloc_buffer_pair` calls. */
  method AllocPairs(pairs: seq<PairSize>) returns (chunks: seq<Chunk>, size: nat)
    ensures size == TotalSize(pairs) && Tiles(chunks, size) && TwoOfEach(chunks, pairs)
  {
    chunks, size := [], 0;
    for p := 0 to |pairs|
      invariant size == TotalSize(pairs[..p]) && chunks == Layout(pairs[..p])
    {
      var n := pairs[p].sizeInBytes;
      assert pairs[..p + 1][..p] == pairs[..p];
      chunks := chunks + [Chunk(size, n), Chunk(size + n, n)];
      size := size + n + n;
    }
    assert pairs[..|pairs|] == pairs;
    LayoutTiles(pairs);
    LayoutPairs(pairs);
  }

  lemma TilesAppendPair(chunks: seq<Chunk>, size: nat, n: nat)
    requires Tiles(chunks, size)
    ensures Tiles(chunks + [Chunk(size, n), Chunk(size + n, n)], size + n + n)
  {
    TilesAppend(chunks, size, n);
    TilesAppend(chunks + [Chunk(size, n)], size + n, n);
    assert chunks + [Chunk(size, n)] + [Chunk(size + n, n)] == chunks + [Chunk(size, n), Chunk(size + n, n)];
  }

  lemma TilesAppend(chunks: seq<Chunk>, size: nat, n: nat)
    requires Tiles(chunks, size)
    ensures Tiles(chunks + [Chunk(size, n)], size + n)
  {
  }

  /** Consecutive chunks touch, the first starts at 0 and the last ends at the size. */
  ghost predicate Tiles(chunks: seq<Chunk>, size: nat) {
    && (chunks == [] ==> size == 0)
    && (chunks != [] ==> chunks[0].offset == 0 && chunks[|chunks| - 1].offset + chunks[|chunks| - 1].size == size)
    && forall i :: 0 <= i < |chunks| - 1 ==> chunks[i].offset + chunks[i].size == chunks[i + 1].offset
  }

  predicate InChunk(c: Chunk, at: int) { c.offset <= at < c.offset + c.size }

  lemma {:induction false} ChunksOrdered(chunks: seq<Chunk>, size: nat, i: nat, j: nat)
    requires Tiles(chunks, size) && i < j < |chunks|
    ensures chunks[i].offset + chunks[i].size <= chunks[j].offset
    decreases j - i
  {
    if i + 1 < j { ChunksOrdered(chunks, size, i + 1, j); }
  }

  lemma {:induction false} ChunkOf(chunks: seq<Chunk>, size: nat, n: nat, at: nat) returns (i: nat)
    requires Tiles(chunks, size) && 0 < n <= |chunks| && at < chunks[n - 1].offset + chunks[n - 1].size
    ensures i < n && InChunk(chunks[i], at)
  {
    if at >= chunks[n - 1].offset {
      i := n - 1;
    } else {
      assert n > 1;
      i := ChunkOf(chunks, size, n - 1, at);
    }
  }

  /** The sub-buffers cover the mapping without gap or overlap: every byte of it lies in
      exactly one of them. */
  lemma MappingIsTiled(chunks: seq<Chunk>, size: nat, at: nat)
    requires Tiles(chunks, size)
    ensures at < size <==> exists i :: 0 <= i < |chunks| && InChunk(chunks[i], at)
    ensures forall i, j ::
      0 <= i < |chunks| && 0 <= j < |chunks| && InChunk(chunks[i], at) && InChunk(chunks[j], at) ==> i == j
  {
    forall i, j | 0 <= i < |chunks| && 0 <= j < |chunks| && InChunk(chunks[i], at) && InChunk(chunks[j], at)
      ensures i == j
    {
      if i < j { ChunksOrdered(chunks, size, i, j); }
      if j < i { ChunksOrdered(chunks, size, j, i); }
    }
    if at < size {
      var i := ChunkOf(chunks, size, |chunks|, at);
    }
    forall i | 0 <= i < |chunks| && InChunk(chunks[i], at)
      ensures at < size
    {
      if i < |chunks| - 1 { ChunksOrdered(chunks, size, i, |chunks| - 1); }
    }
  }

  /** A buffer is `scale` times as wide and high, in rows of four bytes for each pixel; a pixel's bytes lie
      inside it, and different pixels use different bytes. */
  lemma PixelBytes(p: PairSize, width: nat, height: nat, scale: nat, x: nat, y: nat)
    requires p == InitPair(width, height, scale) && x < p.width && y < p.height
    ensures p.width == width * scale && p.height == height * scale
    ensures p.stride == 4 * p.width && p.sizeInBytes == p.height * p.stride
    ensures y * p.stride + 4 * x + 4 <= p.sizeInBytes
    ensures (y * p.stride + 4 * x) / 4 == y * p.width + x
  {
    InBounds(p.width, p.height, x, y);
    assert y * (4 * p.width) + 4 * x == 4 * (y * p.width + x);
    assert 4 * p.width * p.height == 4 * (p.height * p.width) == p.height * (4 * p.width);
  }
}
