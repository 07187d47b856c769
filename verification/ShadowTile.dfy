/** The shadow tile of glfw/wl_client_side_decorations.c: a blurred rectangle, quantised to
    8-bit alpha, from which every decoration edge is copied. */
module ShadowTile {
  import opened ShadowMask

  // ----- the rectangle before blurring -----

  function Rectangle(w: nat, h: nat, margin: nat, alpha: real): Plane {
    (x, y) => if margin <= x < w - margin && margin <= y < h - margin then alpha else 0.0
  }

  /** How much of the kernel, centred at `x`, falls on `[lo, hi)`. */
  function Share(k: seq<real>, lo: int, hi: int, x: int, n: nat): real
    requires n <= |k|
  {
    if n == 0 then 0.0
    else
      var at := x + (n - 1) - |k| / 2;
      Share(k, lo, hi, x, n - 1) + (if lo <= at < hi then k[n - 1] else 0.0)
  }

  lemma Scale(a: real, s: real, t: real, u: real)
    requires u == s + t
    ensures a * s + a * t == a * u
  {
  }

  lemma {:induction false} RowTapsOfBand(p: Plane, k: seq<real>, lo: int, hi: int, a: real, x: int, y: int, n: nat)
      returns (share: real)
    requires n <= |k| && forall u :: p(u, y) == if lo <= u < hi then a else 0.0
    ensures share == Share(k, lo, hi, x, n) && RowTaps(p, k, x, y, n) == a * share
  {
    share := 0.0;
    if n > 0 {
      var before := RowTapsOfBand(p, k, lo, hi, a, x, y, n - 1);
      var at := x + (n - 1) - |k| / 2;
      var tap := if lo <= at < hi then k[n - 1] else 0.0;
      share := before + tap;
      Scale(a, before, tap, share);
    }
  }

  lemma {:induction false} ColumnTapsOfBand(q: Plane, k: seq<real>, lo: int, hi: int, a: real, x: int, y: int, n: nat)
      returns (share: real)
    requires n <= |k| && forall v :: q(x, v) == if lo <= v < hi then a else 0.0
    ensures share == Share(k, lo, hi, y, n) && ColumnTaps(q, k, x, y, n) == a * share
  {
    share := 0.0;
    if n > 0 {
      var before := ColumnTapsOfBand(q, k, lo, hi, a, x, y, n - 1);
      var at := y + (n - 1) - |k| / 2;
      var tap := if lo <= at < hi then k[n - 1] else 0.0;
      share := before + tap;
      Scale(a, before, tap, share);
    }
  }

  /** A row of the rectangle blurs to the share of the kernel on it; other rows blur to nothing. */
  lemma RectangleRow(w: nat, h: nat, m: nat, a: real, k: seq<real>, x: int, row: int, s: real, c: real)
    requires s == Share(k, m, w - m, x, |k|) && c == a * s
    ensures RowTaps(Rectangle(w, h, m, a), k, x, row, |k|) == if m <= row < h - m then c else 0.0
  {
    if m <= row < h - m {
      var share := RowTapsOfBand(Rectangle(w, h, m, a), k, m, w - m, a, x, row, |k|);
      SameProduct(a, share, s, c);
    } else {
      RowTapsOfNothing(Rectangle(w, h, m, a), k, x, row, |k|);
    }
  }

  lemma SameProduct(a: real, share: real, s: real, c: real)
    requires share == s && c == a * s
    ensures a * share == c
  {
  }

  ghost predicate IsBand(q: Plane, x: int, lo: int, hi: int, c: real) {
    forall v :: q(x, v) == if lo <= v < hi then c else 0.0
  }

  lemma RowsOfRectangle(w: nat, h: nat, m: nat, a: real, k: seq<real>, x: int, s: real, c: real)
    requires s == Share(k, m, w - m, x, |k|) && c == a * s
    ensures IsBand(RowBlur(Rectangle(w, h, m, a), k), x, m, h - m, c)
  {
    forall v ensures RowBlur(Rectangle(w, h, m, a), k)(x, v) == if m <= v < h - m then c else 0.0 {
      RectangleRow(w, h, m, a, k, x, v, s, c);
    }
  }

  function Tint(alpha: real, s: real, t: real): real { alpha * s * t }

  lemma ColumnOfBand(q: Plane, k: seq<real>, lo: int, hi: int, a: real, s: real, c: real, x: int, y: int, n: nat)
      returns (t: real)
    requires n <= |k| && IsBand(q, x, lo, hi, c) && c == a * s
    ensures t == Share(k, lo, hi, y, n) && ColumnTaps(q, k, x, y, n) == Tint(a, s, t)
  {
    t := ColumnTapsOfBand(q, k, lo, hi, c, x, y, n);
    Regroup(a, s, t, c);
  }

  lemma Regroup(a: real, s: real, t: real, c: real)
    requires c == a * s
    ensures c * t == Tint(a, s, t)
  {
  }

  /** The blur of a rectangle is the product of the blurs of its two sides. */
  lemma {:induction false} ConvolutionOfRectangle(w: nat, h: nat, m: nat, a: real, k: seq<real>, x: int, y: int, n: nat)
    requires n <= |k|
    ensures Convolution(Rectangle(w, h, m, a), k, x, y, n)
      == Tint(a, Share(k, m, w - m, x, |k|), Share(k, m, h - m, y, n))
  {
    var p, s := Rectangle(w, h, m, a), Share(k, m, w - m, x, |k|);
    RowsOfRectangle(w, h, m, a, k, x, s, a * s);
    Separable(p, RowBlur(p, k), k, x, y, n);
    var t := ColumnOfBand(RowBlur(p, k), k, m, h - m, a, s, a * s, x, y, n);
  }

  lemma {:induction false} ShareInRange(k: seq<real>, lo: int, hi: int, x: int, n: nat)
    requires n <= |k| && Positive(k)
    ensures 0.0 <= Share(k, lo, hi, x, n) <= Sum(k[..n])
  {
    if n > 0 {
      ShareInRange(k, lo, hi, x, n - 1);
      SumPrefix(k, n - 1);
    }
  }

  /** Away from the ends of the band the whole kernel falls on it. */
  lemma {:induction false} ShareInside(k: seq<real>, lo: int, hi: int, x: int, n: nat)
    requires n <= |k| && lo <= x - |k| / 2 && x - |k| / 2 + n <= hi
    ensures Share(k, lo, hi, x, n) == Sum(k[..n])
  {
    if n > 0 {
      ShareInside(k, lo, hi, x, n - 1);
      SumPrefix(k, n - 1);
    }
  }

  /** `create_shadow_mask`. */
  method CreateShadowMask(w: nat, h: nat, margin: nat, kernelSize: nat, alpha: real, sigma: real, exp: real -> real)
      returns (mask: array<real>, ghost k: seq<real>)
    requires margin <= w && margin <= h && sigma != 0.0 && PositiveFunction(exp)
    ensures fresh(mask) && mask.Length == h * w && |k| == kernelSize && IsBlurKernel(k, sigma, exp)
    ensures Holds(mask[..], w, h * w, Blur(Rectangle(w, h, margin, alpha), k))
  {
    mask := new real[h * w](i => 0.0);
    FillRectangle(mask, w, h, margin, alpha);
    ghost var img := mask[..];
    var scratch, kernel := new real[h * w](i => 0.0), new real[kernelSize](i => 0.0);
    BlurMask(mask, w, h, sigma, scratch, kernel, exp);
    k := kernel[..];
    SamePlaneSameBlur(img, mask[..], w, h, margin, alpha, k);
  }

  lemma SamePlaneSameBlur(img: seq<real>, out: seq<real>, w: nat, h: nat, margin: nat, alpha: real, k: seq<real>)
    requires |img| == h * w && Holds(img, w, h * w, Rectangle(w, h, margin, alpha))
    requires Holds(out, w, h * w, Blur(PlaneOf(img, w, h), k))
    ensures Holds(out, w, h * w, Blur(Rectangle(w, h, margin, alpha), k))
  {
    forall x, y
      ensures PlaneOf(img, w, h)(x, y) == Rectangle(w, h, margin, alpha)(x, y)
    {
      if 0 <= x < w && 0 <= y < h { InBounds(w, h, x, y); }
    }
    forall i | 0 <= i < h * w && w > 0
      ensures out[i] == Blur(Rectangle(w, h, margin, alpha), k)(i % w, i / w)
    {
      EqualPlanes(PlaneOf(img, w, h), Rectangle(w, h, margin, alpha), k, i % w, i / w, |k|);
    }
  }

  lemma {:induction false} EqualPlanes(p: Plane, q: Plane, k: seq<real>, x: int, y: int, n: nat)
    requires n <= |k| && forall u, v :: p(u, v) == q(u, v)
    ensures Convolution(p, k, x, y, n) == Convolution(q, k, x, y, n)
  {
    if n > 0 {
      EqualPlanes(p, q, k, x, y, n - 1);
      EqualRows(p, q, k, x, y, n - 1, |k|);
    }
  }

  lemma {:induction false} EqualRows(p: Plane, q: Plane, k: seq<real>, x: int, y: int, j: nat, n: nat)
    requires j < |k| && n <= |k| && forall u, v :: p(u, v) == q(u, v)
    ensures ProductRow(p, k, x, y, j, n) == ProductRow(q, k, x, y, j, n)
  {
    if n > 0 { EqualRows(p, q, k, x, y, j, n - 1); }
  }

  /** The loops that set the rectangle in a zeroed mask. */
  method FillRectangle(mask: array<real>, w: nat, h: nat, margin: nat, alpha: real)
    requires mask.Length == h * w && margin <= w && margin <= h
    requires forall i :: 0 <= i < mask.Length ==> mask[i] == 0.0
    modifies mask
    ensures Holds(mask[..], w, h * w, Rectangle(w, h, margin, alpha))
  {
    var y := margin;
    while y < h - margin
      invariant margin <= y && (y <= h - margin || y == margin)
      invariant forall i :: 0 <= i < mask.Length && w > 0 ==>
        mask[i] == if i / w < y then Rectangle(w, h, margin, alpha)(i % w, i / w) else 0.0
    {
      FillRow(mask, w, h, margin, alpha, y);
      y := y + 1;
    }
    RowsInside(w, h);
  }

  lemma RowsInside(w: nat, h: nat)
    ensures h * w > 0 ==> w > 0
    ensures forall i :: 0 <= i < h * w && w > 0 ==> 0 <= i % w < w && 0 <= i / w < h
  {
    forall i | 0 <= i < h * w && w > 0
      ensures 0 <= i / w < h
    {
      RowOf(w, h, i);
    }
  }

  lemma RowOf(w: nat, h: nat, i: nat)
    requires i < h * w && w > 0
    ensures 0 <= i / w < h
  {
    assert i == w * (i / w) + i % w;
    MulAtLeast(w, i / w - h);
    assert w * (i / w - h) == w * (i / w) - h * w;
  }

  method FillRow(mask: array<real>, w: nat, h: nat, margin: nat, alpha: real, y: nat)
    requires mask.Length == h * w && margin <= w && margin <= y < h - margin
    requires forall i :: 0 <= i < mask.Length && w > 0 ==>
      mask[i] == if i / w < y then Rectangle(w, h, margin, alpha)(i % w, i / w) else 0.0
    modifies mask
    ensures forall i :: 0 <= i < mask.Length && w > 0 ==>
      mask[i] == if i / w < y + 1 then Rectangle(w, h, margin, alpha)(i % w, i / w) else 0.0
  {
    var x := margin;
    while x < w - margin
      invariant margin <= x && (x <= w - margin || x == margin)
      invariant forall i :: 0 <= i < mask.Length && w > 0 ==>
        mask[i] == if i / w < y || (i / w == y && i % w < x) then Rectangle(w, h, margin, alpha)(i % w, i / w) else 0.0
    {
      InBounds(w, h, x, y);
      mask[y * w + x] := alpha;
      OnlyThere(w, h, x, y);
      x := x + 1;
    }
  }

  lemma OnlyThere(w: nat, h: nat, x: nat, y: nat)
    requires x < w && y < h
    ensures forall i :: 0 <= i < h * w && i / w == y && i % w == x ==> i == y * w + x
    ensures (y * w + x) / w == y && (y * w + x) % w == x
  {
    InBounds(w, h, x, y);
    forall i | 0 <= i < h * w && i / w == y && i % w == x
      ensures i == y * w + x
    {
      assert i == w * (i / w) + i % w;
    }
  }

  // ----- the tile -----

  const BASE_ALPHA: real := 0.7
  const SEGMENTS := 7

  function Opacity(v: real): int { (v * 255.0).Floor }

  /** An ARGB word that holds only alpha. */
  function AlphaWord(v: real): int { Opacity(v) * 0x100_0000 }

  /** The mask value of the tile for margin `m` and kernel `k`. */
  function TileMask(k: seq<real>, m: nat, x: int, y: int): real {
    Tint(BASE_ALPHA, Share(k, m, 6 * m, x, |k|), Share(k, m, 6 * m, y, |k|))
  }

  /** The quantised pixel of the tile. */
  function TilePixel(k: seq<real>, m: nat, x: int, y: int): int {
    AlphaWord(TileMask(k, m, x, y))
  }

  /** Its alpha. */
  function TileAlpha(k: seq<real>, m: nat, x: int, y: int): int { Opacity(TileMask(k, m, x, y)) }

  /** The 8-bit conversion never overflows: blurring keeps the mask in `[0, 0.7]`. */
  lemma OpacityFits(k: seq<real>, m: nat, x: int, y: int)
    requires Kernel(k)
    ensures 0.0 <= TileMask(k, m, x, y) <= BASE_ALPHA && 0 <= Opacity(TileMask(k, m, x, y)) <= 178
  {
    ShareInRange(k, m, 6 * m, x, |k|);
    ShareInRange(k, m, 6 * m, y, |k|);
    assert k[..|k|] == k;
    assert Sum(k) <= 1.0;
    TintFits(Share(k, m, 6 * m, x, |k|), Share(k, m, 6 * m, y, |k|));
    FloorFits(TileMask(k, m, x, y));
  }

  lemma TintFits(s: real, t: real)
    requires 0.0 <= s <= 1.0 && 0.0 <= t <= 1.0
    ensures 0.0 <= Tint(BASE_ALPHA, s, t) <= BASE_ALPHA
  {
    assert 0.0 <= s * t <= s;
    assert BASE_ALPHA * s * t == BASE_ALPHA * (s * t);
  }

  lemma FloorFits(v: real)
    requires 0.0 <= v <= BASE_ALPHA
    ensures 0 <= Opacity(v) <= 178
  {
  }

  ghost predicate IsTile(tile: seq<int>, m: nat, k: seq<real>) {
    && |tile| == (SEGMENTS * m) * (SEGMENTS * m)
    && forall i :: 0 <= i < |tile| && m > 0 ==> tile[i] == TilePixel(k, m, i % (SEGMENTS * m), i / (SEGMENTS * m))
  }

  /** The loop that turns the mask into ARGB words; the 8-bit cast is `% 256`. */
  method Quantise(mask: array<real>) returns (tile: array<int>)
    ensures fresh(tile) && tile.Length == mask.Length
    ensures forall i :: 0 <= i < tile.Length ==> tile[i] == (Opacity(mask[i]) % 256) * 0x100_0000
  {
    tile := new int[mask.Length];
    for i := 0 to mask.Length
      invariant forall j :: 0 <= j < i ==> tile[j] == (Opacity(mask[j]) % 256) * 0x100_0000
    {
      tile[i] := (Opacity(mask[i]) % 256) * 0x100_0000;
    }
  }

  /** The tile's kernel: `2 * margin + 1` taps for the spread `32 * margin`. */
  ghost predicate IsTileKernel(k: seq<real>, margin: nat, exp: real -> real) {
    margin > 0 && |k| == 2 * margin + 1 && IsBlurKernel(k, 32.0 * margin as real, exp)
  }

  /** A word of only alpha: the value in 255ths, rounded down, at most 178. */
  predicate Quantises(word: int, v: real) {
    var alpha := word / 0x100_0000;
    word == alpha * 0x100_0000 && alpha as real <= v * 255.0 < alpha as real + 1.0 && 0 <= alpha <= 178
  }

  /** Every word of the tile is the quantised blur of the rectangle one margin inside it, of opacity 0.7. */
  ghost predicate QuantisesBlur(tile: seq<int>, m: nat, k: seq<real>)
    requires m > 0
  {
    && |tile| == (7 * m) * (7 * m)
    && forall i :: 0 <= i < |tile| ==>
      Quantises(tile[i], Blur(Rectangle(7 * m, 7 * m, m, 0.7), k)(i % (7 * m), i / (7 * m)))
  }

  lemma PixelQuantises(k: seq<real>, m: nat, x: int, y: int)
    requires Kernel(k)
    ensures Quantises(TilePixel(k, m, x, y), Blur(Rectangle(7 * m, 7 * m, m, 0.7), k)(x, y))
  {
    MaskIsTile(k, m, x, y);
    OpacityFits(k, m, x, y);
  }

  lemma TileQuantises(tile: seq<int>, m: nat, k: seq<real>)
    requires m > 0 && IsTile(tile, m, k) && Kernel(k)
    ensures QuantisesBlur(tile, m, k)
  {
    forall i | 0 <= i < |tile|
      ensures Quantises(tile[i], Blur(Rectangle(7 * m, 7 * m, m, 0.7), k)(i % (7 * m), i / (7 * m)))
    {
      PixelQuantises(k, m, i % (7 * m), i / (7 * m));
    }
  }

  /** `create_shadow_tile` for a margin it has not built yet. */
  method CreateShadowTile(margin: nat, exp: real -> real) returns (tile: array<int>)
    requires margin > 0 && PositiveFunction(exp)
    ensures exists k ::
      IsTileKernel(k, margin, exp) && IsTile(tile[..], margin, k) && QuantisesBlur(tile[..], margin, k)
  {
    ghost var k;
    tile, k := BuildTile(margin, SEGMENTS * margin, 32.0 * margin as real, exp);
    assert IsTileKernel(k, margin, exp);
    TileQuantises(tile[..], margin, k);
  }

  method BuildTile(margin: nat, stride: nat, sigma: real, exp: real -> real)
        returns (tile: array<int>, ghost k: seq<real>)
    requires margin > 0 && stride == SEGMENTS * margin && sigma != 0.0 && PositiveFunction(exp)
    ensures |k| == 2 * margin + 1 && IsBlurKernel(k, sigma, exp) && IsTile(tile[..], margin, k)
  {
    var mask;
    mask, k := CreateShadowMask(stride, stride, margin, 2 * margin + 1, BASE_ALPHA, sigma, exp);
    tile := Quantise(mask);
    QuantisedMaskIsTile(mask[..], tile[..], margin, k);
  }

  lemma QuantisedMaskIsTile(mask: seq<real>, tile: seq<int>, m: nat, k: seq<real>)
    requires m > 0 && |tile| == |mask| == (SEGMENTS * m) * (SEGMENTS * m) && Kernel(k)
    requires Holds(mask, SEGMENTS * m, |mask|, Blur(Rectangle(SEGMENTS * m, SEGMENTS * m, m, BASE_ALPHA), k))
    requires forall i :: 0 <= i < |tile| ==> tile[i] == (Opacity(mask[i]) % 256) * 0x100_0000
    ensures IsTile(tile, m, k)
  {
    var stride := SEGMENTS * m;
    forall i | 0 <= i < |tile|
      ensures tile[i] == TilePixel(k, m, i % stride, i / stride)
    {
      MaskIsTile(k, m, i % stride, i / stride);
      QuantisedPixel(mask[i], k, m, i % stride, i / stride);
    }
  }

  lemma QuantisedPixel(v: real, k: seq<real>, m: nat, x: int, y: int)
    requires Kernel(k) && v == TileMask(k, m, x, y)
    ensures (Opacity(v) % 256) * 0x100_0000 == TilePixel(k, m, x, y)
  {
    OpacityFits(k, m, x, y);
  }

  lemma MaskIsTile(k: seq<real>, m: nat, x: int, y: int)
    ensures Blur(Rectangle(7 * m, 7 * m, m, BASE_ALPHA), k)(x, y) == TileMask(k, m, x, y)
  {
    ConvolutionOfRectangle(7 * m, 7 * m, m, BASE_ALPHA, k, x, y, |k|);
  }

  /** In the middle three segments the kernel lies wholly on the band, so the tile is constant
      there along each axis. */
  lemma MiddleIsUniform(k: seq<real>, m: nat, c: int, d: int, r: int)
    requires Kernel(k) && |k| == 2 * m + 1
    requires 2 * m <= c < 5 * m && 2 * m <= d < 5 * m
    ensures TilePixel(k, m, c, r) == TilePixel(k, m, d, r)
    ensures TilePixel(k, m, r, c) == TilePixel(k, m, r, d)
  {
    ShareInside(k, m, 6 * m, c, |k|);
    ShareInside(k, m, 6 * m, d, |k|);
    assert Share(k, m, 6 * m, c, |k|) == Share(k, m, 6 * m, d, |k|);
  }
}
