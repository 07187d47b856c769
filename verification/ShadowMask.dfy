/** The blurred shadow mask of glfw/wl_client_side_decorations.c over the reals: a normalised
    kernel, a horizontal and a vertical pass, and the rectangle they are applied to. `exp` is
    an arbitrary positive function. */
module ShadowMask {

  // ----- sums -----

  function Sum(s: seq<real>): real {
    if s == [] then 0.0 else Sum(s[..|s| - 1]) + s[|s| - 1]
  }

  lemma SumPrefix(s: seq<real>, n: nat)
    requires n < |s|
    ensures Sum(s[..n + 1]) == Sum(s[..n]) + s[n]
  {
    assert s[..n + 1][..n] == s[..n];
  }

  ghost predicate Positive(s: seq<real>) { forall i :: 0 <= i < |s| ==> s[i] > 0.0 }

  lemma {:induction false} SumPositive(s: seq<real>)
    requires Positive(s)
    ensures Sum(s) >= 0.0 && (s != [] ==> Sum(s) > 0.0)
  {
    if s != [] { SumPositive(s[..|s| - 1]); }
  }

  lemma {:induction false} SumScaled(s: seq<real>, t: seq<real>, c: real)
    requires |t| == |s| && c != 0.0 && forall i :: 0 <= i < |s| ==> t[i] == s[i] / c
    ensures Sum(t) == Sum(s) / c
  {
    if s != [] {
      SumScaled(s[..|s| - 1], t[..|t| - 1], c);
      DivideSum(Sum(s[..|s| - 1]), s[|s| - 1], c);
    }
  }

  lemma DivideSum(a: real, b: real, c: real)
    requires c != 0.0
    ensures a / c + b / c == (a + b) / c
  {
  }

  // ----- the kernel -----

  ghost predicate PositiveFunction(exp: real -> real) { forall x :: exp(x) > 0.0 }

  /** The weight of tap `i` before normalisation. */
  function RawWeight(exp: real -> real, size: nat, sigma: real, i: nat): real
    requires sigma != 0.0
  {
    var f := i as real - size as real / 2.0;
    exp(-f * f / sigma)
  }

  function RawKernel(exp: real -> real, size: nat, sigma: real): seq<real>
    requires sigma != 0.0
  {
    seq(size, i requires 0 <= i < size => RawWeight(exp, size, sigma, i))
  }

  /** Positive weights of total 1 (a kernel without taps has none). */
  ghost predicate Kernel(k: seq<real>) { Positive(k) && (k != [] ==> Sum(k) == 1.0) }

  /** The same weights scaled to total 1. */
  ghost predicate IsNormalised(k: seq<real>, raw: seq<real>, total: real) {
    Kernel(k) && |k| == |raw| && forall i :: 0 <= i < |k| ==> k[i] * total == raw[i]
  }

  ghost predicate IsBlurKernel(k: seq<real>, sigma: real, exp: real -> real)
    requires sigma != 0.0
  {
    IsNormalised(k, RawKernel(exp, |k|, sigma), Sum(RawKernel(exp, |k|, sigma)))
  }

  /** The first loop of `build_blur_kernel`. */
  method FillRaw(kernel: array<real>, sigma: real, exp: real -> real) returns (sum: real)
    requires sigma != 0.0
    modifies kernel
    ensures kernel[..] == RawKernel(exp, kernel.Length, sigma) && sum == Sum(kernel[..])
  {
    sum := 0.0;
    for i := 0 to kernel.Length
      invariant forall j :: 0 <= j < i ==> kernel[j] == RawWeight(exp, kernel.Length, sigma, j)
      invariant sum == Sum(kernel[..i])
    {
      ghost var before := kernel[..i];
      kernel[i] := RawWeight(exp, kernel.Length, sigma, i);
      assert kernel[..i] == before;
      SumPrefix(kernel[..], i);
      assert kernel[..][..i + 1] == kernel[..i + 1] && kernel[..][..i] == kernel[..i];
      sum := sum + kernel[i];
    }
    assert kernel[..kernel.Length] == kernel[..];
  }

  /** The second loop of `build_blur_kernel`. */
  method DivideAll(kernel: array<real>, sum: real)
    requires sum != 0.0
    modifies kernel
    ensures forall j :: 0 <= j < kernel.Length ==> kernel[j] == old(kernel[j]) / sum
  {
    for i := 0 to kernel.Length
      invariant forall j :: 0 <= j < i ==> kernel[j] == old(kernel[j]) / sum
      invariant forall j :: i <= j < kernel.Length ==> kernel[j] == old(kernel[j])
    {
      kernel[i] := kernel[i] / sum;
    }
  }

  function Square(x: real): real { x * x }

  /** How far tap `i` is from the middle of `size` taps, squared. */
  function Spread(size: nat, i: nat): real { Square(i as real - size as real / 2.0) }

  /** Before normalisation a tap weighs the exponential of its negative squared distance from the middle
      over sigma. */
  ghost predicate IsBell(k: seq<real>, sigma: real, exp: real -> real)
    requires sigma != 0.0
  {
    forall i, j :: 0 <= i < |k| && 0 <= j < |k| ==>
      k[i] * exp(-Spread(|k|, j) / sigma) == k[j] * exp(-Spread(|k|, i) / sigma)
  }

  lemma WeightIsBell(exp: real -> real, n: nat, sigma: real, i: nat)
    requires sigma != 0.0 && i < n
    ensures RawKernel(exp, n, sigma)[i] == exp(-Spread(n, i) / sigma)
  {
    NegativeSquare(i as real - n as real / 2.0);
  }

  lemma NegativeSquare(f: real)
    ensures -f * f == -Square(f)
  {
  }

  lemma MirroredSpread(n: nat, i: nat)
    requires i <= n
    ensures Spread(n, n - i) == Spread(n, i)
  {
    SameSquare(i as real - n as real / 2.0, (n - i) as real - n as real / 2.0);
  }

  lemma SameSquare(x: real, y: real)
    requires y == -x
    ensures Square(x) == Square(y)
  {
  }

  lemma WeightsCross(k: seq<real>, raw: seq<real>, total: real, i: nat, j: nat)
    requires IsNormalised(k, raw, total) && i < |k| && j < |k|
    ensures k[i] * raw[j] == k[j] * raw[i]
  {
    CrossProducts(k[i], k[j], total, raw[i], raw[j]);
  }

  lemma KernelIsBell(k: seq<real>, sigma: real, exp: real -> real)
    requires sigma != 0.0 && IsBlurKernel(k, sigma, exp)
    ensures IsBell(k, sigma, exp)
  {
    var raw := RawKernel(exp, |k|, sigma);
    forall i, j | 0 <= i < |k| && 0 <= j < |k|
      ensures k[i] * exp(-Spread(|k|, j) / sigma) == k[j] * exp(-Spread(|k|, i) / sigma)
    {
      WeightIsBell(exp, |k|, sigma, i);
      WeightIsBell(exp, |k|, sigma, j);
      WeightsCross(k, raw, Sum(raw), i, j);
    }
  }

  lemma SameFactor(a: real, b: real, c: real)
    requires c != 0.0 && a * c == b * c
    ensures a == b
  {
    assert (a - b) * c == 0.0;
  }

  /** The kernel mirrors itself about half its size, so that its first tap has no partner. */
  lemma KernelMirrors(k: seq<real>, sigma: real, exp: real -> real, i: nat)
    requires sigma != 0.0 && PositiveFunction(exp) && IsBell(k, sigma, exp) && 0 < i < |k|
    ensures k[i] == k[|k| - i]
  {
    MirroredSpread(|k|, i);
    SameFactor(k[i], k[|k| - i], exp(-Spread(|k|, i) / sigma));
  }

  lemma CrossProducts(a: real, b: real, total: real, x: real, y: real)
    requires a * total == x && b * total == y
    ensures a * y == b * x
  {
  }

  /** `build_blur_kernel`. */
  method BuildBlurKernel(kernel: array<real>, sigma: real, exp: real -> real)
    requires sigma != 0.0 && PositiveFunction(exp)
    modifies kernel
    ensures IsBlurKernel(kernel[..], sigma, exp) && IsBell(kernel[..], sigma, exp)
  {
    var sum := FillRaw(kernel, sigma, exp);
    ghost var raw := kernel[..];
    SumOfRaw(exp, kernel.Length, sigma);
    if kernel.Length > 0 {
      DivideAll(kernel, sum);
    }
    DividedIsKernel(raw, kernel[..], sum, sigma, exp);
    KernelIsBell(kernel[..], sigma, exp);
  }

  lemma SumOfRaw(exp: real -> real, size: nat, sigma: real)
    requires sigma != 0.0 && PositiveFunction(exp)
    ensures Positive(RawKernel(exp, size, sigma))
    ensures size > 0 ==> Sum(RawKernel(exp, size, sigma)) > 0.0
  {
    SumPositive(RawKernel(exp, size, sigma));
  }

  lemma DividedIsKernel(raw: seq<real>, k: seq<real>, sum: real, sigma: real, exp: real -> real)
    requires sigma != 0.0 && PositiveFunction(exp)
    requires raw == RawKernel(exp, |k|, sigma) && sum == Sum(raw)
    requires k != [] ==> sum > 0.0 && forall i :: 0 <= i < |k| ==> k[i] == raw[i] / sum
    ensures IsBlurKernel(k, sigma, exp)
  {
    SumOfRaw(exp, |k|, sigma);
    if k != [] {
      Normalised(raw, k, sum);
    }
  }

  lemma Normalised(raw: seq<real>, k: seq<real>, sum: real)
    requires Positive(raw) && |k| == |raw| && sum > 0.0
    requires forall i :: 0 <= i < |k| ==> k[i] == raw[i] / sum
    requires k != [] && sum == Sum(raw)
    ensures IsNormalised(k, raw, sum)
  {
    SumScaled(raw, k, sum);
    Quotient(sum, sum);
    forall i | 0 <= i < |k|
      ensures k[i] > 0.0 && k[i] * sum == raw[i]
    {
      Quotient(raw[i], sum);
    }
  }

  lemma Quotient(a: real, c: real)
    requires a > 0.0 && c > 0.0
    ensures a / c > 0.0 && (a / c) * c == a && c / c == 1.0
  {
  }

  // ----- images and convolution -----

  /** The pixel values of an image on the whole plane, 0 outside the image. */
  type Plane = (int, int) -> real

  function At(img: seq<real>, w: nat, h: nat, x: int, y: int): real {
    if 0 <= x < w && 0 <= y < h && 0 <= y * w + x < |img| then img[y * w + x] else 0.0
  }

  function PlaneOf(img: seq<real>, w: nat, h: nat): Plane {
    (x, y) => At(img, w, h, x, y)
  }

  lemma InBounds(w: nat, h: nat, x: int, y: int)
    requires 0 <= x < w && 0 <= y < h
    ensures 0 <= y * w + x < h * w
    ensures (y * w + x) % w == x && (y * w + x) / w == y
  {
    RowsUpTo(w, h, y);
    DivModUnique(w, x, y);
  }

  lemma RowsUpTo(w: nat, h: nat, y: nat)
    requires y < h
    ensures (y + 1) * w == y * w + w <= h * w
  {
    NaturalProduct(h - y - 1, w);
    assert (h - y - 1) * w == h * w - (y * w + w);
  }

  lemma NaturalProduct(a: nat, b: nat)
    ensures a * b >= 0
  {
  }

  lemma MulAtLeast(w: int, d: int)
    requires w >= 0
    ensures d >= 1 ==> w * d >= w
    ensures d <= -1 ==> w * d <= -w
  {
    if d >= 1 {
      NaturalProduct(w, d - 1);
      assert w * d - w == w * (d - 1);
    }
    if d <= -1 {
      NaturalProduct(w, -d - 1);
      assert -(w * d) - w == w * (-d - 1);
    }
  }

  lemma DivModUnique(w: int, x: int, y: int)
    requires 0 <= x < w && 0 <= y
    ensures (y * w + x) % w == x && (y * w + x) / w == y
  {
    var n := y * w + x;
    QuotientUnique(w, x, y, n, n / w, n % w);
  }

  lemma QuotientUnique(w: int, x: int, y: int, n: int, q: int, r: int)
    requires 0 <= x < w && 0 <= r < w && n == y * w + x && n == w * q + r
    ensures q == y && r == x
  {
    MulAtLeast(w, q - y);
    assert w * (q - y) == x - r;
  }

  /** The first `n` taps of a horizontal pass at `(x, y)`. */
  function RowTaps(p: Plane, k: seq<real>, x: int, y: int, n: nat): real
    requires n <= |k|
  {
    if n == 0 then 0.0 else RowTaps(p, k, x, y, n - 1) + p(x + (n - 1) - |k| / 2, y) * k[n - 1]
  }

  /** The first `n` taps of a vertical pass at `(x, y)`. */
  function ColumnTaps(p: Plane, k: seq<real>, x: int, y: int, n: nat): real
    requires n <= |k|
  {
    if n == 0 then 0.0 else ColumnTaps(p, k, x, y, n - 1) + p(x, y + (n - 1) - |k| / 2) * k[n - 1]
  }

  /** The direct two-dimensional form: the first `n` taps of row `j` of the product kernel
      `k[i] * k[j]`, and then the first `n` of its rows. */
  function ProductRow(p: Plane, k: seq<real>, x: int, y: int, j: nat, n: nat): real
    requires j < |k| && n <= |k|
  {
    if n == 0 then 0.0
    else ProductRow(p, k, x, y, j, n - 1) + p(x + (n - 1) - |k| / 2, y + j - |k| / 2) * (k[n - 1] * k[j])
  }

  function Convolution(p: Plane, k: seq<real>, x: int, y: int, n: nat): real
    requires n <= |k|
  {
    if n == 0 then 0.0 else Convolution(p, k, x, y, n - 1) + ProductRow(p, k, x, y, n - 1, |k|)
  }

  // ----- the two passes -----

  /** The first `n` pixels, in row-major order, are those of a plane. */
  ghost predicate Holds<T>(out: seq<T>, w: nat, n: nat, value: (int, int) -> T) {
    n <= |out| && (n > 0 ==> w > 0) && forall i :: 0 <= i < n && w > 0 ==> out[i] == value(i % w, i / w)
  }

  /** One more row. */
  lemma RowAdded<T>(before: seq<T>, after: seq<T>, w: nat, y: nat, base: nat, value: (int, int) -> T)
    requires Holds(before, w, base, value) && base == y * w && base + w <= |after|
    requires forall i :: 0 <= i < base ==> after[i] == before[i]
    requires forall i :: base <= i < base + w ==> after[i] == value(i - base, y)
    ensures Holds(after, w, base + w, value)
  {
    forall i | base <= i < base + w
      ensures i % w == i - base && i / w == y
    {
      DivModUnique(w, i - base, y);
    }
  }

  ghost function RowBlur(p: Plane, k: seq<real>): Plane { (x, y) => RowTaps(p, k, x, y, |k|) }
  ghost function ColumnBlur(p: Plane, k: seq<real>): Plane { (x, y) => ColumnTaps(p, k, x, y, |k|) }
  ghost function Blur(p: Plane, k: seq<real>): Plane { (x, y) => Convolution(p, k, x, y, |k|) }

  /** The first pass of `blur_mask`. */
  method BlurRows(img: array<real>, w: nat, h: nat, kernel: array<real>, out: array<real>)
    requires img.Length == out.Length == h * w && out != img && out != kernel
    modifies out
    ensures Holds(out[..], w, h * w, RowBlur(PlaneOf(img[..], w, h), kernel[..]))
  {
    ghost var done := 0;
    for y := 0 to h
      invariant done == y * w && Holds(out[..], w, done, RowBlur(PlaneOf(img[..], w, h), kernel[..]))
    {
      RowsUpTo(w, h, y);
      BlurRow(img, w, h, kernel, out, y, done);
      done := done + w;
    }
  }

  method BlurRow(img: array<real>, w: nat, h: nat, kernel: array<real>, out: array<real>, y: nat, ghost base: nat)
    requires img.Length == out.Length == h * w && out != img && out != kernel
    requires y < h && base == y * w && base + w <= h * w
    requires Holds(out[..], w, base, RowBlur(PlaneOf(img[..], w, h), kernel[..]))
    modifies out
    ensures Holds(out[..], w, base + w, RowBlur(PlaneOf(img[..], w, h), kernel[..]))
  {
    for x := 0 to w
      invariant Holds(out[..], w, base + x, RowBlur(PlaneOf(img[..], w, h), kernel[..]))
    {
      InBounds(w, h, x, y);
      out[y * w + x] := RowPixel(img, w, h, kernel, x, y);
    }
  }

  /** The tap loop of the first pass. */
  method RowPixel(img: array<real>, w: nat, h: nat, kernel: array<real>, x: nat, y: nat) returns (a: real)
    requires img.Length == h * w && x < w && y < h
    ensures a == RowTaps(PlaneOf(img[..], w, h), kernel[..], x, y, kernel.Length)
  {
    a := 0.0;
    for k := 0 to kernel.Length
      invariant a == RowTaps(PlaneOf(img[..], w, h), kernel[..], x, y, k)
    {
      var px := x + k - kernel.Length / 2;
      if 0 <= px < w {
        InBounds(w, h, px, y);
        a := a + img[y * w + px] * kernel[k];
      }
    }
  }

  /** The second pass of `blur_mask`. */
  method BlurColumns(img: array<real>, w: nat, h: nat, kernel: array<real>, out: array<real>)
    requires img.Length == out.Length == h * w && out != img && out != kernel
    modifies out
    ensures Holds(out[..], w, h * w, ColumnBlur(PlaneOf(img[..], w, h), kernel[..]))
  {
    ghost var done := 0;
    for y := 0 to h
      invariant done == y * w && Holds(out[..], w, done, ColumnBlur(PlaneOf(img[..], w, h), kernel[..]))
    {
      RowsUpTo(w, h, y);
      BlurColumnsAt(img, w, h, kernel, out, y, done);
      done := done + w;
    }
  }

  method BlurColumnsAt(img: array<real>, w: nat, h: nat, kernel: array<real>, out: array<real>, y: nat, ghost base: nat)
    requires img.Length == out.Length == h * w && out != img && out != kernel
    requires y < h && base == y * w && base + w <= h * w
    requires Holds(out[..], w, base, ColumnBlur(PlaneOf(img[..], w, h), kernel[..]))
    modifies out
    ensures Holds(out[..], w, base + w, ColumnBlur(PlaneOf(img[..], w, h), kernel[..]))
  {
    for x := 0 to w
      invariant Holds(out[..], w, base + x, ColumnBlur(PlaneOf(img[..], w, h), kernel[..]))
    {
      InBounds(w, h, x, y);
      out[y * w + x] := ColumnPixel(img, w, h, kernel, x, y);
    }
  }

  /** The tap loop of the second pass. */
  method ColumnPixel(img: array<real>, w: nat, h: nat, kernel: array<real>, x: nat, y: nat) returns (a: real)
    requires img.Length == h * w && x < w && y < h
    ensures a == ColumnTaps(PlaneOf(img[..], w, h), kernel[..], x, y, kernel.Length)
  {
    a := 0.0;
    for k := 0 to kernel.Length
      invariant a == ColumnTaps(PlaneOf(img[..], w, h), kernel[..], x, y, k)
    {
      var py := y + k - kernel.Length / 2;
      if 0 <= py < h {
        InBounds(w, h, x, py);
        a := a + img[py * w + x] * kernel[k];
      }
    }
  }

  // ----- separability: two one-dimensional passes are the two-dimensional convolution -----

  lemma Distribute(r: real, a: real, u: real, v: real)
    ensures r * v + a * (u * v) == (r + a * u) * v
  {
  }

  lemma {:induction false} RowTapsScaled(p: Plane, k: seq<real>, x: int, y: int, j: nat, n: nat)
    requires j < |k| && n <= |k|
    ensures ProductRow(p, k, x, y, j, n) == RowTaps(p, k, x, y + j - |k| / 2, n) * k[j]
  {
    if n > 0 {
      RowTapsScaled(p, k, x, y, j, n - 1);
      var row := y + j - |k| / 2;
      Distribute(RowTaps(p, k, x, row, n - 1), p(x + (n - 1) - |k| / 2, row), k[n - 1], k[j]);
    }
  }

  lemma ConvolutionStep(p: Plane, k: seq<real>, x: int, y: int, n: nat, line: real)
    requires 0 < n <= |k| && line == RowTaps(p, k, x, y + (n - 1) - |k| / 2, |k|)
    ensures Convolution(p, k, x, y, n) == Convolution(p, k, x, y, n - 1) + line * k[n - 1]
  {
    RowTapsScaled(p, k, x, y, n - 1, |k|);
  }

  /** `q` is the row blur of `p` in column `x`. */
  lemma {:induction false} Separable(p: Plane, q: Plane, k: seq<real>, x: int, y: int, n: nat)
    requires n <= |k| && forall v :: q(x, v) == RowTaps(p, k, x, v, |k|)
    ensures ColumnTaps(q, k, x, y, n) == Convolution(p, k, x, y, n)
  {
    if n > 0 {
      Separable(p, q, k, x, y, n - 1);
      ConvolutionStep(p, k, x, y, n, q(x, y + (n - 1) - |k| / 2));
    }
  }

  lemma {:induction false} RowTapsOfNothing(p: Plane, k: seq<real>, x: int, y: int, n: nat)
    requires n <= |k| && forall u :: p(u, y) == 0.0
    ensures RowTaps(p, k, x, y, n) == 0.0
  {
    if n > 0 { RowTapsOfNothing(p, k, x, y, n - 1); }
  }

  /** The scratch image, read as a plane, is the row blur on every line of its columns. */
  lemma ScratchIsRowBlur(img: seq<real>, rows: seq<real>, w: nat, h: nat, k: seq<real>, x: int, y: int)
    requires |img| == |rows| == h * w && 0 <= x < w
    requires Holds(rows, w, h * w, RowBlur(PlaneOf(img, w, h), k))
    ensures PlaneOf(rows, w, h)(x, y) == RowTaps(PlaneOf(img, w, h), k, x, y, |k|)
  {
    if 0 <= y < h {
      InBounds(w, h, x, y);
    } else {
      RowTapsOfNothing(PlaneOf(img, w, h), k, x, y, |k|);
    }
  }

  lemma TwoPassesConvolve(img: seq<real>, rows: seq<real>, out: seq<real>, w: nat, h: nat, k: seq<real>)
    requires |img| == |rows| == |out| == h * w
    requires Holds(rows, w, h * w, RowBlur(PlaneOf(img, w, h), k))
    requires Holds(out, w, h * w, ColumnBlur(PlaneOf(rows, w, h), k))
    ensures Holds(out, w, h * w, Blur(PlaneOf(img, w, h), k))
  {
    forall i | 0 <= i < h * w && w > 0
      ensures out[i] == Blur(PlaneOf(img, w, h), k)(i % w, i / w)
    {
      var x, y := i % w, i / w;
      forall v
        ensures PlaneOf(rows, w, h)(x, v) == RowTaps(PlaneOf(img, w, h), k, x, v, |k|)
      {
        ScratchIsRowBlur(img, rows, w, h, k, x, v);
      }
      Separable(PlaneOf(img, w, h), PlaneOf(rows, w, h), k, x, y, |k|);
    }
  }

  /** `blur_mask`: the image becomes its convolution with the product of the kernel with itself. */
  method BlurMask(image: array<real>, w: nat, h: nat, sigma: real, scratch: array<real>, kernel: array<real>,
        exp: real -> real)
    requires image.Length == scratch.Length == h * w && image != scratch && kernel != image && kernel != scratch
    requires sigma != 0.0 && PositiveFunction(exp)
    modifies image, scratch, kernel
    ensures IsBlurKernel(kernel[..], sigma, exp)
    ensures Holds(image[..], w, h * w, Blur(PlaneOf(old(image[..]), w, h), kernel[..]))
  {
    BuildBlurKernel(kernel, sigma, exp);
    BlurRows(image, w, h, kernel, scratch);
    ghost var img, rows := image[..], scratch[..];
    BlurColumns(scratch, w, h, kernel, image);
    TwoPassesConvolve(img, rows, image[..], w, h, kernel[..]);
  }

  // ----- blurring stays in range -----

  ghost predicate PlaneInRange(p: Plane, a: real) { forall x, y :: 0.0 <= p(x, y) <= a }

  lemma AddTap(r: real, s: real, v: real, a: real, u: real)
    requires 0.0 <= r <= a * s && 0.0 <= v <= a && u > 0.0
    ensures 0.0 <= r + v * u <= a * (s + u)
  {
    assert v * u <= a * u;
  }

  lemma {:induction false} RowTapsInRange(p: Plane, k: seq<real>, x: int, y: int, n: nat, a: real)
    requires n <= |k| && PlaneInRange(p, a) && Positive(k)
    ensures 0.0 <= RowTaps(p, k, x, y, n) <= a * Sum(k[..n])
  {
    if n > 0 {
      RowTapsInRange(p, k, x, y, n - 1, a);
      SumPrefix(k, n - 1);
      AddTap(RowTaps(p, k, x, y, n - 1), Sum(k[..n - 1]), p(x + (n - 1) - |k| / 2, y), a, k[n - 1]);
    }
  }

  lemma {:induction false} ColumnTapsInRange(p: Plane, k: seq<real>, x: int, y: int, n: nat, a: real)
    requires n <= |k| && PlaneInRange(p, a) && Positive(k)
    ensures 0.0 <= ColumnTaps(p, k, x, y, n) <= a * Sum(k[..n])
  {
    if n > 0 {
      ColumnTapsInRange(p, k, x, y, n - 1, a);
      SumPrefix(k, n - 1);
      AddTap(ColumnTaps(p, k, x, y, n - 1), Sum(k[..n - 1]), p(x, y + (n - 1) - |k| / 2), a, k[n - 1]);
    }
  }

  lemma RowBlurInRange(p: Plane, k: seq<real>, a: real)
    requires k != [] && PlaneInRange(p, a) && Kernel(k)
    ensures PlaneInRange(RowBlur(p, k), a)
  {
    forall x, y ensures 0.0 <= RowBlur(p, k)(x, y) <= a {
      RowTapsInRange(p, k, x, y, |k|, a);
      assert k[..|k|] == k;
    }
  }

  /** Values in `[0, a]` stay in `[0, a]`. */
  lemma BlurStaysInRange(p: Plane, k: seq<real>, x: int, y: int, a: real)
    requires PlaneInRange(p, a) && Kernel(k)
    ensures 0.0 <= Blur(p, k)(x, y) <= a
  {
    if k != [] {
      RowBlurInRange(p, k, a);
      Separable(p, RowBlur(p, k), k, x, y, |k|);
      ColumnTapsInRange(RowBlur(p, k), k, x, y, |k|, a);
      assert k[..|k|] == k;
    } else {
      assert 0.0 <= p(x, y) <= a;
    }
  }
}
