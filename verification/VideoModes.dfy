/** Sorting and choosing video modes, glfw/monitor.c. Field values are bounded so that none of the
    C expressions overflows a 32-bit int. */
module VideoModes {
  import opened Options
  import opened Sorting

  const DONT_CARE := -1
  const UINT_MAX := 0xFFFF_FFFF
  const BOUND := 0x8000

  datatype Mode = Mode(width: int, height: int, red: int, green: int, blue: int, rate: int)

  /** A mode as a platform reports it. */
  predicate Real(m: Mode) {
    && 0 <= m.width < BOUND && 0 <= m.height < BOUND && 0 <= m.rate < BOUND
    && 0 <= m.red < BOUND && 0 <= m.green < BOUND && 0 <= m.blue < BOUND
  }

  /** A wish: colour depths and rate may also be DONT_CARE. */
  predicate Wish(m: Mode) {
    && 0 <= m.width < BOUND && 0 <= m.height < BOUND && DONT_CARE <= m.rate < BOUND
    && DONT_CARE <= m.red < BOUND && DONT_CARE <= m.green < BOUND && DONT_CARE <= m.blue < BOUND
  }

  // ----- the order -----

  /** `compareVideoModes`: colour depth, then area, then width, then refresh rate. */
  function CompareVideoModes(f: Mode, s: Mode): int {
    var fbpp, sbpp := f.red + f.green + f.blue, s.red + s.green + s.blue;
    var farea, sarea := f.width * f.height, s.width * s.height;
    if fbpp != sbpp then fbpp - sbpp
    else if farea != sarea then farea - sarea
    else if f.width != s.width then f.width - s.width
    else f.rate - s.rate
  }

  /** The comparison is antisymmetric in sign and transitive, so it orders all modes. */
  lemma ComparisonIsTotalPreorder(a: Mode, b: Mode, c: Mode)
    ensures CompareVideoModes(a, b) == -CompareVideoModes(b, a)
    ensures CompareVideoModes(a, b) <= 0 && CompareVideoModes(b, c) <= 0 ==> CompareVideoModes(a, c) <= 0
  {
    ComparisonOrders(a, b);
    ComparisonOrders(b, c);
    ComparisonOrders(a, c);
    OrderIsTransitive(a, b, c);
  }

  /** First fewer bits of colour, then a smaller area, then a smaller width, then a lower rate. */
  predicate InOrder(a: Mode, b: Mode) {
    || a.red + a.green + a.blue < b.red + b.green + b.blue
    || (a.red + a.green + a.blue == b.red + b.green + b.blue
        && (a.width * a.height < b.width * b.height
            || (a.width * a.height == b.width * b.height
                && (a.width < b.width || (a.width == b.width && a.rate <= b.rate)))))
  }

  /** The comparison is this order. */
  lemma ComparisonOrders(a: Mode, b: Mode)
    ensures CompareVideoModes(a, b) <= 0 <==> InOrder(a, b)
    ensures CompareVideoModes(b, a) == -CompareVideoModes(a, b)
  {
  }

  lemma OrderIsTransitive(a: Mode, b: Mode, c: Mode)
    ensures InOrder(a, b) && InOrder(b, c) ==> InOrder(a, c)
  {
  }

  /** Modes of positive width tie only if they agree in depth, both dimensions and rate. */
  lemma TiesAreEqualModes(a: Mode, b: Mode)
    requires a.width > 0 && b.width > 0
    ensures CompareVideoModes(a, b) == 0
       <==> a.red + a.green + a.blue == b.red + b.green + b.blue && a.width == b.width && a.height == b.height
            && a.rate == b.rate
  {
    if CompareVideoModes(a, b) == 0 {
      SameArea(a.width, a.height, b.height);
    }
  }

  lemma SameArea(w: int, h: int, k: int)
    requires w > 0 && w * h == w * k
    ensures h == k
  {
    assert w * (h - k) == 0;
  }

  // ----- the choice -----

  function Abs(x: int): nat { if x < 0 then -x else x }

  /** Colour, size and rate difference from a wish, compared in this order. */
  datatype Distance = Distance(color: int, size: int, rate: int)

  function DistanceTo(m: Mode, desired: Mode): Distance {
    var dw, dh := m.width - desired.width, m.height - desired.height;
    Distance((if desired.red != DONT_CARE then Abs(m.red - desired.red) else 0)
             + (if desired.green != DONT_CARE then Abs(m.green - desired.green) else 0)
             + (if desired.blue != DONT_CARE then Abs(m.blue - desired.blue) else 0),
             dw * dw + dh * dh,
             if desired.rate != DONT_CARE then Abs(m.rate - desired.rate) else UINT_MAX - m.rate)
  }

  predicate Closer(a: Distance, b: Distance) {
    || a.color < b.color
    || (a.color == b.color && a.size < b.size)
    || (a.color == b.color && a.size == b.size && a.rate < b.rate)
  }

  /** No mode is closer than mode `c`, and every earlier mode is farther. */
  predicate IsFirstClosest(modes: seq<Mode>, desired: Mode, c: nat) {
    && c < |modes|
    && (forall i :: 0 <= i < |modes| ==> !Closer(DistanceTo(modes[i], desired), DistanceTo(modes[c], desired)))
    && (forall i :: 0 <= i < c ==> Closer(DistanceTo(modes[c], desired), DistanceTo(modes[i], desired)))
  }

  // ... and in plain numbers

  /** How far off a component is; the wish may leave it open. */
  function Off(value: int, wanted: int): nat {
    if wanted == -1 || value == wanted then 0 else if value < wanted then wanted - value else value - wanted
  }

  function ColorOff(m: Mode, desired: Mode): nat {
    Off(m.red, desired.red) + Off(m.green, desired.green) + Off(m.blue, desired.blue)
  }

  /** The square of the distance between two sizes. */
  function SizeOff(m: Mode, desired: Mode): int {
    (m.width - desired.width) * (m.width - desired.width) + (m.height - desired.height) * (m.height - desired.height)
  }

  /** A mode with no more total difference in the colour depths asked for, then no farther off in size,
      then no farther off in rate, or with no lower rate if none is asked for. */
  predicate NoWorse(m: Mode, other: Mode, desired: Mode) {
    || ColorOff(m, desired) < ColorOff(other, desired)
    || (ColorOff(m, desired) == ColorOff(other, desired)
        && (SizeOff(m, desired) < SizeOff(other, desired)
            || (SizeOff(m, desired) == SizeOff(other, desired)
                && if desired.rate == -1 then m.rate >= other.rate
                   else Off(m.rate, desired.rate) <= Off(other.rate, desired.rate))))
  }

  lemma CloserMeansBetter(m: Mode, other: Mode, desired: Mode)
    ensures Closer(DistanceTo(m, desired), DistanceTo(other, desired)) <==> !NoWorse(other, m, desired)
  {
    SizeIsSquare(m, desired);
    SizeIsSquare(other, desired);
  }

  lemma SizeIsSquare(m: Mode, desired: Mode)
    ensures DistanceTo(m, desired).size == SizeOff(m, desired) && DistanceTo(m, desired).color == ColorOff(m, desired)
  {
  }

  /** The first of the best: no mode is better than the choice, and every earlier one is worse. */
  ghost predicate IsFirstBest(modes: seq<Mode>, desired: Mode, c: nat) {
    && c < |modes|
    && (forall i :: 0 <= i < |modes| ==> NoWorse(modes[c], modes[i], desired))
    && (forall i :: 0 <= i < c ==> !NoWorse(modes[i], modes[c], desired))
  }

  lemma FirstClosestIsBest(modes: seq<Mode>, desired: Mode, c: nat)
    ensures IsFirstClosest(modes, desired, c) <==> IsFirstBest(modes, desired, c)
  {
    if c < |modes| {
      forall i | 0 <= i < |modes|
        ensures !Closer(DistanceTo(modes[i], desired), DistanceTo(modes[c], desired))
          <==> NoWorse(modes[c], modes[i], desired)
        ensures Closer(DistanceTo(modes[c], desired), DistanceTo(modes[i], desired))
          <==> !NoWorse(modes[i], modes[c], desired)
      {
        CloserMeansBetter(modes[i], modes[c], desired);
        CloserMeansBetter(modes[c], modes[i], desired);
      }
    }
  }

  lemma FirstClosestIsUnique(modes: seq<Mode>, desired: Mode, c: nat, d: nat)
    requires IsFirstClosest(modes, desired, c) && IsFirstClosest(modes, desired, d)
    ensures c == d
  {
    var x, y := DistanceTo(modes[c], desired), DistanceTo(modes[d], desired);
    assert !Closer(x, y) && !Closer(y, x);
  }

  /** Looking at one more mode. */
  lemma OneMoreMode(modes: seq<Mode>, desired: Mode, c: nat, m: Mode)
    requires IsFirstClosest(modes, desired, c)
    ensures var closer := Closer(DistanceTo(m, desired), DistanceTo(modes[c], desired));
            IsFirstClosest(modes + [m], desired, if closer then |modes| else c)
  {
  }

  lemma ProductOfNaturals(a: nat, b: nat)
    ensures a * b >= 0
  {
  }

  lemma SquareBound(x: int)
    requires -BOUND < x < BOUND
    ensures 0 <= x * x <= 0x7FFF * 0x7FFF
  {
    ProductOfNaturals(0x7FFF - x, 0x7FFF + x);
    assert (0x7FFF - x) * (0x7FFF + x) == 0x7FFF * 0x7FFF - x * x;
  }

  /** No difference overflows, and every colour and size difference is below the initial least. */
  lemma DistanceFits(m: Mode, desired: Mode)
    requires Real(m) && Wish(desired)
    ensures var d := DistanceTo(m, desired);
            0 <= d.color < 0x8000_0000 && 0 <= d.size < 0x8000_0000 && 0 <= d.rate <= UINT_MAX
  {
    SquareBound(m.width - desired.width);
    SquareBound(m.height - desired.height);
  }

  /** With no preferred rate, the choice has the highest rate among the modes that tie in colour and
      size. */
  lemma DontCarePrefersHighestRate(modes: seq<Mode>, desired: Mode, c: nat, i: nat)
    requires IsFirstClosest(modes, desired, c) && desired.rate == DONT_CARE && i < |modes|
    requires DistanceTo(modes[i], desired).color == DistanceTo(modes[c], desired).color
    requires DistanceTo(modes[i], desired).size == DistanceTo(modes[c], desired).size
    ensures modes[i].rate <= modes[c].rate
  {
    assert !Closer(DistanceTo(modes[i], desired), DistanceTo(modes[c], desired));
  }

  /** A mode that meets the wish in full is chosen, or an earlier equal one. */
  lemma ExactMatchIsChosen(modes: seq<Mode>, desired: Mode, c: nat)
    requires IsFirstClosest(modes, desired, c) && desired in modes && Real(desired)
    ensures modes[c] == desired
  {
    var i :| 0 <= i < |modes| && modes[i] == desired;
    assert DistanceTo(modes[i], desired) == Distance(0, 0, 0);
    var dw, dh := modes[c].width - desired.width, modes[c].height - desired.height;
    assert DistanceTo(modes[c], desired).size == dw * dw + dh * dh;
    Squares(dw, dh);
  }

  lemma Squares(a: int, b: int)
    ensures a * a + b * b >= 0 && (a * a + b * b == 0 ==> a == 0 && b == 0)
  {
    assert a * a >= 0 && b * b >= 0;
  }

  // ----- the monitor -----

  class Monitor {
    var modes: Option<seq<Mode>>

    ghost predicate Valid()
      reads this
    {
      modes.Some? ==>
        && (forall i, j :: 0 <= i < j < |modes.value| ==> InOrder(modes.value[i], modes.value[j]))
        && (forall i :: 0 <= i < |modes.value| ==> Real(modes.value[i]))
    }

    constructor ()
      ensures Valid() && modes.None?
    {
      modes := None;
    }

    /** `refreshVideoModes`: `found` is what the platform reports, if it is asked. */
    method RefreshVideoModes(found: Option<seq<Mode>>) returns (ok: bool)
      requires Valid() && (found.Some? ==> forall i :: 0 <= i < |found.value| ==> Real(found.value[i]))
      modifies this
      ensures Valid() && ok == modes.Some? == (old(modes).Some? || found.Some?)
      ensures old(modes).Some? ==> modes == old(modes)
      ensures old(modes).None? && found.Some? ==> multiset(modes.value) == multiset(found.value)
    {
      if modes.Some? { return true; }
      if found.None? { return false; }
      forall a, b, c
        ensures CompareVideoModes(a, b) == -CompareVideoModes(b, a)
        ensures CompareVideoModes(a, b) <= 0 && CompareVideoModes(b, c) <= 0 ==> CompareVideoModes(a, c) <= 0
      {
        ComparisonIsTotalPreorder(a, b, c);
      }
      var sorted := QSort(found.value, CompareVideoModes);
      forall i | 0 <= i < |sorted| ensures Real(sorted[i]) {
        assert sorted[i] in multiset(sorted);
        assert sorted[i] in found.value;
      }
      forall i, j | 0 <= i < j < |sorted| ensures InOrder(sorted[i], sorted[j]) {
        ComparisonOrders(sorted[i], sorted[j]);
      }
      modes := Some(sorted);
      ok := true;
    }

    /** `_glfwChooseVideoMode`: the position of the choice in the sorted list. */
    method ChooseVideoMode(desired: Mode, found: Option<seq<Mode>>) returns (closest: Option<nat>)
      requires Valid() && (found.Some? ==> forall i :: 0 <= i < |found.value| ==> Real(found.value[i]))
      requires Wish(desired)
      modifies this
      ensures Valid() && (old(modes).Some? ==> modes == old(modes))
      ensures closest.Some? <==> modes.Some? && modes.value != []
      ensures closest.Some? ==> IsFirstClosest(modes.value, desired, closest.value)
      ensures closest.Some? ==> IsFirstBest(modes.value, desired, closest.value)
    {
      var ok := RefreshVideoModes(found);
      if !ok { return None; }
      closest := Closest(modes.value, desired);
      if closest.Some? { FirstClosestIsBest(modes.value, desired, closest.value); }
    }
  }

  method Closest(modes: seq<Mode>, desired: Mode) returns (closest: Option<nat>)
    requires Wish(desired) && forall i :: 0 <= i < |modes| ==> Real(modes[i])
    ensures closest.Some? <==> modes != []
    ensures closest.Some? ==> IsFirstClosest(modes, desired, closest.value)
  {
    closest := None;
    var least := Distance(UINT_MAX, UINT_MAX, UINT_MAX);
    for i := 0 to |modes|
      invariant closest.Some? <==> i > 0
      invariant closest.None? ==> least == Distance(UINT_MAX, UINT_MAX, UINT_MAX)
      invariant closest.Some? ==>
                  && IsFirstClosest(modes[..i], desired, closest.value)
                  && least == DistanceTo(modes[closest.value], desired)
    {
      var distance := DistanceTo(modes[i], desired);
      DistanceFits(modes[i], desired);
      assert modes[..i + 1] == modes[..i] + [modes[i]];
      if closest.Some? { OneMoreMode(modes[..i], desired, closest.value, modes[i]); }
      if Closer(distance, least) {
        closest, least := Some(i), distance;
      }
    }
    assert modes[..|modes|] == modes;
  }
}
