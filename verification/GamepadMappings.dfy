/** The gamepad mapping table of glfw/input.c as a value: which lines of an update are accepted,
    what they do to the table, and what a mapping makes of a joystick's readings. */
module GamepadMappings {
  import opened MappingFields
  import opened Options

  // ----- mappings -----

  type Buttons = b: seq<Element> | |b| == 15 witness seq(15, i => UNUSED)
  type Axes = a: seq<Element> | |a| == 6 witness seq(6, i => UNUSED)

  datatype Mapping = Mapping(guid: string, name: string, buttons: Buttons, axes: Axes)

  function HatOf(index: Byte): nat { index / 16 }

  /** Whether the hat's value has one of the four bits in the lower half of the index. */
  predicate HatHas(hat: Byte, index: Byte) {
    || (hat % 2 == 1 && index % 2 == 1)
    || (hat / 2 % 2 == 1 && index / 2 % 2 == 1)
    || (hat / 4 % 2 == 1 && index / 4 % 2 == 1)
    || (hat / 8 % 2 == 1 && index / 8 % 2 == 1)
  }

  function Transformed(e: Element, reading: real): real { reading * e.scale as real + e.offset as real }

  /** The transform carries the named part of the axis onto the whole range, end to end. */
  lemma AxisFillsRange(index: Byte, half: Half, inverted: bool, reading: real)
    ensures var e := AxisElement(index, half, inverted);
            && (half.Min() as real <= reading <= half.Max() as real <==> -1.0 <= Transformed(e, reading) <= 1.0)
            && Transformed(e, half.Min() as real) == (if inverted then 1.0 else -1.0)
            && Transformed(e, half.Max() as real) == (if inverted then -1.0 else 1.0)
  {
  }

  // ----- reading a joystick through a mapping -----

  const RELEASE: nat := 0
  const PRESS: nat := 1
  const SLOTS := 16

  /** A place in the mapping array. Each reallocation of the array starts a new block, and a
      pointer into an older block dangles. */
  datatype Pointer = Pointer(block: nat, index: nat)

  datatype Joystick = Joystick(present: bool, guid: string, axes: seq<real>, buttons: seq<nat>, hats: seq<Byte>,
                               axisCount: nat, buttonCount: nat, hatCount: nat, mapping: Option<Pointer>)

  /** What clearing the structure leaves. */
  const ABSENT := Joystick(false, "", [], [], [], 0, 0, 0, None)

  /** The directions of a hat, in the order of their bits and of the buttons that mirror them. */
  datatype Direction = UP | RIGHT | DOWN | LEFT {
    function Place(): nat { match this case UP => 0 case RIGHT => 1 case DOWN => 2 case LEFT => 3 }
  }

  /** Whether a hat's value, or the lower half of an element's index, includes a direction. */
  predicate Points(value: Byte, d: Direction) {
    match d
    case UP => value % 2 == 1
    case RIGHT => value / 2 % 2 == 1
    case DOWN => value / 4 % 2 == 1
    case LEFT => value / 8 % 2 == 1
  }

  /** The button that mirrors a direction of a hat. */
  function HatButton(js: Joystick, hat: nat, d: Direction): nat { js.buttonCount + 4 * hat + d.Place() }

  /** The four buttons of a hat say where it points. */
  predicate Mirrors(js: Joystick, hat: nat)
    requires hat < |js.hats|
  {
    && HatButton(js, hat, LEFT) < |js.buttons|
    && (js.buttons[HatButton(js, hat, UP)] == PRESS <==> Points(js.hats[hat], UP))
    && (js.buttons[HatButton(js, hat, RIGHT)] == PRESS <==> Points(js.hats[hat], RIGHT))
    && (js.buttons[HatButton(js, hat, DOWN)] == PRESS <==> Points(js.hats[hat], DOWN))
    && (js.buttons[HatButton(js, hat, LEFT)] == PRESS <==> Points(js.hats[hat], LEFT))
  }

  /** The arrays have the sizes they were allocated with, buttons are pressed or released, and each
      hat is mirrored. */
  ghost predicate Sound(js: Joystick) {
    && |js.axes| == js.axisCount && |js.hats| == js.hatCount && |js.buttons| - js.buttonCount == 4 * |js.hats|
    && (forall i :: 0 <= i < |js.buttons| ==> js.buttons[i] <= 1)
    && (forall hat: nat :: hat < |js.hats| ==> Mirrors(js, hat))
    && (!js.present ==> js == ABSENT)
  }

  /** A joystick of these sizes as it is when it is plugged in: nothing moved, nothing pressed. */
  predicate AtRest(js: Joystick, axisCount: nat, buttonCount: nat, hatCount: nat) {
    && js.present && js.axisCount == axisCount && js.buttonCount == buttonCount && js.hatCount == hatCount
    && |js.axes| == axisCount && |js.buttons| == buttonCount + 4 * hatCount && |js.hats| == hatCount
    && (forall i :: 0 <= i < |js.axes| ==> js.axes[i] == 0.0)
    && (forall i :: 0 <= i < |js.buttons| ==> js.buttons[i] == RELEASE)
    && (forall i :: 0 <= i < |js.hats| ==> js.hats[i] == 0)
  }

  /** What `_glfwAllocJoystick` fills a slot with before it looks for a mapping. */
  function Connected(guid: string, axisCount: nat, buttonCount: nat, hatCount: nat): (js: Joystick)
    ensures Sound(js) && AtRest(js, axisCount, buttonCount, hatCount)
  {
    Joystick(true, guid[..if |guid| < 32 then |guid| else 32], seq(axisCount, i => 0.0),
             seq(buttonCount + 4 * hatCount, i => RELEASE), seq(hatCount, i => 0),
             axisCount, buttonCount, hatCount, None)
  }

  /** A change that leaves the hats and their buttons alone. */
  lemma SoundFrame(js: Joystick, js': Joystick)
    requires Sound(js) && js'.present == js.present && (!js.present ==> js' == js)
    requires js'.hats == js.hats && js'.buttonCount == js.buttonCount && |js'.buttons| == |js.buttons|
    requires |js'.axes| == js'.axisCount && js'.hatCount == js.hatCount
    requires forall i :: 0 <= i < |js'.buttons| ==> js'.buttons[i] <= 1
    requires js'.buttons[js.buttonCount..] == js.buttons[js.buttonCount..]
    ensures Sound(js')
  {
    forall hat: nat | hat < |js'.hats| ensures Mirrors(js', hat) {
      assert Mirrors(js, hat);
      forall d: Direction ensures js'.buttons[HatButton(js, hat, d)] == js.buttons[HatButton(js, hat, d)] {
        var at := HatButton(js, hat, d) - js.buttonCount;
        assert js'.buttons[js.buttonCount..][at] == js.buttons[js.buttonCount..][at];
      }
    }
  }

  /** `isValidElementForJoystick`. */
  predicate Fits(e: Element, js: Joystick) {
    && (e.kind.HatBit? ==> HatOf(e.index) < js.hatCount)
    && (e.kind.Button? ==> e.index < js.buttonCount)
    && (e.kind.Axis? ==> e.index < js.axisCount)
  }

  predicate AllFit(m: Mapping, js: Joystick) {
    && (forall i :: 0 <= i < 15 ==> Fits(m.buttons[i], js))
    && (forall i :: 0 <= i < 6 ==> Fits(m.axes[i], js))
  }

  function ButtonValue(e: Element, js: Joystick): (v: nat)
    requires Sound(js) && Fits(e, js)
    ensures v <= 1
  {
    match e.kind
    case Axis =>
      var value := Transformed(e, js.axes[e.index]);
      var pressed := if e.offset < 0 || (e.offset == 0 && e.scale > 0) then value >= 0.0 else value <= 0.0;
      if pressed then PRESS else RELEASE
    case HatBit => if HatHas(js.hats[HatOf(e.index)], e.index) then PRESS else RELEASE
    case Button => js.buttons[e.index]
    case Unused => RELEASE
  }

  function Clamped(x: real): real { if x < -1.0 then -1.0 else if x > 1.0 then 1.0 else x }

  function AxisValue(e: Element, js: Joystick): (v: real)
    requires Sound(js) && Fits(e, js)
    ensures -1.0 <= v <= 1.0
  {
    match e.kind
    case Axis => Clamped(Transformed(e, js.axes[e.index]))
    case HatBit => if HatHas(js.hats[HatOf(e.index)], e.index) then 1.0 else -1.0
    case Button => js.buttons[e.index] as real * 2.0 - 1.0
    case Unused => 0.0
  }

  /** A button bound to an axis is down exactly when the axis is at least half way into the named
      part (past the centre, for a whole axis), whether or not the field is inverted. */
  lemma ButtonOnAxis(js: Joystick, index: Byte, half: Half, inverted: bool)
    requires Sound(js) && index < js.axisCount
    ensures var reading := js.axes[index];
            ButtonValue(AxisElement(index, half, inverted), js) == PRESS
            <==> HalfWay(reading, half)
  {
    var e := AxisElement(index, half, inverted);
    match half
    case Whole => assert e.scale == (if inverted then -1 else 1) && e.offset == 0;
    case Upper => assert e.scale == (if inverted then -2 else 2) && e.offset == (if inverted then 1 else -1);
    case Lower => assert e.scale == (if inverted then -2 else 2) && e.offset == (if inverted then -1 else 1);
  }

  /** A hat report: the hat's value, and its four bits as buttons after the real ones. */
  function WithHat(js: Joystick, hat: nat, value: Byte): (r: Joystick)
    requires Sound(js) && js.present && hat < js.hatCount
  {
    var base := js.buttonCount + hat * 4;
    js.(buttons := js.buttons[..base] + [value % 2, value / 2 % 2, value / 4 % 2, value / 8 % 2]
                 + js.buttons[base + 4..],
        hats := js.hats[hat := value])
  }

  lemma WithHatSound(js: Joystick, hat: nat, value: Byte)
    requires Sound(js) && js.present && hat < js.hatCount
    ensures Sound(WithHat(js, hat, value)) && WithHat(js, hat, value).present
    ensures HatStored(js, WithHat(js, hat, value), hat, value)
  {
    var r := WithHat(js, hat, value);
    forall h: nat | h < |r.hats| ensures Mirrors(r, h) {
      assert Mirrors(js, h);
      if h != hat { OtherHat(js, r, hat, h); }
    }
  }

  /** Exactly the hat and the four buttons that mirror it have changed. */
  predicate HatStored(js: Joystick, js': Joystick, hat: nat, value: Byte) {
    var base := js.buttonCount + 4 * hat;
    && hat < |js.hats| && base + 4 <= |js.buttons|
    && js'.hats == js.hats[hat := value] && |js'.buttons| == |js.buttons|
    && (forall d: Direction :: js'.buttons[HatButton(js, hat, d)] == if Points(value, d) then PRESS else RELEASE)
    && (forall i :: 0 <= i < |js.buttons| && !(base <= i < base + 4) ==> js'.buttons[i] == js.buttons[i])
    && js' == js.(hats := js'.hats, buttons := js'.buttons)
  }

  lemma OtherHat(js: Joystick, r: Joystick, hat: nat, h: nat)
    requires h != hat && h < |js.hats| && hat < |js.hats| && Mirrors(js, h)
    requires r.buttonCount == js.buttonCount && |r.buttons| == |js.buttons|
    requires |r.hats| == |js.hats| && r.hats[h] == js.hats[h]
    requires forall i :: 0 <= i < |r.buttons| && !(js.buttonCount + 4 * hat <= i < js.buttonCount + 4 * hat + 4) ==>
      r.buttons[i] == js.buttons[i]
    ensures Mirrors(r, h)
  {
  }

  datatype GamepadState = GamepadState(buttons: seq<nat>, axes: seq<real>)

  predicate InRange(s: GamepadState) {
    && |s.buttons| == 15 && (forall i :: 0 <= i < 15 ==> s.buttons[i] == RELEASE || s.buttons[i] == PRESS)
    && |s.axes| == 6 && (forall i :: 0 <= i < 6 ==> -1.0 <= s.axes[i] <= 1.0)
  }

  /** The joystick has the input that an element names. */
  predicate HasInput(js: Joystick, e: Element) {
    match e.kind
    case Unused => true
    case Axis => e.index < |js.axes|
    case Button => e.index < |js.buttons| - 4 * |js.hats|
    case HatBit => e.index / 16 < |js.hats|
  }

  ghost predicate HasInputs(js: Joystick, m: Mapping) { forall t: Target :: HasInput(js, ElementsOf(m)[t]) }

  /** One of the hat directions that an element names is down, by the buttons that mirror the hat. */
  ghost predicate HatIsDown(js: Joystick, e: Element)
    requires Sound(js) && HasInput(js, e) && e.kind.HatBit?
  {
    exists d: Direction :: Points(e.index, d) && js.buttons[HatButton(js, e.index / 16, d)] == PRESS
  }

  /** The reading of an axis is at least half way into a part of it. */
  predicate HalfWay(reading: real, half: Half) {
    match half case Whole => reading >= 0.0 case Upper => reading >= 0.5 case Lower => reading <= -0.5
  }

  /** The part of an axis stretched to the whole range: its ends become -1 and 1, its middle 0, and what
      lies beyond an end stays there. */
  function Stretched(reading: real, half: Half): real {
    match half
    case Whole => if reading <= -1.0 then -1.0 else if reading >= 1.0 then 1.0 else reading
    case Upper => if reading <= 0.0 then -1.0 else if reading >= 1.0 then 1.0 else 2.0 * reading - 1.0
    case Lower => if reading <= -1.0 then -1.0 else if reading >= 0.0 then 1.0 else 2.0 * reading + 1.0
  }

  /** What a gamepad button is when an element stands for it. */
  ghost predicate ButtonShows(js: Joystick, e: Element, value: nat)
    requires Sound(js) && HasInput(js, e)
  {
    match e.kind
    case Unused => value == RELEASE
    case Button => value == js.buttons[e.index]
    case HatBit => value == if HatIsDown(js, e) then PRESS else RELEASE
    case Axis => value == if HalfWay(js.axes[e.index], AxisHalf(e)) then PRESS else RELEASE
  }

  /** What a gamepad axis is when an element stands for it. */
  ghost predicate AxisShows(js: Joystick, e: Element, value: real)
    requires Sound(js) && HasInput(js, e)
  {
    match e.kind
    case Unused => value == 0.0
    case Button => value == if js.buttons[e.index] == PRESS then 1.0 else -1.0
    case HatBit => value == if HatIsDown(js, e) then 1.0 else -1.0
    case Axis =>
      var v := Stretched(js.axes[e.index], AxisHalf(e));
      value == if Inverted(e) then -v else v
  }

  /** What a query fills in for a joystick with a mapping. */
  ghost predicate Reports(s: GamepadState, m: Mapping, js: Joystick)
    requires Sound(js) && HasInputs(js, m)
  {
    && |s.buttons| == 15 && |s.axes| == 6
    && (forall i :: 0 <= i < 15 ==> ButtonShows(js, ElementsOf(m)[i], s.buttons[i]))
    && (forall i :: 0 <= i < 6 ==> AxisShows(js, ElementsOf(m)[15 + i], s.axes[i]))
  }

  lemma FitsIff(js: Joystick, e: Element)
    requires Sound(js)
    ensures Fits(e, js) <==> HasInput(js, e)
  {
  }

  lemma AllFitIff(js: Joystick, m: Mapping)
    requires Sound(js)
    ensures AllFit(m, js) <==> HasInputs(js, m)
  {
    forall t: Target ensures Fits(ElementsOf(m)[t], js) <==> HasInput(js, ElementsOf(m)[t]) {
      FitsIff(js, ElementsOf(m)[t]);
    }
    if AllFit(m, js) {
      forall t: Target ensures Fits(ElementsOf(m)[t], js) { }
    }
    if HasInputs(js, m) {
      assert forall i :: 0 <= i < 15 ==> m.buttons[i] == ElementsOf(m)[i];
      assert forall i :: 0 <= i < 6 ==> m.axes[i] == ElementsOf(m)[15 + i];
    }
  }

  lemma HatHasIff(js: Joystick, e: Element)
    requires Sound(js) && HasInput(js, e) && e.kind.HatBit?
    ensures HatHas(js.hats[HatOf(e.index)], e.index) <==> HatIsDown(js, e)
  {
    assert Mirrors(js, e.index / 16);
    HatHasPoints(js.hats[HatOf(e.index)], e.index);
    forall d: Direction
      ensures js.buttons[HatButton(js, e.index / 16, d)] == PRESS <==> Points(js.hats[e.index / 16], d)
    {
    }
  }

  lemma HatHasPoints(hat: Byte, index: Byte)
    ensures HatHas(hat, index) <==> exists d: Direction :: Points(index, d) && Points(hat, d)
  {
    assert HatHas(hat, index) ==>
      || (Points(index, UP) && Points(hat, UP)) || (Points(index, RIGHT) && Points(hat, RIGHT))
      || (Points(index, DOWN) && Points(hat, DOWN)) || (Points(index, LEFT) && Points(hat, LEFT));
  }

  lemma ButtonValueShows(js: Joystick, e: Element)
    requires Sound(js) && Fits(e, js) && (e.kind.Axis? ==> e == AxisElement(e.index, AxisHalf(e), Inverted(e)))
    ensures HasInput(js, e) && ButtonShows(js, e, ButtonValue(e, js))
  {
    if e.kind.Axis? { ButtonOnAxis(js, e.index, AxisHalf(e), Inverted(e)); }
    if e.kind.HatBit? { HatHasIff(js, e); }
  }

  lemma AxisValueShows(js: Joystick, e: Element)
    requires Sound(js) && Fits(e, js) && (e.kind.Axis? ==> e == AxisElement(e.index, AxisHalf(e), Inverted(e)))
    ensures HasInput(js, e) && AxisShows(js, e, AxisValue(e, js))
  {
    if e.kind.Axis? { AxisIsStretched(js.axes[e.index], e.index, AxisHalf(e), Inverted(e)); }
    if e.kind.HatBit? { HatHasIff(js, e); }
  }

  /** The element's transform, clamped, stretches the named part of the axis. */
  lemma AxisIsStretched(reading: real, index: Byte, half: Half, inverted: bool)
    ensures Clamped(Transformed(AxisElement(index, half, inverted), reading))
      == if inverted then -Stretched(reading, half) else Stretched(reading, half)
  {
    var e := AxisElement(index, half, inverted);
    match half
    case Whole => assert e.scale == (if inverted then -1 else 1) && e.offset == 0;
    case Upper => assert e.scale == (if inverted then -2 else 2) && e.offset == (if inverted then 1 else -1);
    case Lower => assert e.scale == (if inverted then -2 else 2) && e.offset == (if inverted then -1 else 1);
  }

  // ----- the table -----

  /** `findMapping`: the position of the first entry for a GUID, or -1. */
  function IndexOf(ms: seq<Mapping>, guid: string): (i: int)
    ensures -1 <= i < |ms|
    ensures i >= 0 ==> ms[i].guid == guid
    ensures forall j :: 0 <= j < (if i < 0 then |ms| else i) ==> ms[j].guid != guid
  {
    if ms == [] then -1
    else if ms[0].guid == guid then 0
    else
      var i := IndexOf(ms[1..], guid);
      assert forall j :: 1 <= j < |ms| ==> ms[j] == ms[1..][j - 1];
      if i < 0 then -1 else i + 1
  }

  function Lookup(ms: seq<Mapping>, guid: string): Option<Mapping> {
    var i := IndexOf(ms, guid);
    if i < 0 then None else Some(ms[i])
  }

  /** `findValidMapping`: the entry for the joystick's GUID if the joystick has all the inputs the
      entry names. */
  function ValidPointer(js: Joystick, ms: seq<Mapping>, block: nat): Option<Pointer> {
    var i := IndexOf(ms, js.guid);
    if i >= 0 && AllFit(ms[i], js) then Some(Pointer(block, i)) else None
  }

  lemma PointerIgnoresMapping(js: Joystick, p: Option<Pointer>, ms: seq<Mapping>, block: nat)
    ensures ValidPointer(js.(mapping := p), ms, block) == ValidPointer(js, ms, block)
  {
    var i := IndexOf(ms, js.guid);
    if i >= 0 {
      assert AllFit(ms[i], js.(mapping := p)) <==> AllFit(ms[i], js);
    }
  }

  function Insert(ms: seq<Mapping>, m: Mapping): seq<Mapping> {
    var i := IndexOf(ms, m.guid);
    if i >= 0 then ms[i := m] else ms + [m]
  }

  function InsertAll(ms: seq<Mapping>, new_: seq<Mapping>): seq<Mapping>
    decreases |new_|
  {
    if new_ == [] then ms else InsertAll(Insert(ms, new_[0]), new_[1..])
  }

  lemma {:induction false} InsertAllAppend(ms: seq<Mapping>, a: seq<Mapping>, b: seq<Mapping>)
    ensures InsertAll(ms, a + b) == InsertAll(InsertAll(ms, a), b)
    decreases |a|
  {
    if a == [] {
      assert a + b == b;
    } else {
      assert (a + b)[1..] == a[1..] + b;
      InsertAllAppend(Insert(ms, a[0]), a[1..], b);
    }
  }

  predicate HasUpper(guid: string) { exists i :: 0 <= i < |guid| && 'A' <= guid[i] <= 'F' }

  predicate Distinct(ms: seq<Mapping>) { forall i, j :: 0 <= i < j < |ms| ==> ms[i].guid != ms[j].guid }

  /** One entry for each GUID, and only GUIDs of 32 characters without the digits A-F. */
  ghost predicate TableOk(ms: seq<Mapping>) { Distinct(ms) && AllOk(ms) }

  predicate GuidOk(guid: string) { |guid| == 32 && !HasUpper(guid) }

  /** A mapping that a line gave: whatever it says of an axis is about a whole or half axis. */
  ghost predicate MappingOk(m: Mapping) { GuidOk(m.guid) && AxesTransform(ElementsOf(m)) }

  ghost predicate AllOk(ms: seq<Mapping>) { forall i :: 0 <= i < |ms| ==> MappingOk(ms[i]) }

  lemma InsertKeepsTable(ms: seq<Mapping>, m: Mapping)
    requires TableOk(ms) && MappingOk(m)
    ensures TableOk(Insert(ms, m))
  {
  }

  lemma IndexIsUnique(ms: seq<Mapping>, j: nat)
    requires Distinct(ms) && j < |ms|
    ensures IndexOf(ms, ms[j].guid) == j
  {
    var i := IndexOf(ms, ms[j].guid);
    assert 0 <= i <= j;
  }

  lemma LookupAfterInsert(ms: seq<Mapping>, m: Mapping, guid: string)
    requires TableOk(ms) && MappingOk(m)
    ensures Lookup(Insert(ms, m), guid) == if guid == m.guid then Some(m) else Lookup(ms, guid)
  {
    var r := Insert(ms, m);
    InsertKeepsTable(ms, m);
    var k := if IndexOf(ms, m.guid) >= 0 then IndexOf(ms, m.guid) else |ms|;
    assert r[k] == m;
    if guid == m.guid {
      IndexIsUnique(r, k);
    } else {
      var i := IndexOf(ms, guid);
      if i >= 0 {
        assert r[i] == ms[i];
        IndexIsUnique(r, i);
      } else {
        assert forall j :: 0 <= j < |r| ==> r[j].guid != guid;
      }
    }
  }

  /** The last of the new mappings for a GUID. */
  function Last(new_: seq<Mapping>, guid: string): Option<Mapping> {
    if new_ == [] then None
    else if Last(new_[1..], guid).Some? then Last(new_[1..], guid)
    else if new_[0].guid == guid then Some(new_[0])
    else None
  }

  /** The table is a finite map in which the last accepted mapping of a GUID wins. */
  lemma {:induction false} LastMappingWins(ms: seq<Mapping>, new_: seq<Mapping>, guid: string)
    requires TableOk(ms) && AllOk(new_)
    ensures TableOk(InsertAll(ms, new_))
    ensures Lookup(InsertAll(ms, new_), guid)
         == if Last(new_, guid).Some? then Last(new_, guid) else Lookup(ms, guid)
    decreases |new_|
  {
    if new_ != [] {
      InsertKeepsTable(ms, new_[0]);
      LookupAfterInsert(ms, new_[0], guid);
      LastMappingWins(Insert(ms, new_[0]), new_[1..], guid);
    }
  }

  /** No update moves an entry. */
  lemma {:induction false} EntriesStay(ms: seq<Mapping>, new_: seq<Mapping>, i: nat)
    requires i < |ms|
    ensures i < |InsertAll(ms, new_)| && InsertAll(ms, new_)[i].guid == ms[i].guid
    decreases |new_|
  {
    if new_ != [] {
      EntriesStay(Insert(ms, new_[0]), new_[1..], i);
    }
  }

  // ----- the lines of an update -----

  predicate IsNewline(c: char) { c == '\r' || c == '\n' }

  /** `strcspn` for the line end: how many characters come before it. */
  function LineLength(s: string): (n: nat)
    ensures n <= |s| && (n < |s| ==> IsNewline(s[n])) && forall i :: 0 <= i < n ==> !IsNewline(s[i])
  {
    if s == [] || IsNewline(s[0]) then 0 else 1 + LineLength(s[1..])
  }

  /** `strspn` for line ends: how many of them the text starts with. */
  function Newlines(s: string): (n: nat)
    ensures n <= |s|
  {
    if s == [] || !IsNewline(s[0]) then 0 else 1 + Newlines(s[1..])
  }

  predicate IsHex(c: char) { '0' <= c <= '9' || 'a' <= c <= 'f' || 'A' <= c <= 'F' }

  function LowerChar(c: char): char { if 'A' <= c <= 'F' then c + 32 as char else c }

  function LowerGuid(guid: string): (r: string)
    ensures |r| == |guid| && !HasUpper(r)
    ensures forall i :: 0 <= i < |guid| ==> r[i] as int == guid[i] as int + if 'A' <= guid[i] <= 'F' then 32 else 0
  {
    seq(|guid|, i requires 0 <= i < |guid| => LowerChar(guid[i]))
  }

  function MappingOf(guid: string, name: string, e: Elements): Mapping {
    Mapping(guid, name, e[..BUTTONS], e[BUTTONS..])
  }

  function ElementsOf(m: Mapping): Elements { m.buttons + m.axes }

  /** The name, of at most 127 characters, and the fields. */
  function ParseAfterGuid(guid: string, s: string, format: Format): (m: Option<Mapping>)
    ensures m.Some? ==> m.value.guid == guid
  {
    var n := UntilComma(s);
    if n >= 128 || n == |s| then None else ParseAfterName(guid, s[..n], s[n + 1..], format)
  }

  function ParseAfterName(guid: string, name: string, s: string, format: Format): (m: Option<Mapping>)
    ensures m.Some? ==> m.value.guid == guid
  {
    match ReadFields(format, s, Nothing())
    case None => None
    case Some(e) => Some(MappingOf(guid, name, e))
  }

  /** `parseMapping`: a GUID of 32 characters comes first. */
  function ParseMapping(line: string, format: Format): (m: Option<Mapping>)
    ensures m.Some? ==> GuidOk(m.value.guid) && |line| >= 32 && m.value.guid == LowerGuid(line[..32])
  {
    if UntilComma(line) != 32 || |line| == 32 then None
    else ParseAfterGuid(LowerGuid(line[..32]), line[33..], format)
  }

  /** What a line adds: nothing if it is empty, does not start with a hexadecimal digit, is longer
      than the line buffer holds, or does not parse. */
  function FromLine(line: string, format: Format): (new_: seq<Mapping>)
    ensures AllOk(new_)
  {
    ParsedIsOk(line, format);
    if line == [] || !IsHex(line[0]) || |line| >= 1024 then [] else
      match ParseMapping(line, format)
      case None => []
      case Some(m) => [m]
  }

  /** The mappings accepted from a text, line by line. */
  function Accepted(text: string, format: Format): (new_: seq<Mapping>)
    ensures AllOk(new_)
    decreases |text|
  {
    var n := LineLength(text);
    FromLine(text[..n], format) + if n < |text| then Accepted(text[n + 1..], format) else []
  }

  lemma AcceptedAfterNewline(text: string, format: Format)
    requires text != [] && IsNewline(text[0])
    ensures Accepted(text, format) == Accepted(text[1..], format)
  {
    assert LineLength(text) == 0 && text[..0] == "";
    assert FromLine("", format) == [];
    assert text[0 + 1..] == text[1..];
  }

  lemma AcceptedAfterLine(text: string, format: Format)
    ensures var n := LineLength(text);
            Accepted(text, format) == FromLine(text[..n], format) + Accepted(text[n..], format)
  {
    var n := LineLength(text);
    if n < |text| {
      AcceptedAfterNewline(text[n..], format);
      assert text[n..][1..] == text[n + 1..];
    } else {
      assert Accepted("", format) == [];
      assert text[n..] == "";
    }
  }

  lemma {:induction false} AcceptedAfterNewlines(text: string, format: Format)
    ensures Accepted(text, format) == Accepted(text[Newlines(text)..], format)
    decreases |text|
  {
    if text == [] || !IsNewline(text[0]) {
      assert text[0..] == text;
    } else {
      AcceptedAfterNewline(text, format);
      AcceptedAfterNewlines(text[1..], format);
      assert text[1..][Newlines(text[1..])..] == text[Newlines(text)..];
    }
  }

  /** One line of a text, against the table so far. */
  lemma LineStep(text: string, format: Format, ms: seq<Mapping>)
    ensures var n := LineLength(text);
            InsertAll(ms, Accepted(text, format))
            == InsertAll(InsertAll(ms, FromLine(text[..n], format)), Accepted(text[n..], format))
  {
    var n := LineLength(text);
    AcceptedAfterLine(text, format);
    InsertAllAppend(ms, FromLine(text[..n], format), Accepted(text[n..], format));
  }

  /** Anything but a hexadecimal digit is skipped with the rest of its line. */
  lemma SkipStep(text: string, format: Format)
    requires text != [] && !IsHex(text[0])
    ensures var rest := text[LineLength(text)..];
            Accepted(text, format) == Accepted(rest[Newlines(rest)..], format)
  {
    var n := LineLength(text);
    AcceptedAfterLine(text, format);
    assert FromLine(text[..n], format) == [];
    AcceptedAfterNewlines(text[n..], format);
  }

  // ----- printed lines -----

  /** The line a mapping is printed as. */
  function LineOf(m: Mapping, format: Format): string {
    m.guid + ("," + (m.name + ("," + Print(format, ElementsOf(m), 0))))
  }

  /** A mapping that a line can give: its name fits and has no comma, and its elements are ones that
      fields make. */
  ghost predicate Writable(m: Mapping) {
    && GuidOk(m.guid) && CommaFree(m.guid) && CommaFree(m.name) && |m.name| < 128 && AllPrintable(ElementsOf(m))
  }

  lemma CommaAfter(text: string, rest: string)
    requires CommaFree(text)
    ensures UntilComma(text + ("," + rest)) == |text|
  {
    var s := text + ("," + rest);
    assert s[|text|] == ',';
    assert forall i :: 0 <= i < |text| ==> s[i] == text[i];
  }

  lemma LowerIsKept(guid: string)
    requires !HasUpper(guid)
    ensures LowerGuid(guid) == guid
  {
    forall i | 0 <= i < |guid| ensures LowerChar(guid[i]) == guid[i] { }
  }

  lemma NameRead(guid: string, name: string, fields: string, e: Elements, f: Format)
    requires CommaFree(name) && |name| < 128 && ReadFields(f, fields, Nothing()) == Some(e)
    ensures ParseAfterGuid(guid, name + ("," + fields), f) == Some(MappingOf(guid, name, e))
  {
    CommaAfter(name, fields);
    NameEnds(name, fields);
    NameParsed(guid, name + ("," + fields), |name|, f);
    FieldsParsed(guid, name, fields, e, f);
  }

  lemma NameEnds(name: string, fields: string)
    ensures var s := name + ("," + fields); s[..|name|] == name && s[|name| + 1..] == fields
  {
  }

  lemma NameParsed(guid: string, s: string, n: nat, f: Format)
    requires UntilComma(s) == n < |s| && n < 128
    ensures ParseAfterGuid(guid, s, f) == ParseAfterName(guid, s[..n], s[n + 1..], f)
  {
  }

  lemma FieldsParsed(guid: string, name: string, fields: string, e: Elements, f: Format)
    requires ReadFields(f, fields, Nothing()) == Some(e)
    ensures ParseAfterName(guid, name, fields, f) == Some(MappingOf(guid, name, e))
  {
  }

  lemma SameMapping(m: Mapping)
    ensures MappingOf(m.guid, m.name, ElementsOf(m)) == m
  {
  }

  lemma NameRoundTrip(m: Mapping, platform: string)
    requires Writable(m) && CommaFree(platform)
    ensures var f := FormatFor(platform);
            ParseAfterGuid(m.guid, m.name + ("," + Print(f, ElementsOf(m), 0)), f) == Some(m)
  {
    var f := FormatFor(platform);
    FieldsRoundTrip(platform, ElementsOf(m));
    NameRead(m.guid, m.name, Print(f, ElementsOf(m), 0), ElementsOf(m), f);
    SameMapping(m);
  }

  lemma GuidRead(guid: string, rest: string, format: Format)
    requires GuidOk(guid) && CommaFree(guid)
    ensures ParseMapping(guid + ("," + rest), format) == ParseAfterGuid(guid, rest, format)
  {
    var line := guid + ("," + rest);
    CommaAfter(guid, rest);
    LowerIsKept(guid);
    assert line[..32] == guid && line[33..] == rest;
  }

  /** The parser undoes the printer: every mapping that a line can give comes back from its line. */
  lemma LineRoundTrip(m: Mapping, platform: string)
    requires Writable(m) && CommaFree(platform)
    ensures ParseMapping(LineOf(m, FormatFor(platform)), FormatFor(platform)) == Some(m)
  {
    NameRoundTrip(m, platform);
    GuidRead(m.guid, m.name + ("," + Print(FormatFor(platform), ElementsOf(m), 0)), FormatFor(platform));
  }

  predicate OneLine(s: string) { forall i :: 0 <= i < |s| ==> !IsNewline(s[i]) }

  lemma OnlyLine(line: string, format: Format)
    requires OneLine(line)
    ensures Accepted(line, format) == FromLine(line, format)
  {
    assert LineLength(line) == |line| && line[..|line|] == line;
  }

  /** The lines of a text are what stands between its newline characters; they are tried in order. */
  lemma {:induction false} LinesApart(line: string, newline: char, more: string, format: Format)
    requires OneLine(line) && newline in {'\r', '\n'}
    ensures Accepted(line + ([newline] + more), format) == FromLine(line, format) + Accepted(more, format)
  {
    LineEnds(line, newline, more);
    FirstLine(line + ([newline] + more), |line|, format);
  }

  lemma {:induction false} LineEnds(line: string, newline: char, more: string)
    requires OneLine(line) && IsNewline(newline)
    ensures var text := line + ([newline] + more);
      |line| < |text| && LineLength(text) == |line| && text[..|line|] == line && text[|line| + 1..] == more
  {
    var text := line + ([newline] + more);
    assert text[|line|] == newline;
    assert forall i :: 0 <= i < |line| ==> text[i] == line[i];
  }

  lemma {:induction false} FirstLine(text: string, n: nat, format: Format)
    requires n == LineLength(text) < |text|
    ensures Accepted(text, format) == FromLine(text[..n], format) + Accepted(text[n + 1..], format)
  {
  }

  /** A line gives a mapping if and only if it starts with a hexadecimal digit, fits the buffer of 1024
      with its NUL, and parses; otherwise it gives nothing. */
  lemma {:induction false} LineGives(line: string, format: Format, m: Mapping)
    ensures FromLine(line, format) == [m] <==>
      0 < |line| < 1024 && line[0] in "0123456789abcdefABCDEF" && ParseMapping(line, format) == Some(m)
    ensures (forall n :: FromLine(line, format) != [n]) ==> FromLine(line, format) == []
  {
    if line != [] { HexDigits(line[0]); }
    if FromLine(line, format) != [] { assert FromLine(line, format) == [FromLine(line, format)[0]]; }
  }

  lemma HexDigits(c: char)
    ensures IsHex(c) <==> c in "0123456789abcdefABCDEF"
  {
    var digits := "0123456789abcdefABCDEF";
    if '0' <= c <= '9' { assert digits[c as int - '0' as int] == c; }
    if 'a' <= c <= 'f' { assert digits[10 + (c as int - 'a' as int)] == c; }
    if 'A' <= c <= 'F' { assert digits[16 + (c as int - 'A' as int)] == c; }
  }

  /** An update with the printed line of a mapping accepts exactly that mapping. */
  lemma PrintedLineIsAccepted(m: Mapping, platform: string)
    requires Writable(m) && CommaFree(platform) && IsHex(m.guid[0])
    requires |LineOf(m, FormatFor(platform))| < 1024 && OneLine(LineOf(m, FormatFor(platform)))
    ensures Accepted(LineOf(m, FormatFor(platform)), FormatFor(platform)) == [m]
  {
    var line := LineOf(m, FormatFor(platform));
    LineRoundTrip(m, platform);
    assert line[0] == m.guid[0];
    OnlyLine(line, FormatFor(platform));
  }

  /** Whatever a line says, a parsed axis element carries the named part of its axis onto the whole
      range; `AxisFillsRange` and `ButtonOnAxis` apply to it. */
  lemma ParsedAxesTransform(line: string, format: Format, m: Mapping, t: Target)
    requires ParseMapping(line, format) == Some(m) && ElementsOf(m)[t].kind.Axis?
    ensures var e := ElementsOf(m)[t];
            e == AxisElement(e.index, AxisHalf(e), Inverted(e))
  {
    ParsedElements(LowerGuid(line[..32]), line[33..], format, m);
  }

  lemma ParsedIsOk(line: string, format: Format)
    ensures ParseMapping(line, format).Some? ==> MappingOk(ParseMapping(line, format).value)
  {
    if ParseMapping(line, format).Some? {
      ParsedElements(LowerGuid(line[..32]), line[33..], format, ParseMapping(line, format).value);
    }
  }

  lemma ParsedElements(guid: string, s: string, format: Format, m: Mapping)
    requires ParseAfterGuid(guid, s, format) == Some(m)
    ensures AxesTransform(ElementsOf(m))
  {
    var text := s[UntilComma(s) + 1..];
    ReadFieldsTransform(format, text, Nothing());
    SameElements(guid, s[..UntilComma(s)], ReadFields(format, text, Nothing()).value);
  }

  lemma SameElements(guid: string, name: string, e: Elements)
    ensures ElementsOf(MappingOf(guid, name, e)) == e
  {
  }

  // ----- which lines parse -----

  /** A line made of a GUID of 32 characters, a name of at most 127, and readable fields. */
  ghost predicate Shaped(line: string, guid: string, name: string, fields: string, format: Format) {
    && |guid| == 32 && |name| < 128 && CommaFree(guid) && CommaFree(name)
    && line == guid + ("," + (name + ("," + fields))) && ReadFields(format, fields, Nothing()).Some?
  }

  lemma ShapedParses(line: string, guid: string, name: string, fields: string, format: Format)
    requires Shaped(line, guid, name, fields, format)
    ensures ParseMapping(line, format)
      == Some(MappingOf(LowerGuid(guid), name, ReadFields(format, fields, Nothing()).value))
  {
    var rest := name + ("," + fields);
    CommaAfter(guid, rest);
    NameRead(LowerGuid(guid), name, fields, ReadFields(format, fields, Nothing()).value, format);
    assert line[..32] == guid && line[33..] == rest;
  }

  lemma BeforeComma(s: string, n: nat)
    requires n == UntilComma(s) < |s|
    ensures s == s[..n] + ("," + s[n + 1..]) && CommaFree(s[..n])
  {
    SplitAt(s, n);
  }

  lemma AfterNameReads(guid: string, name: string, s: string, format: Format)
    requires ParseAfterName(guid, name, s, format).Some?
    ensures ReadFields(format, s, Nothing()).Some?
  {
  }

  lemma NameShape(guid: string, s: string, format: Format) returns (name: string, fields: string)
    requires ParseAfterGuid(guid, s, format).Some?
    ensures s == name + ("," + fields) && |name| < 128 && CommaFree(name) && ReadFields(format, fields, Nothing()).Some?
  {
    var n := UntilComma(s);
    name, fields := s[..n], s[n + 1..];
    BeforeComma(s, n);
    AfterNameReads(guid, name, fields, format);
  }

  lemma ParsedIsShaped(line: string, format: Format) returns (guid: string, name: string, fields: string)
    requires ParseMapping(line, format).Some?
    ensures Shaped(line, guid, name, fields, format)
  {
    guid := line[..32];
    SplitAt(line, 32);
    name, fields := NameShape(LowerGuid(guid), line[33..], format);
  }

  lemma SplitAt(s: string, n: nat)
    requires n < |s| && s[n] == ','
    ensures s == s[..n] + ("," + s[n + 1..])
  {
  }

  /** The lines that parse are exactly the lines of that shape. */
  lemma ParsesIffShaped(line: string, format: Format)
    ensures ParseMapping(line, format).Some? <==> exists guid, name, fields :: Shaped(line, guid, name, fields, format)
    ensures ParseMapping(line, format).Some? ==> AxesTransform(ElementsOf(ParseMapping(line, format).value))
  {
    if ParseMapping(line, format).Some? {
      var guid, name, fields := ParsedIsShaped(line, format);
      ParsedElements(LowerGuid(line[..32]), line[33..], format, ParseMapping(line, format).value);
    }
    if guid, name, fields :| Shaped(line, guid, name, fields, format) {
      ShapedParses(line, guid, name, fields, format);
    }
  }
}
