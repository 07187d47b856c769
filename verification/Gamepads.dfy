/** The joystick slots and the gamepad mapping array of glfw/input.c, updated in place. The array is
    reallocated to grow, so pointers into it can dangle: between calls none does. */
module Gamepads {
  import opened GamepadMappings
  import opened MappingFields
  import opened Options

  datatype Op =
    | Update(text: string)
    | Connect(guid: string, axisCount: nat, buttonCount: nat, hatCount: nat)
    | Disconnect(jid: nat)
    | MoveAxis(jid: nat, axis: nat, reading: real)
    | SetButton(jid: nat, button: nat, down: bool)
    | SetHat(jid: nat, hat: nat, bits: Byte)

  function AcceptedBy(op: Op, format: Format): (new_: seq<Mapping>)
    ensures AllOk(new_)
  {
    if op.Update? then Accepted(op.text, format) else []
  }

  /** What all the updates of a run accept, in order. */
  function AcceptedIn(ops: seq<Op>, format: Format): (new_: seq<Mapping>)
    ensures AllOk(new_)
  {
    if ops == [] then [] else AcceptedIn(ops[..|ops| - 1], format) + AcceptedBy(ops[|ops| - 1], format)
  }

  lemma AcceptedInNext(ops: seq<Op>, k: nat, format: Format)
    requires k < |ops|
    ensures AcceptedIn(ops[..k + 1], format) == AcceptedIn(ops[..k], format) + AcceptedBy(ops[k], format)
  {
    assert ops[..k + 1][..k] == ops[..k];
  }

  class Library {
    const format: Format
    const joysticks: array<Joystick>
    var mappings: seq<Mapping>
    var block: nat

    ghost predicate SlotsSound()
      reads joysticks
    {
      joysticks.Length == SLOTS && forall j :: 0 <= j < SLOTS ==> Sound(joysticks[j])
    }

    /** A connected joystick's mapping is none, or the live entry for its GUID if it has every input
        that entry names. */
    ghost predicate Valid()
      reads this, joysticks
    {
      && SlotsSound() && TableOk(mappings)
      && forall j :: 0 <= j < SLOTS && joysticks[j].present ==>
           joysticks[j].mapping == ValidPointer(joysticks[j], mappings, block)
    }

    constructor (platform: string)
      ensures Valid() && fresh(joysticks) && mappings == [] && format == FormatFor(platform)
    {
      format := FormatFor(platform);
      joysticks := new Joystick[SLOTS](_ => ABSENT);
      mappings, block := [], 0;
    }

    /** `findMapping`. */
    method FindMapping(guid: string) returns (at: int)
      ensures at == IndexOf(mappings, guid)
    {
      for i := 0 to |mappings|
        invariant forall j :: 0 <= j < i ==> mappings[j].guid != guid
      {
        if mappings[i].guid == guid { return i; }
      }
      at := -1;
    }

    /** `findValidMapping`. */
    method FindValidMapping(js: Joystick) returns (p: Option<Pointer>)
      requires Sound(js)
      ensures p == ValidPointer(js, mappings, block)
      ensures p.Some? <==> Lookup(mappings, js.guid).Some? && HasInputs(js, Lookup(mappings, js.guid).value)
      ensures p.Some? ==> p.value == Pointer(block, IndexOf(mappings, js.guid))
    {
      if Lookup(mappings, js.guid).Some? { AllFitIff(js, Lookup(mappings, js.guid).value); }
      var at := FindMapping(js.guid);
      if at < 0 { return None; }
      var m := mappings[at];
      for i := 0 to 15
        invariant forall k :: 0 <= k < i ==> Fits(m.buttons[k], js)
      {
        if !Fits(m.buttons[i], js) { return None; }
      }
      for i := 0 to 6
        invariant forall k :: 0 <= k < i ==> Fits(m.axes[k], js)
      {
        if !Fits(m.axes[i], js) { return None; }
      }
      p := Some(Pointer(block, at));
    }

    /** The body of the update loop for one accepted line: overwrite the entry or grow the array. */
    method Store(m: Mapping)
      requires TableOk(mappings) && MappingOk(m)
      modifies this`mappings, this`block
      ensures TableOk(mappings) && mappings == Insert(old(mappings), m)
      ensures block == old(block) + if |mappings| > |old(mappings)| then 1 else 0
    {
      InsertKeepsTable(mappings, m);
      var previous := FindMapping(m.guid);
      if previous >= 0 {
        mappings := mappings[previous := m];
      } else {
        mappings, block := mappings + [m], block + 1;
      }
    }

    /** `parseMapping` from the name on. */
    method ParseName(guid: string, c: string) returns (m: Option<Mapping>)
      ensures m == ParseAfterGuid(guid, c, format)
    {
      var length := UntilComma(c);
      if length >= 128 || length == |c| { return None; }
      var name, rest := c[..length], c[length + 1..];
      m := ParseElements(guid, name, rest);
    }

    method ParseElements(guid: string, name: string, c: string) returns (m: Option<Mapping>)
      ensures m == ParseAfterName(guid, name, c, format)
    {
      var e := ParseFields(format, c);
      if e.Some? { m := Some(MappingOf(guid, name, e.value)); } else { m := None; }
    }

    /** `parseMapping`: a line gives a mapping exactly if it is a GUID, a name and fields of the
        right lengths; the mapping has the GUID in lower case, that name, those fields'
        elements, and only proper axis transforms. */
    method Parse(line: string) returns (m: Option<Mapping>)
      ensures m == ParseMapping(line, format)
      ensures m.Some? <==> exists guid, name, fields :: Shaped(line, guid, name, fields, format)
      ensures forall guid, name, fields :: Shaped(line, guid, name, fields, format) ==>
        m == Some(MappingOf(LowerGuid(guid), name, ReadFields(format, fields, Nothing()).value))
      ensures m.Some? ==> AxesTransform(ElementsOf(m.value))
    {
      ParsesIffShaped(line, format);
      forall guid, name, fields | Shaped(line, guid, name, fields, format)
        ensures ParseMapping(line, format)
          == Some(MappingOf(LowerGuid(guid), name, ReadFields(format, fields, Nothing()).value))
      {
        ShapedParses(line, guid, name, fields, format);
      }
      var length := UntilComma(line);
      if length != 32 || length == |line| { return None; }
      m := ParseName(LowerGuid(line[..length]), line[length + 1..]);
    }

    method AddLine(line: string)
      requires TableOk(mappings) && line != [] && IsHex(line[0])
      modifies this`mappings, this`block
      ensures TableOk(mappings) && mappings == InsertAll(old(mappings), FromLine(line, format))
    {
      if |line| < 1024 {
        ParsedIsOk(line, format);
        var parsed := Parse(line);
        if parsed.Some? {
          Store(parsed.value);
        }
      }
    }

    /** The loop over the text: lines are tried if they start with a hexadecimal digit, anything else
        is skipped to the next line. */
    method ReadLines(text: string)
      requires TableOk(mappings)
      modifies this`mappings, this`block
      ensures TableOk(mappings) && mappings == InsertAll(old(mappings), Accepted(text, format))
    {
      var c := text;
      ghost var start := mappings;
      while c != []
        invariant TableOk(mappings)
        invariant InsertAll(start, Accepted(text, format)) == InsertAll(mappings, Accepted(c, format))
        decreases |c|
      {
        var length := LineLength(c);
        if IsHex(c[0]) {
          LineStep(c, format, mappings);
          AddLine(c[..length]);
          c := c[length..];
        } else {
          SkipStep(c, format);
          c := c[length..];
          c := c[Newlines(c)..];
        }
      }
    }

    /** The loop over the joysticks at the end of an update. */
    method Revalidate()
      requires SlotsSound()
      modifies joysticks
      ensures SlotsSound()
      ensures forall j :: 0 <= j < SLOTS ==> joysticks[j] == old(joysticks[j]).(mapping := joysticks[j].mapping)
      ensures forall j :: 0 <= j < SLOTS && joysticks[j].present ==>
        joysticks[j].mapping == ValidPointer(joysticks[j], mappings, block)
    {
      for jid := 0 to SLOTS
        invariant SlotsSound()
        invariant forall j :: 0 <= j < SLOTS ==> joysticks[j] == old(joysticks[j]).(mapping := joysticks[j].mapping)
        invariant forall j :: 0 <= j < jid && joysticks[j].present ==>
          joysticks[j].mapping == ValidPointer(joysticks[j], mappings, block)
      {
        var js := joysticks[jid];
        if js.present {
          var p := FindValidMapping(js);
          PointerIgnoresMapping(js, p, mappings, block);
          SoundFrame(js, js.(mapping := p));
          joysticks[jid] := js.(mapping := p);
        }
      }
    }

    /** `glfwUpdateGamepadMappings`. */
    method UpdateGamepadMappings(text: string)
      requires Valid()
      modifies this`mappings, this`block, joysticks
      ensures Valid() && mappings == InsertAll(old(mappings), Accepted(text, format))
      ensures forall j :: 0 <= j < SLOTS ==> joysticks[j] == old(joysticks[j]).(mapping := joysticks[j].mapping)
    {
      ReadLines(text);
      Revalidate();
    }

    /** `_glfwAllocJoystick`: the first free slot, or none. */
    method AllocJoystick(guid: string, axisCount: nat, buttonCount: nat, hatCount: nat) returns (slot: Option<nat>)
      requires Valid()
      modifies joysticks
      ensures Valid()
      ensures slot.None? <==> forall j :: 0 <= j < SLOTS ==> old(joysticks[j]).present
      ensures slot.Some? ==>
                && slot.value < SLOTS && !old(joysticks[slot.value]).present
                && (forall j :: 0 <= j < slot.value ==> old(joysticks[j]).present)
                && AtRest(joysticks[slot.value], axisCount, buttonCount, hatCount)
                && joysticks[slot.value].guid == guid[..if |guid| < 32 then |guid| else 32]
      ensures forall j :: 0 <= j < SLOTS && slot != Some(j) ==> joysticks[j] == old(joysticks[j])
    {
      var jid := 0;
      while jid < SLOTS && joysticks[jid].present
        invariant 0 <= jid <= SLOTS && forall j :: 0 <= j < jid ==> joysticks[j].present
      {
        jid := jid + 1;
      }
      if jid == SLOTS { return None; }
      var js := Connected(guid, axisCount, buttonCount, hatCount);
      var p := FindValidMapping(js);
      joysticks[jid] := js.(mapping := p);
      slot := Some(jid);
    }

    /** `_glfwFreeJoystick`. */
    method FreeJoystick(jid: nat)
      requires Valid() && jid < SLOTS
      modifies joysticks
      ensures Valid() && joysticks[..] == old(joysticks[..])[jid := ABSENT]
    {
      joysticks[jid] := ABSENT;
    }

    /** `_glfwInputJoystickAxis`. */
    method InputJoystickAxis(jid: nat, axis: nat, value: real)
      requires Valid() && jid < SLOTS && axis < joysticks[jid].axisCount
      modifies joysticks
      ensures Valid()
      ensures joysticks[..]
        == old(joysticks[..])[jid := old(joysticks[jid]).(axes := old(joysticks[jid]).axes[axis := value])]
    {
      var js := joysticks[jid];
      SoundFrame(js, js.(axes := js.axes[axis := value]));
      joysticks[jid] := js.(axes := js.axes[axis := value]);
    }

    /** `_glfwInputJoystickButton`. */
    method InputJoystickButton(jid: nat, button: nat, value: nat)
      requires Valid() && jid < SLOTS && button < joysticks[jid].buttonCount && value <= 1
      modifies joysticks
      ensures Valid()
      ensures joysticks[..]
           == old(joysticks[..])[jid := old(joysticks[jid]).(buttons := old(joysticks[jid]).buttons[button := value])]
    {
      var js := joysticks[jid];
      SoundFrame(js, js.(buttons := js.buttons[button := value]));
      joysticks[jid] := js.(buttons := js.buttons[button := value]);
    }

    /** `_glfwInputJoystickHat`: the hat also counts as four buttons after the real ones. */
    method InputJoystickHat(jid: nat, hat: nat, value: Byte)
      requires Valid() && jid < SLOTS && hat < joysticks[jid].hatCount
      modifies joysticks
      ensures Valid()
      ensures joysticks[..] == old(joysticks[..])[jid := WithHat(old(joysticks[jid]), hat, value)]
      ensures HatStored(old(joysticks[jid]), joysticks[jid], hat, value)
    {
      var js := joysticks[jid];
      var base := js.buttonCount + hat * 4;
      var buttons := js.buttons;
      buttons := buttons[base := value % 2];
      buttons := buttons[base + 1 := value / 2 % 2];
      buttons := buttons[base + 2 := value / 4 % 2];
      buttons := buttons[base + 3 := value / 8 % 2];
      assert buttons == WithHat(js, hat, value).buttons;
      WithHatSound(js, hat, value);
      joysticks[jid] := js.(buttons := buttons, hats := js.hats[hat := value]);
    }

    /** Following a pointer into the mapping array; it must not dangle. */
    function Deref(p: Pointer): Mapping
      requires p.block == block && p.index < |mappings|
      reads this
    {
      mappings[p.index]
    }

    /** `glfwGetGamepadState`: succeeds exactly when the table has an entry for the joystick's GUID
        and the joystick has every input it names. */
    method GetGamepadState(jid: nat) returns (ok: bool, state: GamepadState)
      requires Valid() && jid < SLOTS
      ensures var js := joysticks[jid];
              var entry := Lookup(mappings, js.guid);
              && (ok <==> js.present && entry.Some? && HasInputs(js, entry.value))
              && (ok ==> Reports(state, entry.value, js))
              && InRange(state)
    {
      var js := joysticks[jid];
      state := GamepadState(seq(15, i => RELEASE), seq(6, i => 0.0));
      ok := false;
      if Lookup(mappings, js.guid).Some? { AllFitIff(js, Lookup(mappings, js.guid).value); }
      if !js.present || js.mapping.None? { return; }
      var m := Deref(js.mapping.value);
      var buttons := GamepadButtons(m, js);
      var axes := GamepadAxes(m, js);
      ok, state := true, GamepadState(buttons, axes);
    }

    /** The first loop of the query. */
    method GamepadButtons(m: Mapping, js: Joystick) returns (buttons: seq<nat>)
      requires Sound(js) && AllFit(m, js) && MappingOk(m)
      ensures HasInputs(js, m) && |buttons| == 15
      ensures forall i :: 0 <= i < 15 ==> buttons[i] <= 1 && ButtonShows(js, ElementsOf(m)[i], buttons[i])
    {
      AllFitIff(js, m);
      buttons := [];
      for i := 0 to 15
        invariant |buttons| == i
        invariant forall k :: 0 <= k < i ==> buttons[k] <= 1 && ButtonShows(js, ElementsOf(m)[k], buttons[k])
      {
        assert m.buttons[i] == ElementsOf(m)[i];
        ButtonValueShows(js, m.buttons[i]);
        buttons := buttons + [ButtonValue(m.buttons[i], js)];
      }
    }

    /** ... and the second. */
    method GamepadAxes(m: Mapping, js: Joystick) returns (axes: seq<real>)
      requires Sound(js) && AllFit(m, js) && MappingOk(m)
      ensures HasInputs(js, m) && |axes| == 6
      ensures forall i :: 0 <= i < 6 ==> -1.0 <= axes[i] <= 1.0 && AxisShows(js, ElementsOf(m)[15 + i], axes[i])
    {
      AllFitIff(js, m);
      axes := [];
      for i := 0 to 6
        invariant |axes| == i
        invariant forall k :: 0 <= k < i ==> -1.0 <= axes[k] <= 1.0 && AxisShows(js, ElementsOf(m)[15 + k], axes[k])
      {
        assert m.axes[i] == ElementsOf(m)[15 + i];
        AxisValueShows(js, m.axes[i]);
        axes := axes + [AxisValue(m.axes[i], js)];
      }
    }

    /** Whether the platform can report an operation now. */
    predicate Possible(op: Op)
      requires joysticks.Length == SLOTS
      reads joysticks
    {
      match op
      case Update(_) => true
      case Connect(_, _, _, _) => true
      case Disconnect(jid) => jid < SLOTS
      case MoveAxis(jid, axis, _) => jid < SLOTS && axis < joysticks[jid].axisCount
      case SetButton(jid, button, _) => jid < SLOTS && button < joysticks[jid].buttonCount
      case SetHat(jid, hat, _) => jid < SLOTS && hat < joysticks[jid].hatCount
    }

    /** What a reading makes of the joystick it comes from; updates and connections are not readings. */
    predicate IsReading(op: Op) { op.MoveAxis? || op.SetButton? || op.SetHat? }

    ghost predicate Stored(op: Op, js: Joystick, js': Joystick) {
      match op
      case MoveAxis(_, axis, reading) => axis < |js.axes| && js' == js.(axes := js.axes[axis := reading])
      case SetButton(_, button, down) =>
        button < |js.buttons| && js' == js.(buttons := js.buttons[button := if down then PRESS else RELEASE])
      case SetHat(_, hat, bits) => HatStored(js, js', hat, bits)
      case _ => false
    }

    method Perform(op: Op)
      requires Valid()
      modifies this`mappings, this`block, joysticks
      ensures Valid()
      ensures mappings == InsertAll(old(mappings), AcceptedBy(op, format))
      ensures IsReading(op) && old(Possible(op)) ==>
        && Stored(op, old(joysticks[op.jid]), joysticks[op.jid])
        && forall j :: 0 <= j < SLOTS && j != op.jid ==> joysticks[j] == old(joysticks[j])
      ensures op.Disconnect? && op.jid < SLOTS ==> joysticks[..] == old(joysticks[..])[op.jid := ABSENT]
    {
      if Possible(op) {
        match op
        case Update(text) => UpdateGamepadMappings(text);
        case Connect(guid, a, b, h) => var _ := AllocJoystick(guid, a, b, h);
        case Disconnect(jid) => FreeJoystick(jid);
        case MoveAxis(jid, axis, value) => InputJoystickAxis(jid, axis, value);
        case SetButton(jid, button, down) => InputJoystickButton(jid, button, if down then PRESS else RELEASE);
        case SetHat(jid, hat, value) => InputJoystickHat(jid, hat, value);
      }
    }

    /** Any run of updates, connections and readings, from an empty library: the table maps each GUID
        to the last mapping accepted for it, and every slot stays valid. */
    method PerformAll(ops: seq<Op>)
      requires Valid() && mappings == []
      modifies this`mappings, this`block, joysticks
      ensures Valid()
      ensures forall guid :: Lookup(mappings, guid) == Last(AcceptedIn(ops, format), guid)
    {
      for k := 0 to |ops|
        invariant Valid() && mappings == InsertAll([], AcceptedIn(ops[..k], format))
      {
        AcceptedInNext(ops, k, format);
        InsertAllAppend([], AcceptedIn(ops[..k], format), AcceptedBy(ops[k], format));
        Perform(ops[k]);
      }
      assert ops[..|ops|] == ops;
      forall guid ensures Lookup(mappings, guid) == Last(AcceptedIn(ops, format), guid) {
        LastMappingWins([], AcceptedIn(ops, format), guid);
      }
    }
  }
}
