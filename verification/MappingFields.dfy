/** The fields of a gamepad mapping line, `parseMapping` in glfw/input.c: what each names, how its
    element is read, and a printer that the reader undoes. A string is what precedes its NUL. */
module MappingFields {
  import opened Options

  datatype Kind = Unused | Axis | Button | HatBit

  type Byte = n: nat | n < 256

  /** `_GLFWmapelement`: for a hat, the index holds the hat in its upper half and the bits in its
      lower half. */
  datatype Element = Element(kind: Kind, index: Byte, scale: int, offset: int)

  const UNUSED := Element(Unused, 0, 0, 0)

  const BUTTONS := 15
  const TARGETS := 21

  /** The fifteen buttons and then the six axes of a mapping. */
  type Elements = e: seq<Element> | |e| == TARGETS witness seq(TARGETS, i => UNUSED)

  function Nothing(): (e: Elements)
    ensures forall t :: 0 <= t < TARGETS ==> e[t] == UNUSED
  {
    seq(TARGETS, i => UNUSED)
  }

  /** Which part of an axis a field names: `a0`, `+a0` or `-a0`. */
  datatype Half = Whole | Upper | Lower {
    function Min(): int { if Upper? then 0 else -1 }
    function Max(): int { if Lower? then 0 else 1 }
  }

  /** The element built for an axis field. */
  function AxisElement(index: Byte, half: Half, inverted: bool): Element {
    var scale, offset := 2 / (half.Max() - half.Min()), -(half.Max() + half.Min());
    if inverted then Element(Axis, index, -scale, -offset) else Element(Axis, index, scale, offset)
  }

  // ----- the C library -----

  /** `strcspn` for a comma. */
  function UntilComma(s: string): (n: nat)
    ensures n <= |s| && (n < |s| ==> s[n] == ',') && forall i :: 0 <= i < n ==> s[i] != ','
  {
    if s == "" || s[0] == ',' then 0 else 1 + UntilComma(s[1..])
  }

  /** `strspn` for commas. */
  function Commas(s: string): (n: nat)
    ensures n <= |s| && (n < |s| ==> s[n] != ',') && forall i :: 0 <= i < n ==> s[i] == ','
  {
    if s == "" || s[0] != ',' then 0 else 1 + Commas(s[1..])
  }

  predicate IsSpace(c: char) { c == ' ' || '\t' <= c <= '\r' }
  predicate IsDigit(c: char) { '0' <= c <= '9' }

  function Spaces(s: string): (n: nat)
    ensures n <= |s|
  {
    if s == "" || !IsSpace(s[0]) then 0 else 1 + Spaces(s[1..])
  }

  function DigitCount(s: string): (n: nat)
    ensures n <= |s|
  {
    if s == "" || !IsDigit(s[0]) then 0 else 1 + DigitCount(s[1..])
  }

  function DigitValue(c: char): nat { if IsDigit(c) then (c - '0') as nat else 0 }

  function Decimal(digits: string): nat {
    if digits == "" then 0 else Decimal(digits[..|digits| - 1]) * 10 + DigitValue(digits[|digits| - 1])
  }

  const ULONG_LIMIT := 0x1_0000_0000_0000_0000

  datatype Number = Number(value: nat, rest: string)

  /** `strtoul` in base ten: white space, a sign, digits; too large a number saturates and a minus
      sign negates modulo 2^64. Without digits nothing is consumed. */
  function Strtoul(s: string): (n: Number)
    ensures |n.rest| <= |s|
  {
    var t := s[Spaces(s)..];
    var signed := t != "" && (t[0] == '+' || t[0] == '-');
    var u := if signed then t[1..] else t;
    var n := DigitCount(u);
    if n == 0 then Number(0, s)
    else
      var v := Decimal(u[..n]);
      Number(if v >= ULONG_LIMIT then ULONG_LIMIT - 1
             else if signed && t[0] == '-' && v > 0 then ULONG_LIMIT - v
             else v, u[n..])
  }

  /** Bitwise or. */
  function BitOr(a: nat, b: nat): nat {
    if a == 0 && b == 0 then 0 else 2 * BitOr(a / 2, b / 2) + if a % 2 == 1 || b % 2 == 1 then 1 else 0
  }

  /** `(uint8_t) ((hat << 4) | bit)`. */
  function HatIndex(hat: nat, bit: nat): Byte { BitOr(hat * 16, bit) % 256 }

  // ----- one element -----

  datatype Read = Read(element: Element, rest: string)

  function HalfOf(s: string): Half {
    if s == "" then Whole else if s[0] == '+' then Upper else if s[0] == '-' then Lower else Whole
  }

  function AfterSign(s: string): string { if HalfOf(s).Whole? then s else s[1..] }

  function KindOf(c: char): Kind {
    if c == 'a' then Axis else if c == 'b' then Button else if c == 'h' then HatBit else Unused
  }

  function Drop1(s: string): string { if s == "" then "" else s[1..] }

  /** What a field's value makes of an element, and where reading stops. A value that names no input
      leaves the element as it is; only an axis sets the transform. */
  function ReadElement(e: Element, s: string): (r: Read)
    ensures |r.rest| <= |s|
  {
    var t := AfterSign(s);
    if t == "" || KindOf(t[0]).Unused? then Read(e, t)
    else
      var n := Strtoul(t[1..]);
      match KindOf(t[0])
      case HatBit => ReadHat(e, n)
      case Axis => Read(AxisElement(LowByte(n.value), HalfOf(s), n.rest != "" && n.rest[0] == '~'), n.rest)
      case _ => Read(e.(kind := Button, index := LowByte(n.value)), n.rest)
  }

  function LowByte(n: nat): Byte { n % 256 }

  /** A hat's second number follows one character after the first. */
  function ReadHat(e: Element, hat: Number): (r: Read)
    ensures |r.rest| <= |hat.rest|
  {
    var bit := Strtoul(Drop1(hat.rest));
    Read(e.(kind := HatBit, index := HatIndex(hat.value, bit.value)), bit.rest)
  }

  // ----- the fields -----

  type Target = t: nat | t < TARGETS

  /** An entry of `fields`; the platform entry has no element. */
  datatype Field = Field(name: string, target: Option<Target>)

  const FIELDS: seq<Field> := [
    Field("platform", None),
    Field("a", Some(0)), Field("b", Some(1)), Field("x", Some(2)), Field("y", Some(3)),
    Field("back", Some(6)), Field("start", Some(7)), Field("guide", Some(8)),
    Field("leftshoulder", Some(4)), Field("rightshoulder", Some(5)),
    Field("leftstick", Some(9)), Field("rightstick", Some(10)),
    Field("dpup", Some(11)), Field("dpright", Some(12)), Field("dpdown", Some(13)), Field("dpleft", Some(14)),
    Field("lefttrigger", Some(19)), Field("righttrigger", Some(20)),
    Field("leftx", Some(15)), Field("lefty", Some(16)), Field("rightx", Some(17)), Field("righty", Some(18))]

  /** What a build of the library reads lines by: its platform's name and its field table. */
  datatype Format = Format(platform: string, fields: seq<Field>)

  function FormatFor(platform: string): Format { Format(platform, FIELDS) }

  /** `strncmp(c, name, length) == 0 && c[length] == ':'`. */
  predicate Names(s: string, name: string) { name + ":" <= s }

  /** The first entry, from `i` on, that names the text's field, or the number of entries. */
  function FindField(fields: seq<Field>, s: string, i: nat): (k: nat)
    requires i <= |fields|
    ensures i <= k <= |fields|
    ensures k < |fields| ==> Names(s, fields[k].name)
    ensures forall j :: i <= j < k ==> !Names(s, fields[j].name)
    decreases |fields| - i
  {
    if i == |fields| || Names(s, fields[i].name) then i else FindField(fields, s, i + 1)
  }

  function NextField(s: string): (r: string)
    ensures |r| <= |s| && (s != "" ==> |r| < |s|)
  {
    var t := s[UntilComma(s)..];
    t[Commas(t)..]
  }

  /** The loop of `parseMapping`: None for an output modifier or another platform's line. */
  function ReadFields(f: Format, s: string, e: Elements): Option<Elements>
    decreases |s|, 1
  {
    if s == "" then Some(e)
    else if s[0] == '+' || s[0] == '-' then None
    else ReadField(f, FindField(f.fields, s, 0), s, e)
  }

  /** Its body for the entry that names the field, and the fields after it. */
  function ReadField(f: Format, k: nat, s: string, e: Elements): Option<Elements>
    requires s != "" && k <= |f.fields| && (k < |f.fields| ==> Names(s, f.fields[k].name))
    decreases |s|, 0
  {
    if k == |f.fields| then ReadFields(f, NextField(s), e)
    else
      var value := s[|f.fields[k].name| + 1..];
      match f.fields[k].target
      case None => if f.platform <= value then ReadFields(f, NextField(value), e) else None
      case Some(t) =>
        var r := ReadElement(e[t], value);
        ReadFields(f, NextField(r.rest), e[t := r.element])
  }

  /** The loop over `fields` that looks for the entry a field names. */
  method SearchTable(fields: seq<Field>, s: string) returns (k: nat)
    ensures k == FindField(fields, s, 0)
  {
    k := 0;
    while k < |fields| && !Names(s, fields[k].name)
      invariant k <= |fields| && FindField(fields, s, 0) == FindField(fields, s, k)
    {
      k := k + 1;
    }
  }

  /** The loop of `parseMapping` over the text after the name. */
  method ParseFields(f: Format, text: string) returns (r: Option<Elements>)
    ensures r == ReadFields(f, text, Nothing())
  {
    var c, elements := text, Nothing();
    while c != ""
      invariant ReadFields(f, text, Nothing()) == ReadFields(f, c, elements)
      decreases |c|
    {
      if c[0] == '+' || c[0] == '-' { return None; }
      var k := SearchTable(f.fields, c);
      if k < |f.fields| {
        ghost var start := c;
        c := c[|f.fields[k].name| + 1..];
        match f.fields[k].target {
          case Some(t) =>
            var read := ReadElement(elements[t], c);
            elements, c := elements[t := read.element], read.rest;
          case None =>
            if !(f.platform <= c) { return None; }
        }
        assert |c| < |start|;
      }
      c := NextField(c);
    }
    r := Some(elements);
  }

  // ----- entries do not clash -----

  predicate Word(s: string) { s != "" && forall i :: 0 <= i < |s| ==> 'a' <= s[i] <= 'z' }

  predicate CommaFree(s: string) { forall i :: 0 <= i < |s| ==> s[i] != ',' }

  /** Names are words and no two entries share a name or an element. */
  ghost predicate Unambiguous(f: Format) {
    && CommaFree(f.platform)
    && (forall i :: 0 <= i < |f.fields| ==> Word(f.fields[i].name))
    && (forall i, j :: 0 <= i < j < |f.fields| ==>
        f.fields[i].name != f.fields[j].name && f.fields[i].target != f.fields[j].target)
  }

  ghost predicate Covers(f: Format, t: Target) {
    exists i :: 0 <= i < |f.fields| && f.fields[i].target == Some(t)
  }

  lemma TableIsUnambiguous(platform: string)
    requires CommaFree(platform)
    ensures Unambiguous(FormatFor(platform))
  {
    forall i, j | 0 <= i < j < |FIELDS|
      ensures FIELDS[i].name != FIELDS[j].name && FIELDS[i].target != FIELDS[j].target
    {
      NamesDiffer(i, j);
      TargetsDiffer(i, j);
    }
    forall i | 0 <= i < |FIELDS| ensures Word(FIELDS[i].name) { }
  }

  lemma NamesDiffer(i: nat, j: nat)
    requires i < j < |FIELDS|
    ensures FIELDS[i].name != FIELDS[j].name
  {
  }

  lemma TargetsDiffer(i: nat, j: nat)
    requires i < j < |FIELDS|
    ensures FIELDS[i].target != FIELDS[j].target
  {
  }

  lemma TableCovers(platform: string, t: Target)
    ensures Covers(FormatFor(platform), t)
  {
    var entry := [1, 2, 3, 4, 8, 9, 5, 6, 7, 10, 11, 12, 13, 14, 15, 18, 19, 20, 21, 16, 17][t];
    assert FIELDS[entry].target == Some(t);
  }

  /** A field's name is recognised as its own entry and no other. */
  lemma {:induction false} FieldIsFound(f: Format, k: nat, rest: string, i: nat)
    requires Unambiguous(f) && i <= k < |f.fields|
    ensures FindField(f.fields, f.fields[k].name + ":" + rest, i) == k
    decreases k - i
  {
    var s := f.fields[k].name + ":" + rest;
    assert Names(s, f.fields[k].name);
    if i < k {
      assert Word(f.fields[i].name) && Word(f.fields[k].name);
      if Names(s, f.fields[i].name) { SameNamePrefix(s, f.fields[i].name, f.fields[k].name); }
      FieldIsFound(f, k, rest, i + 1);
    }
  }

  lemma SameNamePrefix(s: string, a: string, b: string)
    requires Names(s, a) && Names(s, b) && Word(a) && Word(b)
    ensures a == b
  {
    assert s[|a|] == (a + ":")[|a|] && s[|b|] == (b + ":")[|b|];
    assert forall i :: 0 <= i < |a| ==> s[i] == (a + ":")[i] == a[i];
    assert forall i :: 0 <= i < |b| ==> s[i] == (b + ":")[i] == b[i];
    assert |a| == |b|;
    assert a == (a + ":")[..|a|] == s[..|a|] && b == (b + ":")[..|b|];
  }

  // ----- printing -----

  function DigitChar(d: nat): char
    requires d < 10
  {
    '0' + d as char
  }

  function Digits(n: nat): string {
    if n < 10 then [DigitChar(n)] else Digits(n / 10) + [DigitChar(n % 10)]
  }

  lemma {:induction false} DigitsRead(n: nat)
    ensures Digits(n) != "" && Decimal(Digits(n)) == n
    ensures forall i :: 0 <= i < |Digits(n)| ==> IsDigit(Digits(n)[i])
  {
    if n < 10 {
      assert Digits(n)[..0] == "";
    } else {
      DigitsRead(n / 10);
      assert Digits(n)[..|Digits(n)| - 1] == Digits(n / 10);
    }
  }

  predicate StartsNoDigit(s: string) { s == "" || !IsDigit(s[0]) }

  lemma {:induction false} DigitCountOf(digits: string, rest: string)
    requires StartsNoDigit(rest) && forall i :: 0 <= i < |digits| ==> IsDigit(digits[i])
    ensures DigitCount(digits + rest) == |digits|
  {
    if digits == "" {
      assert digits + rest == rest;
    } else {
      assert (digits + rest)[1..] == digits[1..] + rest;
      DigitCountOf(digits[1..], rest);
    }
  }

  /** `strtoul` reads a printed number back and stops after it. */
  lemma PrintedNumber(n: nat, rest: string)
    requires n < ULONG_LIMIT && StartsNoDigit(rest)
    ensures Strtoul(Digits(n) + rest) == Number(n, rest)
  {
    var s := Digits(n) + rest;
    DigitsRead(n);
    DigitCountOf(Digits(n), rest);
    assert IsDigit(s[0]) && Spaces(s) == 0 && s[0..] == s;
    assert s[..|Digits(n)|] == Digits(n) && s[|Digits(n)|..] == rest;
  }

  lemma {:induction false} SpacesOf(spaces: string, rest: string)
    requires (rest == "" || !IsSpace(rest[0])) && forall i :: 0 <= i < |spaces| ==> IsSpace(spaces[i])
    ensures Spaces(spaces + rest) == |spaces|
  {
    if spaces == "" {
      assert spaces + rest == rest;
    } else {
      assert (spaces + rest)[1..] == spaces[1..] + rest;
      SpacesOf(spaces[1..], rest);
    }
  }

  lemma DigitsTaken(n: nat, rest: string)
    requires StartsNoDigit(rest)
    ensures var u, k := Digits(n) + rest, |Digits(n)|;
      && 0 < k == DigitCount(u) && IsDigit(u[0]) && u[k..] == rest && Decimal(u[..k]) == n
  {
    var u := Digits(n) + rest;
    DigitsRead(n);
    DigitCountOf(Digits(n), rest);
    assert u[0] == Digits(n)[0];
    assert u[..|Digits(n)|] == Digits(n) && u[|Digits(n)|..] == rest;
  }

  lemma AfterNumberSign(sign: string, u: string)
    requires sign in {"", "+", "-"} && u != "" && IsDigit(u[0])
    ensures var t := sign + u; t != "" && !IsSpace(t[0])
    ensures var t := sign + u; ((t[0] == '+' || t[0] == '-') <==> sign != "") && (t[0] == '-' <==> sign == "-")
    ensures (sign + u)[if sign == "" then 0 else 1..] == u
  {
    if sign == "" { assert sign + u == u; } else { assert (sign + u)[0] == sign[0]; }
  }

  lemma StrtoulOfParts(s: string, t: string, u: string, negative: bool, k: nat)
    requires t == s[Spaces(s)..] && t != "" && (t[0] == '-' <==> negative)
    requires u == (if t[0] == '+' || t[0] == '-' then t[1..] else t) && k == DigitCount(u) > 0
    ensures var v := Decimal(u[..k]);
      Strtoul(s) == Number(if v >= 0x1_0000_0000_0000_0000 then 0xffff_ffff_ffff_ffff
                           else if negative && v > 0 then 0x1_0000_0000_0000_0000 - v else v, u[k..])
  {
  }

  /** `strtoul` on any number: white space and a sign may come before it, a number too large gives the
      largest, and a minus sign takes it from 2^64. */
  lemma SpacedNumber(spaces: string, sign: string, n: nat, rest: string)
    requires sign in {"", "+", "-"} && StartsNoDigit(rest) && forall i :: 0 <= i < |spaces| ==> IsSpace(spaces[i])
    ensures Strtoul(spaces + (sign + (Digits(n) + rest)))
      == Number(if n >= 0x1_0000_0000_0000_0000 then 0xffff_ffff_ffff_ffff
                else if sign == "-" && n > 0 then 0x1_0000_0000_0000_0000 - n else n, rest)
  {
    var u := Digits(n) + rest;
    var t := sign + u;
    DigitsTaken(n, rest);
    AfterNumberSign(sign, u);
    SpacesOf(spaces, t);
    assert (spaces + t)[|spaces|..] == t;
    StrtoulOfParts(spaces + t, t, u, sign == "-", |Digits(n)|);
  }

  /** Without a digit behind the white space and the sign, the number is 0 and nothing is read. */
  lemma NoNumber(spaces: string, sign: string, rest: string)
    requires sign in {"", "+", "-"} && StartsNoDigit(rest) && forall i :: 0 <= i < |spaces| ==> IsSpace(spaces[i])
    requires sign == "" ==> rest == "" || (!IsSpace(rest[0]) && rest[0] != '+' && rest[0] != '-')
    ensures Strtoul(spaces + (sign + rest)) == Number(0, spaces + (sign + rest))
  {
    var t := sign + rest;
    if sign == "" { assert t == rest; } else { assert t[0] == sign[0] && t[1..] == rest; }
    SpacesOf(spaces, t);
    assert (spaces + t)[|spaces|..] == t;
    NoDigitAfter(spaces + t, t, rest);
  }

  lemma NoDigitAfter(s: string, t: string, u: string)
    requires t == s[Spaces(s)..] && StartsNoDigit(u)
    requires u == if t != "" && (t[0] == '+' || t[0] == '-') then t[1..] else t
    ensures Strtoul(s) == Number(0, s)
  {
    assert DigitCount(u) == 0;
  }

  /** A sign before a button means nothing, and only the low eight bits of its number are kept. */
  lemma ButtonWraps(half: Half, n: nat, rest: string)
    requires n < ULONG_LIMIT && StartsNoDigit(rest)
    ensures ReadElement(UNUSED, SignText(half) + ("b" + (Digits(n) + rest)))
      == Read(Element(Button, n % 256, 0, 0), rest)
  {
    var u := Digits(n) + rest;
    PrintedNumber(n, rest);
    SignSkipped(half, "b" + u);
    ButtonLetter(SignText(half) + ("b" + u), u, Number(n, rest));
  }

  lemma NoSign(s: string)
    requires s != "" && s[0] != '+' && s[0] != '-'
    ensures AfterSign(s) == s && HalfOf(s) == Whole
  {
  }

  lemma SignSkipped(half: Half, t: string)
    requires t != "" && t[0] != '+' && t[0] != '-'
    ensures AfterSign(SignText(half) + t) == t
  {
    if half.Whole? { assert SignText(half) + t == t; }
  }

  lemma ButtonLetter(s: string, u: string, n: Number)
    requires AfterSign(s) == "b" + u && Strtoul(u) == n
    ensures ReadElement(UNUSED, s) == Read(Element(Button, n.value % 256, 0, 0), n.rest)
  {
    assert ("b" + u)[0] == 'b' && ("b" + u)[1..] == u;
    ReadButton(UNUSED, s, "b" + u, n);
  }

  lemma ReadButton(e: Element, s: string, t: string, n: Number)
    requires t == AfterSign(s) && t != "" && t[0] == 'b' && Strtoul(t[1..]) == n
    ensures ReadElement(e, s) == Read(e.(kind := Button, index := LowByte(n.value)), n.rest)
  {
  }

  lemma ReadAxis(e: Element, s: string, t: string, n: Number)
    requires t == AfterSign(s) && t != "" && t[0] == 'a' && Strtoul(t[1..]) == n
    ensures ReadElement(e, s)
      == Read(AxisElement(LowByte(n.value), HalfOf(s), n.rest != "" && n.rest[0] == '~'), n.rest)
  {
  }

  /** A hat's two numbers may be of any size and be parted by any character but a digit. */
  lemma HatReadsNumbers(hat: nat, c: char, bit: nat, rest: string)
    requires hat < ULONG_LIMIT && bit < ULONG_LIMIT && !IsDigit(c) && StartsNoDigit(rest)
    ensures ReadElement(UNUSED, "h" + (Digits(hat) + ([c] + (Digits(bit) + rest))))
      == Read(Element(HatBit, HatIndex(hat, bit), 0, 0), rest)
  {
    var after := [c] + (Digits(bit) + rest);
    PrintedNumber(hat, after);
    PrintedNumber(bit, rest);
    HatLetter(Digits(hat) + after, Number(hat, after));
    SecondNumber(hat, c, Digits(bit) + rest, Number(bit, rest));
  }

  lemma HatLetter(u: string, hat: Number)
    requires Strtoul(u) == hat
    ensures ReadElement(UNUSED, "h" + u) == ReadHat(UNUSED, hat)
  {
    var s := "h" + u;
    assert AfterSign(s) == s && s[1..] == u;
    HatStep(s, hat);
  }

  lemma SecondNumber(hat: nat, c: char, u: string, bit: Number)
    requires Strtoul(u) == bit
    ensures ReadHat(UNUSED, Number(hat, [c] + u)) == Read(Element(HatBit, HatIndex(hat, bit.value), 0, 0), bit.rest)
  {
    assert Drop1([c] + u) == u;
  }

  /** A binary digit of a number. */
  predicate Bit(n: nat, k: nat) { if k == 0 then n % 2 == 1 else Bit(n / 2, k - 1) }

  lemma {:induction false} BitOrIsBitwise(a: nat, b: nat, k: nat)
    ensures Bit(BitOr(a, b), k) <==> Bit(a, k) || Bit(b, k)
    decreases k
  {
    if a == 0 && b == 0 {
      ZeroHasNoBits(k);
    } else {
      var low := if a % 2 == 1 || b % 2 == 1 then 1 else 0;
      assert BitOr(a, b) == 2 * BitOr(a / 2, b / 2) + low;
      assert BitOr(a, b) / 2 == BitOr(a / 2, b / 2) && BitOr(a, b) % 2 == low;
      if k > 0 { BitOrIsBitwise(a / 2, b / 2, k - 1); }
    }
  }

  lemma {:induction false} ZeroHasNoBits(k: nat)
    ensures !Bit(0, k)
  {
    if k > 0 { ZeroHasNoBits(k - 1); }
  }

  function Doubled(n: nat, times: nat): nat { if times == 0 then n else 2 * Doubled(n, times - 1) }

  /** What is added above the low bits does not show in them. */
  lemma {:induction false} LowBitsStay(high: nat, bits: nat, low: nat, k: nat)
    requires k < bits
    ensures Bit(Doubled(high, bits) + low, k) <==> Bit(low, k)
    decreases k
  {
    var half := Doubled(high, bits - 1);
    assert (2 * half + low) / 2 == half + low / 2 && (2 * half + low) % 2 == low % 2;
    if k > 0 { LowBitsStay(high, bits - 1, low / 2, k - 1); }
  }

  lemma LowByteBits(n: nat, k: nat)
    requires k < 8
    ensures Bit(n % 256, k) <==> Bit(n, k)
  {
    assert Doubled(n / 256, 8) == 4 * Doubled(n / 256, 6);
    assert Doubled(n / 256, 6) == 4 * Doubled(n / 256, 4);
    assert Doubled(n / 256, 4) == 4 * Doubled(n / 256, 2);
    assert Doubled(n / 256, 1) == 2 * (n / 256);
    assert Doubled(n / 256, 8) + n % 256 == n;
    LowBitsStay(n / 256, 8, n % 256, k);
  }

  lemma ShiftedBit(hat: nat, k: nat)
    ensures Bit(hat * 16, k) <==> k >= 4 && Bit(hat, k - 4)
  {
    assert hat * 16 / 2 == hat * 8 && hat * 8 / 2 == hat * 4 && hat * 4 / 2 == hat * 2 && hat * 2 / 2 == hat;
    if k > 0 {
      assert Bit(hat * 16, k) == Bit(hat * 8, k - 1);
      if k > 1 {
        assert Bit(hat * 8, k - 1) == Bit(hat * 4, k - 2);
        if k > 2 {
          assert Bit(hat * 4, k - 2) == Bit(hat * 2, k - 3);
          if k > 3 { assert Bit(hat * 2, k - 3) == Bit(hat, k - 4); }
        }
      }
    }
  }

  /** The index of a hat element: the low four bits of the hat above those of the direction, which
      may reach into them. */
  lemma HatIndexBits(hat: nat, bit: nat, k: nat)
    requires k < 8
    ensures Bit(HatIndex(hat, bit), k) <==> (k >= 4 && Bit(hat, k - 4)) || Bit(bit, k)
  {
    LowByteBits(BitOr(hat * 16, bit), k);
    BitOrIsBitwise(hat * 16, bit, k);
    ShiftedBit(hat, k);
  }

  /** A value that does not start, after any sign, with the letter of an input changes nothing. */
  lemma NoInputNamed(e: Element, s: string)
    requires AfterSign(s) == "" || AfterSign(s)[0] !in {'a', 'b', 'h'}
    ensures ReadElement(e, s).element == e
  {
  }

  function SignText(half: Half): string { match half case Whole => "" case Upper => "+" case Lower => "-" }

  function Inverted(e: Element): bool { e.scale < 0 }

  function AxisHalf(e: Element): Half {
    if e.offset == 0 then Whole else if (e.offset < 0) != Inverted(e) then Upper else Lower
  }

  /** Elements that a field can make out of nothing. */
  predicate Printable(e: Element) {
    match e.kind
    case Unused => e == UNUSED
    case Axis => e == AxisElement(e.index, AxisHalf(e), Inverted(e))
    case _ => e.scale == 0 && e.offset == 0
  }

  /** Every axis element of the reader is of this form. */
  lemma AxisIsPrintable(index: Byte, half: Half, inverted: bool)
    ensures Printable(AxisElement(index, half, inverted))
  {
  }

  /** An element's text and what follows it. */
  function ElementText(e: Element, rest: string): string {
    match e.kind
    case Unused => rest
    case Axis => SignText(AxisHalf(e)) + ("a" + (Digits(e.index) + AxisTail(e, rest)))
    case Button => "b" + (Digits(e.index) + rest)
    case HatBit => "h" + (Digits(e.index / 16) + ("." + (Digits(e.index % 16) + rest)))
  }

  function AxisTail(e: Element, rest: string): string { if Inverted(e) then "~" + rest else rest }

  /** The fields from entry `i` on: the platform, and every element that is used. */
  function Print(f: Format, e: Elements, i: nat): string
    requires i <= |f.fields|
    decreases |f.fields| - i
  {
    if i == |f.fields| then "" else FieldText(f, e, i, Print(f, e, i + 1))
  }

  /** One field's text and what follows it. */
  function FieldText(f: Format, e: Elements, i: nat, more: string): string
    requires i < |f.fields|
  {
    match f.fields[i].target
    case None => f.fields[i].name + ":" + (f.platform + ("," + more))
    case Some(t) => if e[t] == UNUSED then more else f.fields[i].name + ":" + ElementText(e[t], "," + more)
  }

  // ----- reading undoes printing -----

  lemma HatIndexSplits(hat: nat, bit: nat)
    requires hat < 16 && bit < 16
    ensures HatIndex(hat, bit) == hat * 16 + bit
  {
    assert Pow2(4) == 16;
    BitOrHigh(hat, bit, 4);
  }

  function Pow2(n: nat): nat { if n == 0 then 1 else 2 * Pow2(n - 1) }

  /** The lowest `k` bits of the left operand are clear, and the right operand has no more. */
  lemma {:induction false} BitOrHigh(hat: nat, bit: nat, k: nat)
    requires bit < Pow2(k)
    ensures BitOr(hat * Pow2(k), bit) == hat * Pow2(k) + bit
  {
    if k == 0 {
      BitOrZero(hat);
    } else {
      BitOrHigh(hat, bit / 2, k - 1);
      BitOrEven(hat * Pow2(k - 1), bit);
      Twice(hat, Pow2(k - 1));
    }
  }

  lemma Twice(a: nat, b: nat)
    ensures a * (2 * b) == 2 * (a * b)
  {
  }

  lemma BitOrEven(half: nat, bit: nat)
    ensures BitOr(2 * half, bit) == 2 * BitOr(half, bit / 2) + bit % 2
  {
    assert 2 * half / 2 == half && 2 * half % 2 == 0;
  }

  lemma {:induction false} BitOrZero(a: nat)
    ensures BitOr(a, 0) == a
  {
    if a > 0 { BitOrZero(a / 2); }
  }

  lemma SignReads(half: Half, t: string)
    requires t != "" && t[0] == 'a'
    ensures HalfOf(SignText(half) + t) == half && AfterSign(SignText(half) + t) == t
  {
    if half.Whole? { assert SignText(half) + t == t; }
  }

  /** A value that starts with the letter of an axis, a button or a hat, after any sign. */
  lemma AxisStep(s: string, u: string, index: Byte, tail: string)
    requires AfterSign(s) == "a" + u && Strtoul(u) == Number(index, tail)
    ensures ReadElement(UNUSED, s) == Read(AxisElement(index, HalfOf(s), tail != "" && tail[0] == '~'), tail)
  {
    assert ("a" + u)[0] == 'a' && ("a" + u)[1..] == u;
    ReadAxis(UNUSED, s, "a" + u, Number(index, tail));
  }

  lemma ButtonStep(u: string, index: Byte, tail: string)
    requires Strtoul(u) == Number(index, tail)
    ensures ReadElement(UNUSED, "b" + u) == Read(UNUSED.(kind := Button, index := index), tail)
  {
    NoSign("b" + u);
    ButtonLetter("b" + u, u, Number(index, tail));
  }

  lemma HatStep(s: string, hat: Number)
    requires AfterSign(s) == s && s != "" && s[0] == 'h' && Strtoul(s[1..]) == hat
    ensures ReadElement(UNUSED, s) == ReadHat(UNUSED, hat)
  {
  }

  lemma AxisReads(e: Element, rest: string)
    requires e.kind.Axis? && Printable(e) && rest != "" && rest[0] == ','
    ensures ReadElement(UNUSED, ElementText(e, rest)) == Read(e, AxisTail(e, rest))
  {
    var u := Digits(e.index) + AxisTail(e, rest);
    PrintedNumber(e.index, AxisTail(e, rest));
    SignReads(AxisHalf(e), "a" + u);
    AxisStep(SignText(AxisHalf(e)) + ("a" + u), u, e.index, AxisTail(e, rest));
  }

  lemma ButtonReads(e: Element, rest: string)
    requires e.kind.Button? && Printable(e) && rest != "" && rest[0] == ','
    ensures ReadElement(UNUSED, ElementText(e, rest)) == Read(e, rest)
  {
    PrintedNumber(e.index, rest);
    ButtonStep(Digits(e.index) + rest, e.index, rest);
  }

  lemma HatReads(e: Element, rest: string)
    requires e.kind.HatBit? && Printable(e) && rest != "" && rest[0] == ','
    ensures ReadElement(UNUSED, ElementText(e, rest)) == Read(e, rest)
  {
    var bits := "." + (Digits(e.index % 16) + rest);
    PrintedNumber(e.index / 16, bits);
    var s := "h" + (Digits(e.index / 16) + bits);
    assert AfterSign(s) == s && s[1..] == Digits(e.index / 16) + bits;
    HatStep(s, Number(e.index / 16, bits));
    HatBits(e, rest);
  }

  lemma HatBits(e: Element, rest: string)
    requires e.kind.HatBit? && Printable(e) && rest != "" && rest[0] == ','
    ensures ReadHat(UNUSED, Number(e.index / 16, "." + (Digits(e.index % 16) + rest))) == Read(e, rest)
  {
    var bits := Digits(e.index % 16) + rest;
    assert Drop1("." + bits) == bits;
    PrintedNumber(e.index % 16, rest);
    HatIndexSplits(e.index / 16, e.index % 16);
  }

  lemma SkipComma(text: string, more: string)
    requires CommaFree(text) && (more == "" || more[0] != ',')
    ensures NextField(text + ("," + more)) == more
  {
    var s := text + ("," + more);
    var n := UntilComma(s);
    assert s[|text|] == ',';
    assert forall i :: 0 <= i < |text| ==> s[i] == text[i];
    assert n == |text|;
    var t := s[n..];
    assert t == "," + more;
    assert t[1..] == more && Commas(more) == 0;
  }

  /** Where reading a printed element stops, the next field is the one printed next. */
  lemma ElementReads(e: Element, more: string) returns (r: Read)
    requires Printable(e) && !e.kind.Unused? && (more == "" || more[0] != ',')
    ensures r == ReadElement(UNUSED, ElementText(e, "," + more))
    ensures r.element == e && NextField(r.rest) == more
  {
    var rest := "," + more;
    r := Read(e, if e.kind.Axis? then AxisTail(e, rest) else rest);
    SkipComma("", more);
    assert "" + rest == rest;
    match e.kind
    case Axis => AxisReads(e, rest); SkipComma("~", more);
    case Button => ButtonReads(e, rest);
    case HatBit => HatReads(e, rest);
  }

  lemma {:induction false} PrintStarts(f: Format, e: Elements, i: nat)
    requires Unambiguous(f) && i <= |f.fields|
    ensures var s := Print(f, e, i); s == "" || 'a' <= s[0] <= 'z'
    decreases |f.fields| - i
  {
    if i < |f.fields| {
      assert Word(f.fields[i].name);
      PrintStarts(f, e, i + 1);
    }
  }

  /** The elements that the entries from `i` on are for. */
  ghost predicate Later(f: Format, i: nat, t: Target) {
    exists j :: i <= j < |f.fields| && f.fields[j].target == Some(t)
  }

  /** Some printed elements have been read: those of the entries from `i` on are still to come. */
  ghost predicate ReadUpTo(f: Format, i: nat, e: Elements, acc: Elements) {
    forall t: Target :: acc[t] == if Later(f, i, t) then UNUSED else e[t]
  }

  ghost predicate AllPrintable(e: Elements) { forall t: Target :: Printable(e[t]) }

  /** The elements once entry `i` has been read too. */
  function Taken(f: Format, i: nat, e: Elements, acc: Elements): Elements
    requires i < |f.fields|
  {
    match f.fields[i].target
    case None => acc
    case Some(t) => acc[t := e[t]]
  }

  lemma OneMoreRead(f: Format, i: nat, e: Elements, acc: Elements)
    requires Unambiguous(f) && i < |f.fields| && ReadUpTo(f, i, e, acc)
    ensures ReadUpTo(f, i + 1, e, Taken(f, i, e, acc))
    ensures f.fields[i].target.Some? ==> acc[f.fields[i].target.value] == UNUSED
  {
    forall t: Target
      ensures Later(f, i, t) <==> f.fields[i].target == Some(t) || Later(f, i + 1, t)
      ensures f.fields[i].target == Some(t) ==> !Later(f, i + 1, t)
    {
      if Later(f, i + 1, t) { var j :| i + 1 <= j < |f.fields| && f.fields[j].target == Some(t); }
    }
  }

  lemma NameSplits(name: string, value: string)
    requires Word(name)
    ensures var s := name + ":" + value; s[0] == name[0] && s[|name| + 1..] == value
  {
  }

  /** Reading goes on with the entry that names the field. */
  lemma FieldStep(f: Format, i: nat, value: string, acc: Elements)
    requires Unambiguous(f) && i < |f.fields|
    ensures var s := f.fields[i].name + ":" + value;
      Names(s, f.fields[i].name) && ReadFields(f, s, acc) == ReadField(f, i, s, acc)
  {
    assert Word(f.fields[i].name);
    FieldIsFound(f, i, value, 0);
    NameSplits(f.fields[i].name, value);
  }

  lemma PlatformStep(f: Format, i: nat, value: string, acc: Elements)
    requires Unambiguous(f) && i < |f.fields| && f.fields[i].target.None?
    ensures ReadFields(f, f.fields[i].name + ":" + value, acc)
      == if f.platform <= value then ReadFields(f, NextField(value), acc) else None
  {
    FieldStep(f, i, value, acc);
    assert Word(f.fields[i].name);
    NameSplits(f.fields[i].name, value);
  }

  lemma ElementStep(f: Format, i: nat, t: Target, value: string, acc: Elements, r: Read)
    requires Unambiguous(f) && i < |f.fields| && f.fields[i].target == Some(t) && r == ReadElement(acc[t], value)
    ensures ReadFields(f, f.fields[i].name + ":" + value, acc) == ReadFields(f, NextField(r.rest), acc[t := r.element])
  {
    FieldStep(f, i, value, acc);
    assert Word(f.fields[i].name);
    NameSplits(f.fields[i].name, value);
  }

  lemma ReadsField(f: Format, e: Elements, i: nat, more: string, acc: Elements)
    requires Unambiguous(f) && i < |f.fields| && AllPrintable(e) && ReadUpTo(f, i, e, acc)
    requires more == "" || more[0] != ','
    ensures ReadFields(f, FieldText(f, e, i, more), acc) == ReadFields(f, more, Taken(f, i, e, acc))
  {
    OneMoreRead(f, i, e, acc);
    match f.fields[i].target
    case None =>
      SkipComma(f.platform, more);
      PlatformStep(f, i, f.platform + ("," + more), acc);
    case Some(t) =>
      if e[t] == UNUSED {
        assert acc[t := e[t]] == acc;
      } else {
        assert Printable(e[t]);
        var r := ElementReads(e[t], more);
        ElementStep(f, i, t, ElementText(e[t], "," + more), acc, r);
      }
  }

  lemma {:induction false} ReadsPrinted(f: Format, e: Elements, i: nat, acc: Elements)
    requires Unambiguous(f) && i <= |f.fields| && AllPrintable(e) && ReadUpTo(f, i, e, acc)
    ensures ReadFields(f, Print(f, e, i), acc) == Some(e)
    decreases |f.fields| - i
  {
    if i == |f.fields| {
      NothingLater(f, e, acc);
    } else {
      PrintStarts(f, e, i + 1);
      ReadsField(f, e, i, Print(f, e, i + 1), acc);
      OneMoreRead(f, i, e, acc);
      ReadsPrinted(f, e, i + 1, Taken(f, i, e, acc));
    }
  }

  lemma NothingLater(f: Format, e: Elements, acc: Elements)
    requires ReadUpTo(f, |f.fields|, e, acc)
    ensures acc == e
  {
    forall t: Target
      ensures acc[t] == e[t]
    {
      assert !Later(f, |f.fields|, t);
    }
  }

  /** Reading the printed fields of a mapping gives back its elements, all twenty-one of them. */
  lemma FieldsRoundTrip(platform: string, e: Elements)
    requires AllPrintable(e) && CommaFree(platform)
    ensures ReadFields(FormatFor(platform), Print(FormatFor(platform), e, 0), Nothing()) == Some(e)
  {
    var f := FormatFor(platform);
    TableIsUnambiguous(platform);
    forall t: Target ensures Later(f, 0, t) { TableCovers(platform, t); }
    ReadsPrinted(f, e, 0, Nothing());
  }

  // ----- lines for other platforms -----

  lemma {:induction false} PrintedForAny(p: string, q: string, e: Elements, i: nat)
    requires 1 <= i <= |FIELDS|
    ensures Print(FormatFor(p), e, i) == Print(FormatFor(q), e, i)
    decreases |FIELDS| - i
  {
    if i < |FIELDS| {
      PrintedForAny(p, q, e, i + 1);
      assert FIELDS[i].target.Some?;
    }
  }

  lemma PrefixBeforeComma(p: string, q: string, more: string)
    requires CommaFree(p)
    ensures p <= q + ("," + more) <==> p <= q
  {
    var s := q + ("," + more);
    if |p| <= |q| {
      assert s[..|p|] == q[..|p|];
    } else {
      assert s[|q|] == ',' && p[|q|] != ',';
    }
  }

  /** A library for platform `p` reads a line printed for platform `q` if and only if `p` is a prefix of
      `q`; then it gets every element, and otherwise it refuses the line. */
  lemma OtherPlatforms(p: string, q: string, e: Elements)
    requires AllPrintable(e) && CommaFree(p) && CommaFree(q)
    ensures ReadFields(FormatFor(p), Print(FormatFor(q), e, 0), Nothing()) == if p <= q then Some(e) else None
  {
    var f, more := FormatFor(p), Print(FormatFor(p), e, 1);
    TableIsUnambiguous(p);
    PrintedForAny(p, q, e, 1);
    assert Print(FormatFor(q), e, 0) == "platform" + ":" + (q + ("," + more));
    PlatformStep(f, 0, q + ("," + more), Nothing());
    PrefixBeforeComma(p, q, more);
    PrintStarts(f, e, 1);
    SkipComma(q, more);
    forall t: Target ensures Later(f, 0, t) { TableCovers(p, t); }
    OneMoreRead(f, 0, e, Nothing());
    ReadsPrinted(f, e, 1, Nothing());
  }

  /** An output modifier makes the whole line unreadable, wherever it comes. */
  lemma ModifierRefused(f: Format, s: string, e: Elements)
    requires s != "" && (s[0] == '+' || s[0] == '-')
    ensures ReadFields(f, s, e) == None
  {
  }

  lemma {:induction false} CountCommas(commas: string, more: string)
    requires (more == "" || more[0] != ',') && forall i :: 0 <= i < |commas| ==> commas[i] == ','
    ensures Commas(commas + more) == |commas|
  {
    if commas == "" {
      assert commas + more == more;
    } else {
      assert (commas + more)[1..] == commas[1..] + more;
      CountCommas(commas[1..], more);
    }
  }

  /** A field that no entry names is skipped, with all the commas after it. */
  lemma UnknownFieldSkipped(f: Format, name: string, commas: string, more: string, e: Elements)
    requires name != "" && name[0] != '+' && name[0] != '-' && CommaFree(name)
    requires (commas == "" ==> more == "") && (more == "" || more[0] != ',')
    requires forall i :: 0 <= i < |commas| ==> commas[i] == ','
    requires forall k :: 0 <= k < |f.fields| ==> !Names(name + (commas + more), f.fields[k].name)
    ensures ReadFields(f, name + (commas + more), e) == ReadFields(f, more, e)
  {
    var s := name + (commas + more);
    assert s[0] == name[0];
    assert forall i :: 0 <= i < |name| ==> s[i] == name[i];
    assert commas != "" ==> s[|name|] == ',';
    assert UntilComma(s) == |name| && s[|name|..] == commas + more;
    CountCommas(commas, more);
    assert (commas + more)[|commas|..] == more;
  }

  // ----- whatever the text -----

  /** No text makes an axis element with any other transform than that of a whole or half axis. */
  ghost predicate AxesTransform(e: Elements) {
    forall t :: 0 <= t < TARGETS && e[t].kind.Axis? ==> Printable(e[t])
  }

  lemma {:induction false} ReadFieldsTransform(f: Format, s: string, e: Elements)
    requires AxesTransform(e)
    ensures ReadFields(f, s, e).Some? ==> AxesTransform(ReadFields(f, s, e).value)
    decreases |s|
  {
    if s != "" && s[0] != '+' && s[0] != '-' {
      var k := FindField(f.fields, s, 0);
      if k == |f.fields| {
        ReadFieldsTransform(f, NextField(s), e);
      } else {
        var value := s[|f.fields[k].name| + 1..];
        match f.fields[k].target
        case None => ReadFieldsTransform(f, NextField(value), e);
        case Some(t) =>
          var r := ReadElement(e[t], value);
          ElementTransform(e[t], value);
          ElementSet(e, t, r.element);
          ReadFieldsTransform(f, NextField(r.rest), e[t := r.element]);
      }
    }
  }

  lemma ElementSet(e: Elements, t: Target, x: Element)
    requires AxesTransform(e) && (x.kind.Axis? ==> Printable(x))
    ensures AxesTransform(e[t := x])
  {
  }

  lemma ElementTransform(e: Element, s: string)
    requires e.kind.Axis? ==> Printable(e)
    ensures ReadElement(e, s).element.kind.Axis? ==> Printable(ReadElement(e, s).element)
  {
    var t := AfterSign(s);
    if t != "" && t[0] == 'a' {
      var n := Strtoul(t[1..]);
      AxisIsPrintable(LowByte(n.value), HalfOf(s), n.rest != "" && n.rest[0] == '~');
    }
  }
}
