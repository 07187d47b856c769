/** The texts that the parser of CommandParser rejects, by what is wrong with them: which error it
    reports, for every text. */
module CommandFaults {
  import opened CommandGrammar
  import opened CommandParser
  import opened Options

  // ----- what can be wrong, and where -----

  /** The first fault of a text and all that follows it: where a key is expected, or after a value. */
  datatype Fault =
    | NoKey(rest: seq<int>)
    | NoEquals(key: int, rest: seq<int>)
    | NoValue(key: int)
    | BadFlag(key: int, c: int, rest: seq<int>)
    | NoDigits(key: int, negative: bool, rest: seq<int>)
    | TooLarge(key: int, negative: bool, digits: seq<int>, rest: seq<int>)
    | NoSeparator(rest: seq<int>)
    | Undecodable(data: seq<int>)

  predicate AfterValue(f: Fault) { f.NoSeparator? || f.Undecodable? }

  function Sign(negative: bool): seq<int> { if negative then [MINUS] else [] }

  function FaultText(f: Fault): seq<int> {
    match f
    case NoKey(rest) => rest
    case NoEquals(key, rest) => [key] + rest
    case NoValue(key) => [key, EQUALS]
    case BadFlag(key, c, rest) => [key, EQUALS] + ([c] + rest)
    case NoDigits(key, negative, rest) => [key, EQUALS] + (Sign(negative) + rest)
    case TooLarge(key, negative, digits, rest) => [key, EQUALS] + (Sign(negative) + (digits + rest))
    case NoSeparator(rest) => rest
    case Undecodable(data) => [SEMICOLON] + data
  }

  function ErrorOf(f: Fault): Error {
    match f
    case NoKey(_) => InvalidKey
    case NoEquals(_, _) => NoEqualsSign
    case NoValue(_) => MissingValue
    case BadFlag(_, _, _) => UnknownFlag
    case NoDigits(_, _, _) => ExpectedInteger
    case TooLarge(_, _, _, _) => NumberTooLarge
    case NoSeparator(_) => ExpectedSeparator
    case Undecodable(_) => BadPayload
  }

  /** The key takes a number, with a minus sign only if it is an `int`. */
  predicate TakesNumber(c: Config, key: int, negative: bool) {
    && key in c.keymap && !c.keymap[key].kind.FlagKind?
    && (negative ==> c.keymap[key].kind.IntKind?)
  }

  ghost predicate IsFault(c: Config, f: Fault) {
    match f
    case NoKey(rest) => rest != [] && rest[0] !in c.keymap
    case NoEquals(key, rest) => key in c.keymap && (rest == [] || rest[0] != EQUALS)
    case NoValue(key) => key in c.keymap
    case BadFlag(key, ch, rest) =>
      key in c.keymap && c.keymap[key].kind.FlagKind? && ch % 256 !in c.keymap[key].kind.allowed
    case NoDigits(key, negative, rest) =>
      && TakesNumber(c, key, negative) && NoDigitFirst(rest)
      && (!negative ==> rest != [] && (c.keymap[key].kind.IntKind? ==> rest[0] != MINUS))
    case TooLarge(key, negative, digits, rest) =>
      && TakesNumber(c, key, negative) && |digits| == MAX_DIGITS
      && (forall i :: 0 <= i < |digits| ==> IsDigit(digits[i])) && Decimal(digits) >= UINT32
    case NoSeparator(rest) => rest != [] && rest[0] != COMMA && (rest[0] == SEMICOLON ==> !c.payloadAllowed)
    case Undecodable(data) => c.payloadAllowed && data != [] && c.decode(data).None?
  }

  /** Items separated by commas, then the fault. */
  function Faulty(items: seq<Item>, f: Fault): seq<int> {
    if items == [] then FaultText(f)
    else ItemText(items[0]) + (if |items| == 1 && AfterValue(f) then FaultText(f) else [COMMA] + Faulty(items[1..], f))
  }

  /** The items are sound, and a number before a missing separator has ended. An initial semicolon
      always counts as coming after a value. */
  ghost predicate IsFaulty(c: Config, items: seq<Item>, f: Fault) {
    && ValidItems(c, items) && IsFault(c, f)
    && (f.NoSeparator? && items != [] ==> Stops(items[|items| - 1], f.rest))
    && if items == [] then AfterValue(f) <==> FaultText(f)[0] == SEMICOLON else items[0].key != SEMICOLON
  }

  // ----- a fault is reported -----

  lemma AfterSign(negative: bool, s: seq<int>)
    requires !negative ==> s != [] && s[0] != MINUS
    ensures var t := Sign(negative) + s; t != [] && (t[0] == MINUS <==> negative) && t[|Sign(negative)|..] == s
  {
    if !negative { assert Sign(negative) + s == s; }
  }

  /** After `key=`, a number is read from behind its sign. */
  lemma NumberRead(c: Config, key: int, negative: bool, s: seq<int>, g: Fields)
    requires TakesNumber(c, key, negative)
    requires !negative ==> s != [] && (c.keymap[key].kind.IntKind? ==> s[0] != MINUS)
    ensures Machine(c, ValueState(c.keymap[key].kind), key, Sign(negative) + s, g) == Number(c, key, negative, s, g)
  {
    if c.keymap[key].kind.IntKind? {
      AfterSign(negative, s);
      IntStep(c, key, Sign(negative) + s, g);
    } else {
      assert Sign(negative) + s == s;
    }
  }

  lemma KeyStep(c: Config, k: int, key: int, s: seq<int>, g: Fields)
    requires key in c.keymap
    ensures Machine(c, KEY, k, [key, EQUALS] + s, g) == Machine(c, ValueState(c.keymap[key].kind), key, s, g)
  {
    assert [key, EQUALS] + s == [key] + ([EQUALS] + s);
    KeyRead(c, k, [key, EQUALS] + s, key, s, g);
  }

  lemma NoRun(s: seq<int>)
    requires NoDigitFirst(s)
    ensures DigitRun(s, MAX_DIGITS) == 0
  {
  }

  lemma FaultAtKey(c: Config, k: int, f: Fault, g: Fields)
    requires IsFault(c, f) && !AfterValue(f)
    ensures Machine(c, KEY, k, FaultText(f), g) == Reported(ErrorOf(f))
  {
    match f
    case NoKey(rest) =>
    case NoEquals(key, rest) =>
      assert ([key] + rest)[1..] == rest;
    case NoValue(key) =>
      assert [key, EQUALS] == [key, EQUALS] + [];
      KeyStep(c, k, key, [], g);
    case BadFlag(key, ch, rest) =>
      KeyStep(c, k, key, [ch] + rest, g);
    case NoDigits(key, negative, rest) =>
      KeyStep(c, k, key, Sign(negative) + rest, g);
      NumberRead(c, key, negative, rest, g);
      NoRun(rest);
      NumberEnds(c, key, negative, rest, g);
    case TooLarge(key, negative, digits, rest) =>
      TooLargeReported(c, k, f, g);
  }

  lemma TooLargeReported(c: Config, k: int, f: Fault, g: Fields)
    requires IsFault(c, f) && f.TooLarge?
    ensures Machine(c, KEY, k, FaultText(f), g) == Reported(NumberTooLarge)
  {
    var s := f.digits + f.rest;
    KeyStep(c, k, f.key, Sign(f.negative) + s, g);
    assert s[0] == f.digits[0];
    NumberRead(c, f.key, f.negative, s, g);
    DigitRunOfNumber(f.digits, f.rest, MAX_DIGITS);
    assert s[..|f.digits|] == f.digits;
    NumberEnds(c, f.key, f.negative, s, g);
  }

  lemma FaultAfterValue(c: Config, k: int, f: Fault, g: Fields)
    requires IsFault(c, f) && AfterValue(f)
    ensures Machine(c, AFTER_VALUE, k, FaultText(f), g) == Reported(ErrorOf(f))
  {
    if f.Undecodable? { assert ([SEMICOLON] + f.data)[1..] == f.data; }
  }

  lemma {:induction false} FaultReported(c: Config, k: int, items: seq<Item>, f: Fault, g: Fields)
    requires ValidItems(c, items) && IsFault(c, f) && (items == [] ==> !AfterValue(f))
    requires f.NoSeparator? && items != [] ==> Stops(items[|items| - 1], f.rest)
    ensures Machine(c, KEY, k, Faulty(items, f), g) == Reported(ErrorOf(f))
    decreases |items|
  {
    if items == [] {
      FaultAtKey(c, k, f, g);
    } else {
      var item, more := items[0], items[1..];
      assert ValidItem(c, item);
      var g' := g[c.keymap[item.key].attr := ItemValue(item)];
      if |items| == 1 && AfterValue(f) {
        ItemAccepted(c, k, item, FaultText(f), g);
        FaultAfterValue(c, item.key, f, g');
      } else {
        ItemAccepted(c, k, item, [COMMA] + Faulty(more, f), g);
        CommaStep(c, item.key, Faulty(more, f), g');
        FaultReported(c, item.key, more, f, g');
      }
    }
  }

  // ----- what is reported is a fault -----

  lemma {:induction false} DecimalBelow(digits: seq<int>)
    requires forall i :: 0 <= i < |digits| ==> IsDigit(digits[i])
    ensures 0 <= Decimal(digits) < PowerOfTen(|digits|)
  {
    if digits != [] { DecimalBelow(digits[..|digits| - 1]); }
  }

  lemma {:induction false} PowersGrow(n: nat, m: nat)
    requires n <= m
    ensures PowerOfTen(n) <= PowerOfTen(m)
    decreases m - n
  {
    if n < m { PowersGrow(n, m - 1); }
  }

  /** Nine digits always fit. */
  lemma LargeIsTenDigits(digits: seq<int>)
    requires |digits| <= MAX_DIGITS && (forall i :: 0 <= i < |digits| ==> IsDigit(digits[i]))
    requires Decimal(digits) >= UINT32
    ensures |digits| == MAX_DIGITS
  {
    DecimalBelow(digits);
    NinthPower();
    if |digits| < MAX_DIGITS { PowersGrow(|digits|, 9); }
  }

  lemma NinthPower()
    ensures PowerOfTen(9) == 1_000_000_000
  {
    assert PowerOfTen(9) == 1000 * PowerOfTen(6);
    assert PowerOfTen(6) == 1000 * PowerOfTen(3);
    assert PowerOfTen(3) == 1000;
  }

  /** What reading a number comes to: its digits and the rest, or one of two faults. */
  lemma NumberComesTo(c: Config, key: int, negative: bool, s: seq<int>, g: Fields)
      returns (digits: seq<int>, rest: seq<int>, g': Fields)
    requires key in c.keymap
    ensures s == digits + rest && |digits| <= MAX_DIGITS && NumberStops(digits, rest)
    ensures forall i :: 0 <= i < |digits| ==> IsDigit(digits[i])
    ensures digits == [] ==> Number(c, key, negative, s, g) == Reported(ExpectedInteger)
    ensures digits != [] && Decimal(digits) >= UINT32 ==>
      |digits| == MAX_DIGITS && Number(c, key, negative, s, g) == Reported(NumberTooLarge)
    ensures digits != [] && Decimal(digits) < UINT32 ==>
      ValidNumber(digits) && Number(c, key, negative, s, g) == Machine(c, AFTER_VALUE, key, rest, g')
  {
    var n := DigitRun(s, MAX_DIGITS);
    digits, rest := s[..n], s[n..];
    g' := g[c.keymap[key].attr := NumberValue(c.keymap[key].kind, negative, Decimal(digits))];
    NumberEnds(c, key, negative, s, g);
    if Decimal(digits) >= UINT32 { LargeIsTenDigits(digits); }
  }

  /** What reading a value comes to: its text and the rest, or a fault. */
  lemma ValueComesTo(c: Config, key: int, s: seq<int>, g: Fields)
      returns (body: Option<Body>, f: Fault, rest: seq<int>, g': Fields)
    requires key in c.keymap
    ensures body.None? ==>
      && IsFault(c, f)
      && !AfterValue(f)
      && FaultText(f) == [key, EQUALS] + s
      && Machine(c, ValueState(c.keymap[key].kind), key, s, g) == Reported(ErrorOf(f))
    ensures body.Some? ==>
      && ValidItem(c, Item(key, body.value))
      && s == BodyText(body.value) + rest
      && |rest| < |s|
      && Stops(Item(key, body.value), rest)
      && Machine(c, ValueState(c.keymap[key].kind), key, s, g) == Machine(c, AFTER_VALUE, key, rest, g')
  {
    body, f, rest, g' := None, NoValue(key), [], g;
    if s == [] {
      assert [key, EQUALS] + s == [key, EQUALS];
    } else if c.keymap[key].kind.FlagKind? {
      body, f, rest, g' := FlagComesTo(c, key, s, g);
    } else {
      body, f, rest, g' := DigitsComeTo(c, key, s, g);
    }
  }

  lemma FlagComesTo(c: Config, key: int, s: seq<int>, g: Fields)
      returns (body: Option<Body>, f: Fault, rest: seq<int>, g': Fields)
    requires key in c.keymap && c.keymap[key].kind.FlagKind? && s != []
    ensures body.None? ==>
      && IsFault(c, f)
      && f.BadFlag?
      && FaultText(f) == [key, EQUALS] + s
      && Machine(c, FLAG, key, s, g) == Reported(ErrorOf(f))
    ensures body.Some? ==>
      && body.value.FlagBody?
      && ValidItem(c, Item(key, body.value))
      && s == BodyText(body.value) + rest
      && |rest| < |s|
      && Machine(c, FLAG, key, s, g) == Machine(c, AFTER_VALUE, key, rest, g')
  {
    HeadTail(s);
    rest, g' := s[1..], g[c.keymap[key].attr := s[0] % 256];
    f := BadFlag(key, s[0], rest);
    body := if s[0] % 256 in c.keymap[key].kind.allowed then Some(FlagBody(s[0])) else None;
  }

  lemma DigitsComeTo(c: Config, key: int, s: seq<int>, g: Fields)
      returns (body: Option<Body>, f: Fault, rest: seq<int>, g': Fields)
    requires key in c.keymap && !c.keymap[key].kind.FlagKind? && s != []
    ensures body.None? ==>
      && IsFault(c, f)
      && !AfterValue(f)
      && FaultText(f) == [key, EQUALS] + s
      && Machine(c, ValueState(c.keymap[key].kind), key, s, g) == Reported(ErrorOf(f))
    ensures body.Some? ==>
      && ValidItem(c, Item(key, body.value))
      && s == BodyText(body.value) + rest
      && |rest| < |s|
      && Stops(Item(key, body.value), rest)
      && Machine(c, ValueState(c.keymap[key].kind), key, s, g) == Machine(c, AFTER_VALUE, key, rest, g')
  {
    var negative := c.keymap[key].kind.IntKind? && s[0] == MINUS;
    var t := if negative then s[1..] else s;
    SignSplit(negative, s, t);
    NumberRead(c, key, negative, t, g);
    body, f, rest, g' := SignedComesTo(c, key, negative, t, g);
    if body.Some? { assert s == BodyText(body.value) + rest; }
  }

  lemma SignSplit(negative: bool, s: seq<int>, t: seq<int>)
    requires s != [] && (negative ==> s[0] == MINUS && t == s[1..]) && (!negative ==> t == s)
    ensures s == Sign(negative) + t && |s| == |Sign(negative)| + |t|
  {
  }

  /** Behind the sign. */
  lemma SignedComesTo(c: Config, key: int, negative: bool, t: seq<int>, g: Fields)
      returns (body: Option<Body>, f: Fault, rest: seq<int>, g': Fields)
    requires TakesNumber(c, key, negative)
    requires !negative ==> t != [] && (c.keymap[key].kind.IntKind? ==> t[0] != MINUS)
    ensures body.None? ==>
      && IsFault(c, f)
      && !AfterValue(f)
      && FaultText(f) == [key, EQUALS] + (Sign(negative) + t)
      && Number(c, key, negative, t, g) == Reported(ErrorOf(f))
    ensures body.Some? ==>
      && ValidItem(c, Item(key, body.value))
      && Sign(negative) + t == BodyText(body.value) + rest
      && |rest| < |t|
      && Stops(Item(key, body.value), rest)
      && Number(c, key, negative, t, g) == Machine(c, AFTER_VALUE, key, rest, g')
  {
    var digits;
    digits, rest, g' := NumberComesTo(c, key, negative, t, g);
    f, body := NoDigits(key, negative, t), None;
    if digits == [] {
      assert t == rest;
    } else if Decimal(digits) >= UINT32 {
      f := TooLarge(key, negative, digits, rest);
    } else {
      body := Some(if c.keymap[key].kind.IntKind? then IntBody(negative, digits) else UIntBody(digits));
      TextOfNumber(negative, digits, rest, Sign(negative) + t);
    }
  }

  lemma TextOfNumber(negative: bool, digits: seq<int>, rest: seq<int>, s: seq<int>)
    requires s == Sign(negative) + (digits + rest)
    ensures s == BodyText(IntBody(negative, digits)) + rest && (!negative ==> s == digits + rest)
  {
  }

  lemma ItemComesTo(c: Config, k: int, s: seq<int>, g: Fields)
      returns (item: Option<Item>, f: Fault, rest: seq<int>, g': Fields)
    requires s != []
    ensures item.None? ==>
      && IsFault(c, f)
      && !AfterValue(f)
      && FaultText(f) == s
      && Machine(c, KEY, k, s, g) == Reported(ErrorOf(f))
    ensures item.Some? ==>
      && ValidItem(c, item.value)
      && s == ItemText(item.value) + rest
      && |rest| < |s|
      && Stops(item.value, rest)
      && Machine(c, KEY, k, s, g) == Machine(c, AFTER_VALUE, item.value.key, rest, g')
  {
    item, f, rest, g' := None, NoKey(s), [], g;
    if s[0] in c.keymap {
      HeadTail(s);
      if |s| == 1 || s[1] != EQUALS {
        f := NoEquals(s[0], s[1..]);
        FaultAtKey(c, k, f, g);
      } else {
        assert s == [s[0], EQUALS] + s[2..];
        KeyStep(c, k, s[0], s[2..], g);
        var body;
        body, f, rest, g' := ValueComesTo(c, s[0], s[2..], g);
        if body.Some? {
          item := Some(Item(s[0], body.value));
          ItemJoins(item.value, s[2..], rest, s);
        }
      }
    }
  }

  lemma ItemJoins(item: Item, t: seq<int>, rest: seq<int>, s: seq<int>)
    requires t == BodyText(item.body) + rest && s == [item.key, EQUALS] + t
    ensures s == ItemText(item) + rest
  {
  }

  lemma FaultyOne(item: Item, f: Fault)
    requires AfterValue(f)
    ensures Faulty([item], f) == ItemText(item) + FaultText(f)
  {
  }

  lemma FaultyCons(item: Item, more: seq<Item>, f: Fault)
    requires more == [] ==> !AfterValue(f)
    ensures Faulty([item] + more, f) == ItemText(item) + ([COMMA] + Faulty(more, f))
  {
    assert ([item] + more)[1..] == more;
  }

  /** What a reported error after a value is: a fault there, or one behind a comma. */
  lemma AfterComesTo(c: Config, k: int, s: seq<int>, g: Fields) returns (f: Fault, more: bool)
    requires Machine(c, AFTER_VALUE, k, s, g).Reported?
    ensures !more ==>
      && IsFault(c, f)
      && AfterValue(f)
      && s == FaultText(f)
      && Machine(c, AFTER_VALUE, k, s, g) == Reported(ErrorOf(f))
    ensures more ==>
      && |s| > 1
      && s == [COMMA] + s[1..]
      && Machine(c, AFTER_VALUE, k, s, g) == Machine(c, KEY, k, s[1..], g)
  {
    more, f := false, NoSeparator(s);
    assert s != [];
    HeadTail(s);
    if s[0] == COMMA {
      more := true;
      assert s[1..] != [];
    } else if s[0] == SEMICOLON && c.payloadAllowed {
      f := Undecodable(s[1..]);
      assert Machine(c, PAYLOAD, k, s[1..], g).Reported?;
    }
  }

  lemma {:induction false} FaultDerivation(c: Config, k: int, s: seq<int>, g: Fields)
      returns (items: seq<Item>, f: Fault)
    requires s != [] && Machine(c, KEY, k, s, g).Reported?
    ensures ValidItems(c, items) && IsFault(c, f) && (items == [] ==> !AfterValue(f))
    ensures f.NoSeparator? && items != [] ==> Stops(items[|items| - 1], f.rest)
    ensures s == Faulty(items, f) && Machine(c, KEY, k, s, g) == Reported(ErrorOf(f))
    decreases |s|
  {
    var item, rest, g';
    item, f, rest, g' := ItemComesTo(c, k, s, g);
    items := [];
    if item.Some? {
      var more;
      f, more := AfterComesTo(c, item.value.key, rest, g');
      if more {
        var others;
        others, f := FaultDerivation(c, item.value.key, rest[1..], g');
        items := [item.value] + others;
        FaultyCons(item.value, others, f);
      } else {
        items := [item.value];
        FaultyOne(item.value, f);
      }
    }
  }

  ghost predicate HasFault(c: Config, s: seq<int>, err: Error) {
    exists items, f :: IsFaulty(c, items, f) && Faulty(items, f) == s && ErrorOf(f) == err
  }

  lemma StartOfFaulty(items: seq<Item>, f: Fault, c: Config)
    requires IsFault(c, f)
    ensures FaultText(f) != [] && Faulty(items, f) != []
    ensures Faulty(items, f)[0] == if items == [] then FaultText(f)[0] else items[0].key
  {
    if f.TooLarge? { assert |f.digits| == MAX_DIGITS; }
  }

  lemma ReportedHasFault(c: Config, s: seq<int>, err: Error)
    requires Parsed(c, s) == Reported(err)
    ensures HasFault(c, s, err)
  {
    assert s != [];
    if s[0] == SEMICOLON {
      var f, more := AfterComesTo(c, 0, s, map[]);
      assert IsFaulty(c, [], f) && Faulty([], f) == s;
    } else {
      var items, f := FaultDerivation(c, 0, s, map[]);
      StartOfFaulty(items, f, c);
      assert IsFaulty(c, items, f) && Faulty(items, f) == s;
    }
  }

  lemma FaultyIsReported(c: Config, items: seq<Item>, f: Fault)
    requires IsFaulty(c, items, f)
    ensures Parsed(c, Faulty(items, f)) == Reported(ErrorOf(f))
  {
    StartOfFaulty(items, f, c);
    if items == [] && AfterValue(f) {
      FaultAfterValue(c, 0, f, map[]);
    } else {
      FaultReported(c, 0, items, f, map[]);
    }
  }

  /** An error is reported exactly for a text that has, after sound items, the fault it names. */
  lemma ReportsExactlyTheFault(c: Config, s: seq<int>, err: Error)
    ensures Parsed(c, s) == Reported(err) <==> HasFault(c, s, err)
  {
    if Parsed(c, s) == Reported(err) { ReportedHasFault(c, s, err); }
    if items, f :| IsFaulty(c, items, f) && Faulty(items, f) == s && ErrorOf(f) == err {
      FaultyIsReported(c, items, f);
    }
  }
}
