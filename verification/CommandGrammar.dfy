/** The language of control codes as a grammar, and a printer for commands: what the parser
    emitted by gen-apc-parsers.py accepts and what it makes of it. */
module CommandGrammar {
  import opened CommandParser
  import opened Options

  // ----- the grammar -----

  datatype Body = FlagBody(c: int) | UIntBody(digits: seq<int>) | IntBody(negative: bool, digits: seq<int>)

  /** `key=value`. */
  datatype Item = Item(key: int, body: Body)

  datatype Tail = EndTail | CommaTail | PayloadTail(data: seq<int>)

  datatype Command = Command(items: seq<Item>, tail: Tail)

  function BodyText(body: Body): seq<int> {
    match body
    case FlagBody(c) => [c]
    case UIntBody(digits) => digits
    case IntBody(negative, digits) => (if negative then [MINUS] else []) + digits
  }

  function ItemText(item: Item): seq<int> { [item.key, EQUALS] + BodyText(item.body) }

  function TailText(tail: Tail): seq<int> {
    match tail
    case EndTail => []
    case CommaTail => [COMMA]
    case PayloadTail(data) => [SEMICOLON] + data
  }

  /** Items separated by commas, then the tail. */
  function Text(items: seq<Item>, tail: Tail): seq<int> {
    if items == [] then TailText(tail)
    else ItemText(items[0]) + (if |items| == 1 then TailText(tail) else [COMMA] + Text(items[1..], tail))
  }

  /** One to ten digits of a value that fits 32 bits. */
  ghost predicate ValidNumber(digits: seq<int>) {
    && 1 <= |digits| <= MAX_DIGITS && (forall i :: 0 <= i < |digits| ==> IsDigit(digits[i]))
    && Decimal(digits) < UINT32
  }

  ghost predicate ValidItem(c: Config, item: Item) {
    && item.key in c.keymap
    && match c.keymap[item.key].kind
       case FlagKind(allowed) => item.body.FlagBody? && item.body.c % 256 in allowed
       case UIntKind => item.body.UIntBody? && ValidNumber(item.body.digits)
       case IntKind => item.body.IntBody? && ValidNumber(item.body.digits)
  }

  function ItemValue(item: Item): int {
    match item.body
    case FlagBody(c) => c % 256
    case UIntBody(digits) => Decimal(digits)
    case IntBody(negative, digits) => SignedValue(negative, Decimal(digits))
  }

  /** The value of an `int` is the number of its sign and digits, wrapped into 32 bits. */
  lemma IntValueWraps(negative: bool, digits: seq<int>)
    requires ValidNumber(digits)
    ensures var signed := if negative then -Decimal(digits) else Decimal(digits);
      var v := ItemValue(Item(0, IntBody(negative, digits)));
      && -0x8000_0000 <= v < 0x8000_0000
      && v in {signed - 0x1_0000_0000, signed, signed + 0x1_0000_0000}
  {
    DigitsNotNegative(digits);
    WrapsOnce(Decimal(digits), ToInt32(Decimal(digits)));
    WrapsOnce(-ToInt32(Decimal(digits)), ToInt32(-ToInt32(Decimal(digits))));
  }

  lemma WrapsOnce(n: int, v: int)
    requires -0x8000_0000 <= n < 0x1_0000_0000 && v == ToInt32(n)
    ensures -0x8000_0000 <= v < 0x8000_0000 && v == if n >= 0x8000_0000 then n - 0x1_0000_0000 else n
  {
  }

  lemma {:induction false} DigitsNotNegative(digits: seq<int>)
    requires forall i :: 0 <= i < |digits| ==> IsDigit(digits[i])
    ensures 0 <= Decimal(digits)
  {
    if digits != [] { DigitsNotNegative(digits[..|digits| - 1]); }
  }

  ghost predicate ValidTail(c: Config, tail: Tail) {
    tail.PayloadTail? ==> c.payloadAllowed && (tail.data != [] ==> c.decode(tail.data).Some?)
  }

  ghost predicate ValidItems(c: Config, items: seq<Item>) {
    forall i :: 0 <= i < |items| ==> ValidItem(c, items[i])
  }

  /** An initial semicolon always ends an empty list of items, even if it is a key. */
  ghost predicate ValidCommand(c: Config, cmd: Command) {
    && ValidItems(c, cmd.items) && ValidTail(c, cmd.tail)
    && if cmd.items == [] then !cmd.tail.CommaTail? else cmd.items[0].key != SEMICOLON
  }

  /** What the items say, later ones overriding earlier ones. */
  function Eval(c: Config, items: seq<Item>, g: Fields): Fields {
    if items == [] then g
    else if items[0].key in c.keymap then Eval(c, items[1..], g[c.keymap[items[0].key].attr := ItemValue(items[0])])
    else Eval(c, items[1..], g)
  }

  function PayloadOf(c: Config, tail: Tail): seq<int> {
    if tail.PayloadTail? && tail.data != [] && c.decode(tail.data).Some? then c.decode(tail.data).value else []
  }

  // ----- every sentence is accepted, with its meaning -----

  ghost predicate NoDigitFirst(s: seq<int>) { s == [] || !IsDigit(s[0]) }

  /** Reading digits stops before what follows. */
  ghost predicate NumberStops(digits: seq<int>, rest: seq<int>) { NoDigitFirst(rest) || |digits| == MAX_DIGITS }

  /** Reading an item stops before what follows. */
  ghost predicate Stops(item: Item, rest: seq<int>) {
    match item.body
    case FlagBody(_) => true
    case UIntBody(digits) => NumberStops(digits, rest)
    case IntBody(_, digits) => NumberStops(digits, rest)
  }

  lemma {:induction false} DigitRunOfNumber(digits: seq<int>, rest: seq<int>, limit: nat)
    requires |digits| <= limit && (NoDigitFirst(rest) || |digits| == limit)
    requires forall i :: 0 <= i < |digits| ==> IsDigit(digits[i])
    ensures DigitRun(digits + rest, limit) == |digits|
  {
    if digits != [] {
      assert (digits + rest)[1..] == digits[1..] + rest;
      DigitRunOfNumber(digits[1..], rest, limit - 1);
    } else {
      assert digits + rest == rest;
    }
  }

  lemma NumberAccepted(c: Config, key: int, negative: bool, digits: seq<int>, rest: seq<int>, g: Fields)
    requires key in c.keymap && ValidNumber(digits) && NumberStops(digits, rest)
    ensures Number(c, key, negative, digits + rest, g) == Machine(c, AFTER_VALUE, key, rest,
      g[c.keymap[key].attr := NumberValue(c.keymap[key].kind, negative, Decimal(digits))])
  {
    DigitRunOfNumber(digits, rest, MAX_DIGITS);
    assert (digits + rest)[..|digits|] == digits && (digits + rest)[|digits|..] == rest;
  }

  lemma ItemAccepted(c: Config, k: int, item: Item, rest: seq<int>, g: Fields)
    requires ValidItem(c, item) && Stops(item, rest)
    ensures Machine(c, KEY, k, ItemText(item) + rest, g)
         == Machine(c, AFTER_VALUE, item.key, rest, g[c.keymap[item.key].attr := ItemValue(item)])
  {
    var body := BodyText(item.body) + rest;
    ItemSplits(item, rest, body);
    KeyRead(c, k, ItemText(item) + rest, item.key, body, g);
    BodyAccepted(c, item, rest, g);
  }

  lemma ItemSplits(item: Item, rest: seq<int>, body: seq<int>)
    requires body == BodyText(item.body) + rest
    ensures ItemText(item) + rest == [item.key] + ([EQUALS] + body)
  {
  }

  lemma KeyRead(c: Config, k: int, s: seq<int>, key: int, body: seq<int>, g: Fields)
    requires s == [key] + ([EQUALS] + body) && key in c.keymap
    ensures Machine(c, KEY, k, s, g) == Machine(c, ValueState(c.keymap[key].kind), key, body, g)
  {
    assert s[1..] == [EQUALS] + body && s[1..][1..] == body;
  }

  lemma IntAccepted(c: Config, key: int, negative: bool, digits: seq<int>, rest: seq<int>, g: Fields)
    requires key in c.keymap && ValidNumber(digits) && NumberStops(digits, rest)
    ensures Machine(c, INT, key, BodyText(IntBody(negative, digits)) + rest, g)
         == Number(c, key, negative, digits + rest, g)
  {
    var body := BodyText(IntBody(negative, digits)) + rest;
    IntStep(c, key, body, g);
    SignSplits(negative, digits, rest);
  }

  lemma IntStep(c: Config, key: int, s: seq<int>, g: Fields)
    requires key in c.keymap && s != []
    ensures Machine(c, INT, key, s, g)
         == if s[0] == MINUS then Number(c, key, true, s[1..], g) else Number(c, key, false, s, g)
  {
  }

  lemma SignSplits(negative: bool, digits: seq<int>, rest: seq<int>)
    requires ValidNumber(digits)
    ensures var body := BodyText(IntBody(negative, digits)) + rest;
      body != [] && (body[0] == MINUS <==> negative) && body[if negative then 1 else 0..] == digits + rest
  {
    assert IsDigit(digits[0]);
    if negative {
      assert ([MINUS] + digits) + rest == [MINUS] + (digits + rest);
    } else {
      assert ([] + digits) + rest == digits + rest;
    }
  }

  lemma BodyAccepted(c: Config, item: Item, rest: seq<int>, g: Fields)
    requires ValidItem(c, item) && Stops(item, rest)
    ensures Machine(c, ValueState(c.keymap[item.key].kind), item.key, BodyText(item.body) + rest, g)
         == Machine(c, AFTER_VALUE, item.key, rest, g[c.keymap[item.key].attr := ItemValue(item)])
  {
    match item.body
    case FlagBody(ch) =>
      assert (BodyText(item.body) + rest)[1..] == rest;
    case UIntBody(digits) =>
      assert Machine(c, UINT, item.key, digits + rest, g) == Number(c, item.key, false, digits + rest, g);
      NumberAccepted(c, item.key, false, digits, rest, g);
    case IntBody(negative, digits) =>
      IntAccepted(c, item.key, negative, digits, rest, g);
      NumberAccepted(c, item.key, negative, digits, rest, g);
  }

  lemma TailAccepted(c: Config, k: int, tail: Tail, g: Fields)
    requires ValidTail(c, tail)
    ensures Machine(c, AFTER_VALUE, k, TailText(tail), g) == Invoked(g, PayloadOf(c, tail))
  {
    if tail.PayloadTail? { assert TailText(tail)[1..] == tail.data; }
    if tail.CommaTail? { assert TailText(tail)[1..] == []; }
  }

  lemma {:induction false} ItemsAccepted(c: Config, k: int, items: seq<Item>, tail: Tail, g: Fields)
    requires items != [] && ValidTail(c, tail) && ValidItems(c, items)
    ensures Machine(c, KEY, k, Text(items, tail), g) == Invoked(Eval(c, items, g), PayloadOf(c, tail))
    decreases |items|
  {
    var item, more := items[0], items[1..];
    var g' := g[c.keymap[item.key].attr := ItemValue(item)];
    assert ValidItem(c, item) && Eval(c, items, g) == Eval(c, more, g');
    if more == [] {
      ItemAccepted(c, k, item, TailText(tail), g);
      TailAccepted(c, item.key, tail, g');
    } else {
      ItemAccepted(c, k, item, [COMMA] + Text(more, tail), g);
      CommaStep(c, item.key, Text(more, tail), g');
      ItemsAccepted(c, item.key, more, tail, g');
    }
  }

  lemma CommaStep(c: Config, k: int, s: seq<int>, g: Fields)
    ensures Machine(c, AFTER_VALUE, k, [COMMA] + s, g) == Machine(c, KEY, k, s, g)
  {
    assert ([COMMA] + s)[1..] == s;
  }

  /** A command of the grammar invokes the callback with the fields its items give and its
      decoded payload. */
  lemma CommandAccepted(c: Config, cmd: Command)
    requires ValidCommand(c, cmd)
    ensures Parsed(c, Text(cmd.items, cmd.tail)) == Invoked(Eval(c, cmd.items, map[]), PayloadOf(c, cmd.tail))
  {
    if cmd.items == [] {
      TailAccepted(c, 0, cmd.tail, map[]);
    } else {
      assert Text(cmd.items, cmd.tail)[0] == cmd.items[0].key;
      ItemsAccepted(c, 0, cmd.items, cmd.tail, map[]);
    }
  }

  // ----- only sentences are accepted -----

  lemma DigitsAreNumber(s: seq<int>)
    requires DigitRun(s, MAX_DIGITS) > 0 && Decimal(s[..DigitRun(s, MAX_DIGITS)]) < UINT32
    ensures ValidNumber(s[..DigitRun(s, MAX_DIGITS)])
  {
  }

  lemma NumberDerivation(c: Config, key: int, negative: bool, s: seq<int>, g: Fields)
      returns (digits: seq<int>, rest: seq<int>, g': Fields)
    requires key in c.keymap && Number(c, key, negative, s, g).Invoked?
    ensures ValidNumber(digits) && s == digits + rest && |rest| < |s|
    ensures Machine(c, AFTER_VALUE, key, rest, g').Invoked?
  {
    var n := DigitRun(s, MAX_DIGITS);
    DigitsAreNumber(s);
    digits, rest := s[..n], s[n..];
    g' := g[c.keymap[key].attr := NumberValue(c.keymap[key].kind, negative, Decimal(digits))];
  }

  /** An accepted value starts with the text of a valid body; the rest is read after it. */
  lemma BodyDerivation(c: Config, key: int, s: seq<int>, g: Fields) returns (body: Body, rest: seq<int>, g': Fields)
    requires key in c.keymap && Machine(c, ValueState(c.keymap[key].kind), key, s, g).Invoked?
    ensures ValidItem(c, Item(key, body)) && s == BodyText(body) + rest && |rest| < |s|
    ensures Machine(c, AFTER_VALUE, key, rest, g').Invoked?
  {
    match c.keymap[key].kind
    case FlagKind(allowed) =>
      body, rest, g' := FlagBody(s[0]), s[1..], g[c.keymap[key].attr := s[0] % 256];
    case UIntKind =>
      var digits;
      digits, rest, g' := NumberDerivation(c, key, false, s, g);
      body := UIntBody(digits);
    case IntKind =>
      body, rest, g' := IntDerivation(c, key, s, g);
  }

  lemma IntDerivation(c: Config, key: int, s: seq<int>, g: Fields) returns (body: Body, rest: seq<int>, g': Fields)
    requires key in c.keymap && Machine(c, INT, key, s, g).Invoked?
    ensures body.IntBody? && ValidNumber(body.digits) && s == BodyText(body) + rest && |rest| < |s|
    ensures Machine(c, AFTER_VALUE, key, rest, g').Invoked?
  {
    assert s != [];
    IntStep(c, key, s, g);
    var digits;
    digits, rest, g' := NumberDerivation(c, key, s[0] == MINUS, Unsigned(s), g);
    body := IntBody(s[0] == MINUS, digits);
    SignJoins(s, digits, rest);
  }

  function Unsigned(s: seq<int>): seq<int>
    requires s != []
  {
    if s[0] == MINUS then s[1..] else s
  }

  lemma SignJoins(s: seq<int>, digits: seq<int>, rest: seq<int>)
    requires s != [] && Unsigned(s) == digits + rest
    ensures s == BodyText(IntBody(s[0] == MINUS, digits)) + rest
  {
    if s[0] == MINUS {
      MinusJoins(digits, rest);
      HeadTail(s);
    } else {
      NoSign(digits);
    }
  }

  lemma HeadTail(s: seq<int>)
    requires s != []
    ensures s == [s[0]] + s[1..]
  {
  }

  lemma NoSign(digits: seq<int>)
    ensures BodyText(IntBody(false, digits)) == digits
  {
  }

  lemma MinusJoins(digits: seq<int>, rest: seq<int>)
    ensures BodyText(IntBody(true, digits)) + rest == [MINUS] + (digits + rest)
  {
  }

  lemma TextOne(item: Item, tail: Tail)
    ensures Text([item], tail) == ItemText(item) + TailText(tail)
  {
  }

  lemma TextCons(item: Item, more: seq<Item>, tail: Tail)
    requires more != []
    ensures Text([item] + more, tail) == ItemText(item) + ([COMMA] + Text(more, tail))
  {
    assert ([item] + more)[1..] == more;
  }

  lemma ItemDerivation(c: Config, k: int, s: seq<int>, g: Fields) returns (item: Item, rest: seq<int>, g': Fields)
    requires s != [] && Machine(c, KEY, k, s, g).Invoked?
    ensures ValidItem(c, item) && s == ItemText(item) + rest && |rest| < |s|
    ensures Machine(c, AFTER_VALUE, item.key, rest, g').Invoked?
  {
    var key := s[0];
    assert s[1..] != [] && s[1..][0] == EQUALS;
    var body;
    body, rest, g' := BodyDerivation(c, key, s[1..][1..], g);
    item := Item(key, body);
  }

  /** What follows a value is nothing, a comma, a comma and more items, or a payload. */
  lemma AfterDerivation(c: Config, k: int, s: seq<int>, g: Fields) returns (tail: Tail, more: bool)
    requires Machine(c, AFTER_VALUE, k, s, g).Invoked?
    ensures !more ==> ValidTail(c, tail) && s == TailText(tail)
    ensures more ==> |s| > 1 && s == [COMMA] + s[1..] && Machine(c, KEY, k, s[1..], g).Invoked?
  {
    more := false;
    if s == [] {
      tail := EndTail;
    } else if s == [COMMA] {
      tail := CommaTail;
    } else if s[0] == COMMA {
      tail, more := EndTail, true;
    } else {
      tail := PayloadTail(s[1..]);
      assert Machine(c, PAYLOAD, k, s[1..], g).Invoked?;
    }
  }

  lemma {:induction false} Derivation(c: Config, k: int, s: seq<int>, g: Fields) returns (items: seq<Item>, tail: Tail)
    requires s != [] && Machine(c, KEY, k, s, g).Invoked?
    ensures items != [] && ValidItems(c, items) && ValidTail(c, tail) && s == Text(items, tail)
    decreases |s|
  {
    var item, rest, g' := ItemDerivation(c, k, s, g);
    var more;
    tail, more := AfterDerivation(c, item.key, rest, g');
    if more {
      var others;
      others, tail := Derivation(c, item.key, rest[1..], g');
      items := [item] + others;
      TextCons(item, others, tail);
    } else {
      items := [item];
      TextOne(item, tail);
    }
  }

  /** The callback is invoked exactly on the sentences of the grammar. */
  lemma AcceptsExactlyTheGrammar(c: Config, s: seq<int>)
    ensures Parsed(c, s).Invoked? <==> exists cmd: Command :: ValidCommand(c, cmd) && Text(cmd.items, cmd.tail) == s
  {
    if Parsed(c, s).Invoked? {
      var cmd;
      if s == [] {
        cmd := Command([], EndTail);
      } else if s[0] == SEMICOLON {
        cmd := Command([], PayloadTail(s[1..]));
        assert s == [SEMICOLON] + s[1..];
        assert Machine(c, PAYLOAD, 0, s[1..], map[]).Invoked?;
      } else {
        var items, tail := Derivation(c, 0, s, map[]);
        cmd := Command(items, tail);
        assert s[0] == items[0].key;
      }
      assert ValidCommand(c, cmd) && Text(cmd.items, cmd.tail) == s;
    }
    if cmd: Command :| ValidCommand(c, cmd) && Text(cmd.items, cmd.tail) == s {
      CommandAccepted(c, cmd);
    }
  }

  // ----- later items win -----

  ghost predicate DistinctAttributes(c: Config) {
    forall k, k' :: k in c.keymap && k' in c.keymap && c.keymap[k].attr == c.keymap[k'].attr ==> k == k'
  }

  function Lookup(g: Fields, attr: string): Option<int> { if attr in g then Some(g[attr]) else None }

  /** The value of the last item with a given key. */
  function LastValue(items: seq<Item>, key: int): Option<int> {
    if items == [] then None
    else if LastValue(items[1..], key).Some? then LastValue(items[1..], key)
    else if items[0].key == key then Some(ItemValue(items[0]))
    else None
  }

  /** With distinct attributes, a field holds the value of the last item for its key, and is
      left at 0 by `memset` when there is none. */
  lemma {:induction false} LastItemWins(c: Config, items: seq<Item>, key: int, g: Fields)
    requires DistinctAttributes(c) && key in c.keymap && ValidItems(c, items)
    ensures Lookup(Eval(c, items, g), c.keymap[key].attr) ==
      if LastValue(items, key).Some? then LastValue(items, key) else Lookup(g, c.keymap[key].attr)
    decreases |items|
  {
    if items != [] {
      assert ValidItem(c, items[0]);
      LastItemWins(c, items[1..], key, g[c.keymap[items[0].key].attr := ItemValue(items[0])]);
    }
  }

  // ----- printing -----

  function Digits(n: nat): seq<int> {
    if n < 10 then [ZERO + n] else Digits(n / 10) + [ZERO + n % 10]
  }

  function PowerOfTen(k: nat): nat { if k == 0 then 1 else 10 * PowerOfTen(k - 1) }

  lemma {:induction false} DigitsRead(n: nat, k: nat)
    requires n < PowerOfTen(k) && k > 0
    ensures 1 <= |Digits(n)| <= k && Decimal(Digits(n)) == n
    ensures forall i :: 0 <= i < |Digits(n)| ==> IsDigit(Digits(n)[i])
  {
    if n < 10 {
      assert Digits(n)[..0] == [];
    } else {
      assert k > 1 by { assert PowerOfTen(1) == 10; }
      DigitsRead(n / 10, k - 1);
      assert Digits(n)[..|Digits(n)| - 1] == Digits(n / 10);
    }
  }

  lemma Uint32Digits(n: nat)
    requires n < UINT32
    ensures ValidNumber(Digits(n)) && Decimal(Digits(n)) == n
  {
    assert PowerOfTen(10) == 10 * 10 * PowerOfTen(8);
    assert PowerOfTen(8) == 10 * 10 * PowerOfTen(6);
    assert PowerOfTen(6) == 10 * 10 * PowerOfTen(4);
    assert PowerOfTen(4) == 10 * 10 * PowerOfTen(2);
    assert PowerOfTen(2) == 100;
    DigitsRead(n, 10);
  }

  /** The values a key can be given: any uint32, any int32, any allowed flag letter. */
  predicate Printable(kind: Kind, v: int) {
    match kind
    case UIntKind => 0 <= v < UINT32
    case IntKind => -0x8000_0000 <= v < 0x8000_0000
    case FlagKind(allowed) => v in allowed && 0 <= v < 256
  }

  function PrintedItem(c: Config, key: int, v: int): Item
    requires key in c.keymap && Printable(c.keymap[key].kind, v)
  {
    match c.keymap[key].kind
    case UIntKind => Item(key, UIntBody(Digits(v)))
    case IntKind => Item(key, IntBody(v < 0, Digits(if v < 0 then -v else v)))
    case FlagKind(_) => Item(key, FlagBody(v))
  }

  lemma PrintedItemReads(c: Config, key: int, v: int)
    requires key in c.keymap && Printable(c.keymap[key].kind, v)
    ensures ValidItem(c, PrintedItem(c, key, v)) && ItemValue(PrintedItem(c, key, v)) == v
  {
    match c.keymap[key].kind
    case UIntKind => Uint32Digits(v);
    case IntKind => Uint32Digits(if v < 0 then -v else v);
    case FlagKind(_) =>
  }

  datatype Assignment = Assignment(key: int, value: int)

  ghost predicate AllPrintable(c: Config, fields: seq<Assignment>) {
    forall i :: 0 <= i < |fields| ==>
      fields[i].key in c.keymap && Printable(c.keymap[fields[i].key].kind, fields[i].value)
  }

  ghost function PrintedItems(c: Config, fields: seq<Assignment>): seq<Item>
    requires AllPrintable(c, fields)
  {
    if fields == [] then [] else [PrintedItem(c, fields[0].key, fields[0].value)] + PrintedItems(c, fields[1..])
  }

  /** The assignments carried out in order. */
  function Assigned(c: Config, fields: seq<Assignment>, g: Fields): Fields {
    if fields == [] then g
    else if fields[0].key in c.keymap then
      Assigned(c, fields[1..], g[c.keymap[fields[0].key].attr := fields[0].value])
    else Assigned(c, fields[1..], g)
  }

  lemma {:induction false} PrintedItemsRead(c: Config, fields: seq<Assignment>, g: Fields)
    requires AllPrintable(c, fields)
    ensures ValidItems(c, PrintedItems(c, fields))
    ensures Eval(c, PrintedItems(c, fields), g) == Assigned(c, fields, g)
    decreases |fields|
  {
    if fields != [] {
      var a := fields[0];
      PrintedItemReads(c, a.key, a.value);
      PrintedItemsRead(c, fields[1..], g[c.keymap[a.key].attr := a.value]);
      assert PrintedItems(c, fields)[1..] == PrintedItems(c, fields[1..]);
    }
  }

  /** What the printer appends for a payload; `encode` is undone by the decoder. */
  function PrintedTail(payload: seq<int>, encode: seq<int> -> seq<int>): Tail {
    if payload == [] then EndTail else PayloadTail(encode(payload))
  }

  lemma {:induction false} AssignedGrows(c: Config, fields: seq<Assignment>, g: Fields, attr: string)
    requires attr in g
    ensures attr in Assigned(c, fields, g)
    decreases |fields|
  {
    if fields != [] {
      if fields[0].key in c.keymap {
        AssignedGrows(c, fields[1..], g[c.keymap[fields[0].key].attr := fields[0].value], attr);
      } else {
        AssignedGrows(c, fields[1..], g, attr);
      }
    }
  }

  lemma PrintedTextParses(c: Config, fields: seq<Assignment>, payload: seq<int>, tail: Tail)
    requires AllPrintable(c, fields) && (fields != [] ==> fields[0].key != SEMICOLON)
    requires !tail.CommaTail? && ValidTail(c, tail) && PayloadOf(c, tail) == payload
    ensures Parsed(c, Text(PrintedItems(c, fields), tail)) == Invoked(Assigned(c, fields, map[]), payload)
  {
    PrintedItemsRead(c, fields, map[]);
    CommandAccepted(c, Command(PrintedItems(c, fields), tail));
  }

  /** A text that starts with a semicolon sets no field. */
  lemma SemicolonSetsNothing(c: Config, s: seq<int>)
    requires s != [] && s[0] == SEMICOLON
    ensures Parsed(c, s).Invoked? ==> Parsed(c, s).fields == map[]
  {
    var after := Machine(c, PAYLOAD, 0, s[1..], map[]);
    assert after.Invoked? ==> after.fields == map[];
  }

  /** Parsing a printed command gives back its fields and payload, if and only if the first
      field's key, if there is one, is not a semicolon. */
  lemma PrintThenParse(c: Config, fields: seq<Assignment>, payload: seq<int>, encode: seq<int> -> seq<int>)
    requires AllPrintable(c, fields)
    requires payload != [] ==> c.payloadAllowed && encode(payload) != [] && c.decode(encode(payload)) == Some(payload)
    ensures Parsed(c, Text(PrintedItems(c, fields), PrintedTail(payload, encode)))
      == Invoked(Assigned(c, fields, map[]), payload)
      <==> (fields != [] ==> fields[0].key != SEMICOLON)
  {
    var tail := PrintedTail(payload, encode);
    if fields == [] || fields[0].key != SEMICOLON {
      PrintedTextParses(c, fields, payload, tail);
    } else {
      var attr := c.keymap[SEMICOLON].attr;
      SemicolonSetsNothing(c, Text(PrintedItems(c, fields), tail));
      AssignedGrows(c, fields[1..], map[attr := fields[0].value], attr);
    }
  }
}
