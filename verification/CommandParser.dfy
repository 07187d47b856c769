/** The control-code parser that gen-apc-parsers.py emits for a keymap, its grammar, and a
    printer. Characters are 32-bit code units; `base64_decode` is a parameter. */
module CommandParser {
  import opened Options

  const UINT32 := 0x1_0000_0000
  const COMMA := 44
  const MINUS := 45
  const ZERO := 48
  const NINE := 57
  const SEMICOLON := 59
  const EQUALS := 61
  const MAX_DIGITS := 10

  /** The type of a key: `'uint'`, `'int'`, or the set of its allowed flag letters. */
  datatype Kind = UIntKind | IntKind | FlagKind(allowed: set<int>)

  datatype Entry = Entry(attr: string, kind: Kind)

  /** `KeymapType`: from a key character to its attribute and type. */
  type Keymap = map<int, Entry>

  /** The command struct `g`: attributes never written are 0. */
  type Fields = map<string, int>

  type Decoder = seq<int> -> Option<seq<int>>

  /** What the generator is told: the keymap, whether payloads are allowed, the decoder. */
  datatype Config = Config(keymap: Keymap, payloadAllowed: bool, decode: Decoder)

  datatype Error =
    | InvalidKey | NoEqualsSign | UnknownFlag | ExpectedInteger | NumberTooLarge
    | ExpectedSeparator | MissingValue | BadPayload

  /** Either the callback is invoked with the fields and payload, or an error is reported. */
  datatype Outcome = Invoked(fields: Fields, payload: seq<int>) | Reported(error: Error)

  datatype ParserState = KEY | EQUAL | UINT | INT | FLAG | AFTER_VALUE | PAYLOAD

  // ----- numbers -----

  predicate IsDigit(c: int) { ZERO <= c <= NINE }

  /** The number of leading digits, at most `limit`. */
  function DigitRun(s: seq<int>, limit: nat): (n: nat)
    ensures n <= |s| && n <= limit
    ensures forall i :: 0 <= i < n ==> IsDigit(s[i])
    ensures n < |s| && n < limit ==> !IsDigit(s[n])
  {
    if s == [] || limit == 0 || !IsDigit(s[0]) then 0 else 1 + DigitRun(s[1..], limit - 1)
  }

  /** `utoi` on digits. */
  function Decimal(digits: seq<int>): int {
    if digits == [] then 0 else Decimal(digits[..|digits| - 1]) * 10 + (digits[|digits| - 1] - ZERO)
  }

  /** The wrapping conversion to a 32-bit signed integer. */
  function ToInt32(n: int): int { (n + 0x8000_0000) % UINT32 - 0x8000_0000 }

  /** `is_negative ? 0 - (int32_t)code : (int32_t)code`. */
  function SignedValue(negative: bool, code: int): int {
    if negative then ToInt32(0 - ToInt32(code)) else ToInt32(code)
  }

  // ----- the emitted parser -----

  function ValueState(kind: Kind): ParserState {
    match kind case UIntKind => UINT case IntKind => INT case FlagKind(_) => FLAG
  }

  /** The machine on the rest `s` of the input; each step consumes at least one character. */
  function Machine(c: Config, state: ParserState, key: int, s: seq<int>, g: Fields): Outcome
    requires state in {EQUAL, UINT, INT, FLAG} ==> key in c.keymap
    decreases |s|
  {
    if s == [] then AtEnd(state, g)
    else
      match state
      case KEY => if s[0] in c.keymap then Machine(c, EQUAL, s[0], s[1..], g) else Reported(InvalidKey)
      case EQUAL =>
        if s[0] != EQUALS then Reported(NoEqualsSign)
        else Machine(c, ValueState(c.keymap[key].kind), key, s[1..], g)
      case FLAG =>
        var flag := s[0] % 256;
        if c.keymap[key].kind.FlagKind? && flag in c.keymap[key].kind.allowed
        then Machine(c, AFTER_VALUE, key, s[1..], g[c.keymap[key].attr := flag])
        else Reported(UnknownFlag)
      case UINT => Number(c, key, false, s, g)
      case INT =>
        if s[0] == MINUS then Number(c, key, true, s[1..], g) else Number(c, key, false, s, g)
      case AFTER_VALUE =>
        if s[0] == COMMA then Machine(c, KEY, key, s[1..], g)
        else if s[0] == SEMICOLON && c.payloadAllowed then Machine(c, PAYLOAD, key, s[1..], g)
        else Reported(ExpectedSeparator)
      case PAYLOAD =>
        match c.decode(s)
        case Some(payload) => Invoked(g, payload)
        case None => Reported(BadPayload)
  }

  /** `READ_UINT` and the assignment that follows it. */
  function Number(c: Config, key: int, negative: bool, s: seq<int>, g: Fields): Outcome
    requires key in c.keymap
    decreases |s|, 0
  {
    var n := DigitRun(s, MAX_DIGITS);
    if n == 0 then Reported(ExpectedInteger)
    else
      var code := Decimal(s[..n]);
      if code >= UINT32 then Reported(NumberTooLarge)
      else
        var value := NumberValue(c.keymap[key].kind, negative, code);
        Machine(c, AFTER_VALUE, key, s[n..], g[c.keymap[key].attr := value])
  }

  function NumberValue(kind: Kind, negative: bool, code: int): int {
    if kind.IntKind? then SignedValue(negative, code) else code
  }

  /** The switch after the loop. */
  function AtEnd(state: ParserState, g: Fields): Outcome {
    match state
    case EQUAL => Reported(NoEqualsSign)
    case INT | UINT | FLAG => Reported(MissingValue)
    case _ => Invoked(g, [])
  }

  ghost predicate KeyKnown(c: Config, state: ParserState, key: int) {
    && (state in {EQUAL, UINT, INT, FLAG} ==> key in c.keymap)
    && (state in {UINT, INT, FLAG} ==> state == ValueState(c.keymap[key].kind))
  }

  /** The whole parser on what follows the first character of the buffer. */
  function Parsed(c: Config, body: seq<int>): Outcome {
    Machine(c, if body != [] && body[0] == SEMICOLON then AFTER_VALUE else KEY, 0, body, map[])
  }

  /** The emitted function. `buf` is `parser_buf` up to `parser_buf_pos`; `pos` starts at 1. */
  method Parse(c: Config, buf: seq<int>) returns (out: Outcome)
    requires |buf| >= 1
    ensures out == Parsed(c, buf[1..])
  {
    var pos, state, key := 1, KEY, 0;
    var g: Fields := map[];
    var payload: seq<int> := [];
    if pos < |buf| && buf[pos] == SEMICOLON { state := AFTER_VALUE; }
    ghost var payloadRead := false;
    while pos < |buf|
      invariant 1 <= pos <= |buf|
      invariant KeyKnown(c, state, key)
      invariant payloadRead ==> pos == |buf| && state == PAYLOAD && Parsed(c, buf[1..]) == Invoked(g, payload)
      invariant !payloadRead ==> payload == [] && Machine(c, state, key, buf[pos..], g) == Parsed(c, buf[1..])
      decreases |buf| - pos
    {
      assert buf[pos..][0] == buf[pos] && buf[pos..][1..] == buf[pos + 1..];
      match state {
        case KEY =>
          key := buf[pos];
          pos := pos + 1;
          if key !in c.keymap { return Reported(InvalidKey); }
          state := EQUAL;
        case EQUAL =>
          if buf[pos] != EQUALS { return Reported(NoEqualsSign); }
          pos := pos + 1;
          state := ValueState(c.keymap[key].kind);
        case FLAG =>
          var flag := buf[pos] % 256;
          pos := pos + 1;
          if flag !in c.keymap[key].kind.allowed { return Reported(UnknownFlag); }
          g := g[c.keymap[key].attr := flag];
          state := AFTER_VALUE;
        case UINT | INT =>
          var value, error;
          ghost var start := pos;
          value, pos, error := ReadNumber(state, buf, pos);
          NumberMoves(c, state, key, buf, start, g, value, pos, error);
          if value.None? { return Reported(error); }
          g := g[c.keymap[key].attr := value.value];
          state := AFTER_VALUE;
        case AFTER_VALUE =>
          var ch := buf[pos];
          pos := pos + 1;
          if ch == COMMA {
            state := KEY;
          } else if ch == SEMICOLON && c.payloadAllowed {
            state := PAYLOAD;
          } else {
            return Reported(ExpectedSeparator);
          }
        case PAYLOAD =>
          var decoded := c.decode(buf[pos..]);
          if decoded.None? { return Reported(BadPayload); }
          payload, payloadRead := decoded.value, true;
          pos := |buf|;
      }
    }
    match state {
      case EQUAL => out := Reported(NoEqualsSign);
      case INT | UINT | FLAG => out := Reported(MissingValue);
      case _ => out := Invoked(g, payload);
    }
  }

  /** Where the digits of a number start: after the minus sign that an `int` may have. */
  function DigitsAt(state: ParserState, buf: seq<int>, pos: nat): nat
    requires pos < |buf|
  {
    if state == INT && buf[pos] == MINUS then pos + 1 else pos
  }

  /** What the `INT` and `UINT` cases read from position `pos`: up to ten digits, below 2^32. */
  predicate NumberRead(state: ParserState, buf: seq<int>, pos: nat, value: Option<int>, next: nat, error: Error)
    requires pos < |buf|
  {
    var at := DigitsAt(state, buf, pos);
    var n := DigitRun(buf[at..], MAX_DIGITS);
    var code := Decimal(buf[at..][..n]);
    && next == at + n
    && (value.Some? <==> n > 0 && code < UINT32)
    && (value.Some? ==> value.value == if state == INT then SignedValue(at > pos, code) else code)
    && (value.None? ==> error == if n == 0 then ExpectedInteger else NumberTooLarge)
  }

  /** The `INT` and `UINT` cases up to the assignment to `g`. */
  method ReadNumber(state: ParserState, buf: seq<int>, pos: nat)
      returns (value: Option<int>, next: nat, error: Error)
    requires pos < |buf|
    ensures NumberRead(state, buf, pos, value, next, error)
  {
    var negative := state == INT && buf[pos] == MINUS;
    var at := if negative then pos + 1 else pos;
    var ok, n, code;
    ok, n, code, error := ReadUInt(buf, at);
    next := at + n;
    value := if !ok then None else if state == INT then Some(SignedValue(negative, code)) else Some(code);
  }

  lemma NumberStarts(c: Config, state: ParserState, key: int, buf: seq<int>, pos: nat, g: Fields)
    requires pos < |buf| && state in {UINT, INT} && KeyKnown(c, state, key)
    ensures var at := DigitsAt(state, buf, pos);
      Machine(c, state, key, buf[pos..], g) == Number(c, key, at > pos, buf[at..], g)
  {
    assert buf[pos..][0] == buf[pos] && buf[pos..][1..] == buf[pos + 1..];
  }

  /** The machine goes on after a number with the value read, or reports the error. */
  lemma NumberMoves(c: Config, state: ParserState, key: int, buf: seq<int>, pos: nat, g: Fields,
                    value: Option<int>, next: nat, error: Error)
    requires pos < |buf| && state in {UINT, INT} && KeyKnown(c, state, key)
    requires NumberRead(state, buf, pos, value, next, error)
    ensures value.Some? ==>
      && pos < next <= |buf|
      && Machine(c, state, key, buf[pos..], g)
      == Machine(c, AFTER_VALUE, key, buf[next..], g[c.keymap[key].attr := value.value])
    ensures value.None? ==> Machine(c, state, key, buf[pos..], g) == Reported(error)
  {
    NumberStarts(c, state, key, buf, pos, g);
    var at := DigitsAt(state, buf, pos);
    NumberEnds(c, key, at > pos, buf[at..], g);
    ValueOfState(c.keymap[key].kind, state);
    SuffixOf(buf, at, next);
  }

  lemma NumberEnds(c: Config, key: int, negative: bool, s: seq<int>, g: Fields)
    requires key in c.keymap
    ensures var n := DigitRun(s, MAX_DIGITS);
      Number(c, key, negative, s, g) ==
        if n == 0 then Reported(ExpectedInteger)
        else if Decimal(s[..n]) >= UINT32 then Reported(NumberTooLarge)
        else Machine(c, AFTER_VALUE, key, s[n..],
                     g[c.keymap[key].attr := NumberValue(c.keymap[key].kind, negative, Decimal(s[..n]))])
  {
  }

  lemma ValueOfState(kind: Kind, state: ParserState)
    requires state == ValueState(kind) && state in {UINT, INT}
    ensures kind.IntKind? <==> state == INT
  {
  }

  lemma SuffixOf(buf: seq<int>, at: nat, next: nat)
    requires at <= next <= |buf|
    ensures buf[at..][next - at..] == buf[next..]
  {
  }

  /** `READ_UINT`: up to ten digits from `pos` on. */
  method ReadUInt(buf: seq<int>, pos: nat) returns (ok: bool, n: nat, code: int, error: Error)
    requires pos <= |buf|
    ensures n == DigitRun(buf[pos..], MAX_DIGITS)
    ensures ok <==> n > 0 && Decimal(buf[pos..][..n]) < UINT32
    ensures ok ==> code == Decimal(buf[pos..][..n])
    ensures !ok ==> error == if n == 0 then ExpectedInteger else NumberTooLarge
  {
    var i := pos;
    while i < |buf| && i < pos + MAX_DIGITS && IsDigit(buf[i])
      invariant pos <= i <= |buf| && i <= pos + MAX_DIGITS
      invariant DigitRun(buf[pos..], MAX_DIGITS) == i - pos + DigitRun(buf[i..], MAX_DIGITS - (i - pos))
    {
      assert buf[i..][1..] == buf[i + 1..];
      i := i + 1;
    }
    n := i - pos;
    code := Decimal(buf[pos..][..n]);
    ok, error := n > 0 && code < UINT32, if n == 0 then ExpectedInteger else NumberTooLarge;
  }
}
