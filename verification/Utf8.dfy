/** UTF-8 in GLFW: `encode_utf8` of glfw/input.c and the truncating copy `utf_8_strndup` of
    glfw/backend_utils.c, against a decoder after section 3 of RFC 3629. */
module Utf8 {
  import opened Options

  type Byte = bv8

  const LIMIT: bv32 := 0x110000

  // ----- one code point -----

  /** The bytes `encode_utf8` writes; none for values beyond the last code point. */
  function Encode(ch: bv32): (bytes: seq<Byte>)
    ensures |bytes| <= 4 && (|bytes| == 0 <==> ch >= LIMIT)
  {
    if ch < 0x80 then [ch as Byte]
    else if ch < 0x800 then [((ch >> 6) | 0xC0) as Byte, ((ch & 0x3F) | 0x80) as Byte]
    else if ch < 0x10000 then
      [((ch >> 12) | 0xE0) as Byte, (((ch >> 6) & 0x3F) | 0x80) as Byte, ((ch & 0x3F) | 0x80) as Byte]
    else if ch < LIMIT then
      [((ch >> 18) | 0xF0) as Byte, (((ch >> 12) & 0x3F) | 0x80) as Byte, (((ch >> 6) & 0x3F) | 0x80) as Byte,
       ((ch & 0x3F) | 0x80) as Byte]
    else []
  }

  /** `encode_utf8`: writes the bytes at the start of `dest` and returns how many. */
  method EncodeUtf8(ch: bv32, dest: array<Byte>) returns (n: nat)
    requires dest.Length >= 4
    modifies dest
    ensures n == |Encode(ch)| && dest[..n] == Encode(ch) && dest[n..] == old(dest[n..])
  {
    if ch < 0x80 {
      dest[0] := ch as Byte;
      return 1;
    }
    if ch < 0x800 {
      dest[0] := ((ch >> 6) | 0xC0) as Byte;
      dest[1] := ((ch & 0x3F) | 0x80) as Byte;
      return 2;
    }
    if ch < 0x10000 {
      dest[0] := ((ch >> 12) | 0xE0) as Byte;
      dest[1] := (((ch >> 6) & 0x3F) | 0x80) as Byte;
      dest[2] := ((ch & 0x3F) | 0x80) as Byte;
      return 3;
    }
    if ch < LIMIT {
      dest[0] := ((ch >> 18) | 0xF0) as Byte;
      dest[1] := (((ch >> 12) & 0x3F) | 0x80) as Byte;
      dest[2] := (((ch >> 6) & 0x3F) | 0x80) as Byte;
      dest[3] := ((ch & 0x3F) | 0x80) as Byte;
      return 4;
    }
    return 0;
  }

  predicate IsContinuation(b: Byte) { b & 0xC0 == 0x80 }

  /** The first byte of an encoding is not a continuation byte and the others are; a non-zero
      code point has no zero byte. */
  lemma EncodingShape(ch: bv32)
    requires ch < LIMIT
    ensures !IsContinuation(Encode(ch)[0])
    ensures forall i :: 1 <= i < |Encode(ch)| ==> IsContinuation(Encode(ch)[i])
    ensures ch != 0 ==> forall i :: 0 <= i < |Encode(ch)| ==> Encode(ch)[i] != 0
  {
  }

  // ----- decoding undoes encoding -----

  datatype Decoded = Decoded(ch: bv32, length: nat)

  /** The code point that starts a byte sequence, from the length class of the lead byte. */
  function DecodeOne(s: seq<Byte>): (d: Decoded)
    requires s != []
    ensures 1 <= d.length <= |s|
  {
    if s[0] < 0x80 then Decoded(s[0] as bv32, 1)
    else if s[0] < 0xE0 && |s| >= 2 then Decoded(Join2(s[0], s[1]), 2)
    else if s[0] < 0xF0 && |s| >= 3 then Decoded(Join3(s[0], s[1], s[2]), 3)
    else if |s| >= 4 then Decoded(Join4(s[0], s[1], s[2], s[3]), 4)
    else Decoded(0, |s|)
  }

  function Join2(a: Byte, b: Byte): bv32 { ((a & 0x1F) as bv32 << 6) | (b & 0x3F) as bv32 }

  function Join3(a: Byte, b: Byte, c: Byte): bv32 {
    ((a & 0x0F) as bv32 << 12) | ((b & 0x3F) as bv32 << 6) | (c & 0x3F) as bv32
  }

  function Join4(a: Byte, b: Byte, c: Byte, d: Byte): bv32 {
    ((a & 0x07) as bv32 << 18) | ((b & 0x3F) as bv32 << 12) | ((c & 0x3F) as bv32 << 6) | (d & 0x3F) as bv32
  }

  lemma TwoBytes(ch: bv32)
    requires 0x80 <= ch < 0x800
    ensures 0x80 <= ((ch >> 6) | 0xC0) as Byte < 0xE0
    ensures Join2(((ch >> 6) | 0xC0) as Byte, ((ch & 0x3F) | 0x80) as Byte) == ch
  {
  }

  lemma ThreeBytes(ch: bv32)
    requires 0x800 <= ch < 0x10000
    ensures 0xE0 <= ((ch >> 12) | 0xE0) as Byte < 0xF0
    ensures Join3(((ch >> 12) | 0xE0) as Byte, (((ch >> 6) & 0x3F) | 0x80) as Byte, ((ch & 0x3F) | 0x80) as Byte)
         == ch
  {
  }

  lemma FourBytes(ch: bv32)
    requires 0x10000 <= ch < LIMIT
    ensures 0xF0 <= ((ch >> 18) | 0xF0) as Byte
    ensures Join4(((ch >> 18) | 0xF0) as Byte, (((ch >> 12) & 0x3F) | 0x80) as Byte,
                  (((ch >> 6) & 0x3F) | 0x80) as Byte, ((ch & 0x3F) | 0x80) as Byte) == ch
  {
  }

  lemma DecodeEncode(ch: bv32, rest: seq<Byte>)
    requires ch < LIMIT
    ensures DecodeOne(Encode(ch) + rest) == Decoded(ch, |Encode(ch)|)
  {
    if 0x80 <= ch < 0x800 {
      TwoBytes(ch);
    } else if 0x800 <= ch < 0x10000 {
      ThreeBytes(ch);
    } else if 0x10000 <= ch {
      FourBytes(ch);
    }
  }

  // ----- whole texts -----

  /** The encodings one after the other. */
  function EncodeAll(text: seq<bv32>): seq<Byte> {
    if text == [] then [] else Encode(text[0]) + EncodeAll(text[1..])
  }

  function DecodeAll(s: seq<Byte>): seq<bv32>
    decreases |s|
  {
    if s == [] then [] else
      var d := DecodeOne(s);
      [d.ch] + DecodeAll(s[d.length..])
  }

  predicate AllValid(text: seq<bv32>) { forall i :: 0 <= i < |text| ==> text[i] < LIMIT }

  lemma {:induction false} DecodeAllEncodeAll(text: seq<bv32>)
    requires AllValid(text)
    ensures DecodeAll(EncodeAll(text)) == text
  {
    if text != [] {
      var rest := EncodeAll(text[1..]);
      DecodeEncode(text[0], rest);
      assert (Encode(text[0]) + rest)[|Encode(text[0])|..] == rest;
      DecodeAllEncodeAll(text[1..]);
    }
  }

  /** Two texts with the same bytes are the same text. */
  lemma EncodingIsInjective(a: seq<bv32>, b: seq<bv32>)
    requires AllValid(a) && AllValid(b) && EncodeAll(a) == EncodeAll(b)
    ensures a == b
  {
    DecodeAllEncodeAll(a);
    DecodeAllEncodeAll(b);
  }

  /** A byte offset where some prefix of the text ends. */
  ghost predicate Boundary(text: seq<bv32>, at: nat) {
    exists k :: 0 <= k <= |text| && |EncodeAll(text[..k])| == at
  }

  lemma BoundaryOfRest(text: seq<bv32>, at: nat)
    requires text != []
    ensures Boundary(text, at) <==> at == 0 || (at >= |Encode(text[0])| && Boundary(text[1..], at - |Encode(text[0])|))
  {
    var n := |Encode(text[0])|;
    assert EncodeAll(text[..0]) == [];
    forall k | 1 <= k <= |text|
      ensures |EncodeAll(text[..k])| == n + |EncodeAll(text[1..][..k - 1])|
    {
      assert text[..k][1..] == text[1..][..k - 1];
    }
    if at >= n && Boundary(text[1..], at - n) {
      var k :| 0 <= k <= |text[1..]| && |EncodeAll(text[1..][..k])| == at - n;
      assert |EncodeAll(text[..k + 1])| == at;
    }
    if Boundary(text, at) && at > 0 {
      var k :| 0 <= k <= |text| && |EncodeAll(text[..k])| == at;
      assert |EncodeAll(text[1..][..k - 1])| == at - n;
    }
  }

  /** Self-synchronisation: whatever the text, a byte of its encoding can be told to start a code
      point from that byte alone. */
  lemma {:induction false} SelfSynchronising(text: seq<bv32>, at: nat)
    requires at < |EncodeAll(text)|
    ensures Boundary(text, at) <==> !IsContinuation(EncodeAll(text)[at])
    decreases |text|
  {
    BoundaryOfRest(text, at);
    var n := |Encode(text[0])|;
    if text[0] < LIMIT {
      EncodingShape(text[0]);
    }
    if at >= n {
      SelfSynchronising(text[1..], at - n);
      assert EncodeAll(text[1..][..0]) == [];
      assert EncodeAll(text)[at] == EncodeAll(text[1..])[at - n];
    } else {
      assert EncodeAll(text)[at] == Encode(text[0])[at];
    }
  }

  // ----- utf_8_strndup -----

  /** `strnlen`: the index of the first NUL, or `max` if there is none before it. */
  function Strnlen(s: seq<Byte>, max: nat): (n: nat)
    requires 0 in s || |s| > max
    ensures n <= max && n <= |s|
  {
    if max == 0 || s[0] == 0 then 0 else 1 + Strnlen(s[1..], max - 1)
  }

  /** The last offset up to `at` that is 0 or holds no continuation byte. */
  function StepBack(s: seq<Byte>, at: nat): (n: nat)
    requires at < |s|
    ensures n <= at
  {
    if at == 0 || !IsContinuation(s[at]) then at else StepBack(s, at - 1)
  }

  function CutLength(s: seq<Byte>, max: nat): (n: nat)
    requires 0 in s || |s| > max
    ensures n <= max && n <= |s|
  {
    StrnlenBelow(s, max);
    if Strnlen(s, max) >= max then StepBack(s, max) else Strnlen(s, max)
  }

  lemma {:induction false} StrnlenBelow(s: seq<Byte>, max: nat)
    requires 0 in s || |s| > max
    ensures Strnlen(s, max) < |s|
    ensures forall i :: 0 <= i < Strnlen(s, max) ==> s[i] != 0
    ensures Strnlen(s, max) < max ==> s[Strnlen(s, max)] == 0
    decreases max
  {
    if max > 0 && s[0] != 0 {
      StrnlenBelow(s[1..], max - 1);
    }
  }

  lemma {:induction false} StrnlenIs(s: seq<Byte>, max: nat, n: nat)
    requires (0 in s || |s| > max) && n <= max && n <= |s| && forall i :: 0 <= i < n ==> s[i] != 0
    requires n == max || (n < |s| && s[n] == 0)
    ensures Strnlen(s, max) == n
  {
    if n > 0 {
      assert forall i :: 0 <= i < |s| - 1 ==> s[1..][i] == s[i + 1];
      StrnlenIs(s[1..], max - 1, n - 1);
    }
  }

  /** The loop of `strnlen`. */
  method Measure(s: seq<Byte>, max: nat) returns (length: nat)
    requires 0 in s || |s| > max
    ensures length == Strnlen(s, max)
  {
    length := 0;
    while length < max && s[length] != 0
      invariant 0 <= length <= max && length <= |s|
      invariant forall i :: 0 <= i < length ==> s[i] != 0
    {
      length := length + 1;
    }
    StrnlenIs(s, max, length);
  }

  /** `utf_8_strndup`: a null pointer for a null pointer; otherwise a new NUL-terminated array with
      the bytes before the cut. */
  method Utf8Strndup(source: Option<seq<Byte>>, max: nat) returns (result: array?<Byte>)
    requires source.Some? ==> 0 in source.value || |source.value| > max
    ensures source.None? <==> result == null
    ensures source.Some? ==>
              var n := CutLength(source.value, max);
              fresh(result) && result[..] == source.value[..n] + [0]
  {
    if source.None? { return null; }
    var s := source.value;
    var length := Measure(s, max);
    StrnlenBelow(s, max);
    if length >= max {
      length := max;
      while length > 0 && IsContinuation(s[length])
        invariant 0 <= length <= max
        invariant StepBack(s, max) == StepBack(s, length)
      {
        length := length - 1;
      }
    }
    result := new Byte[length + 1];
    forall i | 0 <= i < length { result[i] := s[i]; }
    result[length] := 0;
  }

  /** How many leading code points fit in `max` bytes. */
  function Fits(text: seq<bv32>, max: nat): (k: nat)
    ensures k <= |text|
  {
    if text == [] || |Encode(text[0])| > max then 0 else 1 + Fits(text[1..], max - |Encode(text[0])|)
  }

  lemma {:induction false} FitsIsLongest(text: seq<bv32>, max: nat, k: nat)
    requires k <= |text|
    ensures |EncodeAll(text[..k])| <= max <==> k <= Fits(text, max)
  {
    if k > 0 {
      assert text[..k][1..] == text[1..][..k - 1];
      if |Encode(text[0])| <= max {
        FitsIsLongest(text[1..], max - |Encode(text[0])|, k - 1);
      }
    }
  }

  predicate NoNul(text: seq<bv32>) { forall i :: 0 <= i < |text| ==> text[i] != 0 }

  lemma {:induction false} NoZeroByte(text: seq<bv32>)
    requires NoNul(text)
    ensures forall i :: 0 <= i < |EncodeAll(text)| ==> EncodeAll(text)[i] != 0
    ensures text != [] && EncodeAll(text) != [] ==> !IsContinuation(EncodeAll(text)[0])
  {
    if text != [] {
      if text[0] < LIMIT {
        EncodingShape(text[0]);
      }
      NoZeroByte(text[1..]);
    }
  }

  lemma {:induction false} StrnlenOfText(s: seq<Byte>, max: nat)
    requires forall i :: 0 <= i < |s| ==> s[i] != 0
    ensures Strnlen(s + [0], max) == if |s| < max then |s| else max
  {
    if s != [] && max > 0 {
      assert (s + [0])[1..] == s[1..] + [0];
      StrnlenOfText(s[1..], max - 1);
    }
  }

  /** Stepping back never crosses the start of a code point. */
  lemma {:induction false} StepBackBehind(front: seq<Byte>, s: seq<Byte>, at: nat)
    requires at < |s| && !IsContinuation(s[0])
    ensures StepBack(front + s, |front| + at) == |front| + StepBack(s, at)
  {
    assert (front + s)[|front| + at] == s[at];
    if at > 0 && IsContinuation(s[at]) {
      StepBackBehind(front, s, at - 1);
    }
  }

  lemma StepBackInParts(front: seq<Byte>, s: seq<Byte>, at: nat)
    requires at <= |s| && !IsContinuation((s + [0])[0])
    ensures StepBack(front + s + [0], |front| + at) == |front| + StepBack(s + [0], at)
  {
    assert front + s + [0] == front + (s + [0]);
    StepBackBehind(front, s + [0], at);
  }

  lemma {:induction false} StepBackToStart(s: seq<Byte>, at: nat)
    requires at < |s| && forall i :: 1 <= i <= at ==> IsContinuation(s[i])
    ensures StepBack(s, at) == 0
  {
    if at > 0 {
      StepBackToStart(s, at - 1);
    }
  }

  lemma CutInsideFirst(ch: bv32, rest: seq<Byte>, max: nat)
    requires max < |Encode(ch)|
    ensures StepBack(Encode(ch) + rest, max) == 0
  {
    EncodingShape(ch);
    StepBackToStart(Encode(ch) + rest, max);
  }

  lemma NoContinuationFirst(text: seq<bv32>)
    requires NoNul(text)
    ensures !IsContinuation((EncodeAll(text) + [0])[0])
  {
    NoZeroByte(text);
  }

  lemma PrefixOfRest(text: seq<bv32>, k: nat)
    requires 1 <= k <= |text|
    ensures EncodeAll(text[..k]) == Encode(text[0]) + EncodeAll(text[1..][..k - 1])
  {
    assert text[..k][1..] == text[1..][..k - 1];
  }

  lemma StepBackInFirst(text: seq<bv32>, max: nat)
    requires text != [] && max < |Encode(text[0])|
    ensures max < |EncodeAll(text) + [0]| && StepBack(EncodeAll(text) + [0], max) == 0
  {
    var rest := EncodeAll(text[1..]) + [0];
    assert EncodeAll(text) + [0] == Encode(text[0]) + rest;
    CutInsideFirst(text[0], rest, max);
  }

  lemma StepBackAfter(front: seq<Byte>, rest: seq<Byte>, whole: seq<Byte>, max: nat)
    requires whole == front + rest && |front| <= max <= |whole| && !IsContinuation((rest + [0])[0])
    ensures StepBack(whole + [0], max) == |front| + StepBack(rest + [0], max - |front|)
  {
    StepBackInParts(front, rest, max - |front|);
  }

  lemma {:induction false} StepBackOfText(text: seq<bv32>, max: nat)
    requires NoNul(text) && max <= |EncodeAll(text)|
    ensures StepBack(EncodeAll(text) + [0], max) == |EncodeAll(text[..Fits(text, max)])|
    decreases |text|
  {
    if text != [] {
      var n := |Encode(text[0])|;
      if n > max {
        StepBackInFirst(text, max);
      } else {
        NoContinuationFirst(text[1..]);
        StepBackAfter(Encode(text[0]), EncodeAll(text[1..]), EncodeAll(text), max);
        StepBackOfText(text[1..], max - n);
        PrefixOfRest(text, Fits(text, max));
      }
    }
  }

  lemma {:induction false} PrefixBytes(text: seq<bv32>, k: nat)
    requires k <= |text|
    ensures EncodeAll(text[..k]) <= EncodeAll(text)
  {
    if k > 0 {
      assert text[..k][1..] == text[1..][..k - 1];
      PrefixBytes(text[1..], k - 1);
    }
  }

  lemma CutOfText(text: seq<bv32>, max: nat, source: seq<Byte>)
    requires NoNul(text) && source == EncodeAll(text) + [0]
    ensures 0 in source && CutLength(source, max) == |EncodeAll(text[..Fits(text, max)])|
  {
    assert source[|EncodeAll(text)|] == 0;
    NoZeroByte(text);
    StrnlenOfText(EncodeAll(text), max);
    if max <= |EncodeAll(text)| {
      StepBackOfText(text, max);
    } else {
      assert text[..|text|] == text;
      FitsIsLongest(text, max, |text|);
    }
  }

  lemma Front(p: seq<Byte>, s: seq<Byte>)
    requires p <= s
    ensures (s + [0])[..|p|] == p
  {
  }

  /** `utf_8_strndup` on the concatenated encodings of a text without NUL keeps exactly the
      encoding of the longest prefix of the text that fits. */
  lemma CutIsLongestPrefix(text: seq<bv32>, max: nat)
    requires NoNul(text)
    ensures var source := EncodeAll(text) + [0];
            0 in source && source[..CutLength(source, max)] == EncodeAll(text[..Fits(text, max)])
  {
    CutOfText(text, max, EncodeAll(text) + [0]);
    PrefixBytes(text, Fits(text, max));
    Front(EncodeAll(text[..Fits(text, max)]), EncodeAll(text));
  }
}
