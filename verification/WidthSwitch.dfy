/** The character-width switch emitted by `gen_wcwidth` in gen-wcwidth.py: classes are added
    in priority order, each minus what earlier classes took, once with C case ranges and an
    ASCII fast path and once with the cases enumerated for Go. */
module WidthSwitch {
  import opened CodepointRanges

  datatype Class = Class(chars: set<int>, width: int)

  /** One `add` call's output: its case labels and the value they return. */
  datatype Block = Block(labels: seq<Label>, width: int)

  /** What class `k` still has when its turn comes. */
  ghost function Remaining(classes: seq<Class>, k: nat): iset<int>
    requires k < |classes|
  {
    iset x | x in classes[k].chars && forall j :: 0 <= j < k ==> x !in classes[j].chars
  }

  ghost predicate Emitted(classes: seq<Class>, blocks: seq<Block>) {
    && |blocks| == |classes|
    && (forall k :: 0 <= k < |classes| ==> blocks[k].width == classes[k].width)
    && (forall k :: 0 <= k < |classes| ==> MaximalRuns(blocks[k].labels, Remaining(classes, k)))
  }

  /** `seen` holds what the first `i` classes contain. */
  ghost predicate SeenUpTo(classes: seq<Class>, seen: set<int>, i: nat) {
    i <= |classes| && forall x :: x in seen <==> exists j :: 0 <= j < i && x in classes[j].chars
  }

  lemma NewOfClass(classes: seq<Class>, i: nat, seen: set<int>, items: seq<int>)
    requires i < |classes| && SeenUpTo(classes, seen, i)
    requires forall x :: x in items <==> x in classes[i].chars && x !in seen
    ensures Elements(items) == Remaining(classes, i)
    ensures SeenUpTo(classes, seen + (classes[i].chars - seen), i + 1)
  {
    forall x
      ensures x in Elements(items) <==> x in Remaining(classes, i)
    {
      assert x in Elements(items) <==> x in items;
    }
    forall x
      ensures x in seen + (classes[i].chars - seen) <==> exists j :: 0 <= j < i + 1 && x in classes[j].chars
    {
      if x in classes[i].chars { assert 0 <= i < i + 1; }
    }
  }

  ghost predicate EmittedUpTo(classes: seq<Class>, blocks: seq<Block>, i: nat) {
    && |blocks| == i <= |classes|
    && (forall k :: 0 <= k < i ==> blocks[k].width == classes[k].width)
    && (forall k :: 0 <= k < i ==> MaximalRuns(blocks[k].labels, Remaining(classes, k)))
  }

  lemma EmitOne(classes: seq<Class>, blocks: seq<Block>, i: nat, labels: seq<Label>)
    requires EmittedUpTo(classes, blocks, i) && i < |classes| && MaximalRuns(labels, Remaining(classes, i))
    ensures EmittedUpTo(classes, blocks + [Block(labels, classes[i].width)], i + 1)
  {
    var r := blocks + [Block(labels, classes[i].width)];
    forall k | 0 <= k < i + 1
      ensures r[k].width == classes[k].width && MaximalRuns(r[k].labels, Remaining(classes, k))
    {
      if k < i { assert r[k] == blocks[k]; }
    }
  }

  /** One `add` call. */
  method AddClass(classes: seq<Class>, i: nat, seen: set<int>) returns (labels: seq<Label>, seen': set<int>)
    requires i < |classes| && SeenUpTo(classes, seen, i)
    ensures MaximalRuns(labels, Remaining(classes, i)) && SeenUpTo(classes, seen', i + 1)
  {
    var chars := classes[i].chars - seen;
    var items := ListOf(chars);
    NewOfClass(classes, i, seen, items);
    GetRangesMaximal(items);
    labels, seen' := GetRanges(items), seen + chars;
  }

  /** `add_all`: `seen` grows by each class so that no codepoint gets two case labels. */
  method AddAll(classes: seq<Class>) returns (blocks: seq<Block>)
    ensures Emitted(classes, blocks)
  {
    blocks := [];
    var seen: set<int> := {};
    for i := 0 to |classes|
      invariant EmittedUpTo(classes, blocks, i) && SeenUpTo(classes, seen, i)
    {
      var labels;
      labels, seen := AddClass(classes, i, seen);
      EmitOne(classes, blocks, i, labels);
      blocks := blocks + [Block(labels, classes[i].width)];
    }
  }

  /** The width of the first class, in priority order, that contains `c`; 1 if none does. */
  function PriorityWidth(classes: seq<Class>, c: int): int {
    if classes == [] then 1
    else if c in classes[0].chars then classes[0].width
    else PriorityWidth(classes[1..], c)
  }

  /** The C switch statement on case ranges. */
  function CaseRangeSwitch(blocks: seq<Block>, c: int): int {
    if blocks == [] then 1
    else if FindLabel(blocks[0].labels, c) >= 0 then blocks[0].width
    else CaseRangeSwitch(blocks[1..], c)
  }

  /** `wcwidth_std`: printable ASCII returns 1 before the switch. */
  function CWidth(blocks: seq<Block>, c: int): int {
    if 0x20 <= c <= 0x7e then 1 else CaseRangeSwitch(blocks, c)
  }

  /** `range(first, last + 1)`. */
  function Codepoints(first: int, last: int): seq<int> {
    if last < first then [] else seq(last - first + 1, i => first + i)
  }

  /** `write_case` for Go lists the codepoints of a span one by one. */
  function Enumerate(labels: seq<Label>): seq<int> {
    if labels == [] then [] else Codepoints(labels[0].Lo(), labels[0].Hi()) + Enumerate(labels[1..])
  }

  /** `Runewidth`. */
  function GoWidth(blocks: seq<Block>, c: int): int {
    if blocks == [] then 1
    else if c in Enumerate(blocks[0].labels) then blocks[0].width
    else GoWidth(blocks[1..], c)
  }

  /** No two case labels of the whole switch share a codepoint, as both compilers demand. */
  lemma CaseLabelsDisjoint(classes: seq<Class>, blocks: seq<Block>, a: nat, i: nat, b: nat, j: nat, c: int)
    requires Emitted(classes, blocks)
    requires a < |blocks| && i < |blocks[a].labels| && b < |blocks| && j < |blocks[b].labels|
    requires blocks[a].labels[i].Covers(c) && blocks[b].labels[j].Covers(c)
    ensures a == b && i == j
  {
    assert c in Remaining(classes, a) && c in Remaining(classes, b);
    assert blocks[a].labels[i].Canonical() && blocks[b].labels[j].Canonical();
  }

  lemma FindLabelIffMember(labels: seq<Label>, s: iset<int>, c: int)
    requires MaximalRuns(labels, s)
    ensures FindLabel(labels, c) >= 0 <==> c in s
  {
  }

  lemma {:induction false} SwitchFrom(classes: seq<Class>, blocks: seq<Block>, c: int, k: nat)
    requires Emitted(classes, blocks) && k <= |blocks|
    requires forall j :: 0 <= j < k ==> c !in classes[j].chars
    ensures CaseRangeSwitch(blocks[k..], c) == PriorityWidth(classes[k..], c)
    decreases |blocks| - k
  {
    if k < |blocks| {
      FindLabelIffMember(blocks[k].labels, Remaining(classes, k), c);
      if c !in classes[k].chars {
        SwitchFrom(classes, blocks, c, k + 1);
        assert blocks[k..][1..] == blocks[k + 1..] && classes[k..][1..] == classes[k + 1..];
      }
    }
  }

  /** The emitted switch gives every codepoint the width of its first class. */
  lemma SwitchIsPriorityWidth(classes: seq<Class>, blocks: seq<Block>, c: int)
    requires Emitted(classes, blocks)
    ensures CaseRangeSwitch(blocks, c) == PriorityWidth(classes, c)
  {
    SwitchFrom(classes, blocks, c, 0);
    assert blocks[0..] == blocks && classes[0..] == classes;
  }

  lemma CodepointsCovered(first: int, last: int, c: int)
    ensures c in Codepoints(first, last) <==> first <= c <= last
  {
    if first <= c <= last { assert Codepoints(first, last)[c - first] == c; }
  }

  lemma {:induction false} EnumerateCovers(labels: seq<Label>, c: int)
    ensures c in Enumerate(labels) <==> FindLabel(labels, c) >= 0
  {
    if labels != [] {
      EnumerateCovers(labels[1..], c);
      CodepointsCovered(labels[0].Lo(), labels[0].Hi(), c);
    }
  }

  /** Enumerating the cases for Go changes nothing. */
  lemma {:induction false} GoSwitchSame(blocks: seq<Block>, c: int)
    ensures GoWidth(blocks, c) == CaseRangeSwitch(blocks, c)
  {
    if blocks != [] {
      EnumerateCovers(blocks[0].labels, c);
      GoSwitchSame(blocks[1..], c);
    }
  }

  lemma BothForms(classes: seq<Class>, blocks: seq<Block>, c: int)
    requires Emitted(classes, blocks)
    ensures GoWidth(blocks, c) == PriorityWidth(classes, c)
    ensures CWidth(blocks, c) == if 0x20 <= c <= 0x7e then 1 else PriorityWidth(classes, c)
  {
    GoSwitchSame(blocks, c);
    SwitchIsPriorityWidth(classes, blocks, c);
  }

  ghost predicate FormsAgree(blocks: seq<Block>) { forall c :: CWidth(blocks, c) == GoWidth(blocks, c) }

  ghost predicate PrintableAsciiIsNarrow(classes: seq<Class>) {
    forall c :: 0x20 <= c <= 0x7e ==> PriorityWidth(classes, c) == 1
  }

  /** The C function, with its ASCII fast path, agrees with the Go function on every
      codepoint if and only if the classes give every printable ASCII codepoint width 1. */
  lemma CAndGoAgreeIffAsciiIsNarrow(classes: seq<Class>, blocks: seq<Block>)
    requires Emitted(classes, blocks)
    ensures FormsAgree(blocks) <==> PrintableAsciiIsNarrow(classes)
  {
    if FormsAgree(blocks) {
      forall c | 0x20 <= c <= 0x7e
        ensures PriorityWidth(classes, c) == 1
      {
        BothForms(classes, blocks, c);
        assert CWidth(blocks, c) == GoWidth(blocks, c);
      }
    }
    if PrintableAsciiIsNarrow(classes) {
      forall c
        ensures CWidth(blocks, c) == GoWidth(blocks, c)
      {
        BothForms(classes, blocks, c);
      }
    }
  }
}
