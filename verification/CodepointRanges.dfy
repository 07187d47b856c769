/** Grouping a list of codepoints into `case` labels: `get_ranges` of gen-wcwidth.py.
    A label is a single codepoint or a span; the switch statements of the generated
    headers are built from these labels. */
module CodepointRanges {

  /** What the generator yields: `a` or the tuple `(a, b)`. */
  datatype Label = Single(c: int) | Span(first: int, last: int) {
    function Lo(): int { if Single? then c else first }
    function Hi(): int { if Single? then c else last }
    predicate Covers(x: int) { Lo() <= x <= Hi() }
    predicate Canonical() { Single? || first < last }
  }

  ghost predicate Ascending(s: seq<int>) {
    forall i, j :: 0 <= i < j < |s| ==> s[i] < s[j]
  }

  ghost predicate Distinct(s: seq<int>) {
    forall i, j :: 0 <= i < j < |s| ==> s[i] != s[j]
  }

  function Insert(x: int, s: seq<int>): seq<int> {
    if s == [] || x <= s[0] then [x] + s else [s[0]] + Insert(x, s[1..])
  }

  /** `items.sort()`. */
  function Sort(items: seq<int>): seq<int> {
    if items == [] then [] else Insert(items[0], Sort(items[1..]))
  }

  lemma {:induction false} InsertMembers(x: int, s: seq<int>)
    ensures forall y :: y in Insert(x, s) <==> y == x || y in s
    ensures |Insert(x, s)| == |s| + 1
  {
    if s == [] || x <= s[0] {
    } else {
      InsertMembers(x, s[1..]);
      assert s == [s[0]] + s[1..];
    }
  }

  lemma {:induction false} InsertAscending(x: int, s: seq<int>)
    requires Ascending(s) && x !in s
    ensures Ascending(Insert(x, s))
  {
    if s == [] || x <= s[0] {
    } else {
      InsertAscending(x, s[1..]);
      InsertMembers(x, s[1..]);
      var t := Insert(x, s[1..]);
      assert forall k :: 0 <= k < |t| ==> t[k] in t;
    }
  }

  lemma {:induction false} SortMembers(items: seq<int>)
    ensures forall y :: y in Sort(items) <==> y in items
    ensures forall k :: 0 <= k < |Sort(items)| ==> Sort(items)[k] in items
    ensures |Sort(items)| == |items|
  {
    if items != [] {
      SortMembers(items[1..]);
      assert items == [items[0]] + items[1..];
      InsertMembers(items[0], Sort(items[1..]));
    }
    assert forall k :: 0 <= k < |Sort(items)| ==> Sort(items)[k] in Sort(items);
  }

  lemma {:induction false} SortAscending(items: seq<int>)
    requires Distinct(items)
    ensures Ascending(Sort(items))
  {
    if items != [] {
      SortAscending(items[1..]);
      SortMembers(items[1..]);
      InsertAscending(items[0], Sort(items[1..]));
    }
  }

  /** One past the last index of the `groupby` group that starts at `i`; the group key of
      an index is the index minus the item. */
  function GroupEnd(items: seq<int>, i: nat): (j: nat)
    requires i < |items|
    ensures i < j <= |items|
    ensures forall k :: i <= k < j ==> items[k] == items[i] + (k - i)
    ensures j < |items| ==> items[j] != items[i] + (j - i)
    decreases |items| - i
  {
    if i + 1 < |items| && (i + 1) - items[i + 1] == i - items[i] then GroupEnd(items, i + 1) else i + 1
  }

  function LabelOf(a: int, b: int): Label {
    if a == b then Single(a) else Span(a, b)
  }

  function LabelsFrom(items: seq<int>, i: nat): seq<Label>
    requires i <= |items|
    decreases |items| - i
  {
    if i == |items| then []
    else
      var j := GroupEnd(items, i);
      [LabelOf(items[i], items[j - 1])] + LabelsFrom(items, j)
  }

  function GetRanges(items: seq<int>): seq<Label> {
    LabelsFrom(Sort(items), 0)
  }

  lemma {:induction false} LabelsStartAtItems(items: seq<int>, i: nat)
    requires i <= |items|
    ensures forall k :: 0 <= k < |LabelsFrom(items, i)| ==> LabelsFrom(items, i)[k].Lo() in items
    decreases |items| - i
  {
    if i < |items| { LabelsStartAtItems(items, GroupEnd(items, i)); }
  }

  /** The labels are the maximal runs of `s`, in ascending order: each is non-empty and in
      its shortest form, consecutive labels leave a gap, and together they cover `s` exactly. */
  ghost predicate MaximalRuns(labels: seq<Label>, s: iset<int>) {
    && (forall i :: 0 <= i < |labels| ==> labels[i].Canonical())
    && (forall i, j :: 0 <= i < j < |labels| ==> labels[i].Hi() + 1 < labels[j].Lo())
    && (forall x :: x in s <==> exists i :: 0 <= i < |labels| && labels[i].Covers(x))
  }

  ghost function Elements(items: seq<int>): iset<int> { iset x | x in items }

  /** Putting a run that ends before the gap in front of maximal runs. */
  lemma ConsMaximal(head: Label, rest: seq<Label>, s: iset<int>, all: iset<int>)
    requires MaximalRuns(rest, s) && head.Canonical()
    requires rest != [] ==> head.Hi() + 1 < rest[0].Lo()
    requires forall x :: x in all <==> head.Covers(x) || x in s
    ensures MaximalRuns([head] + rest, all)
  {
    var labels := [head] + rest;
    forall x
      ensures x in all <==> exists k :: 0 <= k < |labels| && labels[k].Covers(x)
    {
      if head.Covers(x) { assert labels[0].Covers(x); }
      if x in s {
        var k :| 0 <= k < |rest| && rest[k].Covers(x);
        assert labels[k + 1].Covers(x);
      }
    }
    forall i, j | 0 <= i < j < |labels|
      ensures labels[i].Hi() + 1 < labels[j].Lo()
    {
      assert rest[0].Canonical();
      assert labels[j] == rest[j - 1];
    }
  }

  /** The label of a group covers exactly the group. */
  lemma GroupCovers(items: seq<int>, i: nat)
    requires Ascending(items) && i < |items|
    ensures var j := GroupEnd(items, i);
      forall x :: x in Elements(items[i..]) <==>
        LabelOf(items[i], items[j - 1]).Covers(x) || x in Elements(items[j..])
  {
    var j := GroupEnd(items, i);
    var head := LabelOf(items[i], items[j - 1]);
    assert items[i..] == items[i..j] + items[j..];
    forall x
      ensures x in Elements(items[i..]) <==> head.Covers(x) || x in Elements(items[j..])
    {
      if head.Covers(x) { assert items[i..j][x - items[i]] == x; }
    }
  }

  lemma {:induction false} LabelsFromAreMaximalRuns(items: seq<int>, i: nat)
    requires Ascending(items) && i <= |items|
    ensures MaximalRuns(LabelsFrom(items, i), Elements(items[i..]))
    ensures i < |items| ==> LabelsFrom(items, i) != [] && LabelsFrom(items, i)[0].Lo() == items[i]
    ensures i == |items| ==> LabelsFrom(items, i) == []
    decreases |items| - i
  {
    if i < |items| {
      var j := GroupEnd(items, i);
      LabelsFromAreMaximalRuns(items, j);
      var head := LabelOf(items[i], items[j - 1]);
      GroupCovers(items, i);
      ConsMaximal(head, LabelsFrom(items, j), Elements(items[j..]), Elements(items[i..]));
    }
  }

  /** `get_ranges` yields the maximal runs of the items it is given. */
  lemma GetRangesMaximal(items: seq<int>)
    requires Distinct(items)
    ensures MaximalRuns(GetRanges(items), Elements(items))
  {
    SortAscending(items);
    SortMembers(items);
    LabelsFromAreMaximalRuns(Sort(items), 0);
    assert Sort(items)[0..] == Sort(items);
    assert Elements(Sort(items)) == Elements(items);
  }

  /** A maximal-run decomposition starts at the least element and ends its first run at the
      first gap, so the first labels of two decompositions of one set agree. */
  lemma FirstLabelUnique(a: seq<Label>, b: seq<Label>, s: iset<int>)
    requires MaximalRuns(a, s) && MaximalRuns(b, s)
    ensures a == [] <==> b == []
    ensures a != [] ==> a[0] == b[0]
  {
    if a != [] { assert a[0].Covers(a[0].Lo()) && a[0].Lo() in s; }
    if b != [] { assert b[0].Covers(b[0].Lo()) && b[0].Lo() in s; }
    if a != [] && b != [] {
      FirstLabelBound(a, b, s);
      FirstLabelBound(b, a, s);
    }
  }

  lemma FirstGap(b: seq<Label>, s: iset<int>)
    requires MaximalRuns(b, s) && b != []
    ensures b[0].Hi() + 1 !in s
    ensures forall x :: x in s ==> b[0].Lo() <= x
  {
    forall k | 0 <= k < |b|
      ensures !b[k].Covers(b[0].Hi() + 1) && b[0].Lo() <= b[k].Lo()
    {
    }
  }

  lemma FirstRun(a: seq<Label>, s: iset<int>)
    requires MaximalRuns(a, s) && a != []
    ensures forall x :: a[0].Lo() <= x <= a[0].Hi() ==> x in s
    ensures a[0].Lo() <= a[0].Hi()
  {
    assert a[0].Canonical();
    forall x | a[0].Lo() <= x <= a[0].Hi()
      ensures x in s
    {
      assert a[0].Covers(x);
    }
  }

  lemma FirstLabelBound(a: seq<Label>, b: seq<Label>, s: iset<int>)
    requires MaximalRuns(a, s) && MaximalRuns(b, s) && a != [] && b != []
    ensures b[0].Lo() <= a[0].Lo()
    ensures a[0].Lo() == b[0].Lo() ==> a[0].Hi() <= b[0].Hi()
  {
    FirstRun(a, s);
    FirstRun(b, s);
    FirstGap(b, s);
    assert a[0].Lo() in s;
    assert b[0].Hi() + 1 !in s;
  }

  lemma TailMaximal(a: seq<Label>, s: iset<int>)
    requires MaximalRuns(a, s) && a != []
    ensures MaximalRuns(a[1..], iset x | x in s && !a[0].Covers(x))
  {
    forall x
      ensures x in s && !a[0].Covers(x) <==> exists i :: 0 <= i < |a[1..]| && a[1..][i].Covers(x)
    {
      if x in s && !a[0].Covers(x) {
        var i :| 0 <= i < |a| && a[i].Covers(x);
        assert a[1..][i - 1].Covers(x);
      }
      if i :| 0 <= i < |a[1..]| && a[1..][i].Covers(x) {
        assert a[i + 1].Covers(x);
      }
    }
  }

  /** The maximal-run decomposition of a set is unique, so the order in which the
      generator meets the codepoints of a set cannot show in its output. */
  lemma {:induction false} MaximalRunsUnique(a: seq<Label>, b: seq<Label>, s: iset<int>)
    requires MaximalRuns(a, s) && MaximalRuns(b, s)
    ensures a == b
  {
    FirstLabelUnique(a, b, s);
    if a != [] {
      TailMaximal(a, s);
      TailMaximal(b, s);
      MaximalRunsUnique(a[1..], b[1..], iset x | x in s && !a[0].Covers(x));
      assert a == [a[0]] + a[1..] && b == [b[0]] + b[1..];
    }
  }

  /** Index of the label whose case a `switch` on `c` takes, if any. */
  function FindLabel(labels: seq<Label>, c: int): (r: int)
    ensures -1 <= r < |labels|
    ensures r >= 0 ==> labels[r].Covers(c)
    ensures r < 0 ==> forall i :: 0 <= i < |labels| ==> !labels[i].Covers(c)
  {
    if labels == [] then -1
    else if labels[0].Covers(c) then 0
    else var r := FindLabel(labels[1..], c); if r < 0 then -1 else r + 1
  }

  /** `list(s)`: the elements of a set, each once, in no particular order. */
  method ListOf(s: set<int>) returns (items: seq<int>)
    ensures Distinct(items) && |items| == |s|
    ensures forall x :: x in items <==> x in s
  {
    items := [];
    var rest := s;
    while rest != {}
      invariant rest <= s && |items| + |rest| == |s|
      invariant Distinct(items)
      invariant forall x :: x in s <==> x in rest || x in items
      invariant forall x :: x in items ==> x !in rest
      decreases |rest|
    {
      NonEmpty(rest);
      var x :| x in rest;
      items, rest := items + [x], rest - {x};
    }
  }

  lemma NonEmpty(s: set<int>)
    ensures s != {} ==> exists x :: x in s
  {
    if forall x :: x !in s { assert s == {}; }
  }
}
