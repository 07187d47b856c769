/** The tables that number codepoints, generated by `codepoint_to_mark_map`, `gen_ucd` and
    `gen_names` of gen-wcwidth.py: an array from marks to codepoints, and a switch over
    codepoint ranges that computes the mark back. */
module MarkTables {
  import opened CodepointRanges
  import opened Options

  /** `{c: m for m, c in enumerate(mark_map)}[c]`: the last index wins. */
  function ReverseIndex(markMap: seq<int>, c: int): (m: nat)
    requires c in markMap
    ensures m < |markMap| && markMap[m] == c
  {
    if markMap[|markMap| - 1] == c then |markMap| - 1 else ReverseIndex(markMap[..|markMap| - 1], c)
  }

  /** The emitted switch: `case a: … case b: return rmap[a] + c - a;`, default 0. */
  function SwitchMark(markMap: seq<int>, c: int): int {
    var labels := GetRanges(markMap);
    var k := FindLabel(labels, c);
    if k < 0 then 0
    else
      LabelsStartAtItems(Sort(markMap), 0);
      SortMembers(markMap);
      ReverseIndex(markMap, labels[k].Lo()) + c - labels[k].Lo()
  }

  lemma LabelStartsInside(labels: seq<Label>, k: nat, s: iset<int>)
    requires MaximalRuns(labels, s) && k < |labels|
    ensures forall x :: labels[k].Lo() <= x <= labels[k].Hi() ==> x in s
    ensures labels[k].Lo() <= labels[k].Hi() && labels[k].Lo() in s
  {
    assert labels[k].Canonical();
    assert labels[k].Covers(labels[k].Lo());
    forall x | labels[k].Lo() <= x <= labels[k].Hi()
      ensures x in s
    {
      assert labels[k].Covers(x);
    }
  }

  /** In an ascending list a run of consecutive integers sits at consecutive indices. */
  lemma {:induction false} RunAtConsecutiveIndices(s: seq<int>, i: nat, d: nat)
    requires Ascending(s) && i < |s|
    requires forall x :: s[i] <= x <= s[i] + d ==> x in s
    ensures i + d < |s| && s[i + d] == s[i] + d
  {
    if d > 0 {
      RunAtConsecutiveIndices(s, i, d - 1);
      assert s[i] + d in s;
      var j :| 0 <= j < |s| && s[j] == s[i] + d;
      assert j > i + d - 1;
      assert s[i + d - 1] < s[i + d] <= s[j];
    }
  }

  /** On an ascending table the switch is the inverse of indexing, and 0 off the table. */
  lemma SwitchInvertsTable(markMap: seq<int>)
    requires Ascending(markMap)
    ensures forall m :: 0 <= m < |markMap| ==> SwitchMark(markMap, markMap[m]) == m
    ensures forall c :: c !in markMap ==> SwitchMark(markMap, c) == 0
  {
    var labels := GetRanges(markMap);
    GetRangesMaximal(markMap);
    forall m | 0 <= m < |markMap|
      ensures SwitchMark(markMap, markMap[m]) == m
    {
      var c := markMap[m];
      assert c in Elements(markMap);
      var k := FindLabel(labels, c);
      LabelStartsInside(labels, k, Elements(markMap));
      assert labels[k].Lo() in Elements(markMap);
      var i := ReverseIndex(markMap, labels[k].Lo());
      forall x | markMap[i] <= x <= c
        ensures x in markMap
      {
        assert x in Elements(markMap);
      }
      RunAtConsecutiveIndices(markMap, i, c - markMap[i]);
    }
    forall c | c !in markMap
      ensures SwitchMark(markMap, c) == 0
    {
      assert c !in Elements(markMap);
    }
  }

  // ----- combining marks (gen_ucd) -----

  const COMBINING_TYPE_SIZE := 0x1_0000  // combining_type is a 16-bit unsigned integer

  /** The marks as a list without repetitions, in any order; 0 is not a mark. */
  ghost predicate MarkSet(marks: seq<int>) {
    Distinct(marks) && forall k :: 0 <= k < |marks| ==> 0 < marks[k]
  }

  /** `[0] + list(sorted(marks))`. */
  function MarkMap(marks: seq<int>): seq<int> {
    [0] + Sort(marks)
  }

  /** `codepoint_for_mark`. */
  function CodepointForMark(marks: seq<int>, m: nat): int {
    var markMap := MarkMap(marks);
    if m < |markMap| then markMap[m] else 0
  }

  /** `mark_for_codepoint`, whose result is truncated to `combining_type`. */
  function MarkForCodepoint(marks: seq<int>, c: int): int {
    SwitchMark(MarkMap(marks), c) % COMBINING_TYPE_SIZE
  }

  lemma MarkMapAscending(marks: seq<int>)
    requires MarkSet(marks)
    ensures Ascending(MarkMap(marks)) && |MarkMap(marks)| == |marks| + 1
    ensures forall c :: c in MarkMap(marks) <==> c == 0 || c in marks
    ensures 0 !in marks
  {
    SortAscending(marks);
    SortMembers(marks);
    var s := Sort(marks);
    forall k | 0 <= k < |s| ensures s[k] > 0 { assert s[k] in s && s[k] in marks; }
  }

  lemma MarkAt(marks: seq<int>, m: nat)
    requires MarkSet(marks) && m <= |marks|
    ensures MarkForCodepoint(marks, CodepointForMark(marks, m)) == m % COMBINING_TYPE_SIZE
    ensures if m > 0 then CodepointForMark(marks, m) in marks else CodepointForMark(marks, m) == 0
  {
    MarkMapAscending(marks);
    SwitchInvertsTable(MarkMap(marks));
    assert MarkMap(marks)[m] in MarkMap(marks);
    assert MarkMap(marks)[0] == 0;
  }

  lemma MarkOfMember(marks: seq<int>, c: int) returns (m: nat)
    requires MarkSet(marks) && c in marks
    ensures 1 <= m <= |marks| && CodepointForMark(marks, m) == c
  {
    MarkMapAscending(marks);
    assert c in MarkMap(marks);
    m :| 0 <= m < |MarkMap(marks)| && MarkMap(marks)[m] == c;
  }

  lemma OtherCodepoint(marks: seq<int>, c: int)
    requires MarkSet(marks) && c !in marks
    ensures MarkForCodepoint(marks, c) == 0
  {
    if c == 0 {
      MarkAt(marks, 0);
    } else {
      MarkMapAscending(marks);
      SwitchInvertsTable(MarkMap(marks));
    }
  }

  /** A mark table of non-zero codepoints that fits the mark type gives mutually inverse
      functions on marks; everything else goes to 0 both ways. */
  lemma MarksRoundTrip(marks: seq<int>, c: int, m: nat)
    requires MarkSet(marks) && |marks| < COMBINING_TYPE_SIZE
    ensures c in marks ==>
      && 1 <= MarkForCodepoint(marks, c) <= |marks|
      && CodepointForMark(marks, MarkForCodepoint(marks, c)) == c
    ensures c !in marks ==> MarkForCodepoint(marks, c) == 0
    ensures 1 <= m <= |marks| ==>
      && CodepointForMark(marks, m) in marks
      && MarkForCodepoint(marks, CodepointForMark(marks, m)) == m
    ensures m > |marks| ==> CodepointForMark(marks, m) == 0
  {
    if c in marks {
      MemberRoundTrip(marks, c);
    } else {
      OtherCodepoint(marks, c);
    }
    if m <= |marks| {
      MarkAt(marks, m);
    } else {
      MarkMapAscending(marks);
    }
  }

  lemma MemberRoundTrip(marks: seq<int>, c: int)
    requires MarkSet(marks) && |marks| < COMBINING_TYPE_SIZE && c in marks
    ensures 1 <= MarkForCodepoint(marks, c) <= |marks|
    ensures CodepointForMark(marks, MarkForCodepoint(marks, c)) == c
  {
    var k := MarkOfMember(marks, c);
    MarkAt(marks, k);
  }

  /** The size bound is exact: the round trip holds of every mark if and only if the marks
      are fewer than the values of `combining_type`. With one mark more, the last one is
      truncated to the number that means "no mark". */
  lemma MarksRoundTripIffTheyFit(marks: seq<int>)
    requires MarkSet(marks)
    ensures |marks| < COMBINING_TYPE_SIZE <==>
      forall c :: c in marks ==> CodepointForMark(marks, MarkForCodepoint(marks, c)) == c
  {
    if |marks| < COMBINING_TYPE_SIZE {
      forall c | c in marks
        ensures CodepointForMark(marks, MarkForCodepoint(marks, c)) == c
      {
        MarksRoundTrip(marks, c, 0);
      }
    } else {
      MarkAt(marks, COMBINING_TYPE_SIZE);
      MarkAt(marks, 0);
      MarkMapAscending(marks);
    }
  }

  // ----- codepoint names (gen_names) -----

  /** `name_for_codepoint` over `markToCp`, which is `sorted(name_map)`: this table has no
      leading 0, and mark 0 means "no name". */
  function NameForCodepoint(markToCp: seq<int>, nameMap: seq<string>, c: int): Option<string>
    requires |nameMap| == |markToCp|
  {
    var m := SwitchMark(markToCp, c);
    if m == 0 then None else if 0 <= m < |nameMap| then Some(nameMap[m]) else None
  }

  /** The generated lookup returns the recorded name exactly for the named codepoints other
      than the smallest one, whose mark is the 0 that also stands for "not named". */
  lemma NameFoundIffNotLeast(markToCp: seq<int>, nameMap: seq<string>, c: int)
    requires Ascending(markToCp) && |nameMap| == |markToCp|
    ensures NameForCodepoint(markToCp, nameMap, c).Some? <==> c in markToCp && markToCp[0] < c
    ensures forall k :: 1 <= k < |markToCp| && markToCp[k] == c ==>
      NameForCodepoint(markToCp, nameMap, c) == Some(nameMap[k])
  {
    SwitchInvertsTable(markToCp);
    if c in markToCp {
      var m :| 0 <= m < |markToCp| && markToCp[m] == c;
      assert SwitchMark(markToCp, markToCp[m]) == m;
    }
  }
}
