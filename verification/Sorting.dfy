/** `qsort`, of which nothing is used but that it leaves some sorted permutation. */
module Sorting {

  type Comparison<!T> = (T, T) -> int

  ghost predicate Total<T(!new)>(compare: Comparison<T>) {
    forall a, b :: compare(a, b) <= 0 || compare(b, a) <= 0
  }

  ghost predicate Transitive<T(!new)>(compare: Comparison<T>) {
    forall a, b, c :: compare(a, b) <= 0 && compare(b, c) <= 0 ==> compare(a, c) <= 0
  }

  ghost predicate SortedBy<T>(s: seq<T>, compare: Comparison<T>) {
    forall i, j :: 0 <= i < j < |s| ==> compare(s[i], s[j]) <= 0
  }

  lemma BelowInserted<T(!new)>(s: seq<T>, t: T, i: nat, j: nat, compare: Comparison<T>)
    requires Transitive(compare) && SortedBy(s, compare) && j < i <= |s| && compare(s[i - 1], t) <= 0
    ensures compare(s[j], t) <= 0
  {
    if j < i - 1 {
      assert compare(s[j], s[i - 1]) <= 0;
    }
  }

  lemma InsertedIsSorted<T>(s: seq<T>, t: T, i: nat, compare: Comparison<T>)
    requires SortedBy(s, compare) && i <= |s|
    requires forall j :: 0 <= j < i ==> compare(s[j], t) <= 0
    requires forall j :: i <= j < |s| ==> compare(t, s[j]) <= 0
    ensures SortedBy(s[..i] + [t] + s[i..], compare)
  {
    var r := s[..i] + [t] + s[i..];
    forall a, b | 0 <= a < b < |r| ensures compare(r[a], r[b]) <= 0 {
      var x, y := if a > i then a - 1 else a, if b > i then b - 1 else b;
      assert a != i ==> r[a] == s[x];
      assert b != i ==> r[b] == s[y];
    }
  }

  method InsertSorted<T(!new)>(s: seq<T>, t: T, compare: Comparison<T>) returns (r: seq<T>)
    requires Total(compare) && Transitive(compare) && SortedBy(s, compare)
    ensures SortedBy(r, compare) && multiset(r) == multiset(s) + multiset{t}
  {
    var i := |s|;
    while i > 0 && compare(s[i - 1], t) > 0
      invariant 0 <= i <= |s|
      invariant forall j :: i <= j < |s| ==> compare(t, s[j]) <= 0
    {
      i := i - 1;
    }
    forall j | 0 <= j < i ensures compare(s[j], t) <= 0 {
      BelowInserted(s, t, i, j, compare);
    }
    InsertedIsSorted(s, t, i, compare);
    InsertedElements(s, t, i);
    r := s[..i] + [t] + s[i..];
  }

  lemma InsertedElements<T>(s: seq<T>, t: T, i: nat)
    requires i <= |s|
    ensures multiset(s[..i] + [t] + s[i..]) == multiset(s) + multiset{t}
  {
    assert s == s[..i] + s[i..];
  }

  method QSort<T(!new)>(s: seq<T>, compare: Comparison<T>) returns (r: seq<T>)
    requires Total(compare) && Transitive(compare)
    ensures SortedBy(r, compare) && multiset(r) == multiset(s)
  {
    r := [];
    for i := 0 to |s|
      invariant SortedBy(r, compare) && multiset(r) == multiset(s[..i])
    {
      r := InsertSorted(r, s[i], compare);
      assert s[..i + 1] == s[..i] + [s[i]];
    }
    assert s[..|s|] == s;
  }
}
