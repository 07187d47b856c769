/** The reader of the word index, welly/unicode_input/unicode_names.c, over the tables that
    NameTrie builds: a query returns the codepoints recorded at or below the node it spells. */
module NameReader {
  import opened NameTrie

  /** The four generated arrays the reader uses. */
  datatype Tables = Tables(nodes: seq<Node>, children: seq<int>, groups: seq<int>, markToCp: seq<int>)

  ghost predicate GroupInRange(t: Tables, offset: int) {
    && 0 < offset < |t.groups| && 0 <= t.groups[offset] && offset + t.groups[offset] < |t.groups|
    && forall k :: offset < k <= offset + t.groups[offset] ==> 0 <= t.groups[k] < |t.markToCp|
  }

  /** `c` is the codepoint of one of the marks in the group at `offset`. */
  ghost predicate InGroup(t: Tables, offset: int, c: int) {
    && GroupInRange(t, offset)
    && exists k :: offset < k <= offset + t.groups[offset] && t.markToCp[t.groups[k]] == c
  }

  /** Every match offset starts a group that lies inside the array and holds valid marks. */
  ghost predicate GroupsInRange(t: Tables) {
    forall i :: 0 <= i < |t.nodes| && t.nodes[i].matchOffset != 0 ==> GroupInRange(t, t.nodes[i].matchOffset)
  }

  ghost predicate Readable(t: Tables, paths: seq<Word>) {
    && IsTrie(t.nodes, paths) && ByteLetters(t.nodes) && |t.nodes| <= MAX_NODES
    && Packed(t.nodes, t.children) && GroupsInRange(t)
  }

  /** What the reader relies on at one node: its packed children can be unpacked. */
  ghost predicate NodeReadable(t: Tables, i: int) {
    && 0 <= i < |t.nodes| <= MAX_NODES && NodePacked(t.nodes[i], t.children)
    && |t.children| > 0 && t.children[0] == 0
    && forall k :: 0 <= k < |t.nodes[i].children| ==>
      0 <= t.nodes[i].children[k].letter < 256 && i < t.nodes[i].children[k].target < |t.nodes|
  }

  lemma ReadNode(t: Tables, paths: seq<Word>, i: int)
    requires Readable(t, paths) && 0 <= i < |t.nodes|
    ensures NodeReadable(t, i)
  {
    forall k | 0 <= k < |t.nodes[i].children|
      ensures i < t.nodes[i].children[k].target < |t.nodes|
    {
      EdgeSpells(t.nodes, paths, i, k);
    }
  }

  lemma EdgeSpells(nodes: seq<Node>, paths: seq<Word>, i: int, k: int)
    requires |nodes| == |paths| && EdgesSound(nodes, paths)
    requires 0 <= i < |nodes| && 0 <= k < |nodes[i].children|
    ensures i < nodes[i].children[k].target < |nodes|
    ensures paths[nodes[i].children[k].target] == paths[i] + [nodes[i].children[k].letter]
  {
  }

  // ----- walking to the node of the query -----

  /** The scan of one node's packed children for a byte. */
  method FindChild(t: Tables, i: int, ch: int) returns (found: bool, next: int)
    requires NodeReadable(t, i) && 0 <= ch < 256
    ensures found <==> FindEdge(t.nodes[i].children, ch) >= 0
    ensures found ==> exists k ::
      0 <= k < |t.nodes[i].children| && t.nodes[i].children[k] == Edge(ch, next)
  {
    ghost var edges := t.nodes[i].children;
    var at := t.nodes[i].childrenOffset;
    var num := t.children[at];
    for c := 0 to num
      invariant forall k :: 0 <= k < c ==> edges[k].letter != ch
    {
      var x := t.children[at + 1 + c];
      Unpack(edges[c]);
      if x % 256 == ch {
        assert edges[c] == Edge(ch, x / 256);
        return true, x / 256;
      }
    }
    return false, 0;
  }

  lemma StepFound(t: Tables, paths: seq<Word>, i: int, ch: int, next: int, word: Word, n: nat)
    requires Readable(t, paths) && 0 <= i < |t.nodes|
    requires n < |word| && paths[i] == word[..n] && word[n] == ch
    requires exists k :: 0 <= k < |t.nodes[i].children| && t.nodes[i].children[k] == Edge(ch, next)
    ensures 0 <= next < |t.nodes| && paths[next] == word[..n + 1]
  {
    var k :| 0 <= k < |t.nodes[i].children| && t.nodes[i].children[k] == Edge(ch, next);
    EdgeSpells(t.nodes, paths, i, k);
    assert word[..n] + [word[n]] == word[..n + 1];
  }

  lemma StepMissing(nodes: seq<Node>, paths: seq<Word>, i: int, word: Word, n: nat)
    requires IsTrie(nodes, paths) && 0 <= i < |nodes|
    requires n < |word| && paths[i] == word[..n] && FindEdge(nodes[i].children, word[n]) < 0
    ensures word[..n + 1] !in paths
  {
    var path := word[..n + 1];
    assert path[..|path| - 1] == paths[i];
    NoSuchPath(nodes, paths, i, path);
  }

  lemma NoExtension(paths: seq<Word>, word: Word, n: nat)
    requires PrefixClosed(paths) && n <= |word| && word[..n] !in paths
    ensures forall j :: 0 <= j < |paths| ==> !(word <= paths[j])
  {
    forall j | 0 <= j < |paths|
      ensures !(word <= paths[j])
    {
      assert word <= paths[j] ==> paths[j][..n] == word[..n];
      if n <= |paths[j]| { PrefixIsPath(paths, j, n); }
    }
  }

  lemma {:induction false} PrefixIsPath(paths: seq<Word>, j: int, n: nat)
    requires PrefixClosed(paths) && 0 <= j < |paths| && n <= |paths[j]|
    ensures paths[j][..n] in paths
    decreases |paths[j]|
  {
    if n == |paths[j]| {
      assert paths[j][..n] == paths[j];
    } else {
      var shorter := paths[j][..|paths[j]| - 1];
      var i :| 0 <= i < |paths| && paths[i] == shorter;
      PrefixIsPath(paths, i, n);
      assert shorter[..n] == paths[j][..n];
    }
  }

  /** The first loop of `codepoints_for_word`. */
  method Walk(t: Tables, ghost paths: seq<Word>, word: Word) returns (found: bool, i: int)
    requires Readable(t, paths) && ByteWord(word)
    ensures found ==> 0 <= i < |t.nodes| && i < |paths| && paths[i] == word
    ensures !found ==> forall j :: 0 <= j < |paths| ==> !(word <= paths[j])
  {
    found, i := true, 0;
    for n := 0 to |word|
      invariant found && 0 <= i < |t.nodes| && i < |paths| && paths[i] == word[..n]
    {
      ReadNode(t, paths, i);
      var next;
      found, next := FindChild(t, i, word[n]);
      if !found {
        StepMissing(t.nodes, paths, i, word, n);
        NoExtension(paths, word, n + 1);
        return;
      }
      StepFound(t, paths, i, word[n], next, word, n);
      i := next;
    }
    assert word[..|word|] == word;
  }

  // ----- collecting the matches below a node -----

  /** Node `j` spells an extension of `prefix` and records `c`. */
  ghost predicate Records(t: Tables, paths: seq<Word>, prefix: Word, j: int, c: int) {
    0 <= j < |paths| && j < |t.nodes| && prefix <= paths[j] && InGroup(t, t.nodes[j].matchOffset, c)
  }

  ghost predicate IsRecorded(t: Tables, paths: seq<Word>, prefix: Word, c: int) {
    exists j :: Records(t, paths, prefix, j, c)
  }

  /** The codepoints recorded at any node that spells an extension of `prefix`. */
  ghost function Recorded(t: Tables, paths: seq<Word>, prefix: Word): iset<int> {
    iset c | IsRecorded(t, paths, prefix, c)
  }

  ghost function Group(t: Tables, offset: int): iset<int> {
    iset c | InGroup(t, offset, c)
  }

  /** `add_matches`. */
  method AddMatches(t: Tables, offset: int, ans: iset<int>) returns (r: iset<int>)
    requires GroupInRange(t, offset)
    ensures r == ans + Group(t, offset)
  {
    r := ans;
    var num := t.groups[offset];
    for k := 0 to num
      invariant forall c :: c in r <==> c in ans || exists m :: offset < m <= offset + k && t.markToCp[t.groups[m]] == c
    {
      r := r + iset{t.markToCp[t.groups[offset + 1 + k]]};
    }
    forall c
      ensures c in r <==> c in ans + Group(t, offset)
    {
      assert c in Group(t, offset) <==> InGroup(t, offset, c);
    }
  }

  /** The codepoints recorded at or below node `j`. */
  ghost function AtOrBelow(t: Tables, paths: seq<Word>, j: int): iset<int> {
    if 0 <= j < |paths| then Recorded(t, paths, paths[j]) else iset{}
  }

  /** What a list of children contributes. */
  ghost function BelowEdges(t: Tables, paths: seq<Word>, edges: seq<Edge>): iset<int> {
    if edges == [] then iset{}
    else BelowEdges(t, paths, edges[..|edges| - 1]) + AtOrBelow(t, paths, edges[|edges| - 1].target)
  }

  lemma OneMoreEdge(t: Tables, paths: seq<Word>, edges: seq<Edge>, c: nat)
    requires c < |edges|
    ensures BelowEdges(t, paths, edges[..c + 1])
      == BelowEdges(t, paths, edges[..c]) + AtOrBelow(t, paths, edges[c].target)
  {
    assert edges[..c + 1][..c] == edges[..c];
  }

  /** `process_trie_node`: the recursion over the packed children. */
  method ProcessNode(t: Tables, ghost paths: seq<Word>, i: int, ans: iset<int>) returns (r: iset<int>)
    requires Readable(t, paths) && 0 <= i < |t.nodes|
    ensures r == ans + AtOrBelow(t, paths, i)
    decreases |t.nodes| - i, 1
  {
    r := ans;
    if t.nodes[i].matchOffset != 0 {
      r := AddMatches(t, t.nodes[i].matchOffset, r);
    }
    assert r == ans + Group(t, t.nodes[i].matchOffset);
    r := ProcessChildren(t, paths, i, r);
    RecordedSplits(t, paths, i);
  }

  method ProcessChildren(t: Tables, ghost paths: seq<Word>, i: int, ans: iset<int>) returns (r: iset<int>)
    requires Readable(t, paths) && 0 <= i < |t.nodes|
    ensures r == ans + BelowEdges(t, paths, t.nodes[i].children)
    decreases |t.nodes| - i, 0
  {
    ReadNode(t, paths, i);
    r := ans;
    ghost var edges := t.nodes[i].children;
    var num := t.children[t.nodes[i].childrenOffset];
    for c := 0 to num
      invariant r == ans + BelowEdges(t, paths, edges[..c])
    {
      var next := ReadTarget(t, i, c);
      OneMoreEdge(t, paths, edges, c);
      r := ProcessNode(t, paths, next, r);
    }
    assert edges[..num] == edges;
  }

  /** `children_array[c] >> 8` for the `k`-th child of a node. */
  method ReadTarget(t: Tables, i: int, k: int) returns (target: int)
    requires NodeReadable(t, i) && 0 <= k < |t.nodes[i].children|
    ensures target == t.nodes[i].children[k].target && i < target < |t.nodes|
  {
    Unpack(t.nodes[i].children[k]);
    target := t.children[t.nodes[i].childrenOffset + 1 + k] / 256;
  }

  lemma {:induction false} InBelowEdges(t: Tables, paths: seq<Word>, edges: seq<Edge>, c: int)
    ensures c in BelowEdges(t, paths, edges) <==>
      exists k :: 0 <= k < |edges| && c in AtOrBelow(t, paths, edges[k].target)
  {
    if edges != [] {
      var rest := edges[..|edges| - 1];
      InBelowEdges(t, paths, rest, c);
      assert forall k :: 0 <= k < |rest| ==> rest[k] == edges[k];
    }
  }

  /** What lies at or below a node is its own group and what lies below its children. */
  lemma RecordedSplits(t: Tables, paths: seq<Word>, i: int)
    requires IsTrie(t.nodes, paths) && 0 <= i < |t.nodes|
    ensures AtOrBelow(t, paths, i) ==
      Group(t, t.nodes[i].matchOffset) + BelowEdges(t, paths, t.nodes[i].children)
  {
    forall c
      ensures c in AtOrBelow(t, paths, i) <==>
        c in Group(t, t.nodes[i].matchOffset) + BelowEdges(t, paths, t.nodes[i].children)
    {
      InBelowEdges(t, paths, t.nodes[i].children, c);
      if c in AtOrBelow(t, paths, i) { RecordedBelow(t, paths, i, c); }
      if c in Group(t, t.nodes[i].matchOffset) + BelowEdges(t, paths, t.nodes[i].children) {
        RecordedAbove(t, paths, i, c);
      }
    }
  }

  lemma RecordedBelow(t: Tables, paths: seq<Word>, i: int, c: int)
    requires IsTrie(t.nodes, paths) && 0 <= i < |t.nodes| && c in AtOrBelow(t, paths, i)
    ensures c in Group(t, t.nodes[i].matchOffset) || exists k ::
      0 <= k < |t.nodes[i].children| && c in AtOrBelow(t, paths, t.nodes[i].children[k].target)
  {
    var j :| Records(t, paths, paths[i], j, c);
    if j != i {
      var k := EdgeTowards(t.nodes, paths, i, j);
      assert Records(t, paths, paths[t.nodes[i].children[k].target], j, c);
      assert c in AtOrBelow(t, paths, t.nodes[i].children[k].target);
    }
  }

  lemma RecordedAbove(t: Tables, paths: seq<Word>, i: int, c: int)
    requires IsTrie(t.nodes, paths) && 0 <= i < |t.nodes|
    requires c in Group(t, t.nodes[i].matchOffset) || exists k ::
      0 <= k < |t.nodes[i].children| && c in AtOrBelow(t, paths, t.nodes[i].children[k].target)
    ensures c in AtOrBelow(t, paths, i)
  {
    if c in Group(t, t.nodes[i].matchOffset) {
      assert Records(t, paths, paths[i], i, c);
    } else {
      var k :| 0 <= k < |t.nodes[i].children| && c in AtOrBelow(t, paths, t.nodes[i].children[k].target);
      EdgeSpells(t.nodes, paths, i, k);
      var j :| Records(t, paths, paths[t.nodes[i].children[k].target], j, c);
      assert Records(t, paths, paths[i], j, c);
    }
  }

  lemma EdgeTowards(nodes: seq<Node>, paths: seq<Word>, i: int, j: int) returns (k: int)
    requires IsTrie(nodes, paths) && 0 <= i < |nodes| && 0 <= j < |nodes|
    requires paths[i] <= paths[j] && i != j
    ensures 0 <= k < |nodes[i].children| && 0 <= nodes[i].children[k].target < |paths|
    ensures paths[nodes[i].children[k].target] <= paths[j]
  {
    var n := |paths[i]|;
    assert paths[i] != paths[j];
    PrefixIsPath(paths, j, n + 1);
    var m :| 0 <= m < |paths| && paths[m] == paths[j][..n + 1];
    assert paths[m][..|paths[m]| - 1] == paths[i];
    assert Parent(paths, i, m);
    assert HasEdge(nodes[i], m);
    k :| 0 <= k < |nodes[i].children| && nodes[i].children[k].target == m;
  }

  /** `codepoints_for_word`. */
  method CodepointsForWord(t: Tables, ghost paths: seq<Word>, word: Word) returns (r: iset<int>)
    requires Readable(t, paths) && ByteWord(word)
    ensures r == Recorded(t, paths, word)
  {
    var found, i := Walk(t, paths, word);
    if !found {
      r := iset{};
    } else {
      r := ProcessNode(t, paths, i, iset{});
    }
  }
}
