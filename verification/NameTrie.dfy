/** The word index of the Unicode input tool: `gen_names` in gen-wcwidth.py turns the map
    from words to codepoints into mark groups and a serialized trie, and the C reader in
    welly/unicode_input/unicode_names.c answers prefix queries from those tables. */
module NameTrie {
  import opened CodepointRanges

  type Word = seq<int>

  datatype Edge = Edge(letter: int, target: int)

  /** `TrieNode`: the children dictionary in insertion order. */
  datatype Node = Node(children: seq<Edge>, matchOffset: int, childrenOffset: int)

  // ----- building the trie -----

  ghost predicate HasEdge(node: Node, target: int) {
    exists k :: 0 <= k < |node.children| && node.children[k].target == target
  }

  ghost predicate Parent(paths: seq<Word>, i: int, j: int)
    requires 0 <= i < |paths| && 0 <= j < |paths|
  {
    |paths[j]| > 0 && paths[i] == paths[j][..|paths[j]| - 1]
  }

  ghost predicate Unique(paths: seq<Word>) {
    forall i, j :: 0 <= i < j < |paths| ==> paths[i] != paths[j]
  }

  ghost predicate PrefixClosed(paths: seq<Word>) {
    forall j :: 0 <= j < |paths| && |paths[j]| > 0 ==> paths[j][..|paths[j]| - 1] in paths
  }

  /** A child comes later in the node list and spells one letter more. */
  ghost predicate EdgeSound(paths: seq<Word>, i: int, e: Edge) {
    0 <= i < e.target < |paths| && paths[e.target] == paths[i] + [e.letter]
  }

  ghost predicate EdgesSound(nodes: seq<Node>, paths: seq<Word>)
    requires |nodes| == |paths|
  {
    forall i, k :: 0 <= i < |nodes| && 0 <= k < |nodes[i].children| ==> EdgeSound(paths, i, nodes[i].children[k])
  }

  ghost predicate EdgesComplete(nodes: seq<Node>, paths: seq<Word>)
    requires |nodes| == |paths|
  {
    forall i, j :: 0 <= i < |paths| && 0 <= j < |paths| && Parent(paths, i, j) ==> HasEdge(nodes[i], j)
  }

  /** `paths[i]` spells node `i`. */
  ghost predicate IsTrie(nodes: seq<Node>, paths: seq<Word>) {
    && 0 < |nodes| == |paths| && paths[0] == []
    && Unique(paths) && PrefixClosed(paths) && EdgesSound(nodes, paths) && EdgesComplete(nodes, paths)
  }

  /** The match offsets are those of the words, and 0 elsewhere. */
  ghost predicate HoldsWords(nodes: seq<Node>, paths: seq<Word>, words: map<Word, int>)
    requires |nodes| == |paths|
  {
    && (forall w :: w in words ==> w in paths && words[w] != 0)
    && (forall i :: 0 <= i < |nodes| ==> nodes[i].matchOffset == if paths[i] in words then words[paths[i]] else 0)
  }

  ghost predicate ByteLetters(nodes: seq<Node>) {
    forall i, k :: 0 <= i < |nodes| && 0 <= k < |nodes[i].children| ==> 0 <= nodes[i].children[k].letter < 256
  }

  ghost predicate ByteWord(w: Word) {
    forall k :: 0 <= k < |w| ==> 0 <= w[k] < 256
  }

  /** `letter in self.children`. */
  function FindEdge(children: seq<Edge>, letter: int): (k: int)
    ensures -1 <= k < |children|
    ensures k >= 0 ==> children[k].letter == letter
    ensures k < 0 ==> forall m :: 0 <= m < |children| ==> children[m].letter != letter
  {
    if children == [] then -1
    else if children[0].letter == letter then 0
    else var k := FindEdge(children[1..], letter); if k < 0 then -1 else k + 1
  }

  /** What the builder keeps between insertions. */
  ghost predicate WellBuilt(nodes: seq<Node>, paths: seq<Word>, words: map<Word, int>) {
    && IsTrie(nodes, paths) && HoldsWords(nodes, paths, words) && ByteLetters(nodes) && Unserialized(nodes)
  }

  ghost predicate Unserialized(nodes: seq<Node>) {
    forall i :: 0 <= i < |nodes| ==> nodes[i].childrenOffset == 0
  }

  /** Nodes are only added, and only for prefixes of the word. */
  ghost predicate OnlyPrefixesAdded(before: seq<Word>, after: seq<Word>, word: Word) {
    before <= after && forall i :: |before| <= i < |after| ==> after[i] <= word
  }

  lemma OneMorePrefix(before: seq<Word>, paths: seq<Word>, after: seq<Word>, word: Word, path: Word)
    requires OnlyPrefixesAdded(before, paths, word) && path <= word && (after == paths || after == paths + [path])
    ensures OnlyPrefixesAdded(before, after, word)
  {
  }

  class Builder {
    var nodes: seq<Node>
    ghost var paths: seq<Word>
    ghost var words: map<Word, int>

    ghost predicate Valid()
      reads this
    {
      WellBuilt(nodes, paths, words)
    }

    constructor ()
      ensures Valid() && words == map[] && paths == [[]]
    {
      nodes, paths, words := [Node([], 0, 0)], [[]], map[];
    }

    /** `TrieNode.add_letter` on node `parent`. */
    method AddLetter(parent: int, letter: int) returns (idx: int)
      requires Valid() && 0 <= parent < |nodes| && 0 <= letter < 256
      modifies this
      ensures Valid() && words == old(words)
      ensures 0 <= idx < |nodes| && idx < |paths| && paths[idx] == old(paths[parent]) + [letter]
      ensures if old(paths[parent]) + [letter] in old(paths) then nodes == old(nodes) && paths == old(paths)
              else nodes == WithChild(old(nodes), parent, letter) && paths == old(paths) + [paths[idx]]
    {
      var k := FindEdge(nodes[parent].children, letter);
      if k >= 0 {
        idx := nodes[parent].children[k].target;
        assert EdgeSound(paths, parent, nodes[parent].children[k]);
      } else {
        ghost var path := paths[parent] + [letter];
        NoSuchPath(nodes, paths, parent, path);
        AddChild(nodes, paths, words, parent, letter);
        idx := |nodes|;
        paths := paths + [path];
        nodes := WithChild(nodes, parent, letter);
      }
    }

    method Follow(parent: int, word: Word, i: nat, ghost before: seq<Word>) returns (next: int)
      requires Valid() && i < |word| && 0 <= word[i] < 256 && OnlyPrefixesAdded(before, paths, word)
      requires 0 <= parent < |nodes| && parent < |paths| && paths[parent] == word[..i]
      modifies this
      ensures Valid() && words == old(words) && OnlyPrefixesAdded(before, paths, word)
      ensures 0 <= next < |nodes| && next < |paths| && paths[next] == word[..i + 1]
    {
      assert word[..i] + [word[i]] == word[..i + 1];
      next := AddLetter(parent, word[i]);
      OneMorePrefix(before, old(paths), paths, word, word[..i + 1]);
    }

    /** The loop of `add_word`: walk down from the root, creating what is missing. */
    method Reach(word: Word) returns (parent: int)
      requires Valid() && ByteWord(word)
      modifies this
      ensures Valid() && words == old(words)
      ensures 0 <= parent < |nodes| && parent < |paths| && paths[parent] == word
      ensures OnlyPrefixesAdded(old(paths), paths, word)
    {
      parent := 0;
      for i := 0 to |word|
        invariant Valid() && words == old(words)
        invariant 0 <= parent < |nodes| && parent < |paths| && paths[parent] == word[..i]
        invariant OnlyPrefixesAdded(old(paths), paths, word)
      {
        parent := Follow(parent, word, i, old(paths));
      }
      assert word[..|word|] == word;
    }

    /** `add_word`. */
    method AddWord(word: Word, offset: int)
      requires Valid() && ByteWord(word) && offset != 0
      modifies this
      ensures Valid() && words == old(words)[word := offset]
      ensures OnlyPrefixesAdded(old(paths), paths, word)
    {
      var parent := Reach(word);
      SetMatch(nodes, paths, words, parent, word, offset);
      words, nodes := words[word := offset], WithMatch(nodes, parent, offset);
    }
  }

  function WithMatch(nodes: seq<Node>, i: int, offset: int): seq<Node>
    requires 0 <= i < |nodes|
  {
    nodes[i := nodes[i].(matchOffset := offset)]
  }

  function WithChild(nodes: seq<Node>, parent: int, letter: int): seq<Node>
    requires 0 <= parent < |nodes|
  {
    nodes[parent := nodes[parent].(children := nodes[parent].children + [Edge(letter, |nodes|)])] + [Node([], 0, 0)]
  }

  lemma NoSuchPath(nodes: seq<Node>, paths: seq<Word>, parent: int, path: Word)
    requires |nodes| == |paths| && EdgesSound(nodes, paths) && EdgesComplete(nodes, paths)
    requires 0 <= parent < |nodes| && |path| > 0 && path[..|path| - 1] == paths[parent]
    requires FindEdge(nodes[parent].children, path[|path| - 1]) < 0
    ensures path !in paths
  {
    forall j | 0 <= j < |paths|
      ensures paths[j] != path
    {
      if Parent(paths, parent, j) {
        assert HasEdge(nodes[parent], j);
        var k :| 0 <= k < |nodes[parent].children| && nodes[parent].children[k].target == j;
        assert paths[j][|path| - 1] == nodes[parent].children[k].letter;
      }
    }
  }

  lemma AddChildKeepsPaths(paths: seq<Word>, parent: int, path: Word)
    requires Unique(paths) && PrefixClosed(paths)
    requires 0 <= parent < |paths| && |path| > 0 && path[..|path| - 1] == paths[parent]
    requires path !in paths
    ensures Unique(paths + [path]) && PrefixClosed(paths + [path])
  {
    assert paths[parent] in paths + [path];
  }

  lemma AddChildKeepsSound(nodes: seq<Node>, paths: seq<Word>, parent: int, letter: int)
    requires |nodes| == |paths| && EdgesSound(nodes, paths) && 0 <= parent < |nodes|
    ensures EdgesSound(WithChild(nodes, parent, letter), paths + [paths[parent] + [letter]])
  {
  }

  lemma AddChildKeepsComplete(nodes: seq<Node>, paths: seq<Word>, parent: int, path: Word)
    requires |nodes| == |paths| && EdgesComplete(nodes, paths) && Unique(paths) && PrefixClosed(paths)
    requires 0 <= parent < |paths| && |path| > 0 && path[..|path| - 1] == paths[parent]
    requires path !in paths
    ensures EdgesComplete(WithChild(nodes, parent, path[|path| - 1]), paths + [path])
  {
    var nodes', paths' := WithChild(nodes, parent, path[|path| - 1]), paths + [path];
    forall i, j | 0 <= i < |paths'| && 0 <= j < |paths'| && Parent(paths', i, j)
      ensures HasEdge(nodes'[i], j)
    {
      if j == |paths| {
        assert paths'[i] == paths[parent];
        assert i == parent;
        assert nodes'[parent].children[|nodes[parent].children|].target == j;
      } else {
        assert paths'[i] in paths;
        assert Parent(paths, i, j);
        var k :| 0 <= k < |nodes[i].children| && nodes[i].children[k].target == j;
        assert nodes'[i].children[k].target == j;
      }
    }
  }

  lemma AddChildKeepsWords(nodes: seq<Node>, paths: seq<Word>, words: map<Word, int>, parent: int, path: Word,
        letter: int)
    requires |nodes| == |paths| && HoldsWords(nodes, paths, words) && 0 <= parent < |nodes|
    requires path !in paths
    ensures HoldsWords(WithChild(nodes, parent, letter), paths + [path], words)
  {
  }

  /** Inserting a node for a letter its parent lacks keeps everything. */
  lemma AddChild(nodes: seq<Node>, paths: seq<Word>, words: map<Word, int>, parent: int, letter: int)
    requires WellBuilt(nodes, paths, words) && 0 <= parent < |nodes| && 0 <= letter < 256
    requires FindEdge(nodes[parent].children, letter) < 0
    ensures WellBuilt(WithChild(nodes, parent, letter), paths + [paths[parent] + [letter]], words)
  {
    var path := paths[parent] + [letter];
    var nodes', paths' := WithChild(nodes, parent, letter), paths + [path];
    NoSuchPath(nodes, paths, parent, path);
    assert IsTrie(nodes', paths') by {
      AddChildKeepsPaths(paths, parent, path);
      AddChildKeepsSound(nodes, paths, parent, letter);
      AddChildKeepsComplete(nodes, paths, parent, path);
    }
    assert HoldsWords(nodes', paths', words) by {
      AddChildKeepsWords(nodes, paths, words, parent, path, letter);
    }
    assert ByteLetters(nodes') by {
      AddChildKeepsLetters(nodes, parent, letter);
    }
  }

  lemma AddChildKeepsLetters(nodes: seq<Node>, parent: int, letter: int)
    requires ByteLetters(nodes) && 0 <= parent < |nodes| && 0 <= letter < 256
    ensures ByteLetters(WithChild(nodes, parent, letter))
  {
  }

  lemma SetWord(nodes: seq<Node>, paths: seq<Word>, words: map<Word, int>, i: int, offset: int)
    requires |nodes| == |paths| && Unique(paths) && HoldsWords(nodes, paths, words)
    requires 0 <= i < |nodes| && offset != 0
    ensures HoldsWords(WithMatch(nodes, i, offset), paths, words[paths[i] := offset])
  {
  }

  lemma SetMatch(nodes: seq<Node>, paths: seq<Word>, words: map<Word, int>, i: int, word: Word, offset: int)
    requires WellBuilt(nodes, paths, words) && 0 <= i < |nodes| && paths[i] == word && offset != 0
    ensures WellBuilt(WithMatch(nodes, i, offset), paths, words[word := offset])
  {
    assert HoldsWords(WithMatch(nodes, i, offset), paths, words[word := offset]) by {
      SetWord(nodes, paths, words, i, offset);
    }
    SameChildren(nodes, WithMatch(nodes, i, offset), paths);
  }

  lemma SameChildren(nodes: seq<Node>, nodes': seq<Node>, paths: seq<Word>)
    requires IsTrie(nodes, paths) && ByteLetters(nodes) && |nodes'| == |nodes|
    requires forall k :: 0 <= k < |nodes| ==> nodes'[k].children == nodes[k].children
    ensures IsTrie(nodes', paths) && ByteLetters(nodes')
  {
    forall i, j | 0 <= i < |paths| && 0 <= j < |paths| && Parent(paths, i, j)
      ensures HasEdge(nodes'[i], j)
    {
      assert HasEdge(nodes[i], j);
    }
  }

  // ----- serializing -----

  const UINT32 := 0x1_0000_0000
  const MAX_NODES := 0x100_0000  // a child index has 24 bits

  /** `(child_offset << 8) | (letter & 0xff)`, stored in a 32-bit array. */
  function Pack(e: Edge): int {
    (e.target * 256 + e.letter % 256) % UINT32
  }

  lemma Unpack(e: Edge)
    requires 0 <= e.letter < 256 && 0 <= e.target < MAX_NODES
    ensures Pack(e) % 256 == e.letter && Pack(e) / 256 == e.target
  {
  }

  ghost predicate NodePacked(node: Node, arr: seq<int>) {
    var at := node.childrenOffset;
    if node.children == [] then at == 0
    else
      && 0 < at && at + |node.children| < |arr| && arr[at] == |node.children|
      && forall k :: 0 <= k < |node.children| ==> arr[at + 1 + k] == Pack(node.children[k])
  }

  ghost predicate Packed(nodes: seq<Node>, arr: seq<int>) {
    && |arr| > 0 && arr[0] == 0
    && forall i :: 0 <= i < |nodes| ==> NodePacked(nodes[i], arr)
  }

  lemma PackedAppend(node: Node, arr: seq<int>, more: seq<int>)
    requires NodePacked(node, arr)
    ensures NodePacked(node, arr + more)
  {
  }

  /** The loop that fills `children_array` and sets each node's `children_offset`. */
  method Serialize(nodes: seq<Node>) returns (out: seq<Node>, arr: seq<int>)
    requires Unserialized(nodes)
    ensures Packed(out, arr) && |out| == |nodes|
    ensures forall i :: 0 <= i < |nodes| ==>
      out[i].children == nodes[i].children && out[i].matchOffset == nodes[i].matchOffset
  {
    out, arr := [], [0];
    for i := 0 to |nodes|
      invariant |out| == i && Packed(out, arr)
      invariant forall j :: 0 <= j < i ==>
        out[j].children == nodes[j].children && out[j].matchOffset == nodes[j].matchOffset
    {
      var node := nodes[i];
      ghost var before := arr;
      if node.children != [] {
        node := node.(childrenOffset := |arr|);
        arr := arr + [|node.children|];
        for k := 0 to |node.children|
          invariant |arr| == |before| + 1 + k && before <= arr && arr[|before|] == |node.children|
          invariant forall m :: 0 <= m < k ==> arr[|before| + 1 + m] == Pack(node.children[m])
        {
          arr := arr + [Pack(node.children[k])];
        }
      }
      forall j | 0 <= j < i
        ensures NodePacked(out[j], arr)
      {
        assert arr == before + arr[|before|..];
        PackedAppend(out[j], before, arr[|before|..]);
      }
      out := out + [node];
    }
  }

  // ----- mark groups -----

  /** At `offset` the array holds a count and then that many marks, which are those of `group`. */
  ghost predicate GroupAt(groups: seq<int>, offset: int, group: set<int>) {
    && 0 < offset < |groups| && 0 <= groups[offset] && offset + groups[offset] < |groups|
    && forall m :: m in group <==> exists k :: offset < k <= offset + groups[offset] && groups[k] == m
  }

  lemma GroupAppend(groups: seq<int>, more: seq<int>, offset: int, group: set<int>)
    requires GroupAt(groups, offset, group)
    ensures GroupAt(groups + more, offset, group)
  {
    forall m
      ensures m in group <==> exists k :: offset < k <= offset + groups[offset] && (groups + more)[k] == m
    {
      if m in group {
        var k :| offset < k <= offset + groups[offset] && groups[k] == m;
        assert (groups + more)[k] == m;
      }
    }
  }

  /** Each distinct group is written once, a count before its sorted marks. */
  method WriteGroups(all: set<set<int>>) returns (groups: seq<int>, offsets: map<set<int>, int>)
    ensures offsets.Keys == all
    ensures forall g :: g in all ==> GroupAt(groups, offsets[g], g)
  {
    groups, offsets := [0], map[];
    var rest := all;
    while rest != {}
      invariant rest <= all && offsets.Keys == all - rest && |groups| > 0
      invariant forall g :: g in offsets ==> GroupAt(groups, offsets[g], g)
      decreases |rest|
    {
      var g :| g in rest;
      var marks := ListOf(g);
      var more := [|g|] + Sort(marks);
      SortMembers(marks);
      forall h | h in offsets
        ensures GroupAt(groups + more, offsets[h], h)
      {
        GroupAppend(groups, more, offsets[h], h);
      }
      NewGroup(groups, marks, g);
      offsets, groups, rest := offsets[g := |groups|], groups + more, rest - {g};
    }
  }

  lemma NewGroup(groups: seq<int>, marks: seq<int>, g: set<int>)
    requires |groups| > 0 && |marks| == |g| && forall m :: m in marks <==> m in g
    ensures GroupAt(groups + ([|g|] + Sort(marks)), |groups|, g)
  {
    var sorted := Sort(marks);
    SortMembers(marks);
    var all, at := groups + ([|g|] + sorted), |groups|;
    assert all[at] == |g| && |all| == at + 1 + |g|;
    forall k | at < k <= at + |g|
      ensures all[k] in g
    {
      assert all[k] == sorted[k - at - 1];
      var m := all[k];
      assert m in sorted;
    }
    forall m | m in g
      ensures exists k :: at < k <= at + |g| && all[k] == m
    {
      assert m in sorted;
      var i :| 0 <= i < |sorted| && sorted[i] == m;
      assert all[at + 1 + i] == m;
    }
  }
}
