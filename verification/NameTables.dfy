/** End to end through the word index: `gen_names` of gen-wcwidth.py run on a word map,
    then queried by the reader of welly/unicode_input/unicode_names.c. */
module NameTables {
  import opened MarkTables
  import opened NameTrie
  import opened NameReader
  import opened Options

  ghost predicate Named(markToCp: seq<int>, cps: set<int>) {
    forall c :: c in cps ==> c in markToCp
  }

  ghost predicate IndexableWords(wordMap: map<Word, set<int>>, markToCp: seq<int>) {
    forall w :: w in wordMap ==> ByteWord(w) && Named(markToCp, wordMap[w])
  }

  /** `frozenset(map(cp_to_mark.__getitem__, cps))`. */
  function MarksOf(markToCp: seq<int>, cps: set<int>): set<int> {
    set c | c in cps && c in markToCp :: ReverseIndex(markToCp, c)
  }

  /** A group written for the marks of some codepoints reads back as those codepoints. */
  lemma GroupDecodes(t: Tables, offset: int, cps: set<int>)
    requires Named(t.markToCp, cps) && GroupAt(t.groups, offset, MarksOf(t.markToCp, cps))
    ensures GroupInRange(t, offset)
    ensures Group(t, offset) == iset c | c in cps
  {
    var marks := MarksOf(t.markToCp, cps);
    forall k | offset < k <= offset + t.groups[offset]
      ensures 0 <= t.groups[k] < |t.markToCp| && t.markToCp[t.groups[k]] in cps
    {
      var m := t.groups[k];
      assert m in marks;
      var c :| c in cps && c in t.markToCp && ReverseIndex(t.markToCp, c) == m;
    }
    forall c | c in cps
      ensures InGroup(t, offset, c)
    {
      var m := ReverseIndex(t.markToCp, c);
      assert m in marks;
      var k :| offset < k <= offset + t.groups[offset] && t.groups[k] == m;
      assert t.markToCp[t.groups[k]] == c;
    }
    forall c | InGroup(t, offset, c)
      ensures c in cps
    {
      var k :| offset < k <= offset + t.groups[offset] && t.markToCp[t.groups[k]] == c;
      assert t.markToCp[t.groups[k]] in cps;
    }
  }

  /** The node that spells a word carries exactly the word's codepoints; every word has a
      node; a node that spells no word carries no match. */
  ghost predicate Indexes(t: Tables, paths: seq<Word>, wordMap: map<Word, set<int>>) {
    && |t.nodes| == |paths|
    && (forall w :: w in wordMap ==> w in paths)
    && (forall j :: 0 <= j < |paths| && paths[j] !in wordMap ==> t.nodes[j].matchOffset == 0)
    && (forall j :: 0 <= j < |paths| && paths[j] in wordMap ==>
        && GroupInRange(t, t.nodes[j].matchOffset)
        && Group(t, t.nodes[j].matchOffset) == iset c | c in wordMap[paths[j]])
  }

  lemma OneMoreWord(offsets: map<Word, int>, rest: set<Word>, w: Word)
    requires w in rest && w in offsets
    ensures (offsets - rest)[w := offsets[w]] == offsets - (rest - {w})
  {
  }

  /** The nodes are a trie of exactly the given words. */
  ghost predicate IsTrieOf(nodes: seq<Node>, offsets: map<Word, int>) {
    exists paths :: WellBuilt(nodes, paths, offsets)
  }

  // ----- how many nodes there are -----

  /** The prefixes of some words, and the empty one. */
  ghost function Prefixes(words: set<Word>): set<Word> {
    {[]} + set w, k | w in words && 0 <= k <= |w| :: w[..k]
  }

  ghost predicate AllPrefixes(paths: seq<Word>, words: set<Word>) {
    forall i :: 0 <= i < |paths| ==> paths[i] in Prefixes(words)
  }

  ghost function PathSet(paths: seq<Word>): set<Word> { set i | 0 <= i < |paths| :: paths[i] }

  lemma {:induction false} PathSetSize(paths: seq<Word>)
    requires Unique(paths)
    ensures |PathSet(paths)| == |paths|
  {
    if paths != [] {
      var before, last := paths[..|paths| - 1], paths[|paths| - 1];
      PathSetSize(before);
      assert PathSet(paths) == PathSet(before) + {last} by {
        assert forall i :: 0 <= i < |before| ==> before[i] == paths[i];
      }
      assert last !in PathSet(before);
    }
  }

  lemma MorePrefixes(before: seq<Word>, after: seq<Word>, words: set<Word>, word: Word)
    requires AllPrefixes(before, words) && word in words && OnlyPrefixesAdded(before, after, word)
    ensures AllPrefixes(after, words)
  {
    forall i | 0 <= i < |after| ensures after[i] in Prefixes(words) {
      if i < |before| {
        assert after[i] == before[i];
      } else {
        assert after[i] == word[..|after[i]|];
      }
    }
  }

  /** A trie that holds some words and was grown along them has one node for each prefix. */
  lemma NodesArePrefixes(nodes: seq<Node>, paths: seq<Word>, words: map<Word, int>)
    requires WellBuilt(nodes, paths, words) && AllPrefixes(paths, words.Keys)
    ensures |nodes| == |Prefixes(words.Keys)|
  {
    forall p | p in Prefixes(words.Keys) ensures p in PathSet(paths) {
      PrefixHasNode(nodes, paths, words, p);
    }
    forall p | p in PathSet(paths) ensures p in Prefixes(words.Keys) {
      var i :| 0 <= i < |paths| && paths[i] == p;
    }
    assert PathSet(paths) == Prefixes(words.Keys);
    PathSetSize(paths);
  }

  lemma PrefixHasNode(nodes: seq<Node>, paths: seq<Word>, words: map<Word, int>, p: Word)
    requires WellBuilt(nodes, paths, words) && p in Prefixes(words.Keys)
    ensures p in PathSet(paths)
  {
    if p == [] {
      assert paths[0] == p;
    } else {
      var w, k :| w in words && 0 <= k <= |w| && p == w[..k];
      var j :| 0 <= j < |paths| && paths[j] == w;
      PrefixIsPath(paths, j, k);
      var i :| 0 <= i < |paths| && paths[i] == p;
    }
  }

  ghost function StartsOf(w: Word, n: nat): set<Word>
    requires n <= |w|
  {
    set k | 1 <= k <= n :: w[..k]
  }

  lemma {:induction false} StartsSize(w: Word, n: nat)
    requires n <= |w|
    ensures |StartsOf(w, n)| <= n
  {
    if n > 0 {
      StartsSize(w, n - 1);
      assert StartsOf(w, n) == StartsOf(w, n - 1) + {w[..n]};
    }
  }

  /** A list of words of bounded length has few prefixes. */
  lemma {:induction false} FewPrefixes(words: set<Word>, longest: nat)
    requires forall w :: w in words ==> |w| <= longest
    ensures |Prefixes(words)| <= 1 + |words| * longest
    decreases |words|
  {
    if words == {} {
      assert Prefixes(words) == {[]};
    } else {
      var w :| w in words;
      var rest := words - {w};
      FewPrefixes(rest, longest);
      StartsSize(w, |w|);
      OneWordMore(words, w);
      OneMore(|rest|, |words|, longest);
    }
  }

  lemma OneMore(n: nat, m: nat, longest: nat)
    requires m == n + 1
    ensures m * longest == n * longest + longest
  {
  }

  lemma OneWordMore(words: set<Word>, w: Word)
    requires w in words
    ensures |Prefixes(words)| <= |Prefixes(words - {w})| + |StartsOf(w, |w|)|
  {
    forall p | p in Prefixes(words) ensures p in Prefixes(words - {w}) + StartsOf(w, |w|) {
      if p != [] {
        var v, k :| v in words && 0 <= k <= |v| && p == v[..k];
        if v != w { assert v in words - {w}; }
      }
    }
    WordSetSize(Prefixes(words), Prefixes(words - {w}) + StartsOf(w, |w|));
  }

  lemma WordSetSize(a: set<Word>, b: set<Word>)
    requires a <= b
    ensures |a| <= |b|
  {
    assert b == a + (b - a);
  }

  /** The loop over `word_map`; words are taken in any order. */
  method BuildTrie(offsets: map<Word, int>) returns (nodes: seq<Node>)
    requires forall w :: w in offsets ==> ByteWord(w) && offsets[w] != 0
    ensures IsTrieOf(nodes, offsets) && |nodes| == |Prefixes(offsets.Keys)|
  {
    var builder := new Builder();
    var rest := offsets.Keys;
    while rest != {}
      invariant rest <= offsets.Keys && fresh(builder) && builder.Valid()
      invariant builder.words == offsets - rest && AllPrefixes(builder.paths, offsets.Keys)
      decreases |rest|
    {
      var w :| w in rest;
      OneMoreWord(offsets, rest, w);
      ghost var before := builder.paths;
      builder.AddWord(w, offsets[w]);
      MorePrefixes(before, builder.paths, offsets.Keys, w);
      rest := rest - {w};
    }
    assert builder.words == offsets;
    nodes := builder.nodes;
    NodesArePrefixes(nodes, builder.paths, offsets);
    assert WellBuilt(nodes, builder.paths, offsets);
  }

  /** The mark groups and the offset each word's group got. */
  method MarkGroups(wordMap: map<Word, set<int>>, markToCp: seq<int>)
        returns (groups: seq<int>, offsets: map<Word, int>)
    ensures offsets.Keys == wordMap.Keys
    ensures forall w :: w in wordMap ==> GroupAt(groups, offsets[w], MarksOf(markToCp, wordMap[w]))
  {
    var wordToMarks := map w | w in wordMap :: MarksOf(markToCp, wordMap[w]);
    var all := set w | w in wordMap :: wordToMarks[w];
    var groupOffsets;
    groups, groupOffsets := WriteGroups(all);
    assert forall w :: w in wordMap ==> wordToMarks[w] in all;
    offsets := map w | w in wordMap :: groupOffsets[wordToMarks[w]];
  }

  /** The tables index the word map, and can be read if their node indices fit. */
  ghost predicate IndexAlong(t: Tables, paths: seq<Word>, wordMap: map<Word, set<int>>) {
    Indexes(t, paths, wordMap) && (|t.nodes| <= MAX_NODES ==> Readable(t, paths))
  }

  ghost predicate IsIndexOf(t: Tables, wordMap: map<Word, set<int>>) {
    exists paths :: IndexAlong(t, paths, wordMap)
  }

  /** The body of `gen_names` from the mark groups on. */
  method GenNames(wordMap: map<Word, set<int>>, markToCp: seq<int>) returns (t: Tables)
    requires IndexableWords(wordMap, markToCp)
    ensures IsIndexOf(t, wordMap) && |t.nodes| == |Prefixes(wordMap.Keys)|
  {
    var groups, offsets := MarkGroups(wordMap, markToCp);
    var built := BuildTrie(offsets);
    ghost var paths :| WellBuilt(built, paths, offsets);
    var nodes, children := Serialize(built);
    t := Tables(nodes, children, groups, markToCp);
    SameChildren(built, nodes, paths);
    TablesIndexWords(t, paths, wordMap, built, offsets);
    assert IndexAlong(t, paths, wordMap);
  }

  lemma TablesIndexWords(t: Tables, paths: seq<Word>, wordMap: map<Word, set<int>>, built: seq<Node>,
        offsets: map<Word, int>)
    requires |t.nodes| == |built| == |paths| && HoldsWords(built, paths, offsets) && offsets.Keys == wordMap.Keys
    requires forall i :: 0 <= i < |built| ==> t.nodes[i].matchOffset == built[i].matchOffset
    requires forall w :: w in wordMap ==> Named(t.markToCp, wordMap[w])
    requires forall w :: w in wordMap ==> GroupAt(t.groups, offsets[w], MarksOf(t.markToCp, wordMap[w]))
    ensures Indexes(t, paths, wordMap) && GroupsInRange(t)
  {
    forall w | w in wordMap
      ensures GroupInRange(t, offsets[w])
      ensures Group(t, offsets[w]) == iset c | c in wordMap[w]
    {
      GroupDecodes(t, offsets[w], wordMap[w]);
    }
  }

  /** Every word with a given prefix contributes its codepoints to the query, and nothing
      else does: the reader's answer is the union over the words that start with the query. */
  lemma QueryIsPrefixSearch(t: Tables, paths: seq<Word>, wordMap: map<Word, set<int>>, query: Word, c: int)
    requires Indexes(t, paths, wordMap)
    ensures c in Recorded(t, paths, query) <==> exists w :: w in wordMap && query <= w && c in wordMap[w]
  {
    if c in Recorded(t, paths, query) {
      var j :| Records(t, paths, query, j, c);
      assert c in Group(t, t.nodes[j].matchOffset);
      assert paths[j] in wordMap && c in wordMap[paths[j]];
    }
    if w :| w in wordMap && query <= w && c in wordMap[w] {
      var j :| 0 <= j < |paths| && paths[j] == w;
      assert c in Group(t, t.nodes[j].matchOffset);
      assert Records(t, paths, query, j, c);
    }
  }

  /** A set of codepoints is the answer to a query: it is the union over the words that start with it. */
  ghost predicate Answers(wordMap: map<Word, set<int>>, query: Word, r: iset<int>) {
    forall c :: c in r <==> exists w :: w in wordMap && query <= w && c in wordMap[w]
  }

  lemma RecordedAnswers(t: Tables, paths: seq<Word>, wordMap: map<Word, set<int>>, query: Word)
    requires Indexes(t, paths, wordMap)
    ensures Answers(wordMap, query, Recorded(t, paths, query))
  {
    forall c
      ensures c in Recorded(t, paths, query) <==> exists w :: w in wordMap && query <= w && c in wordMap[w]
    {
      QueryIsPrefixSearch(t, paths, wordMap, query, c);
    }
  }

  /** Building the index and querying it. The node indices fit their 24 bits if and only if the
      words have no more prefixes than that; `FewPrefixes` bounds their number. */
  method Search(wordMap: map<Word, set<int>>, markToCp: seq<int>, query: Word) returns (r: iset<int>, fits: bool)
    requires IndexableWords(wordMap, markToCp) && ByteWord(query)
    ensures fits ==> Answers(wordMap, query, r)
    ensures fits <==> |Prefixes(wordMap.Keys)| <= MAX_NODES
  {
    var t := GenNames(wordMap, markToCp);
    fits := |t.nodes| <= MAX_NODES;
    r := iset{};
    if fits {
      ghost var paths :| IndexAlong(t, paths, wordMap);
      r := CodepointsForWord(t, paths, query);
      RecordedAnswers(t, paths, wordMap, query);
    }
  }

  /** What a walk to one string finds. */
  method MatchAt(t: Tables, ghost paths: seq<Word>, ghost wordMap: map<Word, set<int>>, word: Word)
    returns (answer: Option<iset<int>>)
    requires Indexes(t, paths, wordMap) && Readable(t, paths) && ByteWord(word)
    ensures answer == if word in wordMap then Some(iset c | c in wordMap[word]) else None
  {
    answer := None;
    var found, i := Walk(t, paths, word);
    if found && t.nodes[i].matchOffset != 0 {
      var group := AddMatches(t, t.nodes[i].matchOffset, iset{});
      answer := Some(group);
      assert iset{} + Group(t, t.nodes[i].matchOffset) == Group(t, t.nodes[i].matchOffset);
    }
  }

  /** Building the index and looking up one string: the node it leads to, if any, holds a match
      if and only if the string is a word, and then that match is exactly the word's codepoints. */
  method LookUp(wordMap: map<Word, set<int>>, markToCp: seq<int>, word: Word)
      returns (answer: Option<iset<int>>, fits: bool)
    requires IndexableWords(wordMap, markToCp) && ByteWord(word)
    ensures fits <==> |Prefixes(wordMap.Keys)| <= MAX_NODES
    ensures fits ==> answer == if word in wordMap then Some(iset c | c in wordMap[word]) else None
  {
    var t := GenNames(wordMap, markToCp);
    fits, answer := |t.nodes| <= MAX_NODES, None;
    if fits {
      ghost var paths :| IndexAlong(t, paths, wordMap);
      answer := MatchAt(t, paths, wordMap, word);
    }
  }
}
