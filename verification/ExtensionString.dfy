/** `_glfwStringInExtensionString` of glfw/context.c: a search for a whole token in a list separated
    by spaces. Positions stand for pointers; position |list| holds the terminating NUL. */
module ExtensionString {

  predicate Match(list: string, name: string, at: nat) {
    at + |name| <= |list| && forall i :: 0 <= i < |name| ==> list[at + i] == name[i]
  }

  predicate EndsAt(list: string, at: nat) { at == |list| || (at < |list| && list[at] == ' ') }

  predicate AfterSpace(list: string, at: nat) { 0 < at <= |list| && list[at - 1] == ' ' }

  /** The name is one of the tokens. */
  ghost predicate IsToken(list: string, name: string) {
    exists at: nat :: TokenAt(list, name, at)
  }

  predicate TokenAt(list: string, name: string, at: nat) {
    Match(list, name, at) && (at == 0 || AfterSpace(list, at)) && EndsAt(list, at + |name|)
  }

  predicate SpaceFree(name: string) { forall i :: 0 <= i < |name| ==> name[i] != ' ' }

  /** `strstr` from a position: the first match, or -1. */
  function Strstr(list: string, name: string, from: nat): (at: int)
    requires from <= |list|
    ensures at == -1 || (from <= at && Match(list, name, at))
    ensures forall p: nat :: from <= p && (at < 0 || p < at) ==> !Match(list, name, p)
    decreases |list| - from
  {
    if Match(list, name, from) then from
    else if from == |list| then -1
    else Strstr(list, name, from + 1)
  }

  /** The loop from a given start. */
  predicate Search(list: string, name: string, start: nat)
    requires name != "" && start <= |list|
    decreases |list| - start
  {
    var at := Strstr(list, name, start);
    at >= 0 && (((at == start || AfterSpace(list, at)) && EndsAt(list, at + |name|))
                || Search(list, name, at + |name|))
  }

  /** `_glfwStringInExtensionString`. */
  method StringInExtensionString(name: string, list: string) returns (found: bool)
    requires name != ""
    ensures found == Search(list, name, 0)
  {
    var start := 0;
    while true
      invariant start <= |list|
      invariant Search(list, name, 0) == Search(list, name, start)
      decreases |list| - start
    {
      var at := Strstr(list, name, start);
      if at < 0 { return false; }
      var terminator := at + |name|;
      if at == start || list[at - 1] == ' ' {
        if terminator == |list| || list[terminator] == ' ' { return true; }
      }
      start := terminator;
    }
  }

  // ----- no token is missed -----

  lemma NoSpaceInside(list: string, name: string, hit: nat, at: nat)
    requires Match(list, name, hit) && SpaceFree(name) && hit < at <= hit + |name|
    ensures !AfterSpace(list, at)
  {
    assert list[hit + (at - 1 - hit)] == name[at - 1 - hit];
  }

  /** Skipping to the end of a failed match loses no token. */
  lemma {:induction false} TokenIsFound(list: string, name: string, start: nat, at: nat)
    requires name != "" && SpaceFree(name) && start <= at && TokenAt(list, name, at)
    ensures Search(list, name, start)
    decreases |list| - start
  {
    var hit := Strstr(list, name, start);
    if hit < at {
      if at < hit + |name| {
        NoSpaceInside(list, name, hit, at);
      }
      TokenIsFound(list, name, hit + |name|, at);
    }
  }

  // ----- exactly when the search succeeds -----

  /** The matches the search looks at: leftmost first, without overlap. */
  function Hits(list: string, name: string, from: nat): (hits: seq<nat>)
    requires name != "" && from <= |list|
    ensures forall k :: 0 <= k < |hits| ==> Match(list, name, hits[k])
    decreases |list| - from
  {
    var at := Strstr(list, name, from);
    if at < 0 then [] else [at] + Hits(list, name, at + |name|)
  }

  /** Hit `k` directly follows the hit before it and ends a token. */
  predicate ChainedAt(list: string, name: string, k: nat)
    requires name != ""
  {
    var hits := Hits(list, name, 0);
    0 < k < |hits| && hits[k] == hits[k - 1] + |name| && EndsAt(list, hits[k] + |name|)
  }

  predicate Accepts(list: string, name: string, start: nat, hits: seq<nat>, k: nat) {
    && k < |hits| && EndsAt(list, hits[k] + |name|)
    && (hits[k] == (if k == 0 then start else hits[k - 1] + |name|) || AfterSpace(list, hits[k]))
  }

  lemma {:induction false} SearchSucceedsAtHit(list: string, name: string, start: nat) returns (k: nat)
    requires name != "" && start <= |list| && Search(list, name, start)
    ensures Accepts(list, name, start, Hits(list, name, start), k)
    decreases |list| - start
  {
    var at := Strstr(list, name, start);
    if (at == start || AfterSpace(list, at)) && EndsAt(list, at + |name|) {
      k := 0;
    } else {
      var m := SearchSucceedsAtHit(list, name, at + |name|);
      k := m + 1;
    }
  }

  lemma {:induction false} HitMakesSearchSucceed(list: string, name: string, start: nat, k: nat)
    requires name != "" && start <= |list| && Accepts(list, name, start, Hits(list, name, start), k)
    ensures Search(list, name, start)
    decreases |list| - start
  {
    if k > 0 {
      HitMakesSearchSucceed(list, name, Strstr(list, name, start) + |name|, k - 1);
    }
  }

  /** The search succeeds exactly on tokens and on names that end a token right after another hit of
      the same name: there `where == start` passes for the start of a token. */
  lemma SearchIffTokenOrChained(list: string, name: string)
    requires name != "" && SpaceFree(name)
    ensures Search(list, name, 0) <==> IsToken(list, name) || exists k: nat :: ChainedAt(list, name, k)
  {
    var hits := Hits(list, name, 0);
    if Search(list, name, 0) {
      var k := SearchSucceedsAtHit(list, name, 0);
      assert TokenAt(list, name, hits[k]) || ChainedAt(list, name, k);
    }
    if IsToken(list, name) {
      var at: nat :| TokenAt(list, name, at);
      TokenIsFound(list, name, 0, at);
    }
    forall k: nat | ChainedAt(list, name, k)
      ensures Search(list, name, 0)
    {
      HitMakesSearchSucceed(list, name, 0, k);
    }
  }

  /** Whole-token search, for every name that never occurs immediately after itself in the list. */
  lemma SearchFindsWholeTokens(list: string, name: string)
    requires name != "" && SpaceFree(name)
    requires forall at: nat :: Match(list, name, at) ==> !Match(list, name, at + |name|)
    ensures Search(list, name, 0) <==> IsToken(list, name)
  {
    SearchIffTokenOrChained(list, name);
    forall k: nat
      ensures !ChainedAt(list, name, k)
    {
      var hits := Hits(list, name, 0);
      if 0 < k < |hits| {
        assert Match(list, name, hits[k - 1]) && Match(list, name, hits[k]);
      }
    }
  }

  /** The condition is needed: here the name is found although it is not a token. */
  lemma DoubledNameIsMistaken()
    ensures Search("GL_xGL_x", "GL_x", 0) && !IsToken("GL_xGL_x", "GL_x")
  {
    var list, name := "GL_xGL_x", "GL_x";
    assert Match(list, name, 0) && list[4..8] == name;
    assert Strstr(list, name, 0) == 0 && Strstr(list, name, 4) == 4;
    forall at: nat ensures !TokenAt(list, name, at) {
      if 0 < at <= |list| {
        assert list[at - 1] != ' ';
      }
    }
  }
}
