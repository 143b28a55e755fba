/** The wildcard language of pkg/internal/util/wildcard.go.  A pattern and a text are
    sequences of runes; a Dafny `char` is a Unicode scalar value, as a Go rune obtained
    from a string is.  `*` stands for any text, including the empty one. */
module Wildcard {

  /** Declarative meaning: the pattern with its stars replaced, left to right, by fillers. */
  function Stars(p: string): nat {
    if p == [] then 0 else (if p[0] == '*' then 1 else 0) + Stars(p[1..])
  }

  function Fill(p: string, fillers: seq<string>): string
    requires |fillers| == Stars(p)
    decreases p
  {
    if p == [] then []
    else if p[0] == '*' then fillers[0] + Fill(p[1..], fillers[1..])
    else [p[0]] + Fill(p[1..], fillers)
  }

  ghost predicate FilledBy(p: string, fillers: seq<string>, s: string) {
    |fillers| == Stars(p) && Fill(p, fillers) == s
  }

  ghost predicate Denotes(p: string, s: string) {
    exists fillers :: FilledBy(p, fillers, s)
  }

  /** The decision procedure as a recursive predicate. */
  predicate Matches(p: string, s: string)
    decreases |p| + |s|
  {
    if p == [] then s == []
    else if p[0] == '*' then Matches(p[1..], s) || (s != [] && Matches(p, s[1..]))
    else s != [] && s[0] == p[0] && Matches(p[1..], s[1..])
  }

  // ----- the declarative meaning is exactly what is decided -----

  lemma {:induction false} MatchGivesFillers(p: string, s: string) returns (fillers: seq<string>)
    requires Matches(p, s)
    ensures FilledBy(p, fillers, s)
    decreases |p| + |s|
  {
    if p == [] {
      fillers := [];
    } else if p[0] != '*' {
      fillers := MatchGivesFillers(p[1..], s[1..]);
    } else if Matches(p[1..], s) {
      var rest := MatchGivesFillers(p[1..], s);
      fillers := [[]] + rest;
      assert fillers[1..] == rest;
    } else {
      var rest := MatchGivesFillers(p, s[1..]);
      fillers := [[s[0]] + rest[0]] + rest[1..];
      assert fillers[1..] == rest[1..];
    }
  }

  lemma {:induction false} FillersGiveMatch(p: string, fillers: seq<string>, s: string)
    requires FilledBy(p, fillers, s)
    ensures Matches(p, s)
    decreases |p| + |s|
  {
    if p == [] {
    } else if p[0] != '*' {
      assert s[1..] == Fill(p[1..], fillers);
      FillersGiveMatch(p[1..], fillers, s[1..]);
    } else if fillers[0] == [] {
      assert s == Fill(p[1..], fillers[1..]);
      FillersGiveMatch(p[1..], fillers[1..], s);
    } else {
      var shorter := [fillers[0][1..]] + fillers[1..];
      assert shorter[1..] == fillers[1..];
      assert s[1..] == Fill(p, shorter);
      FillersGiveMatch(p, shorter, s[1..]);
    }
  }

  /** A text matches exactly when some choice of fillers turns the pattern into it. */
  lemma MatchesIffFillersExist(p: string, s: string)
    ensures Matches(p, s) <==> Denotes(p, s)
  {
    if Matches(p, s) {
      var fillers := MatchGivesFillers(p, s);
    }
    if fillers :| FilledBy(p, fillers, s) {
      FillersGiveMatch(p, fillers, s);
    }
  }

  // ----- the order on patterns -----

  lemma {:induction false} StarMatchesAll(s: string)
    ensures Matches("*", s)
  {
    if s != [] { StarMatchesAll(s[1..]); }
  }

  lemma {:induction false} MatchesReflexive(p: string)
    ensures Matches(p, p)
  {
    if p == [] {
    } else if p[0] == '*' {
      MatchesReflexive(p[1..]);
      assert Matches(p, p[1..]);
    } else {
      MatchesReflexive(p[1..]);
    }
  }

  /** If p matches the pattern q read as a text, then p matches whatever q matches. */
  lemma {:induction false} MatchesTransitive(p: string, q: string, s: string)
    requires Matches(p, q) && Matches(q, s)
    ensures Matches(p, s)
    decreases |p| + |q| + |s|
  {
    if p == [] {
    } else if p[0] != '*' {
      MatchesTransitive(p[1..], q[1..], s[1..]);
    } else if Matches(p[1..], q) {
      MatchesTransitive(p[1..], q, s);
    } else if q[0] != '*' {
      MatchesTransitive(p, q[1..], s[1..]);
    } else if Matches(q[1..], s) {
      MatchesTransitive(p, q[1..], s);
    } else {
      MatchesTransitive(p, q, s[1..]);
    }
  }

  /** Matching a pattern as a text decides inclusion of the languages. */
  lemma MatchesDecidesInclusion(p: string, q: string)
    ensures Matches(p, q) <==> forall s :: Matches(q, s) ==> Matches(p, s)
  {
    if Matches(p, q) {
      forall s | Matches(q, s) ensures Matches(p, s) {
        MatchesTransitive(p, q, s);
      }
    }
    MatchesReflexive(q);
  }

  /** A pattern without a star matches itself and nothing else. */
  lemma {:induction false} LiteralMatchesOnlyItself(p: string, s: string)
    requires '*' !in p
    ensures Matches(p, s) <==> p == s
    decreases p
  {
    if p != [] && s != [] {
      LiteralMatchesOnlyItself(p[1..], s[1..]);
      assert p == [p[0]] + p[1..] && s == [s[0]] + s[1..];
    }
  }

  /** A text matches a concatenation exactly when it splits into a match of each part. */
  lemma {:induction false} ConcatMatchesIffSplit(p: string, q: string, s: string)
    ensures Matches(p + q, s) <==> exists k: nat :: k <= |s| && Matches(p, s[..k]) && Matches(q, s[k..])
    decreases |p| + |s|
  {
    if Matches(p + q, s) {
      var k := SplitOf(p, q, s);
    }
    if k: nat :| k <= |s| && Matches(p, s[..k]) && Matches(q, s[k..]) {
      JoinOf(p, q, s, k);
    }
  }

  lemma {:induction false} SplitOf(p: string, q: string, s: string) returns (k: nat)
    requires Matches(p + q, s)
    ensures k <= |s| && Matches(p, s[..k]) && Matches(q, s[k..])
    decreases |p| + |s|
  {
    if p == [] {
      k := 0;
      assert p + q == q && s[0..] == s;
    } else {
      assert (p + q)[1..] == p[1..] + q;
      if p[0] == '*' && Matches(p[1..] + q, s) {
        k := SplitOf(p[1..], q, s);
      } else {
        var j := SplitOf(if p[0] == '*' then p else p[1..], q, s[1..]);
        k := j + 1;
        assert s[..k][1..] == s[1..][..j] && s[k..] == s[1..][j..];
      }
    }
  }

  lemma {:induction false} JoinOf(p: string, q: string, s: string, k: nat)
    requires k <= |s| && Matches(p, s[..k]) && Matches(q, s[k..])
    ensures Matches(p + q, s)
    decreases |p| + |s|
  {
    if p == [] {
      assert p + q == q && s[0..] == s;
    } else {
      assert (p + q)[1..] == p[1..] + q;
      if p[0] == '*' && Matches(p[1..], s[..k]) {
        JoinOf(p[1..], q, s, k);
      } else {
        assert s[..k][1..] == s[1..][..k - 1] && s[k..] == s[1..][k - 1..];
        JoinOf(if p[0] == '*' then p else p[1..], q, s[1..], k - 1);
      }
    }
  }

  // ----- lists of patterns -----

  predicate Contains(patterns: seq<string>, member: string) {
    exists i :: 0 <= i < |patterns| && Matches(patterns[i], member)
  }

  predicate Subset(patterns: seq<string>, members: seq<string>) {
    forall j :: 0 <= j < |members| ==> Contains(patterns, members[j])
  }

  lemma ContainsIffDenoted(patterns: seq<string>, member: string)
    ensures Contains(patterns, member) <==> exists p :: p in patterns && Denotes(p, member)
  {
    forall p { MatchesIffFillersExist(p, member); }
    if p :| p in patterns && Denotes(p, member) {
      var i :| 0 <= i < |patterns| && patterns[i] == p;
    }
  }

  lemma SubsetReflexive(ps: seq<string>)
    ensures Subset(ps, ps)
  {
    forall j | 0 <= j < |ps| ensures Contains(ps, ps[j]) {
      MatchesReflexive(ps[j]);
    }
  }

  lemma ContainsThroughSubset(ps: seq<string>, qs: seq<string>, s: string)
    requires Subset(ps, qs) && Contains(qs, s)
    ensures Contains(ps, s)
  {
    var j :| 0 <= j < |qs| && Matches(qs[j], s);
    var i :| 0 <= i < |ps| && Matches(ps[i], qs[j]);
    MatchesTransitive(ps[i], qs[j], s);
  }

  lemma SubsetTransitive(ps: seq<string>, qs: seq<string>, rs: seq<string>)
    requires Subset(ps, qs) && Subset(qs, rs)
    ensures Subset(ps, rs)
  {
    forall j | 0 <= j < |rs| ensures Contains(ps, rs[j]) {
      ContainsThroughSubset(ps, qs, rs[j]);
    }
  }

  /** Checking the patterns of one list as members of another decides inclusion of the
      languages of the lists. */
  lemma SubsetDecidesInclusion(ps: seq<string>, qs: seq<string>)
    ensures Subset(ps, qs) <==> forall s :: Contains(qs, s) ==> Contains(ps, s)
  {
    if Subset(ps, qs) {
      forall s | Contains(qs, s) ensures Contains(ps, s) {
        ContainsThroughSubset(ps, qs, s);
      }
    }
    if forall s :: Contains(qs, s) ==> Contains(ps, s) {
      forall j | 0 <= j < |qs| ensures Contains(ps, qs[j]) {
        MatchesReflexive(qs[j]);
      }
    }
  }

  // ----- the functions of the source -----

  /** matchRunes: consumes literals in a loop and branches on a star. */
  method MatchRunes(pattern: string, str: string) returns (matched: bool)
    ensures matched <==> Matches(pattern, str)
    ensures matched <==> Denotes(pattern, str)
    decreases |pattern| + |str|
  {
    MatchesIffFillersExist(pattern, str);
    var p, s := pattern, str;
    while |p| > 0
      invariant Matches(p, s) <==> Matches(pattern, str)
      invariant |p| + |s| <= |pattern| + |str|
      decreases |p|
    {
      if p[0] == '*' {
        matched := MatchRunes(p[1..], s);
        if !matched && |s| > 0 {
          matched := MatchRunes(p, s[1..]);
        }
        return;
      }
      if |s| == 0 || s[0] != p[0] {
        return false;
      }
      s := s[1..];
      p := p[1..];
    }
    matched := |s| == 0 && |p| == 0;
  }

  /** WildcardMatches: the two shortcuts agree with the general procedure. */
  method WildcardMatches(pattern: string, str: string) returns (matched: bool)
    ensures matched <==> Matches(pattern, str)
    ensures matched <==> Denotes(pattern, str)
  {
    MatchesIffFillersExist(pattern, str);
    if |pattern| == 0 {
      return |str| == 0;
    }
    if pattern == "*" {
      StarMatchesAll(str);
      return true;
    }
    matched := MatchRunes(pattern, str);
  }

  method WildcardContains(patterns: seq<string>, member: string) returns (found: bool)
    ensures found <==> Contains(patterns, member)
  {
    for i := 0 to |patterns|
      invariant forall k :: 0 <= k < i ==> !Matches(patterns[k], member)
    {
      var matched := WildcardMatches(patterns[i], member);
      if matched {
        return true;
      }
    }
    found := false;
  }

  method WildcardSubset(patterns: seq<string>, members: seq<string>) returns (subset: bool)
    ensures subset <==> Subset(patterns, members)
  {
    for j := 0 to |members|
      invariant forall k :: 0 <= k < j ==> Contains(patterns, members[k])
    {
      var found := WildcardContains(patterns, members[j]);
      if !found {
        return false;
      }
    }
    subset := true;
  }
}
