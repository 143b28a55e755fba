/** Filters over lists, with and without errors, as the loops that append to a result build them. */
module Lists {
  import opened Api

  /** A test that can fail, the shape of every policy predicate. */
  type Judge<!T> = T -> Result<bool>

  function Filter<T>(s: seq<T>, keep: T -> bool): seq<T> {
    if s == [] then []
    else
      var front := Filter(s[..|s| - 1], keep);
      if keep(s[|s| - 1]) then front + [s[|s| - 1]] else front
  }

  /** The fallible filter: stops at the first element whose test fails. */
  function Select<T>(s: seq<T>, judge: Judge<T>): Result<seq<T>> {
    if s == [] then Success([])
    else
      match Select(s[..|s| - 1], judge)
      case Failure(e) => Failure(e)
      case Success(kept) =>
        match judge(s[|s| - 1])
        case Failure(e) => Failure(e)
        case Success(keep) => Success(if keep then kept + [s[|s| - 1]] else kept)
  }

  /** strings.Join. */
  function Join(parts: seq<string>, sep: string): string {
    if parts == [] then ""
    else if |parts| == 1 then parts[0]
    else Join(parts[..|parts| - 1], sep) + sep + parts[|parts| - 1]
  }

  /** One test after another; the second is asked only when the first accepts. */
  function Both<T>(first: Judge<T>, second: Judge<T>): Judge<T> {
    t => match first(t)
      case Failure(e) => Failure(e)
      case Success(keep) => if keep then second(t) else Success(false)
  }

  ghost predicate Sound<T>(s: seq<T>, judge: Judge<T>) {
    forall t :: t in s ==> judge(t).Success?
  }

  ghost predicate SameMembers<T(!new)>(s: seq<T>, s': seq<T>) {
    forall t :: t in s <==> t in s'
  }

  /** No two elements have the same key. */
  ghost predicate DistinctKeys<T>(s: seq<T>, key: T -> string) {
    forall i, j :: 0 <= i < j < |s| ==> key(s[i]) != key(s[j])
  }

  /** The first element with the key, or the length of the list. */
  function IndexOf<T>(s: seq<T>, key: T -> string, k: string): (i: nat)
    ensures i <= |s|
    ensures i < |s| ==> key(s[i]) == k
    ensures forall j :: 0 <= j < i ==> key(s[j]) != k
  {
    if s == [] then 0
    else if key(s[0]) == k then 0
    else 1 + IndexOf(s[1..], key, k)
  }

  function Accepts<T>(judge: Judge<T>): T -> bool {
    t => judge(t) == Success(true)
  }

  /** Snoc view: an element of a nonempty list is in its front or is its last. */
  lemma InFrontOrLast<T>(s: seq<T>, t: T)
    requires s != []
    ensures t in s <==> t in s[..|s| - 1] || t == s[|s| - 1]
  {
    assert s == s[..|s| - 1] + [s[|s| - 1]];
  }

  lemma {:induction false} FilterIn<T>(s: seq<T>, keep: T -> bool, t: T)
    ensures t in Filter(s, keep) <==> t in s && keep(t)
  {
    if s != [] {
      FilterIn(s[..|s| - 1], keep, t);
      InFrontOrLast(s, t);
    }
  }

  /** A fallible filter succeeds exactly when no test fails, and is then the plain filter. */
  lemma {:induction false} SelectIsFilter<T>(s: seq<T>, judge: Judge<T>)
    ensures Select(s, judge).Success? <==> Sound(s, judge)
    ensures Sound(s, judge) ==> Select(s, judge) == Success(Filter(s, Accepts(judge)))
  {
    if s != [] {
      SelectIsFilter(s[..|s| - 1], judge);
      forall t ensures t in s <==> t in s[..|s| - 1] || t == s[|s| - 1] {
        InFrontOrLast(s, t);
      }
    }
  }

  lemma SelectOne<T>(t: T, judge: Judge<T>)
    ensures Select([t], judge) ==
            if judge(t).Failure? then Failure(judge(t).error) else Success(if judge(t).value then [t] else [])
  {
    assert [t][..0] == [];
    var none: seq<T> := [];
    assert Select(none, judge) == Success(none) && none + [t] == [t];
  }

  lemma {:induction false} SelectOf<T>(s: seq<T>, judge: Judge<T>, keep: T -> bool)
    requires forall t :: t in s ==> judge(t) == Success(keep(t))
    ensures Select(s, judge) == Success(Filter(s, keep))
  {
    if s != [] {
      SelectOf(s[..|s| - 1], judge, keep);
    }
  }

  /** Two fallible filters in a row succeed exactly when the combined one does, with the same result. */
  lemma {:induction false} SelectTwice<T>(s: seq<T>, first: Judge<T>, second: Judge<T>)
    ensures var once := Select(s, first);
            var twice := if once.Success? then Select(once.value, second) else once;
            var both := Select(s, Both(first, second));
            && (twice.Success? <==> both.Success?)
            && (both.Success? ==> twice == both)
  {
    if s != [] {
      var front, last := s[..|s| - 1], s[|s| - 1];
      SelectTwice(front, first, second);
      if Select(front, first).Success? && first(last) == Success(true) {
        var kept := Select(front, first).value;
        assert (kept + [last])[..|kept + [last]| - 1] == kept;
      }
    }
  }

  /** A fallible filter that fails on a prefix fails on the whole list with the same error. */
  lemma {:induction false} SelectPrefixFails<T>(s: seq<T>, n: nat, judge: Judge<T>)
    requires n <= |s|
    ensures Select(s[..n], judge).Failure? ==> Select(s, judge) == Select(s[..n], judge)
  {
    if n < |s| {
      SelectPrefixFails(s[..|s| - 1], n, judge);
      assert s[..|s| - 1][..n] == s[..n];
    } else {
      assert s[..n] == s;
    }
  }

  /** A fallible filter that fails does so with the error of the first element whose test fails. */
  lemma {:induction false} SelectFailsAtFirst<T>(s: seq<T>, judge: Judge<T>) returns (i: nat)
    requires Select(s, judge).Failure?
    ensures i < |s| && judge(s[i]) == Failure(Select(s, judge).error)
    ensures forall j :: 0 <= j < i ==> judge(s[j]).Success?
  {
    var front, n := s[..|s| - 1], |s| - 1;
    if Select(front, judge).Failure? {
      i := SelectFailsAtFirst(front, judge);
      assert forall j :: 0 <= j < i ==> front[j] == s[j];
    } else {
      i := n;
      SelectIsFilter(front, judge);
      forall j | 0 <= j < n ensures judge(s[j]).Success? {
        assert front[j] in front;
      }
    }
  }

  // ----- which elements a list is made of, in order -----

  /** `idx` lists the members of a set of positions in increasing order. */
  ghost predicate Enumerates(idx: seq<nat>, positions: set<nat>) {
    && (forall i, j :: 0 <= i < j < |idx| ==> idx[i] < idx[j])
    && (forall k :: k in idx <==> k in positions)
  }

  lemma EnumeratesOneMore(idx: seq<nat>, positions: set<nat>, n: nat)
    requires Enumerates(idx, positions) && forall k :: k in positions ==> k < n
    ensures Enumerates(idx + [n], positions + {n})
  {
    forall i | 0 <= i < |idx| ensures idx[i] < n {
      assert idx[i] in idx;
    }
    assert (idx + [n])[|idx|] == n;
  }

  /** A filtered list holds exactly the elements that are kept, in their order. */
  lemma {:induction false} FilterPicks<T>(s: seq<T>, keep: T -> bool) returns (idx: seq<nat>)
    ensures Enumerates(idx, set i: nat | i < |s| && keep(s[i]))
    ensures |Filter(s, keep)| == |idx|
    ensures forall k :: 0 <= k < |idx| ==> idx[k] < |s| && Filter(s, keep)[k] == s[idx[k]]
  {
    idx := [];
    if s != [] {
      var front, n := s[..|s| - 1], |s| - 1;
      var before := set i: nat | i < |front| && keep(front[i]);
      var after := set i: nat | i < |s| && keep(s[i]);
      idx := FilterPicks(front, keep);
      assert forall i :: 0 <= i < n ==> front[i] == s[i];
      if keep(s[n]) {
        EnumeratesOneMore(idx, before, n);
        idx := idx + [n];
        assert after == before + {n};
      } else {
        assert after == before;
      }
    }
  }

  /** One list after the other. */
  function Flatten<T>(ss: seq<seq<T>>): seq<T> {
    if ss == [] then [] else Flatten(ss[..|ss| - 1]) + ss[|ss| - 1]
  }

  /** With the two simplest cases, this fixes what Flatten is. */
  lemma {:induction false} FlattenLaws<T>(a: seq<seq<T>>, b: seq<seq<T>>, s: seq<T>)
    ensures Flatten<T>([]) == [] && Flatten([s]) == s
    ensures Flatten(a + b) == Flatten(a) + Flatten(b)
  {
    assert [s][..0] == [];
    if b == [] {
      assert a + b == a;
    } else {
      assert (a + b)[..|a + b| - 1] == a + b[..|b| - 1];
      FlattenLaws(a, b[..|b| - 1], s);
    }
  }

  lemma {:induction false} FlattenIn<T>(ss: seq<seq<T>>, t: T)
    ensures t in Flatten(ss) <==> exists i :: 0 <= i < |ss| && t in ss[i]
  {
    if ss != [] {
      var front := ss[..|ss| - 1];
      FlattenIn(front, t);
      assert forall i :: 0 <= i < |front| ==> front[i] == ss[i];
      if t in Flatten(ss) && t !in Flatten(front) {
        assert t in ss[|ss| - 1];
      }
    }
  }

  lemma {:induction false} FlattenIsEmptyIff<T>(ss: seq<seq<T>>)
    ensures Flatten(ss) == [] <==> forall i :: 0 <= i < |ss| ==> ss[i] == []
  {
    if ss != [] {
      var front := ss[..|ss| - 1];
      FlattenIsEmptyIff(front);
      assert forall i :: 0 <= i < |front| ==> front[i] == ss[i];
    }
  }

  /** Parts in order, with one separator between neighbours: with the two simplest cases, this
      fixes what Join is. */
  lemma {:induction false} JoinLaws(a: seq<string>, b: seq<string>, part: string, sep: string)
    ensures Join([], sep) == "" && Join([part], sep) == part
    ensures a != [] && b != [] ==> Join(a + b, sep) == Join(a, sep) + sep + Join(b, sep)
  {
    if a != [] && b != [] {
      assert (a + b)[..|a + b| - 1] == a + b[..|b| - 1];
      if |b| == 1 {
        assert a + b[..0] == a;
      } else {
        JoinLaws(a, b[..|b| - 1], part, sep);
      }
    }
  }
}
