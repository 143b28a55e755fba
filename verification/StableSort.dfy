/** Go's string order, and the stable sort by a string key that puts reported names in order. */
module StableSort {
  import opened Lists

  /** Lexicographic order by rune, which for valid UTF-8 is Go's order on strings. */
  predicate Less(a: string, b: string) {
    b != [] && (a == [] || a[0] < b[0] || (a[0] == b[0] && Less(a[1..], b[1..])))
  }

  /** One string is less than another when it is a proper prefix of it, or has the smaller rune
      where they first differ. */
  lemma {:induction false} LessIsLexicographic(a: string, b: string)
    ensures Less(a, b) <==>
            || (|a| < |b| && a == b[..|a|])
            || exists k :: 0 <= k < |a| && k < |b| && a[..k] == b[..k] && a[k] < b[k]
  {
    if a != [] && b != [] && a[0] == b[0] {
      LessIsLexicographic(a[1..], b[1..]);
      if |a| < |b| {
        assert a == [a[0]] + a[1..] && b[..|a|] == [b[0]] + b[1..][..|a| - 1];
      }
      if k :| 0 <= k < |a| && k < |b| && a[..k] == b[..k] && a[k] < b[k] {
        assert a[1..][..k - 1] == a[..k][1..] && b[1..][..k - 1] == b[..k][1..];
        assert a[1..][k - 1] < b[1..][k - 1];
      }
      if k :| 0 <= k < |a| - 1 && k < |b| - 1 && a[1..][..k] == b[1..][..k] && a[1..][k] < b[1..][k] {
        assert a[..k + 1] == [a[0]] + a[1..][..k] && b[..k + 1] == [b[0]] + b[1..][..k];
        assert a[k + 1] < b[k + 1];
      }
    } else if a != [] && b != [] && a[0] < b[0] {
      assert a[..0] == b[..0];
    } else if a != [] && b != [] {
      forall k | 0 < k < |a| && k < |b| ensures a[..k] != b[..k] {
        assert a[..k][0] != b[..k][0];
      }
    }
  }

  lemma {:induction false} LessIsTotal(a: string, b: string)
    ensures (if Less(a, b) then 1 else 0) + (if Less(b, a) then 1 else 0) + (if a == b then 1 else 0) == 1
  {
    if a != [] && b != [] {
      LessIsTotal(a[1..], b[1..]);
      assert a == [a[0]] + a[1..] && b == [b[0]] + b[1..];
    }
  }

  lemma {:induction false} LessIsTransitive(a: string, b: string, c: string)
    requires Less(a, b) && Less(b, c)
    ensures Less(a, c)
  {
    if a != [] && a[0] == b[0] == c[0] {
      LessIsTransitive(a[1..], b[1..], c[1..]);
    }
  }

  /** Puts x behind every element whose key is not greater. */
  function Insert<T>(s: seq<T>, x: T, key: T -> string): seq<T> {
    if s == [] || !Less(key(x), key(s[|s| - 1])) then s + [x]
    else Insert(s[..|s| - 1], x, key) + [s[|s| - 1]]
  }

  function Sort<T>(s: seq<T>, key: T -> string): seq<T> {
    if s == [] then [] else Insert(Sort(s[..|s| - 1], key), s[|s| - 1], key)
  }

  ghost predicate Sorted<T>(s: seq<T>, key: T -> string) {
    forall i, j :: 0 <= i < j < |s| ==> !Less(key(s[j]), key(s[i]))
  }

  function HasKey<T>(key: T -> string, name: string): T -> bool {
    (t: T) => key(t) == name
  }

  /** An element whose key is not less than the last one's is not less than any. */
  lemma LastIsGreatest<T>(s: seq<T>, x: T, key: T -> string, i: nat)
    requires Sorted(s, key) && i < |s| && !Less(key(x), key(s[|s| - 1]))
    ensures !Less(key(x), key(s[i]))
  {
    var last := s[|s| - 1];
    if Less(key(x), key(s[i])) {
      LessIsTotal(key(s[i]), key(last));
      if Less(key(s[i]), key(last)) {
        LessIsTransitive(key(x), key(s[i]), key(last));
      }
    }
  }

  lemma SortedOneMore<T>(s: seq<T>, x: T, key: T -> string)
    requires Sorted(s, key) && forall i :: 0 <= i < |s| ==> !Less(key(x), key(s[i]))
    ensures Sorted(s + [x], key)
  {
  }

  lemma {:induction false} InsertIs<T>(s: seq<T>, x: T, key: T -> string)
    requires Sorted(s, key)
    ensures Sorted(Insert(s, x, key), key)
    ensures multiset(Insert(s, x, key)) == multiset(s) + multiset{x}
  {
    if s == [] || !Less(key(x), key(s[|s| - 1])) {
      forall i | 0 <= i < |s| ensures !Less(key(x), key(s[i])) {
        LastIsGreatest(s, x, key, i);
      }
      SortedOneMore(s, x, key);
    } else {
      var front, last := s[..|s| - 1], s[|s| - 1];
      assert s == front + [last];
      InsertIs(front, x, key);
      var r := Insert(front, x, key);
      forall i | 0 <= i < |r| ensures !Less(key(last), key(r[i])) {
        assert r[i] in multiset(r);
        LessIsTotal(key(x), key(last));
      }
      SortedOneMore(r, last, key);
    }
  }

  lemma {:induction false} InsertIsStable<T>(s: seq<T>, x: T, key: T -> string, name: string)
    ensures Filter(Insert(s, x, key), HasKey(key, name)) == Filter(s + [x], HasKey(key, name))
  {
    assert (s + [x])[..|s|] == s;
    if s != [] && Less(key(x), key(s[|s| - 1])) {
      var front, last := s[..|s| - 1], s[|s| - 1];
      InsertIsStable(front, x, key, name);
      LessIsTotal(key(x), key(last));
      var r := Insert(front, x, key);
      assert (front + [x])[..|front|] == front && (r + [last])[..|r|] == r;
    }
  }

  /** The result is sorted, holds the same elements, and keeps equal keys in list order. */
  lemma {:induction false} SortIsStable<T>(s: seq<T>, key: T -> string)
    ensures Sorted(Sort(s, key), key)
    ensures multiset(Sort(s, key)) == multiset(s)
    ensures forall name :: Filter(Sort(s, key), HasKey(key, name)) == Filter(s, HasKey(key, name))
  {
    if s != [] {
      var front, last := s[..|s| - 1], s[|s| - 1];
      assert s == front + [last];
      SortIsStable(front, key);
      InsertIs(Sort(front, key), last, key);
      forall name ensures Filter(Sort(s, key), HasKey(key, name)) == Filter(s, HasKey(key, name)) {
        var sorted := Sort(front, key);
        InsertIsStable(sorted, last, key, name);
        assert (sorted + [last])[..|sorted|] == sorted;
      }
    }
  }

  ghost predicate Increasing<T>(s: seq<T>, key: T -> string) {
    forall i, j :: 0 <= i < j < |s| ==> Less(key(s[i]), key(s[j]))
  }

  /** A list in strictly increasing order is determined by its elements. */
  lemma {:induction false} IncreasingIsUnique<T(!new)>(a: seq<T>, b: seq<T>, key: T -> string)
    requires Increasing(a, key) && Increasing(b, key) && SameMembers(a, b)
    ensures a == b
    decreases |a|
  {
    if b != [] {
      assert b[0] in a;
    }
    if a != [] {
      assert a[0] in b;
      SameLast(a, b, key);
      SameFronts(a, b, key);
      IncreasingIsUnique(a[..|a| - 1], b[..|b| - 1], key);
      assert a == a[..|a| - 1] + [a[|a| - 1]] && b == b[..|b| - 1] + [b[|b| - 1]];
    }
  }

  lemma SameLast<T(!new)>(a: seq<T>, b: seq<T>, key: T -> string)
    requires a != [] && b != [] && Increasing(a, key) && Increasing(b, key) && SameMembers(a, b)
    ensures a[|a| - 1] == b[|b| - 1]
  {
    var x, y := a[|a| - 1], b[|b| - 1];
    assert y in a && x in b;
    var i :| 0 <= i < |a| && a[i] == y;
    var j :| 0 <= j < |b| && b[j] == x;
    LessIsTotal(key(x), key(y));
  }

  lemma SameFronts<T(!new)>(a: seq<T>, b: seq<T>, key: T -> string)
    requires a != [] && b != [] && Increasing(a, key) && Increasing(b, key) && SameMembers(a, b)
    requires a[|a| - 1] == b[|b| - 1]
    ensures SameMembers(a[..|a| - 1], b[..|b| - 1])
  {
    var fa, fb := a[..|a| - 1], b[..|b| - 1];
    forall t ensures t in fa <==> t in fb {
      LastNotInFront(a, t, key);
      LastNotInFront(b, t, key);
    }
  }

  lemma LastNotInFront<T>(a: seq<T>, t: T, key: T -> string)
    requires a != [] && Increasing(a, key)
    ensures t in a[..|a| - 1] <==> t in a && t != a[|a| - 1]
  {
    InFrontOrLast(a, t);
    LessIsTotal(key(t), key(t));
  }

  lemma {:induction false} SortIncreases<T(!new)>(a: seq<T>, key: T -> string)
    requires DistinctKeys(a, key)
    ensures Increasing(Sort(a, key), key) && SameMembers(Sort(a, key), a)
  {
    SortIsStable(a, key);
    var s := Sort(a, key);
    forall t ensures t in s <==> t in a {
      assert t in multiset(s) <==> t in multiset(a);
    }
    forall i, j | 0 <= i < j < |s| ensures Less(key(s[i]), key(s[j])) {
      LessIsTotal(key(s[i]), key(s[j]));
      if key(s[i]) == key(s[j]) {
        TwiceInFilter(s, i, j, key);
        OnceInFilter(a, key, key(s[i]));
      }
    }
  }

  lemma {:induction false} TwiceInFilter<T>(s: seq<T>, i: nat, j: nat, key: T -> string)
    requires i < j < |s| && key(s[i]) == key(s[j])
    ensures |Filter(s, HasKey(key, key(s[i])))| >= 2
  {
    var front := s[..|s| - 1];
    if j < |s| - 1 {
      TwiceInFilter(front, i, j, key);
    } else {
      FilterIn(front, HasKey(key, key(s[i])), s[i]);
      assert s[i] == front[i];
    }
  }

  lemma {:induction false} OnceInFilter<T>(a: seq<T>, key: T -> string, name: string)
    requires DistinctKeys(a, key)
    ensures |Filter(a, HasKey(key, name))| <= 1
  {
    if a != [] {
      var front, last := a[..|a| - 1], a[|a| - 1];
      OnceInFilter(front, key, name);
      if key(last) == name && Filter(front, HasKey(key, name)) != [] {
        var m := Filter(front, HasKey(key, name))[0];
        FilterIn(front, HasKey(key, name), m);
        assert false;
      }
    }
  }

  /** The same elements under distinct keys sort to the same list. */
  lemma DistinctKeysSortAlike<T(!new)>(a: seq<T>, b: seq<T>, key: T -> string)
    requires DistinctKeys(a, key) && DistinctKeys(b, key) && SameMembers(a, b)
    ensures Sort(a, key) == Sort(b, key)
  {
    SortIncreases(a, key);
    SortIncreases(b, key);
    IncreasingIsUnique(Sort(a, key), Sort(b, key), key);
  }
}
