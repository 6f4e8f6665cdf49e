/** Descending sort by an integer key, as `sort_values(..., ascending=False)`
    and `value_counts()` use it. Ties keep their input order. */
module Sorting {
  import opened Base

  predicate NonIncreasing<T>(s: seq<T>, key: T -> int) {
    forall i, j :: 0 <= i < j < |s| ==> key(s[i]) >= key(s[j])
  }

  /** `lt` holds between every element and every later one. */
  predicate Ordered<T>(s: seq<T>, lt: (T, T) -> bool) {
    forall i, j :: 0 <= i < j < |s| ==> lt(s[i], s[j])
  }

  /** Descending by `key`, and by `lt` among equal keys. */
  predicate LexDesc<T>(s: seq<T>, key: T -> int, lt: (T, T) -> bool) {
    forall i, j :: 0 <= i < j < |s| ==>
      key(s[i]) > key(s[j]) || (key(s[i]) == key(s[j]) && lt(s[i], s[j]))
  }

  /** Puts `x` in front of the first element whose key is not above its own. */
  function Insert<T>(x: T, t: seq<T>, key: T -> int): (r: seq<T>)
    ensures multiset(r) == multiset(t) + multiset{x}
    ensures |r| == |t| + 1
    decreases |t|
  {
    if t == [] || key(t[0]) <= key(x) then [x] + t
    else
      assert t == [t[0]] + t[1..];
      [t[0]] + Insert(x, t[1..], key)
  }

  /** Stable insertion sort, largest key first. */
  function SortDesc<T>(s: seq<T>, key: T -> int): (r: seq<T>)
    ensures multiset(r) == multiset(s)
    ensures |r| == |s|
    decreases |s|
  {
    if s == [] then []
    else
      assert s == [s[0]] + s[1..];
      Insert(s[0], SortDesc(s[1..], key), key)
  }

  lemma {:induction false} InsertNonIncreasing<T>(x: T, t: seq<T>, key: T -> int)
    requires NonIncreasing(t, key)
    ensures NonIncreasing(Insert(x, t, key), key)
    decreases |t|
  {
    if t == [] || key(t[0]) <= key(x) {
    } else {
      var rest := Insert(x, t[1..], key);
      InsertNonIncreasing(x, t[1..], key);
      var r := [t[0]] + rest;
      forall j | 0 < j < |r|
        ensures key(r[0]) >= key(r[j])
      {
        var e := r[j];
        assert e in multiset(rest);
        assert e in multiset(t[1..]) + multiset{x};
        if e == x {
        } else {
          assert e in multiset(t[1..]);
          assert e in t[1..];
          var k :| 0 <= k < |t[1..]| && t[1..][k] == e;
          assert t[k + 1] == e;
        }
      }
    }
  }

  /** The sort's output is ordered by key, largest first. */
  /** In a list sorted largest first, an element left out of a prefix has a
      key no larger than any element of the prefix. */
  lemma {:induction false} DroppedNotAbove<T>(sorted: seq<T>, key: T -> int, n: nat, out: T, kept: T)
    requires NonIncreasing(sorted, key) && n <= |sorted|
    requires out in multiset(sorted) - multiset(sorted[..n])
    requires kept in sorted[..n]
    ensures key(out) <= key(kept)
  {
    var top := sorted[..n];
    var rest := sorted[n..];
    assert sorted == top + rest;
    assert multiset(sorted) == multiset(top) + multiset(rest);
    assert out in multiset(rest);
    var j :| 0 <= j < |rest| && rest[j] == out;
    var i :| 0 <= i < n && top[i] == kept;
    assert sorted[i] == kept && sorted[n + j] == out;
  }

  lemma {:induction false} SortDescNonIncreasing<T>(s: seq<T>, key: T -> int)
    ensures NonIncreasing(SortDesc(s, key), key)
    decreases |s|
  {
    if s != [] {
      SortDescNonIncreasing(s[1..], key);
      InsertNonIncreasing(s[0], SortDesc(s[1..], key), key);
    }
  }

  lemma {:induction false} InsertLexDesc<T>(x: T, t: seq<T>, key: T -> int, lt: (T, T) -> bool)
    requires LexDesc(t, key, lt)
    requires forall k :: 0 <= k < |t| ==> lt(x, t[k])
    requires NonIncreasing(t, key)
    ensures LexDesc(Insert(x, t, key), key, lt)
    decreases |t|
  {
    if t == [] || key(t[0]) <= key(x) {
      var r := [x] + t;
      forall i, j | 0 <= i < j < |r|
        ensures key(r[i]) > key(r[j]) || (key(r[i]) == key(r[j]) && lt(r[i], r[j]))
      {
        if i == 0 {
          assert r[j] == t[j - 1];
          assert key(t[0]) >= key(t[j - 1]);
        } else {
          assert r[i] == t[i - 1] && r[j] == t[j - 1];
        }
      }
    } else {
      var rest := Insert(x, t[1..], key);
      InsertLexDesc(x, t[1..], key, lt);
      InsertNonIncreasing(x, t[1..], key);
      var r := [t[0]] + rest;
      forall j | 0 < j < |r|
        ensures key(r[0]) > key(r[j]) || (key(r[0]) == key(r[j]) && lt(r[0], r[j]))
      {
        var e := r[j];
        assert e in multiset(rest);
        assert e in multiset(t[1..]) + multiset{x};
        if e == x {
        } else {
          assert e in multiset(t[1..]);
          assert e in t[1..];
          var k :| 0 <= k < |t[1..]| && t[1..][k] == e;
          assert t[k + 1] == e;
        }
      }
    }
  }

  /** Stability: when the input is already ordered by `lt`, the output is
      ordered by key first and by `lt` among equal keys, so ties keep their
      input order. */
  lemma {:induction false} SortDescStable<T>(s: seq<T>, key: T -> int, lt: (T, T) -> bool)
    requires Ordered(s, lt)
    ensures LexDesc(SortDesc(s, key), key, lt)
    decreases |s|
  {
    if s != [] {
      var t := SortDesc(s[1..], key);
      SortDescStable(s[1..], key, lt);
      SortDescNonIncreasing(s[1..], key);
      forall k | 0 <= k < |t|
        ensures lt(s[0], t[k])
      {
        assert t[k] in multiset(s[1..]);
        assert t[k] in s[1..];
        var m :| 0 <= m < |s[1..]| && s[1..][m] == t[k];
        assert s[m + 1] == t[k];
      }
      InsertLexDesc(s[0], t, key, lt);
    }
  }

  /** An input already in order comes out unchanged. */
  lemma {:induction false} SortDescSorted<T>(s: seq<T>, key: T -> int)
    requires NonIncreasing(s, key)
    ensures SortDesc(s, key) == s
    decreases |s|
  {
    if s != [] {
      SortDescSorted(s[1..], key);
      assert s == [s[0]] + s[1..];
    }
  }

  /** In a non-increasing sequence, everything before position `p` has at
      least the key of the element at `p`. */
  lemma {:induction false} PrefixDominates<T>(s: seq<T>, key: T -> int, n: nat, p: nat)
    requires NonIncreasing(s, key) && n <= p < |s|
    ensures forall i :: 0 <= i < n ==> key(s[i]) >= key(s[p])
  {
  }

  /** Sorting keeps exactly the elements it was given. */
  lemma {:induction false} SortDescMembers<T>(s: seq<T>, key: T -> int, x: T)
    ensures x in SortDesc(s, key) <==> x in s
  {
    assert x in SortDesc(s, key) <==> x in multiset(SortDesc(s, key));
    assert x in s <==> x in multiset(s);
  }

  lemma {:induction false} InsertDistinct<T>(x: T, t: seq<T>, key: T -> int)
    requires Distinct(t) && x !in t
    ensures Distinct(Insert(x, t, key))
    decreases |t|
  {
    if t != [] && key(t[0]) > key(x) {
      InsertDistinct(x, t[1..], key);
      var rest := Insert(x, t[1..], key);
      assert t[0] !in multiset(t[1..]) + multiset{x} by {
        assert t[0] !in t[1..];
      }
      assert t[0] !in rest by {
        assert multiset(rest) == multiset(t[1..]) + multiset{x};
      }
    }
  }

  /** Sorting a list without repeats gives a list without repeats. */
  lemma {:induction false} SortDescDistinct<T>(s: seq<T>, key: T -> int)
    requires Distinct(s)
    ensures Distinct(SortDesc(s, key))
    decreases |s|
  {
    if s != [] {
      SortDescDistinct(s[1..], key);
      assert s[0] !in s[1..];
      SortDescMembers(s[1..], key, s[0]);
      InsertDistinct(s[0], SortDesc(s[1..], key), key);
    }
  }
}
