/** Shared value types: optional values, calls that may raise, and Python's
    slice arithmetic (`s[a:b]`, `s[:k]`, pandas `head(k)`). */
module Base {

  datatype Option<T> = None | Some(value: T)

  /** The outcome of a Python call that either returns a value or raises. */
  datatype Outcome<T> = Returned(value: T) | Raised

  /** Python's normalisation of one slice bound `i` against a length `n`:
      a negative bound counts from the end, then the bound is clamped to [0, n]. */
  function SliceIndex(i: int, n: nat): (r: nat)
    ensures r <= n
    ensures 0 <= i <= n ==> r == i
    ensures i > n ==> r == n
    ensures i < 0 ==> r == if i + n < 0 then 0 else i + n
  {
    if i < 0 then (if i + n < 0 then 0 else i + n)
    else if i > n then n
    else i
  }

  /** `s[a:b]` with step 1: the normalised range, empty when it is reversed. */
  function Slice<T>(s: seq<T>, a: int, b: int): (r: seq<T>)
    ensures |r| <= |s|
    ensures 0 <= a <= b <= |s| ==> r == s[a..b]
  {
    var lo := SliceIndex(a, |s|);
    var hi := SliceIndex(b, |s|);
    if hi <= lo then [] else s[lo..hi]
  }

  /** `s[:k]`, which is also what pandas `head(k)` returns. */
  function Take<T>(s: seq<T>, k: int): (r: seq<T>)
    ensures |r| <= |s| && r == s[..|r|]
    ensures k >= 0 ==> |r| == if k < |s| then k else |s|
    ensures k < 0 ==> |r| == if |s| + k < 0 then 0 else |s| + k
  {
    s[..SliceIndex(k, |s|)]
  }

  /** Python's `//` (rounds toward negative infinity); Dafny's `/` is Euclidean. */
  function FloorDiv(a: int, b: int): (q: int)
    requires b != 0
    ensures b > 0 ==> q * b <= a < q * b + b
    ensures b < 0 ==> q * b >= a > q * b + b
  {
    if b > 0 then a / b else (-a) / (-b)
  }

  /** `[f(x) for x in s]`. */
  function MapSeq<A, B>(f: A -> B, s: seq<A>): (r: seq<B>)
    ensures |r| == |s|
    ensures forall i :: 0 <= i < |s| ==> r[i] == f(s[i])
  {
    seq(|s|, i requires 0 <= i < |s| => f(s[i]))
  }

  /** Mapping a non-empty sequence maps its head, then its tail. */
  lemma {:induction false} MapSeqCons<A, B>(f: A -> B, acc: seq<B>, s: seq<A>)
    requires s != []
    ensures acc + [f(s[0])] + MapSeq(f, s[1..]) == acc + MapSeq(f, s)
  {
    assert [f(s[0])] + MapSeq(f, s[1..]) == MapSeq(f, s);
  }

  /** Mapping distributes over concatenation. */
  lemma {:induction false} MapSeqConcat<A, B>(f: A -> B, a: seq<A>, b: seq<A>)
    ensures MapSeq(f, a + b) == MapSeq(f, a) + MapSeq(f, b)
  {
  }

  /** Mapping a function that fixes the head of a sequence. */
  lemma {:induction false} MapSeqFixedHead<A>(f: A -> A, h: A, rest: seq<A>)
    requires f(h) == h
    ensures MapSeq(f, [h] + rest) == [h] + MapSeq(f, rest)
  {
    MapSeqConcat(f, [h], rest);
  }

  /** Mapping a function that fixes the two ends of a sequence. */
  lemma {:induction false} MapSeqFixedEnds<A>(f: A -> A, h: A, mids: seq<A>, e: A)
    requires f(h) == h && f(e) == e
    ensures MapSeq(f, [h] + mids + [e]) == [h] + MapSeq(f, mids) + [e]
  {
    MapSeqConcat(f, [h], mids);
    MapSeqConcat(f, [h] + mids, [e]);
  }

  /** The elements of `s` that satisfy `keep`, in order. */
  function Filter<T>(keep: T -> bool, s: seq<T>): (r: seq<T>)
    ensures |r| <= |s|
    ensures forall i :: 0 <= i < |r| ==> r[i] in s && keep(r[i])
    ensures forall i :: 0 <= i < |s| && keep(s[i]) ==> s[i] in r
  {
    if s == [] then []
    else
      var init := s[..|s| - 1];
      assert s == init + [s[|s| - 1]];
      Filter(keep, init) + if keep(s[|s| - 1]) then [s[|s| - 1]] else []
  }

  /** One more element at the end is kept or dropped on its own. */
  lemma {:induction false} FilterSnoc<T>(keep: T -> bool, s: seq<T>, i: nat)
    requires i < |s|
    ensures Filter(keep, s[..i + 1]) == Filter(keep, s[..i]) + if keep(s[i]) then [s[i]] else []
  {
    assert s[..i + 1][..i] == s[..i];
  }

  /** Filtering distributes over concatenation. */
  lemma {:induction false} FilterConcat<T>(keep: T -> bool, a: seq<T>, b: seq<T>)
    ensures Filter(keep, a + b) == Filter(keep, a) + Filter(keep, b)
    decreases |b|
  {
    if b == [] {
      assert a + b == a;
    } else {
      var init := b[..|b| - 1];
      assert (a + b)[..|a + b| - 1] == a + init;
      FilterConcat(keep, a, init);
    }
  }

  /** Nothing is dropped when every element is kept, and everything is
      dropped when none is. */
  lemma {:induction false} FilterAllOrNone<T>(keep: T -> bool, s: seq<T>)
    ensures (forall i :: 0 <= i < |s| ==> keep(s[i])) ==> Filter(keep, s) == s
    ensures (forall i :: 0 <= i < |s| ==> !keep(s[i])) ==> Filter(keep, s) == []
    decreases |s|
  {
    if s != [] {
      var init := s[..|s| - 1];
      FilterAllOrNone(keep, init);
      assert s == init + [s[|s| - 1]];
    }
  }

  /** No element occurs twice. */
  predicate Distinct<T(==)>(s: seq<T>) {
    forall a, b :: 0 <= a < b < |s| ==> s[a] != s[b]
  }
}
