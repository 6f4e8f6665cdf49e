/** `clean_top_categories`: the most frequent categories of one column, after
    normalising every value and throwing away the ones that mean "unknown". */
module EdaClean {
  import opened Base
  import opened PyText
  import opened Sorting

  /** One value of the column: a missing value, or anything else by its
      `str()` rendering. */
  datatype Cell = Missing | Text(s: string)

  /** `astype(str)`: a missing value renders as "nan". */
  function Render(c: Cell): string {
    match c
    case Missing => "nan"
    case Text(s) => s
  }

  /** `str.strip()` followed by `str.lower()`: no longer than the rendered
      value, no ASCII capital left, no white space at either end. */
  function Normalize(c: Cell): (r: string)
    ensures |r| <= |Render(c)|
    ensures forall i :: 0 <= i < |r| ==> !IsAsciiUpper(r[i])
    ensures r != [] ==> !IsSpace(r[0]) && !IsSpace(r[|r| - 1])
  {
    var t := Strip(Render(c));
    StripBounds(Render(c));
    if t != [] then
      LowerCharNotSpace(t[0]);
      LowerCharNotSpace(t[|t| - 1]);
      Lower(t)
    else
      Lower(t)
  }

  const InvalidValues: set<string> :=
    {"unknown", "unk", "un", "not known", "n/a", "na", "nan", "none", "", " ", "-", "--", "null"}

  predicate Valid(k: string) {
    k !in InvalidValues
  }

  /** One row of the result: a category and how often it occurs. */
  datatype Entry = Entry(key: string, count: nat)

  function CountOf(e: Entry): int { e.count }

  /** How many elements of `s` equal `k`. */
  function Occurrences(s: seq<string>, k: string): (n: nat)
    ensures n <= |s|
    ensures n > 0 <==> k in s
  {
    if s == [] then 0
    else (if s[0] == k then 1 else 0) + Occurrences(s[1..], k)
  }

  /** `s` with every copy of `k` removed. */
  function Without(s: seq<string>, k: string): (r: seq<string>)
    ensures |r| == |s| - Occurrences(s, k)
    ensures forall j :: j != k ==> Occurrences(r, j) == Occurrences(s, j)
  {
    if s == [] then []
    else if s[0] == k then Without(s[1..], k)
    else
      var r := [s[0]] + Without(s[1..], k);
      assert r[1..] == Without(s[1..], k);
      r
  }

  /** The valid values of `s`, each once, in order of first occurrence. */
  function Keys(s: seq<string>): (r: seq<string>)
    ensures Distinct(r)
    ensures forall k :: k in r <==> k in s && Valid(k)
  {
    if s == [] then []
    else
      var init := s[..|s| - 1];
      var r := Keys(init);
      var last := s[|s| - 1];
      assert s == init + [last];
      if Valid(last) && last !in r then r + [last] else r
  }

  /** `value_counts()` before sorting: every valid value with its count. */
  function Tally(s: seq<string>): (r: seq<Entry>)
    ensures forall i :: 0 <= i < |r| ==>
              r[i].key in s && Valid(r[i].key) && 0 < r[i].count == Occurrences(s, r[i].key)
  {
    MapSeq((k: string) => Entry(k, Occurrences(s, k)), Keys(s))
  }

  /** Sorted by count, largest first, and cut to `head(top_n)`: rows of the
      tally, at most `top_n` of them. */
  function Top(s: seq<string>, topN: int): (r: seq<Entry>)
    ensures topN >= 0 ==> |r| <= topN
    ensures forall i :: 0 <= i < |r| ==> r[i] in Tally(s)
  {
    var sorted := SortDesc(Tally(s), CountOf);
    var r := Take(sorted, topN);
    assert forall i :: 0 <= i < |r| ==> r[i] == sorted[i] && sorted[i] in multiset(sorted);
    r
  }

  /** The whole helper over the column's values: at most `top_n` rows, each a
      valid category seen at least once and at most once per value. */
  function CleanTopCategories(column: seq<Cell>, topN: int): (r: seq<Entry>)
    ensures topN >= 0 ==> |r| <= topN
    ensures forall i :: 0 <= i < |r| ==> Valid(r[i].key) && 0 < r[i].count <= |column|
  {
    var s := MapSeq(Normalize, column);
    var r := Top(s, topN);
    assert forall i :: 0 <= i < |r| ==> r[i] in Tally(s);
    r
  }

  // ------------------------------------------------------------ properties

  /** Every entry of the unsorted tally is a valid value of `s` with its
      exact count, and no value appears twice. */
  lemma {:induction false} TallyEntries(s: seq<string>)
    ensures Distinct(Tally(s))
    ensures forall e :: e in Tally(s) <==> e.key in s && Valid(e.key) && e.count == Occurrences(s, e.key)
  {
    var t := Tally(s);
    var ks := Keys(s);
    forall e
      ensures e in t <==> e.key in s && Valid(e.key) && e.count == Occurrences(s, e.key)
    {
      if e.key in s && Valid(e.key) && e.count == Occurrences(s, e.key) {
        var i :| 0 <= i < |ks| && ks[i] == e.key;
        assert t[i] == e;
      }
    }
  }

  /** The result rows are rows of the tally, distinct, non-increasing by
      count, and at most `top_n` of them. */
  lemma {:induction false} TopShape(s: seq<string>, topN: int)
    ensures var r := Top(s, topN);
            Distinct(r) && NonIncreasing(r, CountOf) &&
            (forall e :: e in r ==> e in Tally(s)) &&
            (topN >= 0 ==> |r| <= topN)
  {
    var sorted := SortDesc(Tally(s), CountOf);
    var r := Top(s, topN);
    TallyEntries(s);
    SortDescDistinct(Tally(s), CountOf);
    SortDescNonIncreasing(Tally(s), CountOf);
    assert r == sorted[..|r|];
    forall e | e in r
      ensures e in Tally(s)
    {
      SortDescMembers(Tally(s), CountOf, e);
    }
  }

  /** No result key is one of the "unknown" spellings; each count is the
      number of values that normalise to its key, and is positive; and no
      key appears twice. */
  lemma {:induction false} TopCounts(s: seq<string>, topN: int)
    ensures var r := Top(s, topN);
            (forall i :: 0 <= i < |r| ==>
               Valid(r[i].key) && r[i].count == Occurrences(s, r[i].key) && r[i].count > 0) &&
            (forall i, j :: 0 <= i < j < |r| ==> r[i].key != r[j].key)
  {
    var r := Top(s, topN);
    TopShape(s, topN);
    TallyEntries(s);
    forall i | 0 <= i < |r|
      ensures Valid(r[i].key) && r[i].count == Occurrences(s, r[i].key) && r[i].count > 0
    {
      assert r[i] in r;
    }
    forall i, j | 0 <= i < j < |r|
      ensures r[i].key != r[j].key
    {
      assert r[i] in r && r[j] in r;
    }
  }

  /** What "top" means: a valid value left out of the result occurs no more
      often than any value kept. */
  lemma {:induction false} TopDominates(s: seq<string>, topN: int, k: string)
    requires k in s && Valid(k)
    requires forall i :: 0 <= i < |Top(s, topN)| ==> Top(s, topN)[i].key != k
    ensures forall i :: 0 <= i < |Top(s, topN)| ==> Top(s, topN)[i].count >= Occurrences(s, k)
  {
    var t := Tally(s);
    var sorted := SortDesc(t, CountOf);
    var r := Top(s, topN);
    var e := Entry(k, Occurrences(s, k));
    TallyHas(s, k);
    SortDescMembers(t, CountOf, e);
    SortDescNonIncreasing(t, CountOf);
    var p :| 0 <= p < |sorted| && sorted[p] == e;
    assert r == sorted[..|r|];
    assert e !in r;
    assert p >= |r|;
    PrefixDominates(sorted, CountOf, |r|, p);
    forall i | 0 <= i < |r|
      ensures r[i].count >= Occurrences(s, k)
    {
      assert r[i] == sorted[i];
    }
  }

  /** A valid value of `s` has its row in the tally. */
  lemma {:induction false} TallyHas(s: seq<string>, k: string)
    requires k in s && Valid(k)
    ensures Entry(k, Occurrences(s, k)) in Tally(s)
  {
    var ks := Keys(s);
    var i :| 0 <= i < |ks| && ks[i] == k;
    assert Tally(s)[i] == Entry(k, Occurrences(s, k));
  }

  /** When `top_n` is at least the number of valid distinct values, every one
      of them is in the result. */
  lemma {:induction false} TopComplete(s: seq<string>, topN: int, k: string)
    requires topN >= |Keys(s)|
    requires k in s && Valid(k)
    ensures exists i :: 0 <= i < |Top(s, topN)| && Top(s, topN)[i].key == k
  {
    var sorted := SortDesc(Tally(s), CountOf);
    var e := Entry(k, Occurrences(s, k));
    TallyEntries(s);
    SortDescMembers(Tally(s), CountOf, e);
    assert Top(s, topN) == sorted;
    var p :| 0 <= p < |sorted| && sorted[p] == e;
    assert Top(s, topN)[p].key == k;
  }

  /** Sum of the counts. */
  function Total(r: seq<Entry>): int {
    if r == [] then 0 else r[0].count + Total(r[1..])
  }

  /** Rows with distinct keys whose counts are occurrence counts in `s`
      add up to at most `|s|`. */
  lemma {:induction false} DistinctCountsBounded(s: seq<string>, r: seq<Entry>)
    requires forall i :: 0 <= i < |r| ==> r[i].count == Occurrences(s, r[i].key)
    requires forall i, j :: 0 <= i < j < |r| ==> r[i].key != r[j].key
    ensures Total(r) <= |s|
    decreases |r|
  {
    if r != [] {
      var rest := r[1..];
      var t := Without(s, r[0].key);
      forall i | 0 <= i < |rest|
        ensures rest[i].count == Occurrences(t, rest[i].key)
      {
        assert rest[i] == r[i + 1];
      }
      forall i, j | 0 <= i < j < |rest|
        ensures rest[i].key != rest[j].key
      {
        assert rest[i] == r[i + 1] && rest[j] == r[j + 1];
      }
      DistinctCountsBounded(t, rest);
    }
  }

  /** The counts of the result add up to at most the number of values. */
  lemma {:induction false} TopTotal(column: seq<Cell>, topN: int)
    ensures Total(CleanTopCategories(column, topN)) <= |column|
  {
    var s := MapSeq(Normalize, column);
    TopCounts(s, topN);
    DistinctCountsBounded(s, Top(s, topN));
  }

  /** A missing value renders as "nan", one of the "unknown" spellings. */
  lemma {:induction false} NormalizeMissing()
    ensures Normalize(Missing) == "nan"
    ensures !Valid(Normalize(Missing))
  {
    var n := Normalize(Missing);
    assert n == Lower(Strip("nan"));
    StripNoop("nan");
    NanLower();
    assert n == "nan";
    assert !Valid("nan");
  }

  lemma {:induction false} NanLower()
    ensures Lower("nan") == "nan"
  {
    var l := Lower("nan");
    assert l[0] == 'n' && l[1] == 'a' && l[2] == 'n';
  }

  /** So missing values are never counted. */
  lemma {:induction false} MissingDropped(column: seq<Cell>, topN: int)
    ensures forall i :: 0 <= i < |CleanTopCategories(column, topN)| ==>
              CleanTopCategories(column, topN)[i].key != Normalize(Missing)
  {
    NormalizeMissing();
    TopCounts(MapSeq(Normalize, column), topN);
  }

  /** Each result key is the normalised form of some value of the column,
      and its count is the number of values that normalise to it. */
  lemma {:induction false} ColumnCounts(column: seq<Cell>, topN: int, i: nat)
    requires i < |CleanTopCategories(column, topN)|
    ensures var e := CleanTopCategories(column, topN)[i];
            (exists j :: 0 <= j < |column| && Normalize(column[j]) == e.key) &&
            e.count == Occurrences(MapSeq(Normalize, column), e.key)
  {
    var s := MapSeq(Normalize, column);
    TopCounts(s, topN);
    TallyEntries(s);
    TopShape(s, topN);
    var e := Top(s, topN)[i];
    assert e in Top(s, topN);
    var j :| 0 <= j < |s| && s[j] == e.key;
  }
}
