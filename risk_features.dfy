/** The feature-column bookkeeping of the risk-score classifier
    (`risk_score/risk_score_pipeline.py`): `safe_name`, `make_unique`, and the
    column lists of the train and test matrices. */
module RiskFeatures {
  import opened Base
  import opened PyText

  // --------------------------------------------------------- safe_name

  predicate IsUnderscore(c: char) { c == '_' }

  /** The characters `safe_name` keeps: `[0-9a-z_]`. */
  predicate IsSafeChar(c: char) { '0' <= c <= '9' || 'a' <= c <= 'z' || c == '_' }

  /** `re.sub(r"\s+", "_", s)`: each run of white space becomes one "_". */
  function SubSpaceRuns(s: string): (r: string)
    ensures forall i :: 0 <= i < |r| ==> !IsSpace(r[i])
    decreases |s|
  {
    if s == [] then []
    else if IsSpace(s[0]) then
      var rest := LStripWhile(s, IsSpace);
      assert |rest| < |s|;
      "_" + SubSpaceRuns(rest)
    else [s[0]] + SubSpaceRuns(s[1..])
  }

  /** `re.sub(r"[^0-9a-z_]", "_", s)`. */
  function SubUnsafe(s: string): (r: string)
    ensures |r| == |s|
    ensures forall i :: 0 <= i < |r| ==> IsSafeChar(r[i])
    ensures forall i :: 0 <= i < |s| ==> r[i] == if IsSafeChar(s[i]) then s[i] else '_'
  {
    seq(|s|, i requires 0 <= i < |s| => if IsSafeChar(s[i]) then s[i] else '_')
  }

  /** `re.sub(r"_+", "_", s)`: each run of underscores becomes one "_". */
  function SqueezeUnderscores(s: string): (r: string)
    ensures forall i :: 0 <= i < |r| ==> r[i] in s
    ensures r == "" <==> s == ""
    ensures r != [] ==> (r[0] == '_' <==> s[0] == '_')
    decreases |s|
  {
    if s == [] then []
    else if s[0] == '_' then
      var rest := LStripWhile(s, IsUnderscore);
      assert |rest| < |s|;
      LStripSuffix(s, IsUnderscore);
      var tail := SqueezeUnderscores(rest);
      assert forall i :: 0 <= i < |tail| ==> tail[i] in rest;
      "_" + tail
    else
      var tail := SqueezeUnderscores(s[1..]);
      [s[0]] + tail
  }

  /** No "__" anywhere. */
  predicate NoDoubleUnderscore(s: string) {
    forall i :: 0 <= i < |s| - 1 ==> !(s[i] == '_' && s[i + 1] == '_')
  }

  lemma {:induction false} SqueezeNoDouble(s: string)
    ensures NoDoubleUnderscore(SqueezeUnderscores(s))
    decreases |s|
  {
    if s != [] {
      if s[0] == '_' {
        var rest := LStripWhile(s, IsUnderscore);
        SqueezeNoDouble(rest);
        var tail := SqueezeUnderscores(rest);
        assert tail != [] ==> rest != [] && rest[0] != '_';
      } else {
        SqueezeNoDouble(s[1..]);
      }
    }
  }

  /** Squeezing a string that has no "__" changes nothing. */
  lemma {:induction false} SqueezeNoop(s: string)
    requires NoDoubleUnderscore(s)
    ensures SqueezeUnderscores(s) == s
    decreases |s|
  {
    if s != [] {
      if s[0] == '_' {
        assert |s| > 1 ==> s[1] != '_';
        LStripNoop(s[1..], IsUnderscore);
        assert LStripWhile(s, IsUnderscore) == LStripWhile(s[1..], IsUnderscore);
      }
      SqueezeNoop(s[1..]);
    }
  }

  lemma {:induction false} SubSpaceRunsNoop(s: string)
    requires forall i :: 0 <= i < |s| ==> !IsSpace(s[i])
    ensures SubSpaceRuns(s) == s
    decreases |s|
  {
    if s != [] {
      SubSpaceRunsNoop(s[1..]);
    }
  }

  /** `safe_name` on `str(s)`: strip, lowercase, white-space runs to "_",
      anything outside `[0-9a-z_]` to "_", underscore runs to one "_", and
      "na" for an empty result. */
  function SafeName(s: string): (r: string)
    ensures r != ""
    ensures forall i :: 0 <= i < |r| ==> IsSafeChar(r[i])
    ensures NoDoubleUnderscore(r)
  {
    var t := SqueezeUnderscores(SubUnsafe(SubSpaceRuns(Lower(Strip(s)))));
    SqueezeNoDouble(SubUnsafe(SubSpaceRuns(Lower(Strip(s)))));
    if t == "" then "na" else t
  }

  /** `safe_name` is idempotent: a safe name is its own safe name. */
  lemma {:induction false} SafeNameIdempotent(s: string)
    ensures SafeName(SafeName(s)) == SafeName(s)
  {
    var r := SafeName(s);
    SafeNameFixed(r);
  }

  /** Every stage of `safe_name` leaves a non-empty string of safe characters
      without "__" unchanged. */
  lemma {:induction false} SafeNameFixed(r: string)
    requires r != ""
    requires forall i :: 0 <= i < |r| ==> IsSafeChar(r[i])
    requires NoDoubleUnderscore(r)
    ensures SafeName(r) == r
  {
    assert !IsSpace(r[0]) && !IsSpace(r[|r| - 1]);
    StripNoop(r);
    LowerSafe(r);
    SubSpaceRunsNoop(r);
    SubUnsafeSafe(r);
    SqueezeNoop(r);
    assert SqueezeUnderscores(SubUnsafe(SubSpaceRuns(Lower(Strip(r))))) == r;
  }

  lemma {:induction false} LowerSafe(r: string)
    requires forall i :: 0 <= i < |r| ==> IsSafeChar(r[i])
    ensures Lower(r) == r
  {
    forall i | 0 <= i < |r| ensures Lower(r)[i] == r[i] {
      assert IsSafeChar(r[i]);
    }
  }

  lemma {:induction false} SubUnsafeSafe(r: string)
    requires forall i :: 0 <= i < |r| ==> IsSafeChar(r[i])
    ensures SubUnsafe(r) == r
  {
  }

  // ------------------------------------------------------- make_unique

  const DupTag: string := "__dup"

  function DupName(n: string, k: nat): string
  {
    n + DupTag + NatToString(k)
  }

  lemma {:induction false} DupNameInjective(n: string, a: nat, b: nat)
    requires DupName(n, a) == DupName(n, b)
    ensures a == b
  {
    var p := |n| + |DupTag|;
    assert NatToString(a) == DupName(n, a)[p..];
    assert NatToString(b) == DupName(n, b)[p..];
    NatToStringInjective(a, b);
  }

  /** `out[i]` is `names[i]` with a "__dup<k>" suffix, k at least 1. */
  ghost predicate IsDupOf(out: string, name: string) {
    exists k: nat :: 1 <= k && out == DupName(name, k)
  }

  /** The `while new in seen` loop of `make_unique` for a repeated name `n`:
      the counter moves on from `seen[n] + 1` to the first value whose dup
      name has not been seen. */
  method NextDup(seen: map<string, nat>, n: string) returns (counter: nat, candidate: string)
    requires n in seen
    ensures seen[n] < counter
    ensures candidate == DupName(n, counter) && candidate !in seen
    ensures forall c :: seen[n] < c < counter ==> DupName(n, c) in seen
  {
    counter := seen[n] + 1;
    candidate := DupName(n, counter);
    while candidate in seen
      invariant seen[n] < counter && candidate == DupName(n, counter)
      invariant forall c :: seen[n] < c < counter ==> DupName(n, c) in seen
      decreases |set x | x in seen.Keys && LaterDup(x, n, counter)|
    {
      ghost var before := set x | x in seen.Keys && LaterDup(x, n, counter);
      ghost var after := set x | x in seen.Keys && LaterDup(x, n, counter + 1);
      LaterDupShrinks(before, after, seen.Keys, n, counter);
      counter := counter + 1;
      candidate := DupName(n, counter);
    }
  }

  /** `make_unique`: a name not yet produced is kept; a repeat gets
      "__dup<k>" with the first k (counting on from the last k used for that
      name) whose result has not been seen, and that result is then seen too.
      The output has one distinct name per input name. */
  method MakeUnique(names: seq<string>) returns (out: seq<string>)
    ensures |out| == |names|
    ensures Distinct(out)
    ensures forall i :: 0 <= i < |names| ==> (names[i] !in out[..i] ==> out[i] == names[i])
    ensures forall i :: 0 <= i < |names| ==> (names[i] in out[..i] ==> IsDupOf(out[i], names[i]))
  {
    out := [];
    var seen: map<string, nat> := map[];
    var i := 0;
    while i < |names|
      invariant 0 <= i <= |names| && |out| == i
      invariant seen.Keys == set x | x in out
      invariant Distinct(out)
      invariant forall j :: 0 <= j < i ==> (names[j] !in out[..j] ==> out[j] == names[j])
      invariant forall j :: 0 <= j < i ==> (names[j] in out[..j] ==> IsDupOf(out[j], names[j]))
    {
      assert names[i] in seen <==> names[i] in out;
      var name;
      name, seen := Admit(seen, names[i]);
      UniqueStep(names, out, name);
      out := out + [name];
      i := i + 1;
    }
  }

  /** Appending the name `Admit` chose keeps the loop's invariants. */
  lemma {:induction false} UniqueStep(names: seq<string>, prev: seq<string>, name: string)
    requires |prev| < |names| && Distinct(prev) && name !in prev
    requires forall j :: 0 <= j < |prev| ==> (names[j] !in prev[..j] ==> prev[j] == names[j])
    requires forall j :: 0 <= j < |prev| ==> (names[j] in prev[..j] ==> IsDupOf(prev[j], names[j]))
    requires names[|prev|] !in prev ==> name == names[|prev|]
    requires names[|prev|] in prev ==> IsDupOf(name, names[|prev|])
    ensures var out := prev + [name];
            Distinct(out) &&
            (set x | x in out) == (set x | x in prev) + {name} &&
            (forall j :: 0 <= j <= |prev| ==> (names[j] !in out[..j] ==> out[j] == names[j])) &&
            (forall j :: 0 <= j <= |prev| ==> (names[j] in out[..j] ==> IsDupOf(out[j], names[j])))
  {
    var out := prev + [name];
    assert out[..|prev|] == prev;
    forall j | 0 <= j < |prev| ensures out[..j] == prev[..j] {
    }
  }

  /** One step of `make_unique`: the name to emit for `n` and the updated
      `seen` map. */
  method Admit(seen: map<string, nat>, n: string) returns (name: string, seen': map<string, nat>)
    ensures n !in seen ==> name == n
    ensures n in seen ==> IsDupOf(name, n)
    ensures name !in seen
    ensures seen'.Keys == seen.Keys + {name}
  {
    if n !in seen {
      name := n;
      seen' := seen[n := 0];
    } else {
      var counter;
      counter, name := NextDup(seen, n);
      seen' := seen[n := counter][name := 0];
    }
  }

  /** `x` is a dup name of `n` with counter at least `k`. */
  ghost predicate LaterDup(x: string, n: string, k: nat) {
    exists c: nat :: k <= c && x == DupName(n, c)
  }

  /** Moving the counter past a name that is in `keys` removes it from the
      set of candidates still ahead, so the inner loop terminates. */
  lemma {:induction false} LaterDupShrinks(before: set<string>, after: set<string>, keys: set<string>, n: string, k: nat)
    requires DupName(n, k) in keys
    requires before == set x | x in keys && LaterDup(x, n, k)
    requires after == set x | x in keys && LaterDup(x, n, k + 1)
    ensures |after| < |before|
  {
    assert LaterDup(DupName(n, k), n, k);
    assert DupName(n, k) in before;
    forall x | x in after ensures x in before && x != DupName(n, k) {
      var c: nat :| k + 1 <= c && x == DupName(n, c);
      assert LaterDup(x, n, k);
      if x == DupName(n, k) {
        DupNameInjective(n, c, k);
      }
    }
    var d := DupName(n, k);
    assert after <= before - {d};
    assert |before - {d}| == |before| - 1;
    SubsetCard(after, before - {d});
  }

  lemma {:induction false} SubsetCard<T>(a: set<T>, b: set<T>)
    requires a <= b
    ensures |a| <= |b|
    decreases |a|
  {
    if a != {} {
      var x :| x in a;
      SubsetCard(a - {x}, b - {x});
    }
  }

  // ----------------------------------------------------- column lists

  const NumericColumns: seq<string> := [
    "response_time_min", "turnout_time_min", "call_cycle_time_min", "on_scene_time_min"
  ]

  const AgeColumn: string := "patient_age"

  /** `[f"tfidf_{i}" for i in range(width)]`. */
  function TfidfColumns(width: nat): (cols: seq<string>)
    ensures |cols| == width
    ensures forall i :: 0 <= i < width ==> cols[i] == "tfidf_" + NatToString(i)
  {
    seq(width, i requires 0 <= i < width => "tfidf_" + NatToString(i))
  }

  /** The name built for category `cat` of categorical column `colIdx`. */
  function CategoryColumn(colIdx: nat, cat: string): string
  {
    "col" + NatToString(colIdx) + "__" + SafeName(cat)
  }

  lemma {:induction false} CategoryColumnPrefix(colIdx: nat, cat: string)
    ensures StartsWith(CategoryColumn(colIdx, cat), "col")
  {
    var name := CategoryColumn(colIdx, cat);
    assert name[..3] == "col";
  }

  /** The names before `make_unique`, column by column, category by category. */
  function RawCategoryColumns(categories: seq<seq<string>>): (names: seq<string>)
    decreases |categories|
  {
    if categories == [] then []
    else
      var last := |categories| - 1;
      RawCategoryColumns(categories[..last]) + CategoryBlock(last, categories[last])
  }

  /** The names for the categories of one column, in order. */
  function CategoryBlock(colIdx: nat, cats: seq<string>): (names: seq<string>)
    ensures |names| == |cats|
  {
    MapSeq((cat: string) => CategoryColumn(colIdx, cat), cats)
  }

  /** Category `j` of column `c` is named `col{c}__{safe_name(cat)}` and sits
      after the names of all earlier columns. */
  lemma RawCategoryColumnsAt(categories: seq<seq<string>>, c: nat, j: nat)
    requires c < |categories| && j < |categories[c]|
    ensures |RawCategoryColumns(categories[..c])| + j < |RawCategoryColumns(categories)|
    ensures RawCategoryColumns(categories)[|RawCategoryColumns(categories[..c])| + j]
         == CategoryColumn(c, categories[c][j])
  {
    var upTo := categories[..c + 1];
    assert upTo[..c] == categories[..c];
    assert upTo[c] == categories[c];
    RawCategoryColumnsLast(upTo, j);
    RawCategoryColumnsPrefix(categories, c + 1);
    PrefixIndex(RawCategoryColumns(upTo), RawCategoryColumns(categories),
                |RawCategoryColumns(categories[..c])| + j);
  }

  lemma {:induction false} PrefixIndex<T>(b: seq<T>, all: seq<T>, k: nat)
    requires b <= all && k < |b|
    ensures k < |all| && all[k] == b[k]
  {
  }

  lemma {:induction false} RawCategoryColumnsLast(categories: seq<seq<string>>, j: nat)
    requires categories != [] && j < |categories[|categories| - 1]|
    ensures var last := |categories| - 1;
            |RawCategoryColumns(categories[..last])| + j < |RawCategoryColumns(categories)| &&
            RawCategoryColumns(categories)[|RawCategoryColumns(categories[..last])| + j]
              == CategoryColumn(last, categories[last][j])
  {
    var last := |categories| - 1;
    var block := CategoryBlock(last, categories[last]);
    assert RawCategoryColumns(categories) == RawCategoryColumns(categories[..last]) + block;
    assert block[j] == CategoryColumn(last, categories[last][j]);
  }

  /** The names of the first `m` columns are a prefix of all the names. */
  lemma {:induction false} RawCategoryColumnsPrefix(categories: seq<seq<string>>, m: nat)
    requires m <= |categories|
    ensures RawCategoryColumns(categories[..m]) <= RawCategoryColumns(categories)
    decreases |categories|
  {
    if m == |categories| {
      assert categories[..m] == categories;
    } else {
      var last := |categories| - 1;
      var front := categories[..last];
      assert front[..m] == categories[..m];
      RawCategoryColumnsPrefix(front, m);
      assert RawCategoryColumns(categories) == RawCategoryColumns(front) + CategoryBlock(last, categories[last]);
    }
  }

  /** The nested loop over `ohe.categories_` that builds the names before
      `make_unique`. */
  method RawCategoryNames(categories: seq<seq<string>>) returns (raw: seq<string>)
    ensures raw == RawCategoryColumns(categories)
    ensures forall k :: 0 <= k < |raw| ==> StartsWith(raw[k], "col")
  {
    raw := [];
    var colIdx := 0;
    while colIdx < |categories|
      invariant 0 <= colIdx <= |categories|
      invariant raw == RawCategoryColumns(categories[..colIdx])
      invariant forall k :: 0 <= k < |raw| ==> StartsWith(raw[k], "col")
    {
      raw := AppendCategoryBlock(raw, colIdx, categories[colIdx]);
      RawCategoryColumnsSnoc(categories, colIdx);
      colIdx := colIdx + 1;
    }
    assert categories[..colIdx] == categories;
  }

  /** The inner loop: one name per category of column `colIdx`, appended in
      order. */
  method AppendCategoryBlock(start: seq<string>, colIdx: nat, cats: seq<string>) returns (raw: seq<string>)
    requires forall k :: 0 <= k < |start| ==> StartsWith(start[k], "col")
    ensures raw == start + CategoryBlock(colIdx, cats)
    ensures forall k :: 0 <= k < |raw| ==> StartsWith(raw[k], "col")
  {
    raw := start;
    var j := 0;
    while j < |cats|
      invariant 0 <= j <= |cats|
      invariant raw == start + CategoryBlock(colIdx, cats[..j])
      invariant forall k :: 0 <= k < |raw| ==> StartsWith(raw[k], "col")
    {
      CategoryColumnPrefix(colIdx, cats[j]);
      raw := raw + [CategoryColumn(colIdx, cats[j])];
      CategoryBlockSnoc(colIdx, cats, j);
      j := j + 1;
    }
    assert cats[..j] == cats;
  }

  lemma {:induction false} CategoryBlockSnoc(colIdx: nat, cats: seq<string>, j: nat)
    requires j < |cats|
    ensures CategoryBlock(colIdx, cats[..j + 1]) == CategoryBlock(colIdx, cats[..j]) + [CategoryColumn(colIdx, cats[j])]
  {
    assert cats[..j + 1] == cats[..j] + [cats[j]];
    MapSeqConcat((cat: string) => CategoryColumn(colIdx, cat), cats[..j], [cats[j]]);
  }

  lemma {:induction false} RawCategoryColumnsSnoc(categories: seq<seq<string>>, colIdx: nat)
    requires colIdx < |categories|
    ensures RawCategoryColumns(categories[..colIdx + 1])
         == RawCategoryColumns(categories[..colIdx]) + CategoryBlock(colIdx, categories[colIdx])
  {
    ghost var upto := categories[..colIdx + 1];
    assert upto[..colIdx] == categories[..colIdx];
  }

  /** `feature_names_cat`: the raw names made unique. Every name is distinct
      and still starts with "col"; a raw name seen for the first time is kept,
      a repeat becomes one of its "__dup" forms. */
  method CategoricalFeatureNames(categories: seq<seq<string>>) returns (featureNamesCat: seq<string>)
    ensures |featureNamesCat| == |RawCategoryColumns(categories)|
    ensures Distinct(featureNamesCat)
    ensures forall i :: 0 <= i < |featureNamesCat| ==> StartsWith(featureNamesCat[i], "col")
    ensures forall i :: 0 <= i < |featureNamesCat| ==>
              (RawCategoryColumns(categories)[i] !in featureNamesCat[..i] ==>
                 featureNamesCat[i] == RawCategoryColumns(categories)[i])
    ensures forall i :: 0 <= i < |featureNamesCat| ==>
              (RawCategoryColumns(categories)[i] in featureNamesCat[..i] ==>
                 IsDupOf(featureNamesCat[i], RawCategoryColumns(categories)[i]))
  {
    var raw := RawCategoryNames(categories);
    featureNamesCat := MakeUnique(raw);
    forall i | 0 <= i < |featureNamesCat|
      ensures StartsWith(featureNamesCat[i], "col")
    {
      if raw[i] in featureNamesCat[..i] {
        DupKeepsPrefix(featureNamesCat[i], raw[i]);
      }
    }
  }

  lemma {:induction false} DupKeepsPrefix(out: string, name: string)
    requires IsDupOf(out, name) && StartsWith(name, "col")
    ensures StartsWith(out, "col")
  {
    var k: nat :| 1 <= k && out == DupName(name, k);
    assert out[..3] == name[..3];
  }

  /** The matrix columns: four numeric timings, the age, the TF-IDF block,
      then the categorical block. */
  function ColumnLayout(tfidfWidth: nat, featureNamesCat: seq<string>): seq<string>
  {
    NumericColumns + [AgeColumn] + TfidfColumns(tfidfWidth) + featureNamesCat
  }

  /** Training side: the layout built from the fitted vectorizer's width and
      the encoder's categories, the categorical block being the raw one-hot
      names made unique. */
  method TrainFeatureColumns(tfidfWidth: nat, categories: seq<seq<string>>)
    returns (columns: seq<string>, featureNamesCat: seq<string>)
    ensures columns == ColumnLayout(tfidfWidth, featureNamesCat)
    ensures Distinct(columns)
    ensures |columns| == 5 + tfidfWidth + |RawCategoryColumns(categories)|
    ensures |featureNamesCat| == |RawCategoryColumns(categories)|
    ensures forall i :: 0 <= i < |featureNamesCat| ==>
              (RawCategoryColumns(categories)[i] !in featureNamesCat[..i] ==>
                 featureNamesCat[i] == RawCategoryColumns(categories)[i])
    ensures forall i :: 0 <= i < |featureNamesCat| ==>
              (RawCategoryColumns(categories)[i] in featureNamesCat[..i] ==>
                 IsDupOf(featureNamesCat[i], RawCategoryColumns(categories)[i]))
  {
    featureNamesCat := CategoricalFeatureNames(categories);
    columns := NumericColumns + [AgeColumn] + TfidfColumns(tfidfWidth) + featureNamesCat;
    LayoutDistinct(tfidfWidth, featureNamesCat);
  }

  /** Test side: the same vectorizer (so the same width) and the
      `feature_names_cat` list kept from training. */
  method TestFeatureColumns(tfidfWidth: nat, featureNamesCat: seq<string>) returns (columns: seq<string>)
    ensures columns == ColumnLayout(tfidfWidth, featureNamesCat)
  {
    columns := NumericColumns + [AgeColumn] + TfidfColumns(tfidfWidth) + featureNamesCat;
  }

  /** Training then evaluation: the test matrix gets exactly the training
      matrix's columns, in the same order, and no column name repeats. */
  method TrainTestColumnsAgree(tfidfWidth: nat, categories: seq<seq<string>>)
    returns (trainColumns: seq<string>, testColumns: seq<string>)
    ensures trainColumns == testColumns
    ensures Distinct(testColumns)
    ensures |testColumns| == 5 + tfidfWidth + |RawCategoryColumns(categories)|
  {
    var featureNamesCat;
    trainColumns, featureNamesCat := TrainFeatureColumns(tfidfWidth, categories);
    testColumns := TestFeatureColumns(tfidfWidth, featureNamesCat);
  }

  lemma {:induction false} LayoutDistinct(tfidfWidth: nat, cat: seq<string>)
    requires Distinct(cat)
    requires forall i :: 0 <= i < |cat| ==> StartsWith(cat[i], "col")
    ensures Distinct(ColumnLayout(tfidfWidth, cat))
  {
    var all := ColumnLayout(tfidfWidth, cat);
    forall a, b | 0 <= a < b < |all|
      ensures all[a] != all[b]
    {
      LayoutPair(tfidfWidth, cat, a, b);
    }
  }

  /** Two positions of the layout hold different names: the fixed names are
      distinct, the TF-IDF names differ in their index, and the one-hot
      names start with "col", which no earlier name does. */
  lemma {:induction false} LayoutPair(tfidfWidth: nat, cat: seq<string>, a: nat, b: nat)
    requires Distinct(cat)
    requires forall i :: 0 <= i < |cat| ==> StartsWith(cat[i], "col")
    requires a < b < |ColumnLayout(tfidfWidth, cat)|
    ensures ColumnLayout(tfidfWidth, cat)[a] != ColumnLayout(tfidfWidth, cat)[b]
  {
    var fixed := NumericColumns + [AgeColumn];
    var tf := TfidfColumns(tfidfWidth);
    var all := ColumnLayout(tfidfWidth, cat);
    assert all == fixed + tf + cat;
    if b < 5 {
    } else if b < 5 + tfidfWidth {
      var x := all[b];
      assert x == "tfidf_" + NatToString(b - 5);
      if a < 5 {
        assert all[a] == fixed[a];
        assert fixed[a][1] != 'f';
        assert x[1] == 'f';
      } else {
        if x == all[a] {
          assert NatToString(a - 5) == all[a][6..];
          assert NatToString(b - 5) == x[6..];
          NatToStringInjective(a - 5, b - 5);
        }
      }
    } else {
      var x := all[b];
      assert x == cat[b - 5 - tfidfWidth];
      assert x[..3] == "col";
      if a < 5 {
        assert all[a] == fixed[a];
        assert fixed[a][1] != 'o';
        assert x[1] == 'o';
      } else if a < 5 + tfidfWidth {
        assert all[a][..3] == "tfi";
      }
    }
  }
}
