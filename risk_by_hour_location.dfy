/** When and where high-risk incidents occur
    (`backend/op_efficiency/risk_by_hour_location.py`): the label fill of
    `load_data_with_risk`, the per-hour and per-city risk counts, and the
    critical windows of high-risk incidents. Percentages, means and their
    rounding are not modelled; a missing `response_time_min` column still
    matters, because the mean is taken (and raises KeyError) before any
    guard looks at that column. */
module RiskByHourLocation {
  import opened Base
  import opened PyText
  import opened Sorting
  import OpEfficiency

  type Hour = OpEfficiency.Hour

  /** One incident: its call hour, `risk_label`, response time and city, each
      `None` where pandas holds NaN. */
  datatype RiskRow = RiskRow(hour: Option<Hour>, riskLabel: Option<string>, response: Option<real>, city: Option<string>)

  /** A frame and which of the columns the functions test for it has. */
  datatype RiskFrame = RiskFrame(rows: seq<RiskRow>, hasHour: bool, hasLabel: bool, hasResponse: bool, hasCity: bool)

  const High: string := "HIGH"
  const Medium: string := "MEDIUM"
  const Low: string := "LOW"

  // -------------------------------------------------- label fill on load

  /** `load_data_with_risk`: a missing `risk_label` column becomes "MEDIUM"
      everywhere, and a null label becomes "MEDIUM". */
  function FillRiskLabels(f: RiskFrame): (g: RiskFrame)
    ensures g.hasLabel && |g.rows| == |f.rows|
    ensures g.hasHour == f.hasHour && g.hasResponse == f.hasResponse && g.hasCity == f.hasCity
    ensures forall i :: 0 <= i < |f.rows| ==>
              g.rows[i].hour == f.rows[i].hour && g.rows[i].response == f.rows[i].response
              && g.rows[i].city == f.rows[i].city
    ensures forall i :: 0 <= i < |f.rows| ==>
              g.rows[i].riskLabel == Some(if f.hasLabel && f.rows[i].riskLabel.Some? then f.rows[i].riskLabel.value else Medium)
  {
    var rows := seq(|f.rows|, i requires 0 <= i < |f.rows| =>
      f.rows[i].(riskLabel := Some(if f.hasLabel && f.rows[i].riskLabel.Some? then f.rows[i].riskLabel.value else Medium)));
    f.(rows := rows, hasLabel := true)
  }

  /** After the fill no label is missing, so no later `dropna` on the label
      loses a row. */
  lemma {:induction false} FilledLabelsPresent(f: RiskFrame)
    ensures forall r :: r in FillRiskLabels(f).rows ==> r.riskLabel.Some?
  {
    var g := FillRiskLabels(f);
    forall r | r in g.rows ensures r.riskLabel.Some? {
      var i :| 0 <= i < |g.rows| && g.rows[i] == r;
    }
  }

  // ------------------------------------------------------------ counting

  /** Survives `dropna(subset=["hour", "risk_label"])`. */
  predicate HasHourAndLabel(r: RiskRow) {
    r.hour.Some? && r.riskLabel.Some?
  }

  function DropNaHourLabel(rows: seq<RiskRow>): (kept: seq<RiskRow>)
    ensures forall r :: r in kept <==> r in rows && HasHourAndLabel(r)
  {
    if rows == [] then []
    else (if HasHourAndLabel(rows[0]) then [rows[0]] else []) + DropNaHourLabel(rows[1..])
  }

  /** `df[df["hour"] == hour]`. */
  function At(rows: seq<RiskRow>, h: Hour): (sel: seq<RiskRow>)
    ensures |sel| <= |rows|
  {
    if rows == [] then []
    else (if rows[0].hour == Some(h) then [rows[0]] else []) + At(rows[1..], h)
  }

  /** `(rows["risk_label"] == lab).sum()`. */
  function CountLabel(rows: seq<RiskRow>, lab: string): (n: nat)
    ensures n <= |rows|
  {
    if rows == [] then 0
    else (if rows[0].riskLabel == Some(lab) then 1 else 0) + CountLabel(rows[1..], lab)
  }

  /** `(rows["response_time_min"] > sla).sum()`; NaN is not late. */
  function CountDelayed(rows: seq<RiskRow>, sla: real): (n: nat)
    ensures n <= |rows|
  {
    if rows == [] then 0
    else (if rows[0].response.Some? && rows[0].response.value > sla then 1 else 0) + CountDelayed(rows[1..], sla)
  }

  /** The three label counts never exceed the number of rows, whatever other
      labels the column holds. */
  lemma {:induction false} LabelCountsBounded(rows: seq<RiskRow>)
    ensures CountLabel(rows, High) + CountLabel(rows, Medium) + CountLabel(rows, Low) <= |rows|
    decreases |rows|
  {
    if rows != [] {
      LabelCountsBounded(rows[1..]);
    }
  }

  /** How many rows have hour `h`. */
  function CountAt(rows: seq<RiskRow>, h: Hour): nat
  {
    if rows == [] then 0 else (if rows[0].hour == Some(h) then 1 else 0) + CountAt(rows[1..], h)
  }

  lemma {:induction false} AtCount(rows: seq<RiskRow>, h: Hour)
    ensures |At(rows, h)| == CountAt(rows, h)
    decreases |rows|
  {
    if rows != [] {
      AtCount(rows[1..], h);
    }
  }

  /** The rows of the hours below `upTo`, all together. */
  function SumAt(rows: seq<RiskRow>, upTo: nat): nat
    requires upTo <= 24
  {
    if upTo == 0 then 0 else SumAt(rows, upTo - 1) + CountAt(rows, upTo - 1)
  }

  function WithHour(rows: seq<RiskRow>): (n: nat)
    ensures n <= |rows|
  {
    if rows == [] then 0 else (if rows[0].hour.Some? then 1 else 0) + WithHour(rows[1..])
  }

  lemma {:induction false} SumAtStep(rows: seq<RiskRow>, upTo: nat)
    requires rows != [] && upTo <= 24
    ensures SumAt(rows, upTo)
         == SumAt(rows[1..], upTo) + (if rows[0].hour.Some? && rows[0].hour.value < upTo then 1 else 0)
    decreases upTo
  {
    if upTo > 0 {
      SumAtStep(rows, upTo - 1);
    }
  }

  lemma {:induction false} SumAtEmpty(rows: seq<RiskRow>, upTo: nat)
    requires rows == [] && upTo <= 24
    ensures SumAt(rows, upTo) == 0
    decreases upTo
  {
    if upTo > 0 {
      SumAtEmpty(rows, upTo - 1);
    }
  }

  /** Every row with an hour falls in exactly one of the 24 hours. */
  lemma {:induction false} HoursPartitionRows(rows: seq<RiskRow>)
    ensures SumAt(rows, 24) == WithHour(rows)
    decreases |rows|
  {
    if rows == [] {
      SumAtEmpty(rows, 24);
    } else {
      SumAtStep(rows, 24);
      HoursPartitionRows(rows[1..]);
    }
  }

  // ----------------------------------------------------- hour labels

  /** `int(x["hour"].split(":")[0])`, the chronological sort key. */
  function ParseHourLabel(s: string): nat
  {
    if |s| >= 2 && IsDigit(s[0]) && IsDigit(s[1]) then DigitsValue(s[..2]) else 0
  }

  /** The sort key reads back the hour that was formatted. */
  lemma {:induction false} HourLabelRoundTrip(h: Hour)
    ensures ParseHourLabel(HourLabel(h)) == h
  {
    var s := HourLabel(h);
    if h < 10 {
      assert s[..2] == ['0', DigitChar(h)];
      assert ['0', DigitChar(h)][..1] == ['0'];
      assert DigitsValue(['0']) == 0 by {
        assert ['0'][..0] == [];
      }
    } else {
      assert s[..2] == NatToString(h);
      DigitsValueOfNatToString(h);
    }
  }

  /** Ascending hours, as `result.sort(key=lambda x: int(x["hour"].split(":")[0]))`
      orders them (see `SortKeyIsHour`). */
  function ChronoKey(e: HourRisk): int { -(ParseHourLabel(HourLabel(e.hour)) as int) }

  /** The key parsed back from the rendered label is the hour itself. */
  lemma {:induction false} SortKeyIsHour(e: HourRisk)
    ensures ChronoKey(e) == -(e.hour as int)
  {
    HourLabelRoundTrip(e.hour);
  }

  // ------------------------------------------------ compute_risk_by_hour

  /** One hour's entry; the `hour` value the source emits is
      `HourLabel(hour)`, e.g. "07:00". */
  datatype HourRisk = HourRisk(hour: Hour, total: nat, high: nat, medium: nat, low: nat, delayed: nat)

  function HourEntry(rows: seq<RiskRow>, h: Hour, sla: real): HourRisk
  {
    var sel := At(rows, h);
    HourRisk(h, |sel|, CountLabel(sel, High), CountLabel(sel, Medium), CountLabel(sel, Low), CountDelayed(sel, sla))
  }

  /** The entries of the hours below `upTo` that have rows, in hour order. */
  function HourEntries(rows: seq<RiskRow>, sla: real, upTo: nat): (es: seq<HourRisk>)
    requires upTo <= 24
    ensures forall i :: 0 <= i < |es| ==> es[i].hour < upTo
    ensures forall i, j :: 0 <= i < j < |es| ==> es[i].hour < es[j].hour
  {
    if upTo == 0 then []
    else
      var h: Hour := upTo - 1;
      var front := HourEntries(rows, sla, upTo - 1);
      if |At(rows, h)| > 0 then front + [HourEntry(rows, h, sla)] else front
  }

  /** Each entry is the count of the hour its label names, that hour has
      rows, and every hour with rows has its entry. */
  lemma {:induction false} HourEntriesContents(rows: seq<RiskRow>, sla: real, upTo: nat)
    requires upTo <= 24
    ensures forall i :: 0 <= i < |HourEntries(rows, sla, upTo)| ==>
              var e := HourEntries(rows, sla, upTo)[i];
              e == HourEntry(rows, e.hour, sla) && e.total > 0
    ensures forall h: Hour :: h < upTo && |At(rows, h)| > 0 ==> HourEntry(rows, h, sla) in HourEntries(rows, sla, upTo)
    decreases upTo
  {
    if upTo > 0 {
      var h: Hour := upTo - 1;
      HourEntriesContents(rows, sla, h);
      var front := HourEntries(rows, sla, h);
      var es := HourEntries(rows, sla, upTo);
      assert es == front + (if |At(rows, h)| > 0 then [HourEntry(rows, h, sla)] else []);
      forall i | 0 <= i < |es| ensures es[i] == HourEntry(rows, es[i].hour, sla) && es[i].total > 0 {
        if i < |front| {
          assert es[i] == front[i];
        }
      }
      forall g: Hour | g < upTo && |At(rows, g)| > 0 ensures HourEntry(rows, g, sla) in es {
        if g < h {
          assert HourEntry(rows, g, sla) in front;
        }
      }
    }
  }

  /** `compute_risk_by_hour` as a value: empty without rows, hours or
      labels; it raises only when the response column is missing; every
      hour listed has rows. */
  function RiskByHour(f: RiskFrame, sla: real): (r: Outcome<seq<HourRisk>>)
    ensures |f.rows| == 0 || !f.hasHour || !f.hasLabel ==> r == Returned([])
    ensures r.Raised? ==> !f.hasResponse
    ensures r.Returned? ==> forall i :: 0 <= i < |r.value| ==> r.value[i].total > 0
  {
    if |f.rows| == 0 || !f.hasHour || !f.hasLabel then Returned([])
    else
      var es := HourEntries(DropNaHourLabel(f.rows), sla, 24);
      HourEntriesContents(DropNaHourLabel(f.rows), sla, 24);
      if es != [] && !f.hasResponse then Raised else Returned(es)
  }

  lemma {:induction false} HourEntriesSnoc(rows: seq<RiskRow>, sla: real, h: Hour)
    ensures HourEntries(rows, sla, h + 1)
         == HourEntries(rows, sla, h) + (if |At(rows, h)| > 0 then [HourEntry(rows, h, sla)] else [])
  {
  }

  /** `compute_risk_by_hour`: nothing for an empty frame or one without the
      hour or label column; otherwise one entry per hour 0..23 that has rows
      after dropping null hours and labels, in hour order, with its total,
      label counts and late count. */
  method ComputeRiskByHour(f: RiskFrame, sla: real) returns (r: Outcome<seq<HourRisk>>)
    ensures r == RiskByHour(f, sla)
  {
    if |f.rows| == 0 || !f.hasHour || !f.hasLabel {
      return Returned([]);
    }
    var rows := DropNaHourLabel(f.rows);
    var result: seq<HourRisk> := [];
    var h := 0;
    while h < 24
      invariant 0 <= h <= 24
      invariant result == HourEntries(rows, sla, h)
      invariant !f.hasResponse ==> result == []
    {
      HourEntriesSnoc(rows, sla, h);
      var sel := At(rows, h);
      if |sel| > 0 {
        if !f.hasResponse {
          assert HourEntries(rows, sla, 24) != [] by {
            HourEntriesContents(rows, sla, 24);
            assert HourEntry(rows, h, sla) in HourEntries(rows, sla, 24);
          }
          return Raised;
        }
        result := result + [HourEntry(rows, h, sla)];
      }
      assert result == HourEntries(rows, sla, h + 1);
      h := h + 1;
    }
    forall i | 0 <= i < |result| {
      SortKeyIsHour(result[i]);
    }
    SortDescSorted(result, ChronoKey);
    result := SortDesc(result, ChronoKey);
    r := Returned(result);
  }

  /** Every listed hour has rows, its label counts and late count stay within
      its total, and the hours ascend. */
  lemma {:induction false} RiskByHourEntries(f: RiskFrame, sla: real)
    requires RiskByHour(f, sla).Returned?
    ensures forall i :: 0 <= i < |RiskByHour(f, sla).value| ==>
              var e := RiskByHour(f, sla).value[i];
              e.high + e.medium + e.low <= e.total && e.delayed <= e.total && e.total > 0
    ensures forall i, j :: 0 <= i < j < |RiskByHour(f, sla).value| ==>
              RiskByHour(f, sla).value[i].hour < RiskByHour(f, sla).value[j].hour
  {
    if |f.rows| > 0 && f.hasHour && f.hasLabel {
      var rows := DropNaHourLabel(f.rows);
      var es := HourEntries(rows, sla, 24);
      HourEntriesContents(rows, sla, 24);
      forall i | 0 <= i < |es|
        ensures es[i].high + es[i].medium + es[i].low <= es[i].total
      {
        LabelCountsBounded(At(rows, es[i].hour));
      }
    }
  }

  /** Every hour with rows that have an hour and a label is listed. */
  lemma {:induction false} RiskByHourCoversHours(f: RiskFrame, sla: real, h: Hour)
    requires RiskByHour(f, sla).Returned? && |f.rows| > 0 && f.hasHour && f.hasLabel
    requires |At(DropNaHourLabel(f.rows), h)| > 0
    ensures HourEntry(DropNaHourLabel(f.rows), h, sla) in RiskByHour(f, sla).value
  {
    HourEntriesContents(DropNaHourLabel(f.rows), sla, 24);
  }

  // -------------------------------------------- compute_risk_by_location

  /** Python's `<` on strings: code point by code point, a proper prefix
      first. */
  predicate StrLt(a: string, b: string)
    decreases |a|
  {
    if b == [] then false
    else if a == [] then true
    else if a[0] != b[0] then a[0] < b[0]
    else StrLt(a[1..], b[1..])
  }

  lemma {:induction false} StrLtIrreflexive(a: string)
    ensures !StrLt(a, a)
    decreases |a|
  {
    if a != [] {
      StrLtIrreflexive(a[1..]);
    }
  }

  lemma {:induction false} StrLtTrans(a: string, b: string, c: string)
    requires StrLt(a, b) && StrLt(b, c)
    ensures StrLt(a, c)
    decreases |a|
  {
    if a != [] && b != [] && c != [] && a[0] == b[0] && b[0] == c[0] {
      StrLtTrans(a[1..], b[1..], c[1..]);
    }
  }

  lemma {:induction false} StrLtTotal(a: string, b: string)
    requires a != b
    ensures StrLt(a, b) || StrLt(b, a)
    decreases |a|
  {
    if a != [] && b != [] && a[0] == b[0] {
      assert a == [a[0]] + a[1..] && b == [b[0]] + b[1..];
      StrLtTotal(a[1..], b[1..]);
    }
  }

  predicate StrictlyAscending(cs: seq<string>) {
    forall i, j :: 0 <= i < j < |cs| ==> StrLt(cs[i], cs[j])
  }

  /** Inserts a city into an ascending list of distinct cities. */
  function InsertCity(c: string, cs: seq<string>): (r: seq<string>)
    requires StrictlyAscending(cs)
    ensures StrictlyAscending(r)
    ensures forall x :: x in r <==> x == c || x in cs
    decreases |cs|
  {
    if cs == [] then [c]
    else if c == cs[0] then cs
    else if StrLt(c, cs[0]) then
      assert forall j :: 0 < j < |cs| ==> StrLt(cs[0], cs[j]);
      InsertCityFront(c, cs);
      [c] + cs
    else
      StrLtTotal(c, cs[0]);
      var rest := InsertCity(c, cs[1..]);
      assert forall x :: x in rest ==> StrLt(cs[0], x) by {
        forall x | x in rest ensures StrLt(cs[0], x) {
          if x != c {
            var j :| 0 <= j < |cs[1..]| && cs[1..][j] == x;
            assert cs[j + 1] == x;
          }
        }
      }
      AscendingCons(cs[0], rest);
      [cs[0]] + rest
  }

  lemma {:induction false} InsertCityFront(c: string, cs: seq<string>)
    requires StrictlyAscending(cs) && cs != [] && StrLt(c, cs[0])
    ensures StrictlyAscending([c] + cs)
  {
    forall j | 0 < j < |cs| ensures StrLt(c, cs[j]) {
      StrLtTrans(c, cs[0], cs[j]);
    }
  }

  lemma {:induction false} AscendingCons(x: string, rest: seq<string>)
    requires StrictlyAscending(rest)
    requires forall y :: y in rest ==> StrLt(x, y)
    ensures StrictlyAscending([x] + rest)
  {
    forall i, j | 0 <= i < j < |[x] + rest| ensures StrLt(([x] + rest)[i], ([x] + rest)[j]) {
      if i == 0 {
        assert ([x] + rest)[j] == rest[j - 1];
        assert rest[j - 1] in rest;
      } else {
        assert ([x] + rest)[i] == rest[i - 1] && ([x] + rest)[j] == rest[j - 1];
      }
    }
  }

  /** Kept by the filter and by `groupby`: a non-empty city and a label. */
  predicate Grouped(r: RiskRow) {
    r.city.Some? && r.city.value != "" && r.riskLabel.Some?
  }

  /** The `groupby("Incident_City")` keys: the distinct cities, ascending. */
  function Cities(rows: seq<RiskRow>): (cs: seq<string>)
    ensures StrictlyAscending(cs)
    ensures forall c :: c in cs <==> exists r :: r in rows && Grouped(r) && r.city.value == c
  {
    if rows == [] then []
    else
      var rest := Cities(rows[1..]);
      var out := if Grouped(rows[0]) then InsertCity(rows[0].city.value, rest) else rest;
      assert forall c :: c in out <==> exists r :: r in rows && Grouped(r) && r.city.value == c by {
        forall c ensures c in out <==> exists r :: r in rows && Grouped(r) && r.city.value == c {
          if c in rest {
            var r :| r in rows[1..] && Grouped(r) && r.city.value == c;
            assert r in rows;
          }
          if exists r :: r in rows && Grouped(r) && r.city.value == c {
            var r :| r in rows && Grouped(r) && r.city.value == c;
            if r != rows[0] {
              var i :| 0 <= i < |rows| && rows[i] == r;
              assert rows[1..][i - 1] == r;
            }
          }
        }
      }
      out
  }

  /** One city's group. */
  function CityRows(rows: seq<RiskRow>, c: string): (sel: seq<RiskRow>)
    ensures |sel| <= |rows|
  {
    if rows == [] then []
    else (if Grouped(rows[0]) && rows[0].city.value == c then [rows[0]] else []) + CityRows(rows[1..], c)
  }

  datatype CityRisk = CityRisk(city: string, total: nat, high: nat, medium: nat, low: nat)

  function CityEntry(rows: seq<RiskRow>, c: string): CityRisk
  {
    var sel := CityRows(rows, c);
    CityRisk(c, |sel|, CountLabel(sel, High), CountLabel(sel, Medium), CountLabel(sel, Low))
  }

  function CityEntries(rows: seq<RiskRow>, cs: seq<string>): (es: seq<CityRisk>)
    ensures |es| == |cs|
    ensures forall i :: 0 <= i < |cs| ==> es[i] == CityEntry(rows, cs[i])
  {
    seq(|cs|, i requires 0 <= i < |cs| => CityEntry(rows, cs[i]))
  }

  function HighKey(e: CityRisk): int { e.high }

  predicate CityBefore(x: CityRisk, y: CityRisk) { StrLt(x.city, y.city) }

  /** `compute_risk_by_location` as a value: empty without rows, cities or
      labels; it raises only when the response column is missing; the
      cities come largest HIGH count first. */
  function RiskByLocation(f: RiskFrame): (r: Outcome<seq<CityRisk>>)
    ensures |f.rows| == 0 || !f.hasCity || !f.hasLabel ==> r == Returned([])
    ensures r.Raised? ==> !f.hasResponse
    ensures r.Returned? ==> NonIncreasing(r.value, HighKey)
  {
    if |f.rows| == 0 || !f.hasCity || !f.hasLabel then Returned([])
    else
      var cs := Cities(f.rows);
      if cs != [] && !f.hasResponse then Raised
      else
        SortDescNonIncreasing(CityEntries(f.rows, cs), HighKey);
        Returned(SortDesc(CityEntries(f.rows, cs), HighKey))
  }

  /** `compute_risk_by_location`: the groups of rows with a non-empty city and
      a label, one entry per city in ascending city order, then sorted by the
      HIGH count, largest first. `list.sort` is stable, so cities with equal
      HIGH counts stay in ascending order. */
  method ComputeRiskByLocation(f: RiskFrame) returns (r: Outcome<seq<CityRisk>>)
    ensures r == RiskByLocation(f)
    ensures r.Returned? ==> LexDesc(r.value, HighKey, CityBefore)
    ensures r.Returned? ==> forall i :: 0 <= i < |r.value| ==>
              r.value[i].high + r.value[i].medium + r.value[i].low <= r.value[i].total
  {
    if |f.rows| == 0 || !f.hasCity || !f.hasLabel {
      return Returned([]);
    }
    var cs := Cities(f.rows);
    var result: seq<CityRisk> := [];
    var k := 0;
    while k < |cs|
      invariant 0 <= k <= |cs|
      invariant result == CityEntries(f.rows, cs[..k])
      invariant !f.hasResponse ==> result == []
    {
      if !f.hasResponse {
        return Raised;
      }
      result := result + [CityEntry(f.rows, cs[k])];
      k := k + 1;
    }
    assert cs[..k] == cs;
    assert Ordered(result, CityBefore);
    SortDescStable(result, HighKey, CityBefore);
    forall i | 0 <= i < |result|
      ensures result[i].high + result[i].medium + result[i].low <= result[i].total
    {
      LabelCountsBounded(CityRows(f.rows, cs[i]));
    }
    var sorted := SortDesc(result, HighKey);
    forall i | 0 <= i < |sorted|
      ensures sorted[i].high + sorted[i].medium + sorted[i].low <= sorted[i].total
    {
      SortDescMembers(result, HighKey, sorted[i]);
    }
    r := Returned(sorted);
  }

  /** A city is listed exactly when it has a row with a label. */
  lemma {:induction false} CityListed(f: RiskFrame, c: string)
    requires RiskByLocation(f).Returned? && |f.rows| > 0 && f.hasCity && f.hasLabel
    ensures CityEntry(f.rows, c) in RiskByLocation(f).value <==>
              exists r :: r in f.rows && Grouped(r) && r.city.value == c
  {
    var cs := Cities(f.rows);
    var es := CityEntries(f.rows, cs);
    SortDescMembers(es, HighKey, CityEntry(f.rows, c));
    if CityEntry(f.rows, c) in es {
      var i :| 0 <= i < |es| && es[i] == CityEntry(f.rows, c);
      assert cs[i] == c;
    }
    if c in cs {
      var i :| 0 <= i < |cs| && cs[i] == c;
      assert es[i] == CityEntry(f.rows, c);
    }
  }

  // -------------------------------------------- compute_peak_risk_hours

  /** The rows kept by the `dropna` whose label is "HIGH". */
  function HighRows(rows: seq<RiskRow>): (sel: seq<RiskRow>)
    ensures |sel| <= |rows|
    ensures forall r :: r in sel ==> r.hour.Some? && r.riskLabel == Some(High)
  {
    if rows == [] then []
    else (if HasHourAndLabel(rows[0]) && rows[0].riskLabel == Some(High) then [rows[0]] else []) + HighRows(rows[1..])
  }

  /** One critical window; the source emits `HourLabel(hour)`. */
  datatype Window = Window(hour: Hour, highRisk: nat, delayedHighRisk: nat)

  function WindowAt(high: seq<RiskRow>, h: Hour, sla: real): Window
  {
    var sel := At(high, h);
    Window(h, |sel|, CountDelayed(sel, sla))
  }

  /** The windows of the hours below `upTo` with high-risk rows, in hour order. */
  function Windows(high: seq<RiskRow>, sla: real, upTo: nat): (ws: seq<Window>)
    requires upTo <= 24
    ensures forall i :: 0 <= i < |ws| ==> ws[i].hour < upTo
    ensures forall i, j :: 0 <= i < j < |ws| ==> ws[i].hour < ws[j].hour
  {
    if upTo == 0 then []
    else
      var h: Hour := upTo - 1;
      var front := Windows(high, sla, upTo - 1);
      if |At(high, h)| > 0 then front + [WindowAt(high, h, sla)] else front
  }

  /** Each window is the count of the hour its label names, and every hour
      with HIGH rows has its window. */
  lemma {:induction false} WindowsContents(high: seq<RiskRow>, sla: real, upTo: nat)
    requires upTo <= 24
    ensures forall i :: 0 <= i < |Windows(high, sla, upTo)| ==>
              var w := Windows(high, sla, upTo)[i];
              w == WindowAt(high, w.hour, sla) && w.highRisk > 0
    ensures forall h: Hour :: h < upTo && |At(high, h)| > 0 ==> WindowAt(high, h, sla) in Windows(high, sla, upTo)
    decreases upTo
  {
    if upTo > 0 {
      var h: Hour := upTo - 1;
      WindowsContents(high, sla, h);
      var front := Windows(high, sla, h);
      var ws := Windows(high, sla, upTo);
      assert ws == front + (if |At(high, h)| > 0 then [WindowAt(high, h, sla)] else []);
      forall i | 0 <= i < |ws| ensures ws[i] == WindowAt(high, ws[i].hour, sla) && ws[i].highRisk > 0 {
        if i < |front| {
          assert ws[i] == front[i];
        }
      }
      forall g: Hour | g < upTo && |At(high, g)| > 0 ensures WindowAt(high, g, sla) in ws {
        if g < h {
          assert WindowAt(high, g, sla) in front;
        }
      }
    }
  }

  lemma {:induction false} WindowsSnoc(high: seq<RiskRow>, sla: real, h: Hour)
    ensures Windows(high, sla, h + 1)
         == Windows(high, sla, h) + (if |At(high, h)| > 0 then [WindowAt(high, h, sla)] else [])
  {
  }

  /** The result: the four-key default, or the five keys including
      `delayed_high_risk_pct` (whose value is not modelled). */
  datatype PeakRisk =
    | NoHighRisk
    | Critical(windows: seq<Window>, worstHour: Option<string>, totalHigh: nat, totalDelayedHigh: nat)

  function PeakRiskKeys(p: PeakRisk): (keys: set<string>)
    ensures |keys| == if p.Critical? then 5 else 4
    ensures "delayed_high_risk_pct" in keys <==> p.Critical?
  {
    {"critical_windows", "worst_hour_for_high_risk", "total_high_risk_incidents", "total_delayed_high_risk"}
      + (if p.Critical? then {"delayed_high_risk_pct"} else {})
  }

  /** `compute_peak_risk_hours` as a value: the default without rows, hours,
      labels or HIGH rows; it raises only when the response column is
      missing; a worst hour is named exactly when some window exists. */
  function PeakRiskHours(f: RiskFrame, sla: real): (r: Outcome<PeakRisk>)
    ensures |f.rows| == 0 || !f.hasHour || !f.hasLabel ==> r == Returned(NoHighRisk)
    ensures r.Raised? ==> !f.hasResponse
    ensures r.Returned? && r.value.Critical? ==>
              r.value.totalHigh > 0 && (r.value.worstHour.Some? <==> r.value.windows != [])
  {
    if |f.rows| == 0 || !f.hasHour || !f.hasLabel then Returned(NoHighRisk)
    else
      var high := HighRows(f.rows);
      if high == [] then Returned(NoHighRisk)
      else
        var ws := Windows(high, sla, 24);
        if ws != [] && !f.hasResponse then Raised
        else
          Returned(Critical(ws, if ws != [] then Some(HourLabel(ws[0].hour)) else None, |high|,
                            if f.hasResponse then CountDelayed(high, sla) else 0))
  }

  /** `compute_peak_risk_hours`: the windows of the hours with HIGH rows in
      hour order, the first of them as the worst hour, and the HIGH and late
      HIGH totals. */
  method ComputePeakRiskHours(f: RiskFrame, sla: real) returns (r: Outcome<PeakRisk>)
    ensures r == PeakRiskHours(f, sla)
  {
    if |f.rows| == 0 || !f.hasHour || !f.hasLabel {
      return Returned(NoHighRisk);
    }
    var high := HighRows(f.rows);
    if high == [] {
      return Returned(NoHighRisk);
    }
    var stats: seq<Window> := [];
    var h := 0;
    while h < 24
      invariant 0 <= h <= 24
      invariant stats == Windows(high, sla, h)
      invariant !f.hasResponse ==> stats == []
    {
      WindowsSnoc(high, sla, h);
      var sel := At(high, h);
      if |sel| > 0 {
        if !f.hasResponse {
          assert Windows(high, sla, 24) != [] by {
            WindowsContents(high, sla, 24);
            assert WindowAt(high, h, sla) in Windows(high, sla, 24);
          }
          return Raised;
        }
        stats := stats + [WindowAt(high, h, sla)];
      }
      assert stats == Windows(high, sla, h + 1);
      h := h + 1;
    }
    forall i | 0 <= i < |stats| {
      WindowKeyIsHour(stats[i]);
    }
    SortDescSorted(stats, WindowKey);
    stats := SortDesc(stats, WindowKey);
    var worst: Option<string> := if stats != [] then Some(HourLabel(stats[0].hour)) else None;
    var delayed := if f.hasResponse then CountDelayed(high, sla) else 0;
    r := Returned(Critical(stats, worst, |high|, delayed));
  }

  function WindowKey(w: Window): int { -(ParseHourLabel(HourLabel(w.hour)) as int) }

  lemma {:induction false} WindowKeyIsHour(w: Window)
    ensures WindowKey(w) == -(w.hour as int)
  {
    HourLabelRoundTrip(w.hour);
  }

  /** The worst hour is the earliest hour with a HIGH incident, whatever the
      later hours' counts: the windows are sorted by hour and the first is
      taken. */
  lemma {:induction false} WorstHourIsEarliest(f: RiskFrame, sla: real, h: Hour)
    requires PeakRiskHours(f, sla).Returned? && PeakRiskHours(f, sla).value.Critical?
    requires |At(HighRows(f.rows), h)| > 0
    requires forall g: Hour :: g < h ==> |At(HighRows(f.rows), g)| == 0
    ensures PeakRiskHours(f, sla).value.worstHour == Some(HourLabel(h))
  {
    var high := HighRows(f.rows);
    var ws := Windows(high, sla, 24);
    WindowsContents(high, sla, 24);
    var k :| 0 <= k < |ws| && ws[k] == WindowAt(high, h, sla);
    var g: Hour := ws[0].hour;
    assert |At(high, g)| > 0;
    assert g <= h;
  }

  /** The late HIGH incidents are among the HIGH incidents, and each window's
      late count stays within its count. */
  lemma {:induction false} PeakRiskTotals(f: RiskFrame, sla: real)
    requires PeakRiskHours(f, sla).Returned? && PeakRiskHours(f, sla).value.Critical?
    ensures PeakRiskHours(f, sla).value.totalDelayedHigh <= PeakRiskHours(f, sla).value.totalHigh
    ensures forall w :: w in PeakRiskHours(f, sla).value.windows ==> w.delayedHighRisk <= w.highRisk
  {
    var high := HighRows(f.rows);
    WindowsContents(high, sla, 24);
  }

  /** The window counts add up to the number of HIGH rows, because every row
      kept by the `dropna` has an hour in 0..23. */
  function SumWindows(ws: seq<Window>): nat
  {
    if ws == [] then 0 else SumWindows(ws[..|ws| - 1]) + ws[|ws| - 1].highRisk
  }

  lemma {:induction false} WindowsSumTo(high: seq<RiskRow>, sla: real, upTo: nat)
    requires upTo <= 24
    ensures SumWindows(Windows(high, sla, upTo)) == SumAt(high, upTo)
    decreases upTo
  {
    if upTo > 0 {
      var h: Hour := upTo - 1;
      WindowsSumTo(high, sla, h);
      AtCount(high, h);
      var front := Windows(high, sla, h);
      if |At(high, h)| > 0 {
        assert (front + [WindowAt(high, h, sla)])[..|front|] == front;
      }
    }
  }

  lemma {:induction false} HighRowsHaveHours(rows: seq<RiskRow>)
    ensures WithHour(HighRows(rows)) == |HighRows(rows)|
    decreases |rows|
  {
    if rows != [] {
      HighRowsHaveHours(rows[1..]);
      var rest := HighRows(rows[1..]);
      if HasHourAndLabel(rows[0]) && rows[0].riskLabel == Some(High) {
        assert HighRows(rows)[1..] == rest;
      } else {
        assert HighRows(rows) == rest;
      }
    }
  }

  lemma {:induction false} WindowCountsAddUp(f: RiskFrame, sla: real)
    requires PeakRiskHours(f, sla).Returned? && PeakRiskHours(f, sla).value.Critical?
    ensures SumWindows(PeakRiskHours(f, sla).value.windows) == PeakRiskHours(f, sla).value.totalHigh
  {
    var high := HighRows(f.rows);
    WindowsSumTo(high, sla, 24);
    HoursPartitionRows(high);
    HighRowsHaveHours(f.rows);
  }
}
