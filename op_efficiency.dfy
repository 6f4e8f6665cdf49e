/** The operational-efficiency dashboard (`backend/op_efficiency/
    op_efficiency_pipeline.py`): the row filter of `load_data`, the empty case
    of `compute_kpis`, the SLA delay buckets and the ranking of the hours with
    the most late responses. Durations are exact reals; a missing or
    unparseable duration (NaN in pandas) is `None`. */
module OpEfficiency {
  import opened Base
  import opened PyText
  import opened Sorting

  /** An hour of the day, as `dt.hour` returns it. */
  type Hour = h: nat | h < 24

  /** One incident after the durations are derived from its timestamps. */
  datatype OpRow = OpRow(
    callHour: Option<Hour>,
    response: Option<real>,
    turnout: Option<real>,
    callCycle: Option<real>,
    onScene: Option<real>)

  // --------------------------------------------------------- load_data

  datatype TimeColumn = ResponseTime | OnSceneTime | CallCycleTime | TurnoutTime

  /** The columns the range loop filters on, in its order. */
  const FilterOrder: seq<TimeColumn> := [ResponseTime, OnSceneTime, CallCycleTime, TurnoutTime]

  function Duration(r: OpRow, c: TimeColumn): Option<real>
  {
    match c
    case ResponseTime => r.response
    case OnSceneTime => r.onScene
    case CallCycleTime => r.callCycle
    case TurnoutTime => r.turnout
  }

  /** `(df[t] >= 0) & (df[t] <= 300)`: false for NaN. */
  predicate InWindow(x: Option<real>) {
    x.Some? && 0.0 <= x.value <= 300.0
  }

  /** Survives `dropna` on the three core durations. */
  predicate CorePresent(r: OpRow) {
    r.response.Some? && r.onScene.Some? && r.callCycle.Some?
  }

  /** Survives the `dropna` and the first `k` range filters. */
  predicate PassesFirst(r: OpRow, k: nat)
    requires k <= |FilterOrder|
  {
    CorePresent(r) && forall c :: 0 <= c < k ==> InWindow(Duration(r, FilterOrder[c]))
  }

  /** A row `load_data` keeps: all four durations present and in [0, 300]. */
  predicate ValidRow(r: OpRow) {
    InWindow(r.response) && InWindow(r.onScene) && InWindow(r.callCycle) && InWindow(r.turnout)
  }

  /** The rows that survive the first `k` filters, in input order. */
  function Survivors(rows: seq<OpRow>, k: nat): (kept: seq<OpRow>)
    requires k <= |FilterOrder|
    ensures forall r :: r in kept <==> r in rows && PassesFirst(r, k)
  {
    if rows == [] then []
    else (if PassesFirst(rows[0], k) then [rows[0]] else []) + Survivors(rows[1..], k)
  }

  /** `df.dropna(subset=core_times, how="any")`. */
  function DropNaCore(rows: seq<OpRow>): (kept: seq<OpRow>)
  {
    if rows == [] then []
    else (if CorePresent(rows[0]) then [rows[0]] else []) + DropNaCore(rows[1..])
  }

  /** `df = df[(df[t] >= 0) & (df[t] <= 300)]` for one column. */
  function KeepInWindow(rows: seq<OpRow>, c: TimeColumn): (kept: seq<OpRow>)
  {
    if rows == [] then []
    else (if InWindow(Duration(rows[0], c)) then [rows[0]] else []) + KeepInWindow(rows[1..], c)
  }

  lemma {:induction false} DropNaIsFirstStage(rows: seq<OpRow>)
    ensures DropNaCore(rows) == Survivors(rows, 0)
    decreases |rows|
  {
    if rows != [] {
      DropNaIsFirstStage(rows[1..]);
    }
  }

  lemma {:induction false} FilterStep(rows: seq<OpRow>, k: nat)
    requires k < |FilterOrder|
    ensures KeepInWindow(Survivors(rows, k), FilterOrder[k]) == Survivors(rows, k + 1)
    decreases |rows|
  {
    if rows != [] {
      FilterStep(rows[1..], k);
      var r := rows[0];
      assert PassesFirst(r, k + 1) <==> PassesFirst(r, k) && InWindow(Duration(r, FilterOrder[k]));
      var head := if PassesFirst(r, k) then [r] else [];
      KeepInWindowConcat(head, Survivors(rows[1..], k), FilterOrder[k]);
    }
  }

  lemma {:induction false} KeepInWindowConcat(a: seq<OpRow>, b: seq<OpRow>, c: TimeColumn)
    ensures KeepInWindow(a + b, c) == KeepInWindow(a, c) + KeepInWindow(b, c)
    decreases |a|
  {
    if a == [] {
      assert a + b == b;
    } else {
      KeepInWindowConcat(a[1..], b, c);
      var head := if InWindow(Duration(a[0], c)) then [a[0]] else [];
      var ab := a + b;
      assert ab[0] == a[0] && ab[1..] == a[1..] + b;
      assert KeepInWindow(ab, c) == head + KeepInWindow(a[1..] + b, c);
      assert KeepInWindow(a, c) == head + KeepInWindow(a[1..], c);
      assert head + (KeepInWindow(a[1..], c) + KeepInWindow(b, c))
          == (head + KeepInWindow(a[1..], c)) + KeepInWindow(b, c);
    }
  }

  /** `load_data` after the durations are derived: drop rows missing a core
      duration, then keep rows whose response, on-scene, call-cycle and
      turnout times lie in [0, 300], one column at a time. */
  method LoadData(rows: seq<OpRow>) returns (kept: seq<OpRow>)
    ensures kept == Survivors(rows, |FilterOrder|)
    ensures forall r :: r in kept <==> r in rows && ValidRow(r)
  {
    kept := DropNaCore(rows);
    DropNaIsFirstStage(rows);
    var k := 0;
    while k < |FilterOrder|
      invariant 0 <= k <= |FilterOrder|
      invariant kept == Survivors(rows, k)
    {
      FilterStep(rows, k);
      kept := KeepInWindow(kept, FilterOrder[k]);
      k := k + 1;
    }
    forall r | r in kept ensures ValidRow(r) {
      assert PassesFirst(r, 4);
      assert InWindow(Duration(r, FilterOrder[0])) && InWindow(Duration(r, FilterOrder[1]));
      assert InWindow(Duration(r, FilterOrder[2])) && InWindow(Duration(r, FilterOrder[3]));
    }
    forall r | r in rows && ValidRow(r) ensures r in kept {
      forall c | 0 <= c < 4 ensures InWindow(Duration(r, FilterOrder[c])) {
      }
    }
  }

  /** A row without a turnout time is dropped, although turnout is not one of
      the `dropna` columns: NaN fails both comparisons. */
  lemma {:induction false} MissingTurnoutDropped(rows: seq<OpRow>, r: OpRow)
    requires r.turnout.None?
    ensures r !in Survivors(rows, |FilterOrder|)
  {
    assert !InWindow(Duration(r, FilterOrder[3]));
  }

  // ------------------------------------------------------- compute_kpis

  const KpiKeys: seq<string> := [
    "avg_response_time", "p90_response_time",
    "avg_on_scene_time", "avg_total_cycle_time", "calls_per_day",
    "busiest_hour", "busiest_city", "avg_turnout_time", "sla_8_min_pct"
  ]

  /** A KPI value: `None` in the empty case; the statistics of a non-empty
      frame are not modelled. */
  datatype Kpi = NoValue

  /** `compute_kpis` on an empty frame: the nine keys, every value `None`. */
  function EmptyKpis(): (m: map<string, Kpi>)
    ensures forall k :: k in m <==> k in KpiKeys
    ensures forall k :: k in m ==> m[k] == NoValue
  {
    map[
      "avg_response_time" := NoValue, "p90_response_time" := NoValue,
      "avg_on_scene_time" := NoValue, "avg_total_cycle_time" := NoValue, "calls_per_day" := NoValue,
      "busiest_hour" := NoValue, "busiest_city" := NoValue, "avg_turnout_time" := NoValue,
      "sla_8_min_pct" := NoValue]
  }

  // ---------------------------------------------- compute_delay_buckets

  /** A frame the dashboard functions are called on. `compute_delay_buckets`
      writes its `delay` column into it. */
  class Frame {
    var rows: seq<OpRow>
    var hasResponse: bool
    var delay: Option<seq<real>>

    constructor (rows: seq<OpRow>, hasResponse: bool)
      ensures this.rows == rows && this.hasResponse == hasResponse && delay.None?
    {
      this.rows := rows;
      this.hasResponse := hasResponse;
      delay := None;
    }
  }

  /** `max(response - sla, 0)` per row; a NaN response gives NaN, which the
      `x if x > 0 else 0` lambda turns into 0. */
  function DelayColumn(rows: seq<OpRow>, sla: real): (d: seq<real>)
    ensures |d| == |rows|
    ensures forall i :: 0 <= i < |rows| ==> d[i] >= 0.0
    ensures forall i :: 0 <= i < |rows| ==>
              (d[i] > 0.0 <==> rows[i].response.Some? && rows[i].response.value > sla)
    ensures forall i :: 0 <= i < |rows| && d[i] > 0.0 ==> d[i] == rows[i].response.value - sla
  {
    seq(|rows|, i requires 0 <= i < |rows| =>
      if rows[i].response.Some? && rows[i].response.value - sla > 0.0
      then rows[i].response.value - sla else 0.0)
  }

  datatype DelayBucket = DelayBucket(name: string, count: nat)

  const BucketLabels: seq<string> := ["0\U{2013}5 min", "5\U{2013}10", "10\U{2013}15", "15\U{2013}30", "30+"]

  /** The bin edges of `pd.cut(..., right=False)`: [0,5), [5,10), [10,15),
      [15,30), [30,999). */
  const BucketEdges: seq<real> := [0.0, 5.0, 10.0, 15.0, 30.0, 999.0]

  /** The number of late delays (`> 0`) in [lo, hi). */
  function CountIn(delays: seq<real>, lo: real, hi: real): (n: nat)
    ensures n <= |delays|
  {
    if delays == [] then 0
    else (if 0.0 < delays[0] && lo <= delays[0] < hi then 1 else 0) + CountIn(delays[1..], lo, hi)
  }

  /** The five buckets in label order, each with its count. */
  function BucketsOf(delays: seq<real>): (b: seq<DelayBucket>)
    ensures |b| == 5
    ensures forall i :: 0 <= i < 5 ==>
              b[i].name == BucketLabels[i] && b[i].count == CountIn(delays, BucketEdges[i], BucketEdges[i + 1])
  {
    seq(5, i requires 0 <= i < 5 => DelayBucket(BucketLabels[i], CountIn(delays, BucketEdges[i], BucketEdges[i + 1])))
  }

  /** `compute_delay_buckets`: nothing for an empty frame or one without a
      response column; otherwise the caller's frame gets the `delay` column and
      the five bucket counts of the late rows are returned. */
  method ComputeDelayBuckets(df: Frame, sla: real) returns (buckets: seq<DelayBucket>)
    modifies df
    ensures df.rows == old(df.rows) && df.hasResponse == old(df.hasResponse)
    ensures |df.rows| == 0 || !df.hasResponse ==> buckets == [] && df.delay == old(df.delay)
    ensures |df.rows| > 0 && df.hasResponse ==>
              df.delay == Some(DelayColumn(df.rows, sla)) && buckets == BucketsOf(DelayColumn(df.rows, sla))
  {
    if |df.rows| == 0 || !df.hasResponse {
      return [];
    }
    var delays := DelayColumn(df.rows, sla);
    df.delay := Some(delays);
    buckets := BucketsOf(delays);
  }

  /** Splitting [lo, hi) at `mid` splits the count. */
  lemma {:induction false} CountInSplit(delays: seq<real>, lo: real, mid: real, hi: real)
    requires lo <= mid <= hi
    ensures CountIn(delays, lo, mid) + CountIn(delays, mid, hi) == CountIn(delays, lo, hi)
    decreases |delays|
  {
    if delays != [] {
      CountInSplit(delays[1..], lo, mid, hi);
    }
  }

  /** The late rows with `delay < 999`. */
  function LateBelow(delays: seq<real>, cap: real): nat
  {
    if delays == [] then 0
    else (if 0.0 < delays[0] < cap then 1 else 0) + LateBelow(delays[1..], cap)
  }

  lemma {:induction false} CountInFromZero(delays: seq<real>, hi: real)
    ensures CountIn(delays, 0.0, hi) == LateBelow(delays, hi)
    decreases |delays|
  {
    if delays != [] {
      CountInFromZero(delays[1..], hi);
    }
  }

  /** The buckets partition the late delays below 999 minutes: their counts
      add up to the number of such rows, and a delay of 999 or more is in no
      bucket. */
  lemma {:induction false} BucketsPartitionLateRows(delays: seq<real>)
    ensures var b := BucketsOf(delays);
            b[0].count + b[1].count + b[2].count + b[3].count + b[4].count == LateBelow(delays, 999.0)
  {
    CountInSplit(delays, 0.0, 5.0, 10.0);
    CountInSplit(delays, 0.0, 10.0, 15.0);
    CountInSplit(delays, 0.0, 15.0, 30.0);
    CountInSplit(delays, 0.0, 30.0, 999.0);
    CountInFromZero(delays, 999.0);
  }

  /** With no late row every bucket is empty: the early return of the source
      and the general path agree. */
  lemma {:induction false} NoLateRowsNoCounts(delays: seq<real>, lo: real, hi: real)
    requires forall i :: 0 <= i < |delays| ==> delays[i] <= 0.0
    ensures CountIn(delays, lo, hi) == 0
    decreases |delays|
  {
    if delays != [] {
      NoLateRowsNoCounts(delays[1..], lo, hi);
    }
  }

  // ------------------------------------------- compute_peak_delay_hours

  /** `response_time_min > sla`, false for NaN. */
  predicate Delayed(r: OpRow, sla: real) {
    r.response.Some? && r.response.value > sla
  }

  function DelayedCount(rows: seq<OpRow>, sla: real): (n: nat)
    ensures n <= |rows|
  {
    if rows == [] then 0
    else (if Delayed(rows[0], sla) then 1 else 0) + DelayedCount(rows[1..], sla)
  }

  /** Delayed rows whose call hour is `h`. */
  function HourCount(rows: seq<OpRow>, sla: real, h: Hour): (n: nat)
    ensures n <= DelayedCount(rows, sla)
  {
    if rows == [] then 0
    else (if Delayed(rows[0], sla) && rows[0].callHour == Some(h) then 1 else 0) + HourCount(rows[1..], sla, h)
  }

  /** The `value_counts()` of the delayed rows' hours, before ranking: every
      hour with a delayed call and its count, hour by hour. */
  function OccupiedHours(rows: seq<OpRow>, sla: real, upTo: nat): (hc: seq<(Hour, nat)>)
    requires upTo <= 24
    ensures forall i :: 0 <= i < |hc| ==> hc[i].0 < upTo && hc[i].1 == HourCount(rows, sla, hc[i].0) > 0
    ensures forall i, j :: 0 <= i < j < |hc| ==> hc[i].0 < hc[j].0
  {
    if upTo == 0 then []
    else
      var h: Hour := upTo - 1;
      var front := OccupiedHours(rows, sla, upTo - 1);
      if HourCount(rows, sla, h) > 0 then front + [(h, HourCount(rows, sla, h))] else front
  }

  /** No hour with a delayed call is missing. */
  lemma {:induction false} OccupiedHoursComplete(rows: seq<OpRow>, sla: real, upTo: nat)
    requires upTo <= 24
    ensures forall h: Hour :: h < upTo && HourCount(rows, sla, h) > 0 ==>
              (h, HourCount(rows, sla, h)) in OccupiedHours(rows, sla, upTo)
    decreases upTo
  {
    if upTo > 0 {
      OccupiedHoursComplete(rows, sla, upTo - 1);
      var hc := OccupiedHours(rows, sla, upTo);
      var front := OccupiedHours(rows, sla, upTo - 1);
      forall h: Hour | h < upTo && HourCount(rows, sla, h) > 0
        ensures (h, HourCount(rows, sla, h)) in hc
      {
        if h < upTo - 1 {
          var i :| 0 <= i < |front| && front[i] == (h, HourCount(rows, sla, h));
          assert hc[i] == front[i];
        } else {
          assert hc[|hc| - 1] == (h, HourCount(rows, sla, h));
        }
      }
    }
  }

  function CountKey(p: (Hour, nat)): int { p.1 }

  /** `.sort_values(ascending=False)`: the hours ranked by count, largest
      first, each with its own positive count. */
  function RankedHours(rows: seq<OpRow>, sla: real): (r: seq<(Hour, nat)>)
    ensures NonIncreasing(r, CountKey)
    ensures forall i :: 0 <= i < |r| ==> r[i].1 == HourCount(rows, sla, r[i].0) > 0
  {
    var occ := OccupiedHours(rows, sla, 24);
    var r := SortDesc(occ, CountKey);
    SortDescNonIncreasing(occ, CountKey);
    assert forall i :: 0 <= i < |r| ==> r[i] in multiset(occ);
    r
  }

  datatype PeakHour = PeakHour(hour: string, count: nat)

  datatype PeakDelay = PeakDelay(
    peakHours: seq<PeakHour>,
    worstHour: Option<string>,
    bestHour: Option<string>,
    totalDelayed: nat)

  const NoPeakDelay: PeakDelay := PeakDelay([], None, None, 0)

  function Render(ranked: seq<(Hour, nat)>): (ps: seq<PeakHour>)
    ensures |ps| == |ranked|
    ensures forall i :: 0 <= i < |ranked| ==> ps[i] == PeakHour(HourLabel(ranked[i].0), ranked[i].1)
  {
    seq(|ranked|, i requires 0 <= i < |ranked| => PeakHour(HourLabel(ranked[i].0), ranked[i].1))
  }

  lemma {:induction false} RenderSnoc(ranked: seq<(Hour, nat)>, i: nat)
    requires i < |ranked|
    ensures Render(ranked[..i + 1]) == Render(ranked[..i]) + [PeakHour(HourLabel(ranked[i].0), ranked[i].1)]
  {
    var l := Render(ranked[..i + 1]);
    var r := Render(ranked[..i]) + [PeakHour(HourLabel(ranked[i].0), ranked[i].1)];
    forall k | 0 <= k < |l| ensures l[k] == r[k] {
      assert ranked[..i + 1][k] == ranked[k];
    }
  }

  /** `compute_peak_delay_hours`: the fixed four-key default for an empty
      frame, a missing column or no delayed row; otherwise the hours with
      delayed calls ranked by their count, the first as worst and the last as
      best, and the number of delayed rows. */
  method ComputePeakDelayHours(rows: seq<OpRow>, hasCallTime: bool, hasResponse: bool, sla: real)
    returns (r: PeakDelay)
    ensures rows == [] || !hasCallTime || !hasResponse || DelayedCount(rows, sla) == 0 ==> r == NoPeakDelay
    ensures rows != [] && hasCallTime && hasResponse && DelayedCount(rows, sla) > 0 ==>
              r.totalDelayed == DelayedCount(rows, sla)
              && r.peakHours == Render(RankedHours(rows, sla))
              && (r.peakHours == [] ==> r.worstHour.None? && r.bestHour.None?)
              && (r.peakHours != [] ==>
                    r.worstHour == Some(r.peakHours[0].hour)
                    && r.bestHour == Some(r.peakHours[|r.peakHours| - 1].hour))
  {
    if rows == [] || !hasCallTime || !hasResponse {
      return NoPeakDelay;
    }
    var total := DelayedCount(rows, sla);
    if total == 0 {
      return NoPeakDelay;
    }
    var ranked := RankedHours(rows, sla);
    var worst: Option<string> := if |ranked| > 0 then Some(HourLabel(ranked[0].0)) else None;
    var best: Option<string> := if |ranked| > 0 then Some(HourLabel(ranked[|ranked| - 1].0)) else None;
    var peak: seq<PeakHour> := [];
    var i := 0;
    while i < |ranked|
      invariant 0 <= i <= |ranked|
      invariant peak == Render(ranked[..i])
    {
      RenderSnoc(ranked, i);
      peak := peak + [PeakHour(HourLabel(ranked[i].0), ranked[i].1)];
      i := i + 1;
    }
    assert ranked[..i] == ranked;
    r := PeakDelay(peak, worst, best, total);
  }

  /** The ranking is non-increasing by count, every count is positive, and an
      hour is listed, with its count, exactly when it has a delayed call. */
  lemma {:induction false} RankedHoursSpec(rows: seq<OpRow>, sla: real)
    ensures var ranked := RankedHours(rows, sla);
            NonIncreasing(ranked, CountKey)
            && (forall i :: 0 <= i < |ranked| ==> ranked[i].1 == HourCount(rows, sla, ranked[i].0) > 0)
            && (forall h: Hour :: HourCount(rows, sla, h) > 0 <==> (h, HourCount(rows, sla, h)) in ranked)
  {
    var occ := OccupiedHours(rows, sla, 24);
    var ranked := RankedHours(rows, sla);
    OccupiedHoursComplete(rows, sla, 24);
    SortDescNonIncreasing(occ, CountKey);
    forall i | 0 <= i < |ranked| ensures ranked[i].1 == HourCount(rows, sla, ranked[i].0) > 0 {
      SortDescMembers(occ, CountKey, ranked[i]);
    }
    forall h: Hour ensures HourCount(rows, sla, h) > 0 <==> (h, HourCount(rows, sla, h)) in ranked {
      SortDescMembers(occ, CountKey, (h, HourCount(rows, sla, h)));
      if (h, HourCount(rows, sla, h)) in occ {
        var i :| 0 <= i < |occ| && occ[i] == (h, HourCount(rows, sla, h));
      }
    }
  }

  /** The worst hour has the largest count of delayed calls and the best hour
      the smallest non-zero count. */
  lemma {:induction false} WorstAndBestHours(rows: seq<OpRow>, sla: real, h: Hour)
    requires |RankedHours(rows, sla)| > 0 && HourCount(rows, sla, h) > 0
    ensures var ranked := RankedHours(rows, sla);
            ranked[0].1 >= HourCount(rows, sla, h) >= ranked[|ranked| - 1].1
  {
    RankedHoursSpec(rows, sla);
    var ranked := RankedHours(rows, sla);
    var i :| 0 <= i < |ranked| && ranked[i] == (h, HourCount(rows, sla, h));
    assert CountKey(ranked[0]) >= CountKey(ranked[i]) >= CountKey(ranked[|ranked| - 1]);
  }

  /** Distinct hours get distinct "HH:00" labels, so no label is listed twice. */
  lemma {:induction false} PeakHourLabelsDistinct(rows: seq<OpRow>, sla: real)
    ensures Distinct(Render(RankedHours(rows, sla)))
  {
    var occ := OccupiedHours(rows, sla, 24);
    var ranked := RankedHours(rows, sla);
    assert Distinct(occ);
    SortDescDistinct(occ, CountKey);
    RankedHoursSpec(rows, sla);
    var ps := Render(ranked);
    forall a, b | 0 <= a < b < |ps| ensures ps[a] != ps[b] {
      assert ranked[a].0 != ranked[b].0;
      HourLabelDiffers(ranked[a].0, ranked[b].0);
    }
  }

  lemma {:induction false} HourLabelDiffers(a: Hour, b: Hour)
    requires a != b
    ensures HourLabel(a) != HourLabel(b)
  {
    if HourLabel(a) == HourLabel(b) {
      HourLabelInjective(a, b);
    }
  }

  /** Every delayed call with a known hour is counted once: the hour counts
      add up to the delayed calls that have a call hour. */
  function SumHours(rows: seq<OpRow>, sla: real, upTo: nat): nat
    requires upTo <= 24
  {
    if upTo == 0 then 0 else SumHours(rows, sla, upTo - 1) + HourCount(rows, sla, upTo - 1)
  }

  function DelayedWithHour(rows: seq<OpRow>, sla: real): nat
  {
    if rows == [] then 0
    else (if Delayed(rows[0], sla) && rows[0].callHour.Some? then 1 else 0) + DelayedWithHour(rows[1..], sla)
  }

  lemma {:induction false} SumHoursStep(rows: seq<OpRow>, sla: real, upTo: nat)
    requires rows != [] && upTo <= 24
    ensures SumHours(rows, sla, upTo)
         == SumHours(rows[1..], sla, upTo)
            + (if Delayed(rows[0], sla) && rows[0].callHour.Some? && rows[0].callHour.value < upTo then 1 else 0)
    decreases upTo
  {
    if upTo > 0 {
      SumHoursStep(rows, sla, upTo - 1);
    }
  }

  lemma {:induction false} HourCountsAddUp(rows: seq<OpRow>, sla: real)
    ensures SumHours(rows, sla, 24) == DelayedWithHour(rows, sla)
    decreases |rows|
  {
    if rows == [] {
      SumHoursOfNothing(rows, sla, 24);
    } else {
      SumHoursStep(rows, sla, 24);
      HourCountsAddUp(rows[1..], sla);
    }
  }

  lemma {:induction false} SumHoursOfNothing(rows: seq<OpRow>, sla: real, upTo: nat)
    requires rows == [] && upTo <= 24
    ensures SumHours(rows, sla, upTo) == 0
    decreases upTo
  {
    if upTo > 0 {
      SumHoursOfNothing(rows, sla, upTo - 1);
    }
  }
}
