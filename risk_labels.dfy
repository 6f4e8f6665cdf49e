/** The labelling half of the risk-score pipeline
    (`risk_score/risk_score_pipeline.py`): age buckets, the medical text the
    clusters are built from, the keyword labeller applied to each cluster's
    LLM summary, and the copy of each cluster's label onto its incidents. */
module RiskLabels {
  import opened Base
  import opened PyText
  import OllamaReply
  import RiskLlmClient

  const NClusters: nat := 30
  const SamplesPerCluster: nat := 30

  // ------------------------------------------------------------ ages

  /** A Python float, as `float(age)` can produce it. */
  datatype FloatValue = Finite(x: real) | NaN | PosInf | NegInf

  /** A `Patient_Age` cell: `Unparseable` when `float(age)` raises. */
  datatype AgeCell = Parsed(v: FloatValue) | Unparseable

  datatype AgeGroup = Unknown | Infant | Child | Teen | Adult | Elderly

  function AgeGroupName(g: AgeGroup): string
  {
    match g
    case Unknown => "unknown"
    case Infant => "infant"
    case Child => "child"
    case Teen => "teen"
    case Adult => "adult"
    case Elderly => "elderly"
  }

  /** `preprocess_age`: inclusive upper thresholds 1, 12, 18 and 65. Every
      comparison with NaN is false, so NaN falls through to elderly, and so
      does any large age: only an unparseable cell is "unknown". */
  function PreprocessAge(age: AgeCell): (g: AgeGroup)
    ensures g == Unknown <==> age.Unparseable?
    ensures age == Parsed(NaN) ==> g == Elderly
    ensures age == Parsed(PosInf) ==> g == Elderly
    ensures age == Parsed(NegInf) ==> g == Infant
    ensures age.Parsed? && age.v.Finite? ==>
              (g == Infant <==> age.v.x <= 1.0)
              && (g == Child <==> 1.0 < age.v.x <= 12.0)
              && (g == Teen <==> 12.0 < age.v.x <= 18.0)
              && (g == Adult <==> 18.0 < age.v.x <= 65.0)
              && (g == Elderly <==> 65.0 < age.v.x)
  {
    match age
    case Unparseable => Unknown
    case Parsed(NaN) => Elderly
    case Parsed(PosInf) => Elderly
    case Parsed(NegInf) => Infant
    case Parsed(Finite(a)) =>
      if a <= 1.0 then Infant
      else if a <= 12.0 then Child
      else if a <= 18.0 then Teen
      else if a <= 65.0 then Adult
      else Elderly
  }

  /** Position of a bucket on the age axis. */
  function AgeRank(g: AgeGroup): nat
  {
    match g
    case Unknown => 0
    case Infant => 1
    case Child => 2
    case Teen => 3
    case Adult => 4
    case Elderly => 5
  }

  /** Older finite ages never land in a younger bucket. */
  lemma {:induction false} AgeGroupMonotone(a: real, b: real)
    requires a <= b
    ensures AgeRank(PreprocessAge(Parsed(Finite(a)))) <= AgeRank(PreprocessAge(Parsed(Finite(b))))
  {
  }

  // ---------------------------------------------------- medical text

  const Separator: string := " | "

  /** One row of `build_medical_text`: the impression lowercased then
      stripped, the protocol lowercased then stripped (a missing cell is ""),
      and the age bucket, joined by " | ". */
  function MedicalText(impression: Option<string>, protocol: Option<string>, age: AgeCell): string
  {
    Field(impression) + Separator + Field(protocol) + Separator + AgeGroupName(PreprocessAge(age))
  }

  /** `.fillna("")`, `.str.lower()`, `.str.strip()` on one cell. */
  function Field(cell: Option<string>): (f: string)
    ensures f == "" || (!IsSpace(f[0]) && !IsSpace(f[|f| - 1]))
    ensures forall i :: 0 <= i < |f| ==> !IsAsciiUpper(f[i])
  {
    match cell
    case None => ""
    case Some(s) =>
      StripWhileSpec(Lower(s), IsSpace);
      Strip(Lower(s))
  }

  /** The text fields are normalised once and for all: feeding the normalised
      fields back in gives the same medical text. */
  lemma {:induction false} MedicalTextNormalised(impression: string, protocol: string, age: AgeCell)
    ensures MedicalText(Some(Field(Some(impression))), Some(Field(Some(protocol))), age)
            == MedicalText(Some(impression), Some(protocol), age)
  {
    FieldIdempotent(impression);
    FieldIdempotent(protocol);
  }

  lemma {:induction false} FieldIdempotent(s: string)
    ensures Field(Some(Field(Some(s)))) == Field(Some(s))
  {
    var f := Field(Some(s));
    assert Lower(f) == f;
    StripWhileIdempotent(Lower(s), IsSpace);
  }

  /** The whole-frame step. A missing text column makes `df.get` return the
      string "", whose `fillna` raises; a missing `Patient_Age` column reads
      as all NaN, so every row is "elderly". */
  function BuildMedicalText(rows: nat, impressions: Option<seq<Option<string>>>,
                            protocols: Option<seq<Option<string>>>,
                            ages: Option<seq<AgeCell>>): (r: Outcome<seq<string>>)
    requires impressions.Some? ==> |impressions.value| == rows
    requires protocols.Some? ==> |protocols.value| == rows
    requires ages.Some? ==> |ages.value| == rows
    ensures r.Returned? <==> impressions.Some? && protocols.Some?
    ensures r.Returned? ==> |r.value| == rows
    ensures r.Returned? ==> forall i :: 0 <= i < rows ==>
              r.value[i] == MedicalText(impressions.value[i], protocols.value[i],
                                        if ages.Some? then ages.value[i] else Parsed(NaN))
  {
    if impressions.None? || protocols.None? then Raised
    else
      Returned(seq(rows, i requires 0 <= i < rows =>
        MedicalText(impressions.value[i], protocols.value[i], if ages.Some? then ages.value[i] else Parsed(NaN))))
  }

  lemma {:induction false} MissingAgeColumnIsElderly(rows: nat, impressions: seq<Option<string>>, protocols: seq<Option<string>>, i: nat)
    requires |impressions| == rows && |protocols| == rows && i < rows
    ensures var r := BuildMedicalText(rows, Some(impressions), Some(protocols), None);
            r.Returned? && r.value[i] == Field(impressions[i]) + Separator + Field(protocols[i]) + Separator + "elderly"
  {
  }

  // ---------------------------------------------------------- labels

  datatype Label = High | Medium | Low

  const HighKeywords: seq<string> := [
    "cardiac arrest", "life-threatening", "severe", "airway", "major",
    "unconscious", "seizure", "obvious death", "dead on arrival", "expired"
  ]

  const LowKeywords: seq<string> := [
    "low risk", "minor", "no injury", "epistaxis", "nosebleed",
    "public assist", "lift assist", "non traumatic", "non-traumatic", "no treatment"
  ]

  /** `extract_label`: the summary (`None` reads as "") is lowercased; any
      HIGH keyword gives HIGH; failing that any LOW keyword gives LOW; every
      other path of the function returns MEDIUM, so its MEDIUM keyword list
      and its hospital/"ed"/transport test change nothing. */
  function ExtractLabel(summary: Option<string>): (l: Label)
    ensures var s := Lower(if summary.Some? then summary.value else "");
            (l == High <==> ContainsAny(s, HighKeywords))
            && (l == Low <==> !ContainsAny(s, HighKeywords) && ContainsAny(s, LowKeywords))
            && (l == Medium <==> !ContainsAny(s, HighKeywords) && !ContainsAny(s, LowKeywords))
  {
    var s := Lower(if summary.Some? then summary.value else "");
    if ContainsAny(s, HighKeywords) then High
    else if ContainsAny(s, LowKeywords) then Low
    else Medium
  }

  /** Keywords match whatever the letter case of the summary. */
  lemma {:induction false} ExtractLabelCaseBlind(s: string)
    ensures ExtractLabel(Some(Lower(s))) == ExtractLabel(Some(s))
  {
    LowerIdempotent(s);
  }

  /** A summary keeps its HIGH label whatever text is added on either side:
      HIGH wins over any LOW or MEDIUM wording. */
  lemma {:induction false} HighWinsInContext(s: string, before: string, after: string)
    requires ExtractLabel(Some(s)) == High
    ensures ExtractLabel(Some(before + s + after)) == High
  {
    var t := Lower(s);
    var k :| 0 <= k < |HighKeywords| && Contains(t, HighKeywords[k]);
    var big := Lower(before + s + after);
    LowerConcat(before + s, after);
    LowerConcat(before, s);
    assert big == Lower(before) + t + Lower(after);
    assert OccursAt(big, t, |before|);
    ContainsTransitive(big, t, HighKeywords[k]);
  }

  /** The summary that names "cardiac arrest" is HIGH. */
  lemma {:induction false} CardiacArrestIsHigh(s: string)
    requires Contains(Lower(s), "cardiac arrest")
    ensures ExtractLabel(Some(s)) == High
  {
    assert Contains(Lower(s), HighKeywords[0]);
  }

  /** "non life-threatening" contains the HIGH keyword "life-threatening". */
  lemma {:induction false} NonLifeThreateningIsHigh()
    ensures ExtractLabel(Some("non life-threatening")) == High
  {
    var s := "non life-threatening";
    assert Lower(s) == s;
    assert OccursAt(s, HighKeywords[1], 4);
  }

  const NoResponse: string := "[NO LLM RESPONSE]"
  const ErrorSummary: string := "[ERROR]"

  /** Both failure sentinels, and a missing summary, label MEDIUM. */
  lemma {:induction false} SentinelsAreMedium()
    ensures ExtractLabel(Some(NoResponse)) == Medium
    ensures ExtractLabel(Some(ErrorSummary)) == Medium
    ensures ExtractLabel(None) == Medium
  {
    NoResponseIsKeywordFree();
    ErrorIsKeywordFree();
    assert Lower("") == "";
    NoneContained("", HighKeywords, [0, 0, 0, 0, 0, 0, 0, 0, 0, 0]);
    NoneContained("", LowKeywords, [0, 0, 0, 0, 0, 0, 0, 0, 0, 0]);
  }

  lemma {:induction false} NoResponseIsKeywordFree()
    ensures !ContainsAny(Lower(NoResponse), HighKeywords) && !ContainsAny(Lower(NoResponse), LowKeywords)
  {
    NoResponseLower();
    NoneContained("[no llm response]", HighKeywords, [0, 1, 2, 0, 1, 0, 2, 1, 0, 1]);
    NoResponseLowFree();
  }

  lemma {:induction false} NoResponseLower()
    ensures Lower(NoResponse) == "[no llm response]"
  {
    forall i | 0 <= i < |NoResponse| ensures Lower(NoResponse)[i] == "[no llm response]"[i] {
    }
  }

  lemma {:induction false} NoResponseLowFree()
    ensures !ContainsAny("[no llm response]", LowKeywords)
  {
    NoneContained("[no llm response]", LowKeywords, [2, 1, 3, 2, 4, 1, 1, 4, 3, 3]);
  }

  lemma {:induction false} ErrorIsKeywordFree()
    ensures !ContainsAny(Lower(ErrorSummary), HighKeywords) && !ContainsAny(Lower(ErrorSummary), LowKeywords)
  {
    var s := "[error]";
    assert Lower(ErrorSummary) == s;
    NoneContained(s, HighKeywords, [0, 0, 0, 0, 0, 0, 0, 1, 0, 1]);
    NoneContained(s, LowKeywords, [0, 0, 0, 1, 0, 0, 0, 0, 0, 0]);
  }

  // ------------------------------------------------- cluster summaries

  /** One cluster's summary: the text `summarize_cluster` returned, or the
      exception it raised. */
  function SummaryOf(reply: Outcome<string>): (s: string)
    ensures s != ""
    ensures reply.Raised? ==> s == ErrorSummary
    ensures reply == Returned("") ==> s == NoResponse
    ensures reply.Returned? && reply.value != "" ==> s == reply.value
  {
    match reply
    case Raised => ErrorSummary
    case Returned(t) => if t == "" then NoResponse else t
  }

  /** The label a cluster ends up with, given the reply of
      `summarize_cluster` (`render` stands for Python's `str` on a response of
      no known shape). A failed call is "[ERROR]" and a falsy reply (`None`,
      "", `0`, `False`, `{}`, `[]`) is "[NO LLM RESPONSE]", both MEDIUM; a
      text, or a rendered response, is labelled by its keywords. A truthy
      reply that is not a string is stored as it is, and `extract_label` then
      raises on its `.lower()`; no handler surrounds that call, so the run
      stops there. */
  function ReplyLabel(reply: Outcome<OllamaReply.Reply>, render: OllamaReply.Json -> string): (l: Outcome<Label>)
    ensures l.Raised? <==> reply.Returned? && reply.value.Picked? && !reply.value.value.JStr?
                           && OllamaReply.Truthy(reply.value.value)
    ensures reply.Raised? ==> l == Returned(Medium)
    ensures reply.Returned? && reply.value.Picked? && !OllamaReply.Truthy(reply.value.value) ==> l == Returned(Medium)
    ensures reply.Returned? && reply.value.Picked? && reply.value.value.JStr? ==>
              l == Returned(ExtractLabel(Some(SummaryOf(Returned(reply.value.value.s)))))
    ensures reply.Returned? && reply.value.Rendered? ==>
              l == Returned(ExtractLabel(Some(SummaryOf(Returned(render(reply.value.data))))))
  {
    SentinelsAreMedium();
    match reply
    case Raised => Returned(ExtractLabel(Some(SummaryOf(Raised))))
    case Returned(r) =>
      if r.Rendered? then Returned(ExtractLabel(Some(SummaryOf(Returned(render(r.data))))))
      else if r.value.JStr? then Returned(ExtractLabel(Some(SummaryOf(Returned(r.value.s)))))
      else if !OllamaReply.Truthy(r.value) then Returned(ExtractLabel(Some(NoResponse)))
      else Raised
  }

  /** A failed or falsy post leaves the cluster MEDIUM. */
  lemma {:induction false} FailedPostIsMedium(post: Option<OllamaReply.Json>, render: OllamaReply.Json -> string)
    requires post.None? || !OllamaReply.Truthy(post.value)
    ensures ReplyLabel(RiskLlmClient.SummarizeCluster(post), render) == Returned(Medium)
  {
  }

  /** A response `{"response": 5}` reaches `extract_label` as the number 5,
      and the run stops. */
  lemma {:induction false} NumericResponseStopsRun(render: OllamaReply.Json -> string)
    ensures ReplyLabel(RiskLlmClient.SummarizeCluster(
              Some(OllamaReply.JObj(map["response" := OllamaReply.JNum(5.0)]))), render).Raised?
  {
    OllamaReply.DispatchResponseSecond(map["response" := OllamaReply.JNum(5.0)]);
  }

  /** The summarisation loop: one LLM call per cluster in `groupby` order
      (`clusters` are the distinct cluster ids); an empty reply becomes the
      no-response sentinel and an exception the error sentinel, and the loop
      goes on, so every cluster gets a summary. */
  method SummarizeClusters(clusters: seq<int>, replies: seq<Outcome<string>>) returns (summaries: map<int, string>)
    requires |replies| == |clusters|
    requires forall a, b :: 0 <= a < b < |clusters| ==> clusters[a] != clusters[b]
    ensures summaries.Keys == set k | 0 <= k < |clusters| :: clusters[k]
    ensures forall k :: 0 <= k < |clusters| ==> summaries[clusters[k]] == SummaryOf(replies[k])
  {
    summaries := map[];
    var i := 0;
    while i < |clusters|
      invariant 0 <= i <= |clusters|
      invariant summaries.Keys == set k | 0 <= k < i :: clusters[k]
      invariant forall k :: 0 <= k < i ==> summaries[clusters[k]] == SummaryOf(replies[k])
    {
      var summary: string;
      match replies[i] {
        case Raised =>
          summary := ErrorSummary;
        case Returned(t) =>
          summary := t;
          if summary == "" {
            summary := NoResponse;
          }
      }
      summaries := summaries[clusters[i] := summary];
      i := i + 1;
    }
  }

  /** `label_map`: each cluster's summary through `extract_label`. */
  function LabelMap(summaries: map<int, string>): (m: map<int, Label>)
    ensures m.Keys == summaries.Keys
    ensures forall c :: c in m ==> m[c] == ExtractLabel(Some(summaries[c]))
  {
    map c | c in summaries :: ExtractLabel(Some(summaries[c]))
  }

  /** `.map(label_map).fillna("MEDIUM")` on one cluster id: the cluster's
      own label when the map has one, the MEDIUM fill otherwise. */
  function ClusterLabel(labels: map<int, Label>, cluster: int): (l: Label)
    ensures cluster in labels ==> l == labels[cluster]
    ensures cluster !in labels ==> l == Medium
    ensures l in labels.Values || l == Medium
  {
    if cluster in labels then labels[cluster] else Medium
  }

  /** The `risk_label` column: each row's cluster label, MEDIUM when the
      cluster has none. */
  function PropagateLabels(rowClusters: seq<int>, labels: map<int, Label>): (r: seq<Label>)
    ensures |r| == |rowClusters|
    ensures forall i :: 0 <= i < |r| ==> (rowClusters[i] in labels ==> r[i] == labels[rowClusters[i]])
    ensures forall i :: 0 <= i < |r| ==> (rowClusters[i] !in labels ==> r[i] == Medium)
  {
    seq(|rowClusters|, i requires 0 <= i < |rowClusters| => ClusterLabel(labels, rowClusters[i]))
  }

  /** The label is a property of the cluster: rows of one cluster share it. */
  lemma {:induction false} SameClusterSameLabel(rowClusters: seq<int>, labels: map<int, Label>, i: nat, j: nat)
    requires i < |rowClusters| && j < |rowClusters| && rowClusters[i] == rowClusters[j]
    ensures PropagateLabels(rowClusters, labels)[i] == PropagateLabels(rowClusters, labels)[j]
  {
  }

  /** End to end: with every cluster summarised, a row's label is the label
      of its cluster's summary, and a cluster whose call failed or came back
      empty is MEDIUM throughout. */
  lemma {:induction false} RowLabelFromSummary(clusters: seq<int>, replies: seq<Outcome<string>>,
                                             summaries: map<int, string>, rowClusters: seq<int>, i: nat, k: nat)
    requires |replies| == |clusters| && k < |clusters|
    requires summaries.Keys == set c | 0 <= c < |clusters| :: clusters[c]
    requires forall c :: 0 <= c < |clusters| ==> summaries[clusters[c]] == SummaryOf(replies[c])
    requires i < |rowClusters| && rowClusters[i] == clusters[k]
    ensures PropagateLabels(rowClusters, LabelMap(summaries))[i] == ExtractLabel(Some(SummaryOf(replies[k])))
    ensures replies[k].Raised? || replies[k] == Returned("") ==>
              PropagateLabels(rowClusters, LabelMap(summaries))[i] == Medium
  {
    assert clusters[k] in summaries.Keys;
    SentinelsAreMedium();
  }

  /** `sample_clusters` draws `min(len(sub), samples_per_cluster)` rows. */
  function SampleSize(clusterSize: nat, samplesPerCluster: nat): (n: nat)
    ensures n <= clusterSize && n <= samplesPerCluster
    ensures n == clusterSize || n == samplesPerCluster
  {
    if clusterSize < samplesPerCluster then clusterSize else samplesPerCluster
  }

  // ------------------------------------------------------ diagnostics

  /** Row positions (in frame order) that belong to `cluster`. */
  function RowsOf(rowClusters: seq<int>, cluster: int): (rs: seq<nat>)
    ensures forall k :: 0 <= k < |rs| ==> rs[k] < |rowClusters| && rowClusters[rs[k]] == cluster
    ensures forall k, l :: 0 <= k < l < |rs| ==> rs[k] < rs[l]
    ensures forall p :: 0 <= p < |rowClusters| && rowClusters[p] == cluster ==> p in rs
    decreases |rowClusters|
  {
    if rowClusters == [] then []
    else
      var last := |rowClusters| - 1;
      var front := RowsOf(rowClusters[..last], cluster);
      if rowClusters[last] == cluster then front + [last] else front
  }

  datatype Diagnostic = Diagnostic(assignedLabel: Label, clusterSize: nat, examples: seq<nat>)

  /** `cluster_diagnostics`: per cluster present in the frame, its label
      (MEDIUM when unlabelled), its size and its first three rows. */
  function ClusterDiagnostics(rowClusters: seq<int>, labels: map<int, Label>): (d: map<int, Diagnostic>)
    ensures d.Keys == set p | 0 <= p < |rowClusters| :: rowClusters[p]
    ensures forall c :: c in d ==> d[c].assignedLabel == ClusterLabel(labels, c)
    ensures forall c :: c in d ==> d[c].clusterSize == multiset(rowClusters)[c] >= 1
    ensures forall c :: c in d ==> d[c].examples == Take(RowsOf(rowClusters, c), 3)
    ensures forall c :: c in d ==> |d[c].examples| == if d[c].clusterSize < 3 then d[c].clusterSize else 3
  {
    var present := set p | 0 <= p < |rowClusters| :: rowClusters[p];
    assert forall c :: c in present ==> c in rowClusters;
    var d := map c | c in present :: DiagnosticOf(rowClusters, labels, c);
    assert d.Keys == present by {
      assert forall c :: c in d.Keys <==> c in present;
    }
    DiagnosticEntries(rowClusters, labels, d);
    d
  }

  /** Every entry built by `DiagnosticOf` carries its cluster's facts. */
  lemma {:induction false} DiagnosticEntries(rowClusters: seq<int>, labels: map<int, Label>, d: map<int, Diagnostic>)
    requires forall c :: c in d ==> c in rowClusters && d[c] == DiagnosticOf(rowClusters, labels, c)
    ensures forall c :: c in d ==> d[c].assignedLabel == ClusterLabel(labels, c)
    ensures forall c :: c in d ==> d[c].clusterSize == multiset(rowClusters)[c] >= 1
    ensures forall c :: c in d ==> d[c].examples == Take(RowsOf(rowClusters, c), 3)
    ensures forall c :: c in d ==> |d[c].examples| == if d[c].clusterSize < 3 then d[c].clusterSize else 3
  {
    forall c | c in d
      ensures d[c].assignedLabel == ClusterLabel(labels, c)
      ensures d[c].clusterSize == multiset(rowClusters)[c] >= 1
      ensures d[c].examples == Take(RowsOf(rowClusters, c), 3)
      ensures |d[c].examples| == if d[c].clusterSize < 3 then d[c].clusterSize else 3
    {
      var e := DiagnosticOf(rowClusters, labels, c);
      assert d[c] == e;
    }
  }

  /** One cluster's entry: `int(len(sub))` rows, of which `sub.head(3)` are
      the examples, i.e. the cluster's first rows in frame order. */
  function DiagnosticOf(rowClusters: seq<int>, labels: map<int, Label>, c: int): (d: Diagnostic)
    requires c in rowClusters
    ensures d.assignedLabel == ClusterLabel(labels, c)
    ensures d.clusterSize == multiset(rowClusters)[c] >= 1
    ensures d.examples == Take(RowsOf(rowClusters, c), 3)
    ensures |d.examples| == if d.clusterSize < 3 then d.clusterSize else 3
  {
    var rs := RowsOf(rowClusters, c);
    RowsOfCount(rowClusters, c);
    Diagnostic(ClusterLabel(labels, c), |rs|, Take(rs, 3))
  }

  /** A cluster's row list is as long as the cluster is large. */
  lemma {:induction false} RowsOfCount(rowClusters: seq<int>, c: int)
    ensures |RowsOf(rowClusters, c)| == multiset(rowClusters)[c]
    decreases |rowClusters|
  {
    if rowClusters != [] {
      var last := |rowClusters| - 1;
      RowsOfCount(rowClusters[..last], c);
      assert rowClusters == rowClusters[..last] + [rowClusters[last]];
    }
  }

  lemma {:induction false} RowsOfBound(rowClusters: seq<int>, c: int)
    ensures |RowsOf(rowClusters, c)| <= |rowClusters|
    decreases |rowClusters|
  {
    if rowClusters != [] {
      RowsOfBound(rowClusters[..|rowClusters| - 1], c);
    }
  }

  // -------------------------------------------- label codes, evaluation

  /** `{"LOW": 0, "MEDIUM": 1, "HIGH": 2}`. */
  function LabelCode(l: Label): (c: nat)
    ensures c < 3
  {
    match l
    case Low => 0
    case Medium => 1
    case High => 2
  }

  /** The class order of the report: index 0, 1, 2 is LOW, MEDIUM, HIGH. */
  function CodeLabel(c: nat): (l: Option<Label>)
    ensures l.Some? <==> c < 3
  {
    if c == 0 then Some(Low) else if c == 1 then Some(Medium) else if c == 2 then Some(High) else None
  }

  lemma {:induction false} LabelCodeRoundTrip(l: Label, c: nat)
    ensures CodeLabel(LabelCode(l)) == Some(l)
    ensures c < 3 ==> LabelCode(CodeLabel(c).value) == c
  {
  }

  /** `mis = test_orig[_pred_label != _true_label]`: the test rows, in order,
      whose predicted class differs from the encoded true label. */
  method Misclassified(predicted: seq<nat>, truth: seq<Label>) returns (rows: seq<nat>)
    requires |predicted| == |truth|
    ensures forall k :: 0 <= k < |rows| ==> rows[k] < |truth| && predicted[rows[k]] != LabelCode(truth[rows[k]])
    ensures forall p :: 0 <= p < |truth| && predicted[p] != LabelCode(truth[p]) ==> p in rows
    ensures forall k, l :: 0 <= k < l < |rows| ==> rows[k] < rows[l]
  {
    rows := [];
    var i := 0;
    while i < |truth|
      invariant 0 <= i <= |truth|
      invariant forall k :: 0 <= k < |rows| ==> rows[k] < i && predicted[rows[k]] != LabelCode(truth[rows[k]])
      invariant forall p :: 0 <= p < i && predicted[p] != LabelCode(truth[p]) ==> p in rows
      invariant forall k, l :: 0 <= k < l < |rows| ==> rows[k] < rows[l]
    {
      if predicted[i] != LabelCode(truth[i]) {
        rows := rows + [i];
      }
      i := i + 1;
    }
  }
}
