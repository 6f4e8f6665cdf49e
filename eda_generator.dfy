/** The two line-oriented parsers of `eda/eda_generator_agent.py`: the plot
    interpretations of `get_interpretations` and the bullet lists of
    `get_insights_and_recommendations`. The model's reply is the input; the
    prompt and the call to the model are left out. */
module EdaGenerator {
  import opened Base
  import opened PyText

  const PlotPrefix: string := "PLOT_FILENAME:"
  const EndMarker: string := "END_INTERPRETATION"

  /** A loop over the lines of a reply: `step` applied to each in turn. */
  function Fold<S>(step: (S, string) -> S, st: S, lines: seq<string>): S
    decreases |lines|
  {
    if lines == [] then st else Fold(step, step(st, lines[0]), lines[1..])
  }

  /** Looping over two pieces is looping over the first, then the second. */
  lemma {:induction false} FoldAppend<S>(step: (S, string) -> S, st: S, a: seq<string>, b: seq<string>)
    ensures Fold(step, st, a + b) == Fold(step, Fold(step, st, a), b)
    decreases |a|
  {
    if a != [] {
      assert (a + b)[1..] == a[1..] + b;
      FoldAppend(step, step(st, a[0]), a[1..], b);
    } else {
      assert a + b == b;
    }
  }

  lemma {:induction false} FoldSingle<S>(step: (S, string) -> S, st: S, line: string)
    ensures Fold(step, st, [line]) == step(st, line)
  {
    assert [line][1..] == [];
  }

  // ------------------------------------------------------ the path map

  /** `path_map`: the items of the dict from basename to full path, in
      insertion order. A dict holds each key once (a later plot with the same
      basename replaces the path in place), so the model expects distinct
      keys; on a sequence that repeats a key, `Lookup` answers with the first
      entry where the dict would hold the last path. */
  type PathMap = seq<(string, string)>

  /** `path_map.get(name)`: the path of the first entry whose key is `name`. */
  function Lookup(pm: PathMap, name: string): (r: Option<string>)
    ensures r.Some? ==> exists k :: 0 <= k < |pm| && pm[k] == (name, r.value)
    ensures r.None? <==> forall k :: 0 <= k < |pm| ==> pm[k].0 != name
  {
    if pm == [] then None
    else if pm[0].0 == name then Some(pm[0].1)
    else
      var r := Lookup(pm[1..], name);
      assert r.Some? ==> exists k :: 0 <= k < |pm| && pm[k] == (name, r.value) by {
        if r.Some? {
          var k :| 0 <= k < |pm[1..]| && pm[1..][k] == (name, r.value);
          assert pm[k + 1] == pm[1..][k];
        }
      }
      assert r.None? ==> forall k :: 0 <= k < |pm| ==> pm[k].0 != name by {
        if r.None? {
          forall k | 0 <= k < |pm| ensures pm[k].0 != name {
            if k > 0 { assert pm[k] == pm[1..][k - 1]; }
          }
        }
      }
      r
  }

  /** `full_path in path_map.values()`. */
  predicate IsValue(pm: PathMap, p: string) {
    exists k | 0 <= k < |pm| :: pm[k].1 == p
  }

  /** The basename and the name are substrings of each other, in either
      direction. */
  predicate Fuzzy(base: string, name: string) {
    Contains(name, base) || Contains(base, name)
  }

  /** The loop over `path_map.items()`: the path of the first entry whose key
      matches `name` loosely. */
  function FirstFuzzy(pm: PathMap, name: string): (r: Option<string>)
    ensures r.Some? ==> exists k :: 0 <= k < |pm| && Fuzzy(pm[k].0, name) && pm[k].1 == r.value
                                    && (forall j :: 0 <= j < k ==> !Fuzzy(pm[j].0, name))
    ensures r.None? <==> forall k :: 0 <= k < |pm| ==> !Fuzzy(pm[k].0, name)
  {
    if pm == [] then None
    else if Fuzzy(pm[0].0, name) then Some(pm[0].1)
    else
      var r := FirstFuzzy(pm[1..], name);
      assert r.Some? ==> exists k :: 0 <= k < |pm| && Fuzzy(pm[k].0, name) && pm[k].1 == r.value
                                     && (forall j :: 0 <= j < k ==> !Fuzzy(pm[j].0, name)) by {
        if r.Some? {
          var k :| 0 <= k < |pm[1..]| && Fuzzy(pm[1..][k].0, name) && pm[1..][k].1 == r.value
                   && forall j :: 0 <= j < k ==> !Fuzzy(pm[1..][j].0, name);
          assert pm[k + 1] == pm[1..][k];
          forall j | 0 <= j < k + 1 ensures !Fuzzy(pm[j].0, name) {
            if j > 0 { assert pm[j] == pm[1..][j - 1]; }
          }
        }
      }
      assert r.None? ==> forall k :: 0 <= k < |pm| ==> !Fuzzy(pm[k].0, name) by {
        if r.None? {
          forall k | 0 <= k < |pm| ensures !Fuzzy(pm[k].0, name) {
            if k > 0 { assert pm[k] == pm[1..][k - 1]; }
          }
        }
      }
      r
  }

  /** The key an interpretation is stored under: `path_map.get(name, name)`,
      and when that is not one of the full paths, the first loose match. */
  function Resolve(pm: PathMap, name: string): (r: string)
    ensures r == name || IsValue(pm, r)
  {
    var fp := if Lookup(pm, name).Some? then Lookup(pm, name).value else name;
    if IsValue(pm, fp) then fp
    else match FirstFuzzy(pm, name)
      case Some(full) =>
        var k :| 0 <= k < |pm| && Fuzzy(pm[k].0, name) && pm[k].1 == full
                 && forall j :: 0 <= j < k ==> !Fuzzy(pm[j].0, name);
        assert IsValue(pm, pm[k].1);
        full
      case None => fp
  }

  /** An exact basename gives its full path; otherwise a name that is itself
      a full path is kept; otherwise the first loose match; otherwise the
      raw name. */
  lemma {:induction false} ResolveCases(pm: PathMap, name: string)
    ensures forall k :: 0 <= k < |pm| && pm[k].0 == name && (forall j :: 0 <= j < k ==> pm[j].0 != name) ==>
              Resolve(pm, name) == pm[k].1
    ensures Lookup(pm, name).None? && IsValue(pm, name) ==> Resolve(pm, name) == name
    ensures Lookup(pm, name).None? && !IsValue(pm, name) ==>
              Resolve(pm, name) == if FirstFuzzy(pm, name).Some? then FirstFuzzy(pm, name).value else name
    ensures Resolve(pm, name) == name || IsValue(pm, Resolve(pm, name))
  {
    forall k | 0 <= k < |pm| && pm[k].0 == name && (forall j :: 0 <= j < k ==> pm[j].0 != name)
      ensures Resolve(pm, name) == pm[k].1
    {
      LookupFirst(pm, name, k);
      assert IsValue(pm, pm[k].1);
    }
    if Lookup(pm, name).Some? {
      var k :| 0 <= k < |pm| && pm[k] == (name, Lookup(pm, name).value);
      assert IsValue(pm, Lookup(pm, name).value);
    } else if !IsValue(pm, name) && FirstFuzzy(pm, name).Some? {
      var k :| 0 <= k < |pm| && Fuzzy(pm[k].0, name) && pm[k].1 == FirstFuzzy(pm, name).value
               && forall j :: 0 <= j < k ==> !Fuzzy(pm[j].0, name);
      assert IsValue(pm, pm[k].1);
    }
  }

  /** `get` answers with the first entry holding the key. */
  lemma {:induction false} LookupFirst(pm: PathMap, name: string, k: nat)
    requires k < |pm| && pm[k].0 == name
    requires forall j :: 0 <= j < k ==> pm[j].0 != name
    ensures Lookup(pm, name) == Some(pm[k].1)
    decreases k
  {
    if k > 0 {
      assert pm[1..][k - 1] == pm[k];
      forall j | 0 <= j < k - 1 ensures pm[1..][j].0 != name {
        assert pm[1..][j] == pm[j + 1];
      }
      LookupFirst(pm[1..], name, k - 1);
    }
  }

  // ---------------------------------------------- interpretation parser

  /** The parser's variables: `current_file` (`None` or a name),
      `current_text` and `interpretations`. */
  datatype Parse = Parse(current: Option<string>, text: seq<string>, found: map<string, string>)

  const Start: Parse := Parse(None, [], map[])

  /** `if current_file:`: a name is open and it is not "". */
  predicate Open(current: Option<string>) {
    current.Some? && current.value != ""
  }

  /** The line, once stripped, is a `PLOT_FILENAME:` or `END_INTERPRETATION`
      line. */
  predicate MarkerLine(line: string) {
    StartsWith(line, PlotPrefix) || line == EndMarker
  }

  /** Each line stripped, as the loops of both parsers do first. */
  function StripAll(lines: seq<string>): seq<string>
  {
    MapSeq(Strip, lines)
  }

  /** One pass of the loop over `response.splitlines()`, on the stripped
      line. An entry is written only by an `END_INTERPRETATION` line closing
      an open name. */
  function Step(pm: PathMap, st: Parse, line: string): (r: Parse)
    ensures r.found != st.found ==> line == EndMarker && Open(st.current)
    ensures !MarkerLine(line) && Open(st.current) ==> r == Parse(st.current, st.text + [line], st.found)
    ensures !MarkerLine(line) && !Open(st.current) ==> r == st
  {
    if StartsWith(line, PlotPrefix) then
      Parse(Some(Strip(Replace(line, PlotPrefix, ""))), [], st.found)
    else if line == EndMarker then
      if Open(st.current) then
        Parse(None, st.text, st.found[Resolve(pm, st.current.value) := Strip(Join("\n", st.text))])
      else st
    else if Open(st.current) then Parse(st.current, st.text + [line], st.found)
    else st
  }

  function Run(pm: PathMap, st: Parse, lines: seq<string>): Parse
  {
    Fold((s, line) => Step(pm, s, line), st, lines)
  }

  /** What `get_interpretations` returns for the model's reply: nothing at
      all unless some line is an `END_INTERPRETATION` marker. */
  function Interpretations(response: string, pm: PathMap): (r: map<string, string>)
    ensures (forall i :: 0 <= i < |SplitLines(response)| ==> Strip(SplitLines(response)[i]) != EndMarker) ==> r == map[]
  {
    var lines := StripAll(SplitLines(response));
    if forall i :: 0 <= i < |lines| ==> lines[i] != EndMarker then
      NoEndNoEntries(pm, Start, lines);
      Run(pm, Start, lines).found
    else
      Run(pm, Start, lines).found
  }

  /** The parsing loop of `get_interpretations`. */
  method GetInterpretations(response: string, pm: PathMap) returns (interpretations: map<string, string>)
    ensures interpretations == Interpretations(response, pm)
  {
    var lines := SplitLines(response);
    ghost var stripped := StripAll(lines);
    interpretations := map[];
    var currentFile: Option<string> := None;
    var currentText: seq<string> := [];
    var i := 0;
    while i < |lines|
      invariant 0 <= i <= |lines|
      invariant Run(pm, Parse(currentFile, currentText, interpretations), stripped[i..]) == Run(pm, Start, stripped)
    {
      ghost var before := Parse(currentFile, currentText, interpretations);
      var line := Strip(lines[i]);
      if StartsWith(line, PlotPrefix) {
        currentFile := Some(Strip(Replace(line, PlotPrefix, "")));
        currentText := [];
      } else if line == EndMarker {
        if currentFile.Some? && currentFile.value != "" {
          var fullPath := Resolve(pm, currentFile.value);
          interpretations := interpretations[fullPath := Strip(Join("\n", currentText))];
          currentFile := None;
        }
      } else if currentFile.Some? && currentFile.value != "" {
        currentText := currentText + [line];
      }
      assert Parse(currentFile, currentText, interpretations) == Step(pm, before, stripped[i]);
      assert stripped[i..][1..] == stripped[i + 1..];
      i := i + 1;
    }
  }

  /** Inside an open block, ordinary lines are collected in order, and
      nothing is recorded. */
  lemma {:induction false} BodyCollected(pm: PathMap, name: string, text: seq<string>, found: map<string, string>, mids: seq<string>)
    requires name != ""
    requires forall i :: 0 <= i < |mids| ==> !MarkerLine(mids[i])
    ensures Run(pm, Parse(Some(name), text, found), mids) == Parse(Some(name), text + mids, found)
    decreases |mids|
  {
    if mids != [] {
      forall i | 0 <= i < |mids[1..]| ensures !MarkerLine(mids[1..][i]) {
        assert mids[1..][i] == mids[i + 1];
      }
      var next := Step(pm, Parse(Some(name), text, found), mids[0]);
      assert next == Parse(Some(name), text + [mids[0]], found);
      BodyCollected(pm, name, text + [mids[0]], found, mids[1..]);
      assert text + [mids[0]] + mids[1..] == text + mids;
    } else {
      assert text + mids == text;
    }
  }

  /** A header line is its own strip. */
  lemma {:induction false} HeaderPlain(name: string)
    requires name != "" && !IsSpace(name[0]) && !IsSpace(name[|name| - 1])
    ensures Strip(PlotPrefix + name) == PlotPrefix + name
  {
    var h := PlotPrefix + name;
    assert h[0] == 'P' && h[|h| - 1] == name[|name| - 1];
    StripNoop(h);
  }

  /** The header line opens a block for the plot it names: the prefix is
      cut and the rest stripped. */
  lemma {:induction false} OpenStep(pm: PathMap, st: Parse, name: string)
    requires name != "" && !IsSpace(name[0]) && !IsSpace(name[|name| - 1])
    requires !Contains(name, PlotPrefix)
    ensures Step(pm, st, PlotPrefix + name) == Parse(Some(name), [], st.found)
  {
    var h := PlotPrefix + name;
    assert h[..|PlotPrefix|] == PlotPrefix;
    PrefixCut(name);
    StripNoop(name);
  }

  lemma {:induction false} PrefixCut(name: string)
    requires !Contains(name, PlotPrefix)
    ensures Replace(PlotPrefix + name, PlotPrefix, "") == name
  {
    var h := PlotPrefix + name;
    assert h[..|PlotPrefix|] == PlotPrefix;
    assert h[|PlotPrefix|..] == name;
    assert Replace(h, PlotPrefix, "") == "" + Replace(name, PlotPrefix, "");
    ReplaceAbsent(name, PlotPrefix, "");
  }

  /** An `END_INTERPRETATION` line closes the open block. */
  lemma {:induction false} CloseStep(pm: PathMap, st: Parse)
    requires Open(st.current)
    ensures Step(pm, st, EndMarker) == Parse(None, st.text, st.found[Resolve(pm, st.current.value) := Strip(Join("\n", st.text))])
  {
    EndMarkerPlain();
  }

  lemma {:induction false} CloseRun(pm: PathMap, st: Parse)
    requires Open(st.current)
    ensures Run(pm, st, [EndMarker]) == Parse(None, st.text, st.found[Resolve(pm, st.current.value) := Strip(Join("\n", st.text))])
  {
    CloseStep(pm, st);
    var step := (s, line) => Step(pm, s, line);
    FoldSingle(step, st, EndMarker);
  }

  lemma {:induction false} EndMarkerPlain()
    ensures Strip(EndMarker) == EndMarker
    ensures !StartsWith(EndMarker, PlotPrefix)
  {
    assert EndMarker[..|PlotPrefix|][0] != PlotPrefix[0];
    assert EndMarker[0] == 'E' && EndMarker[|EndMarker| - 1] == 'N';
    StripNoop(EndMarker);
  }

  /** The stripped lines of a block in the requested format. */
  lemma {:induction false} BlockLines(name: string, mids: seq<string>)
    requires name != "" && !IsSpace(name[0]) && !IsSpace(name[|name| - 1])
    ensures StripAll([PlotPrefix + name] + mids + [EndMarker]) == [PlotPrefix + name] + StripAll(mids) + [EndMarker]
  {
    HeaderPlain(name);
    EndMarkerPlain();
    MapSeqFixedEnds(Strip, PlotPrefix + name, mids, EndMarker);
  }

  /** The stripped lines of a block that is never closed. */
  lemma {:induction false} OpenBlockLines(name: string, mids: seq<string>)
    requires name != "" && !IsSpace(name[0]) && !IsSpace(name[|name| - 1])
    ensures StripAll([PlotPrefix + name] + mids) == [PlotPrefix + name] + StripAll(mids)
  {
    HeaderPlain(name);
    MapSeqFixedHead(Strip, PlotPrefix + name, mids);
  }

  /** Round trip: a block written in the requested format is recorded under
      its resolved name, with its stripped lines joined by "\n", stripped. */
  lemma {:induction false} InterpretationBlock(pm: PathMap, st: Parse, name: string, mids: seq<string>)
    requires name != "" && !IsSpace(name[0]) && !IsSpace(name[|name| - 1])
    requires !Contains(name, PlotPrefix)
    requires forall i :: 0 <= i < |mids| ==> !MarkerLine(Strip(mids[i]))
    ensures Run(pm, st, StripAll([PlotPrefix + name] + mids + [EndMarker])).found
            == st.found[Resolve(pm, name) := Strip(Join("\n", StripAll(mids)))]
  {
    BlockLines(name, mids);
    var body := StripAll(mids);
    BlockRun(pm, st, name, body);
  }

  /** The same block, on its stripped lines. */
  lemma {:induction false} BlockRun(pm: PathMap, st: Parse, name: string, body: seq<string>)
    requires name != "" && !IsSpace(name[0]) && !IsSpace(name[|name| - 1])
    requires !Contains(name, PlotPrefix)
    requires forall i :: 0 <= i < |body| ==> !MarkerLine(body[i])
    ensures Run(pm, st, [PlotPrefix + name] + body + [EndMarker]).found
            == st.found[Resolve(pm, name) := Strip(Join("\n", body))]
  {
    var step := (s, line) => Step(pm, s, line);
    OpenRun(pm, st, name, body);
    FoldAppend(step, st, [PlotPrefix + name] + body, [EndMarker]);
    CloseRun(pm, Parse(Some(name), body, st.found));
  }

  /** A block that is never closed records nothing. */
  lemma {:induction false} UnclosedBlockDropped(pm: PathMap, st: Parse, name: string, mids: seq<string>)
    requires name != "" && !IsSpace(name[0]) && !IsSpace(name[|name| - 1])
    requires !Contains(name, PlotPrefix)
    requires forall i :: 0 <= i < |mids| ==> !MarkerLine(Strip(mids[i]))
    ensures Run(pm, st, StripAll([PlotPrefix + name] + mids)).found == st.found
  {
    OpenBlockLines(name, mids);
    OpenRun(pm, st, name, StripAll(mids));
  }

  /** After the header and ordinary lines, the block is open with those
      lines collected. */
  lemma {:induction false} OpenRun(pm: PathMap, st: Parse, name: string, body: seq<string>)
    requires name != "" && !IsSpace(name[0]) && !IsSpace(name[|name| - 1])
    requires !Contains(name, PlotPrefix)
    requires forall i :: 0 <= i < |body| ==> !MarkerLine(body[i])
    ensures Run(pm, st, [PlotPrefix + name] + body) == Parse(Some(name), body, st.found)
  {
    var step := (s, line) => Step(pm, s, line);
    OpenStep(pm, st, name);
    FoldSingle(step, st, PlotPrefix + name);
    FoldAppend(step, st, [PlotPrefix + name], body);
    BodyCollected(pm, name, [], st.found, body);
    assert [] + body == body;
  }

  /** Without an `END_INTERPRETATION` line nothing is recorded. */
  lemma {:induction false} NoEndNoEntries(pm: PathMap, st: Parse, lines: seq<string>)
    requires forall i :: 0 <= i < |lines| ==> lines[i] != EndMarker
    ensures Run(pm, st, lines).found == st.found
    decreases |lines|
  {
    if lines != [] {
      forall i | 0 <= i < |lines[1..]| ensures lines[1..][i] != EndMarker {
        assert lines[1..][i] == lines[i + 1];
      }
      NoEndNoEntries(pm, Step(pm, st, lines[0]), lines[1..]);
    }
  }

  // ---------------------------------------------- insights parser

  datatype Mode = NoMode | InsightsMode | RecommendationsMode

  /** `mode`, `insights` and `recommendations`. */
  datatype Lists = Lists(mode: Mode, insights: seq<string>, recommendations: seq<string>)

  const InsightsHeader: string := "INSIGHTS:"
  const RecommendationsHeader: string := "RECOMMENDATIONS:"

  predicate IsBulletTrim(c: char) { c == '-' || c == ' ' }

  /** `line.lstrip("- ").strip()`: no longer than the line, with no white
      space at its ends. */
  function Bullet(line: string): (r: string)
    ensures |r| <= |line|
    ensures r != [] ==> !IsSpace(r[0]) && !IsSpace(r[|r| - 1])
  {
    StripWhileSpec(LStripWhile(line, IsBulletTrim), IsSpace);
    Strip(LStripWhile(line, IsBulletTrim))
  }

  /** The stripped line is a bullet and not a header. */
  predicate BulletLine(line: string) {
    line != InsightsHeader && line != RecommendationsHeader && StartsWith(line, "-")
  }

  /** One pass of the loop, on the stripped line: headers switch the list,
      bullets go to the list chosen, every other line is skipped. */
  function StepLists(st: Lists, line: string): (r: Lists)
    ensures line == InsightsHeader ==> r == st.(mode := InsightsMode)
    ensures line == RecommendationsHeader ==> r == st.(mode := RecommendationsMode)
    ensures r.mode != st.mode ==> line == InsightsHeader || line == RecommendationsHeader
    ensures !BulletLine(line) && line != InsightsHeader && line != RecommendationsHeader ==> r == st
    ensures BulletLine(line) && st.mode == NoMode ==> r == st
    ensures BulletLine(line) && st.mode == InsightsMode ==> r == st.(insights := st.insights + [Bullet(line)])
    ensures BulletLine(line) && st.mode == RecommendationsMode ==>
              r == st.(recommendations := st.recommendations + [Bullet(line)])
  {
    if line == InsightsHeader then st.(mode := InsightsMode)
    else if line == RecommendationsHeader then st.(mode := RecommendationsMode)
    else if StartsWith(line, "-") then
      var content := Bullet(line);
      if st.mode == InsightsMode then st.(insights := st.insights + [content])
      else if st.mode == RecommendationsMode then st.(recommendations := st.recommendations + [content])
      else st
    else st
  }

  function RunLists(st: Lists, lines: seq<string>): Lists
  {
    Fold(StepLists, st, lines)
  }

  /** What `get_insights_and_recommendations` returns for the model's reply:
      two empty lists unless some line is one of the two headers. */
  function InsightsAndRecommendations(response: string): (r: (seq<string>, seq<string>))
    ensures (forall i :: 0 <= i < |SplitLines(response)| ==>
               Strip(SplitLines(response)[i]) != InsightsHeader && Strip(SplitLines(response)[i]) != RecommendationsHeader) ==>
            r == ([], [])
  {
    var lines := StripAll(SplitLines(response));
    if forall i :: 0 <= i < |lines| ==> lines[i] != InsightsHeader && lines[i] != RecommendationsHeader then
      BeforeHeaderIgnored(lines);
      var l := RunLists(Lists(NoMode, [], []), lines);
      (l.insights, l.recommendations)
    else
      var l := RunLists(Lists(NoMode, [], []), lines);
      (l.insights, l.recommendations)
  }

  /** The parsing loop of `get_insights_and_recommendations`. */
  method GetInsightsAndRecommendations(response: string) returns (insights: seq<string>, recommendations: seq<string>)
    ensures (insights, recommendations) == InsightsAndRecommendations(response)
  {
    var lines := SplitLines(response);
    ghost var stripped := StripAll(lines);
    insights := [];
    recommendations := [];
    var mode := NoMode;
    var i := 0;
    while i < |lines|
      invariant 0 <= i <= |lines|
      invariant RunLists(Lists(mode, insights, recommendations), stripped[i..]) == RunLists(Lists(NoMode, [], []), stripped)
    {
      ghost var before := Lists(mode, insights, recommendations);
      var line := Strip(lines[i]);
      if line == InsightsHeader {
        mode := InsightsMode;
      } else if line == RecommendationsHeader {
        mode := RecommendationsMode;
      } else if StartsWith(line, "-") {
        var content := Bullet(line);
        if mode == InsightsMode {
          insights := insights + [content];
        } else if mode == RecommendationsMode {
          recommendations := recommendations + [content];
        }
      }
      assert Lists(mode, insights, recommendations) == StepLists(before, stripped[i]);
      assert stripped[i..][1..] == stripped[i + 1..];
      i := i + 1;
    }
  }

  /** The content of each line, as the list receives it. */
  function Bullets(lines: seq<string>): seq<string>
  {
    MapSeq(Bullet, lines)
  }

  /** Under a header, bullets are appended to that header's list in order;
      the other list is untouched. */
  lemma {:induction false} SectionCollected(st: Lists, lines: seq<string>)
    requires st.mode != NoMode
    requires forall i :: 0 <= i < |lines| ==> BulletLine(lines[i])
    ensures RunLists(st, lines) ==
              if st.mode == InsightsMode then st.(insights := st.insights + Bullets(lines))
              else st.(recommendations := st.recommendations + Bullets(lines))
    decreases |lines|
  {
    if lines != [] {
      forall i | 0 <= i < |lines[1..]| ensures BulletLine(lines[1..][i]) {
        assert lines[1..][i] == lines[i + 1];
      }
      var next := StepLists(st, lines[0]);
      SectionCollected(next, lines[1..]);
      MapSeqCons(Bullet, st.insights, lines);
      MapSeqCons(Bullet, st.recommendations, lines);
    } else {
      assert st.insights + Bullets(lines) == st.insights;
      assert st.recommendations + Bullets(lines) == st.recommendations;
    }
  }

  /** Lines before the first header never reach either list. */
  lemma {:induction false} BeforeHeaderIgnored(lines: seq<string>)
    requires forall i :: 0 <= i < |lines| ==> lines[i] != InsightsHeader && lines[i] != RecommendationsHeader
    ensures RunLists(Lists(NoMode, [], []), lines) == Lists(NoMode, [], [])
    decreases |lines|
  {
    if lines != [] {
      forall i | 0 <= i < |lines[1..]|
        ensures lines[1..][i] != InsightsHeader && lines[1..][i] != RecommendationsHeader
      {
        assert lines[1..][i] == lines[i + 1];
      }
      BeforeHeaderIgnored(lines[1..]);
    }
  }

  /** Round trip: a reply in the requested format gives back the two bullet
      lists, each stripped line cut down to its content. */
  lemma {:induction false} InsightsRoundTrip(xs: seq<string>, ys: seq<string>)
    requires forall i :: 0 <= i < |xs| ==> BulletLine(xs[i])
    requires forall i :: 0 <= i < |ys| ==> BulletLine(ys[i])
    ensures var r := RunLists(Lists(NoMode, [], []), [InsightsHeader] + xs + [RecommendationsHeader] + ys);
            r.insights == Bullets(xs) && r.recommendations == Bullets(ys)
  {
    var all := [InsightsHeader] + xs + [RecommendationsHeader] + ys;
    FoldAppend(StepLists, Lists(NoMode, [], []), [InsightsHeader] + xs, [RecommendationsHeader] + ys);
    assert all == ([InsightsHeader] + xs) + ([RecommendationsHeader] + ys);
    assert ([InsightsHeader] + xs)[1..] == xs;
    var a := Lists(InsightsMode, [], []);
    SectionCollected(a, xs);
    assert [] + Bullets(xs) == Bullets(xs);
    var b := Lists(RecommendationsMode, Bullets(xs), []);
    assert ([RecommendationsHeader] + ys)[1..] == ys;
    SectionCollected(b, ys);
    assert [] + Bullets(ys) == Bullets(ys);
  }

  /** A list item written as "- " followed by its text gives back the text,
      provided the text does not itself start with a dash and has no
      surrounding white space. */
  lemma {:induction false} BulletItem(x: string)
    requires x != [] ==> x[0] != '-' && !IsSpace(x[0]) && !IsSpace(x[|x| - 1])
    ensures Bullet("- " + x) == x
  {
    assert ("- " + x)[1..] == " " + x;
    assert (" " + x)[1..] == x;
    assert LStripWhile(x, IsBulletTrim) == x;
    assert LStripWhile("- " + x, IsBulletTrim) == x;
    StripNoop(x);
  }
}
