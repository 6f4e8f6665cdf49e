/** The cleaning controller: the deterministic score `evaluator_basic` gives
    a cleaned frame, and the placeholder guard applied to generated code
    before it is run. */
module CleaningController {
  import opened Base
  import opened PyText
  import CodeExecutor

  /** A pass needs at least this score. */
  const ScoreThreshold: int := 8

  /** The mean of a boolean column: a number, or NaN for an empty frame. */
  datatype Mean = Value(v: real) | NotANumber

  /** A column of the cleaned frame: its name, whether its dtype is
      `object`, and its values rendered by `astype(str)`. */
  datatype Column = Column(name: string, isObject: bool, values: seq<string>)

  /** What the cleaned code left in `df`: not a DataFrame, or a frame with
      its columns and the mean of `duplicated()` (which may raise). */
  datatype Cleaned = NotAFrame | Frame(columns: seq<Column>, dupMean: Outcome<Mean>)

  /** The notes, in the order they are added. */
  datatype Note =
    | ManyColumnsRemoved(lost: set<string>)
    | DuplicatesIncreased
    | DuplicatesUnknown
    | TrimIssues(issues: seq<(string, real)>)

  const NotFrameMessage: string := "Result is not a DataFrame."
  const PassedMessage: string := "Basic checks passed."

  // ----------------------------------------------------------- column loss

  function Names(cols: seq<Column>): set<string> {
    set i | 0 <= i < |cols| :: cols[i].name
  }

  function SetOf(names: seq<string>): set<string> {
    set i | 0 <= i < |names| :: names[i]
  }

  function MaxReal(a: real, b: real): real { if a >= b then a else b }

  /** `len(lost) > max(1, len(orig_cols) * 0.25)`. */
  predicate ManyLost(orig: set<string>, lost: set<string>) {
    |lost| as real > MaxReal(1.0, |orig| as real * 0.25)
  }

  /** Losing a single column is always tolerated. */
  lemma {:induction false} OneLossTolerated(orig: set<string>, lost: set<string>)
    requires |lost| <= 1
    ensures !ManyLost(orig, lost)
  {
  }

  /** From four original columns on, the rule is "more than a quarter". */
  lemma {:induction false} QuarterRule(orig: set<string>, lost: set<string>)
    requires |orig| >= 4
    ensures ManyLost(orig, lost) <==> 4 * |lost| > |orig|
  {
  }

  // ------------------------------------------------------------ duplicates

  /** The note of the duplicate check, if any: the cleaned frame's mean is
      taken first, then the original's, and either raising gives the
      "could not evaluate" note. A NaN mean compares false. */
  function DupNote(cleanedMean: Outcome<Mean>, origMean: Outcome<Mean>): (r: Option<Note>)
    ensures r.Some? <==> cleanedMean.Raised? || origMean.Raised? ||
                         (cleanedMean.value.Value? && origMean.value.Value? &&
                          cleanedMean.value.v > origMean.value.v + 0.001)
    ensures r.Some? ==> r.value.DuplicatesIncreased? || r.value.DuplicatesUnknown?
  {
    match cleanedMean
    case Raised => Some(DuplicatesUnknown)
    case Returned(c) =>
      match origMean
      case Raised => Some(DuplicatesUnknown)
      case Returned(o) =>
        if c.Value? && o.Value? && c.v > o.v + 0.001 then Some(DuplicatesIncreased) else None
  }

  // ------------------------------------------------------------------ trim

  predicate IsObjectColumn(c: Column) { c.isObject }

  /** The value starts or ends with a plain space. */
  predicate HasEdgeSpace(v: string) {
    v != [] && (v[0] == ' ' || v[|v| - 1] == ' ')
  }

  /** The share of values with a leading or trailing space. */
  function EdgeShare(c: Column): real {
    if |c.values| > 0 then (|Filter(HasEdgeSpace, c.values)| as real) / (|c.values| as real) else 0.0
  }

  /** The share exceeds 5%, written without the division; the mean of an
      empty column is NaN and compares false. `TrimShareRule` ties it to
      `EdgeShare`. */
  predicate HasTrimIssue(c: Column) {
    |c.values| > 0 && 20 * |Filter(HasEdgeSpace, c.values)| > |c.values|
  }

  function IssueOf(c: Column): (string, real) {
    (c.name, EdgeShare(c))
  }

  /** The columns the trim check looks at: the first six of dtype object. */
  function TrimCandidates(cols: seq<Column>): seq<Column> {
    Take(Filter(IsObjectColumn, cols), 6)
  }

  /** Column names of a frame are distinct; otherwise `df[c].dtype` raises
      and the whole trim check is skipped. */
  predicate UniqueNames(cols: seq<Column>) {
    forall i, j :: 0 <= i < j < |cols| ==> cols[i].name != cols[j].name
  }

  function TrimNote(cols: seq<Column>): (r: Option<Note>)
    ensures r.Some? ==> r.value.TrimIssues? && r.value.issues != []
  {
    if !UniqueNames(cols) then None
    else
      var issues := MapSeq(IssueOf, Filter(HasTrimIssue, TrimCandidates(cols)));
      if issues == [] then None else Some(TrimIssues(issues))
  }

  // -------------------------------------------------------------- verdict

  function NoteList(n: Option<Note>): seq<Note> {
    if n.Some? then [n.value] else []
  }

  /** The notes of a frame, in order: column loss, duplicates, trim. */
  function Notes(orig: seq<string>, origDup: Outcome<Mean>, cols: seq<Column>, dupMean: Outcome<Mean>): seq<Note> {
    var lost := SetOf(orig) - Names(cols);
    (if ManyLost(SetOf(orig), lost) then [ManyColumnsRemoved(lost)] else [])
    + NoteList(DupNote(dupMean, origDup)) + NoteList(TrimNote(cols))
  }

  /** How many points a note costs. */
  function Cost(n: Note): int {
    if n.ManyColumnsRemoved? then 3 else 1
  }

  function TotalCost(notes: seq<Note>): int {
    if notes == [] then 0 else Cost(notes[0]) + TotalCost(notes[1..])
  }

  function Clamp(score: int): (r: int)
    ensures 0 <= r <= 10
    ensures 0 <= score <= 10 ==> r == score
  {
    if score < 0 then 0 else if score > 10 then 10 else score
  }

  /** The fixed text each note's message starts with. */
  function NotePrefix(n: Note): string {
    match n
    case ManyColumnsRemoved(_) => "Many columns removed: "
    case DuplicatesIncreased => "Duplicates increased after cleaning."
    case DuplicatesUnknown => "Could not evaluate duplicates."
    case TrimIssues(_) => "Trim issues: "
  }

  /** A rendering of the notes that agrees with the f-strings: every message
      starts with its note's fixed text. */
  ghost predicate FaithfulRender(render: Note -> string) {
    forall n :: StartsWith(render(n), NotePrefix(n))
  }

  /** No note renders as the passing message: their first letters differ. */
  lemma {:induction false} NoteNotPassed(render: Note -> string, n: Note)
    requires FaithfulRender(render)
    ensures render(n) != PassedMessage
  {
    assert StartsWith(render(n), NotePrefix(n));
    assert render(n)[0] == NotePrefix(n)[0] != 'B';
  }

  /** The notes joined by newlines, or the passing message when there are
      none; `render` stands for the f-string of each note. With a rendering
      that never gives the passing message, that message appears exactly when
      no note was added. */
  function NotesText(notes: seq<Note>, render: Note -> string): (r: string)
    ensures notes == [] ==> r == PassedMessage
    ensures (forall n :: n in notes ==> render(n) != PassedMessage) ==> (r == PassedMessage <==> notes == [])
  {
    if notes == [] then PassedMessage
    else
      JoinedNotesNotPassed(notes, render);
      Join("\n", MapSeq(render, notes))
  }

  /** One or more rendered notes, none the passing message, do not join to
      it: a single note is its own message, two or more hold a newline. */
  lemma {:induction false} JoinedNotesNotPassed(notes: seq<Note>, render: Note -> string)
    requires notes != []
    ensures (forall n :: n in notes ==> render(n) != PassedMessage) ==> Join("\n", MapSeq(render, notes)) != PassedMessage
  {
    var parts := MapSeq(render, notes);
    if |notes| == 1 {
      assert Join("\n", parts) == render(notes[0]);
      assert notes[0] in notes;
    } else {
      var r := Join("\n", parts);
      assert r == parts[0] + "\n" + Join("\n", parts[1..]);
      assert r[|parts[0]|] == '\n';
      assert forall i :: 0 <= i < |PassedMessage| ==> PassedMessage[i] != '\n';
    }
  }

  /** `evaluator_basic(original_df, cleaned_df)`, given the original's
      column names and duplicate mean. */
  function Verdict(orig: seq<string>, origDup: Outcome<Mean>, cleaned: Cleaned, render: Note -> string): (v: (int, string))
    ensures 0 <= v.0 <= 10
    ensures cleaned.NotAFrame? ==> v == (0, NotFrameMessage)
  {
    if cleaned.NotAFrame? then (0, NotFrameMessage)
    else
      var notes := Notes(orig, origDup, cleaned.columns, cleaned.dupMean);
      (Clamp(10 - TotalCost(notes)), NotesText(notes, render))
  }

  /** The loop over the candidate columns collecting `(name, share)` for
      each one with a trim issue. */
  method TrimScan(candidates: seq<Column>) returns (issues: seq<(string, real)>)
    ensures issues == MapSeq(IssueOf, Filter(HasTrimIssue, candidates))
  {
    issues := [];
    for i := 0 to |candidates|
      invariant issues == MapSeq(IssueOf, Filter(HasTrimIssue, candidates[..i]))
    {
      FilterSnoc(HasTrimIssue, candidates, i);
      MapSeqConcat(IssueOf, Filter(HasTrimIssue, candidates[..i]),
                   if HasTrimIssue(candidates[i]) then [candidates[i]] else []);
      if HasTrimIssue(candidates[i]) {
        issues := issues + [IssueOf(candidates[i])];
      }
    }
    assert candidates[..|candidates|] == candidates;
  }

  /** The guarded trim check: no issues when the column names repeat. */
  method TrimCheck(cols: seq<Column>) returns (issues: seq<(string, real)>)
    ensures issues == [] <==> TrimNote(cols).None?
    ensures issues != [] ==> TrimNote(cols) == Some(TrimIssues(issues))
  {
    issues := [];
    if UniqueNames(cols) {
      issues := TrimScan(TrimCandidates(cols));
    }
  }

  /** `evaluator_basic`, with `score` and `notes` built up step by step. */
  method EvaluatorBasic(orig: seq<string>, origDup: Outcome<Mean>, cleaned: Cleaned, render: Note -> string)
    returns (score: int, text: string)
    ensures (score, text) == Verdict(orig, origDup, cleaned, render)
  {
    if cleaned.NotAFrame? {
      return 0, NotFrameMessage;
    }
    var cols := cleaned.columns;
    var notes: seq<Note> := [];
    ghost var a: seq<Note>, b: seq<Note>, c: seq<Note> := [], [], [];
    score := 10;
    var origCols := SetOf(orig);
    var lost := origCols - Names(cols);
    if ManyLost(origCols, lost) {
      notes := notes + [ManyColumnsRemoved(lost)];
      score := score - 3;
      a := [ManyColumnsRemoved(lost)];
    }
    assert notes == a;
    var dup := DupNote(cleaned.dupMean, origDup);
    if dup.Some? {
      notes := notes + [dup.value];
      score := score - 1;
      b := [dup.value];
    }
    assert notes == a + b;
    var issues := TrimCheck(cols);
    if issues != [] {
      notes := notes + [TrimIssues(issues)];
      score := score - 1;
      c := [TrimIssues(issues)];
    }
    assert notes == a + b + c;
    assert cleaned == Frame(cols, cleaned.dupMean);
    VerdictOfParts(orig, origDup, cols, cleaned.dupMean, render, a, b, c, notes, score);
    score := Clamp(score);
    text := NotesText(notes, render);
  }

  /** The verdict of a frame from the three checks' notes. */
  lemma {:induction false} VerdictOfParts(orig: seq<string>, origDup: Outcome<Mean>, cols: seq<Column>, dupMean: Outcome<Mean>,
                       render: Note -> string, a: seq<Note>, b: seq<Note>, c: seq<Note>,
                       notes: seq<Note>, score: int)
    requires a == if ManyLost(SetOf(orig), SetOf(orig) - Names(cols)) then [ManyColumnsRemoved(SetOf(orig) - Names(cols))] else []
    requires b == NoteList(DupNote(dupMean, origDup))
    requires c == NoteList(TrimNote(cols))
    requires notes == a + b + c
    requires score == 10 - (if a != [] then 3 else 0) - |b| - |c|
    ensures Verdict(orig, origDup, Frame(cols, dupMean), render) == (Clamp(score), NotesText(notes, render))
  {
    assert notes == Notes(orig, origDup, cols, dupMean);
    NotesCost(orig, origDup, cols, dupMean);
    assert TotalCost(notes) == (if a != [] then 3 else 0) + |b| + |c|;
    assert Verdict(orig, origDup, Frame(cols, dupMean), render) == (Clamp(10 - TotalCost(notes)), NotesText(notes, render));
  }

  // ----------------------------------------------------------- properties

  lemma {:induction false} TotalCostConcat(a: seq<Note>, b: seq<Note>)
    ensures TotalCost(a + b) == TotalCost(a) + TotalCost(b)
    decreases |a|
  {
    if a == [] {
      assert a + b == b;
    } else {
      assert (a + b)[1..] == a[1..] + b;
      TotalCostConcat(a[1..], b);
    }
  }

  /** The cost of the notes, one part per check. */
  lemma {:induction false} NotesCost(orig: seq<string>, origDup: Outcome<Mean>, cols: seq<Column>, dupMean: Outcome<Mean>)
    ensures var lost := SetOf(orig) - Names(cols);
            TotalCost(Notes(orig, origDup, cols, dupMean)) ==
              (if ManyLost(SetOf(orig), lost) then 3 else 0) +
              (if DupNote(dupMean, origDup).Some? then 1 else 0) +
              (if TrimNote(cols).Some? then 1 else 0)
  {
    var lost := SetOf(orig) - Names(cols);
    var a := if ManyLost(SetOf(orig), lost) then [ManyColumnsRemoved(lost)] else [];
    var b := NoteList(DupNote(dupMean, origDup));
    var c := NoteList(TrimNote(cols));
    TotalCostConcat(a + b, c);
    TotalCostConcat(a, b);
  }

  /** A frame scores between 5 and 10, and scores 10 exactly when no note
      was added, in which case the text is the passing message; with the
      f-string messages the text is the passing message only then. */
  lemma {:induction false} ScoreRange(orig: seq<string>, origDup: Outcome<Mean>, cols: seq<Column>, dupMean: Outcome<Mean>, render: Note -> string)
    ensures var v := Verdict(orig, origDup, Frame(cols, dupMean), render);
            5 <= v.0 <= 10 &&
            (v.0 == 10 <==> Notes(orig, origDup, cols, dupMean) == []) &&
            (v.0 == 10 ==> v.1 == PassedMessage) &&
            (FaithfulRender(render) ==> (v.1 == PassedMessage <==> v.0 == 10))
  {
    NotesCost(orig, origDup, cols, dupMean);
    if FaithfulRender(render) {
      forall n | n in Notes(orig, origDup, cols, dupMean)
        ensures render(n) != PassedMessage
      {
        NoteNotPassed(render, n);
      }
    }
  }

  /** Anything that is not a DataFrame scores 0 with its own message. */
  lemma {:induction false} NotAFrameScoresZero(orig: seq<string>, origDup: Outcome<Mean>, render: Note -> string)
    ensures Verdict(orig, origDup, NotAFrame, render) == (0, "Result is not a DataFrame.")
    ensures Verdict(orig, origDup, NotAFrame, render).0 < ScoreThreshold
  {
  }

  /** The column-loss penalty alone makes the attempt fail the threshold. */
  lemma {:induction false} ColumnLossFails(orig: seq<string>, origDup: Outcome<Mean>, cols: seq<Column>, dupMean: Outcome<Mean>, render: Note -> string)
    requires ManyLost(SetOf(orig), SetOf(orig) - Names(cols))
    ensures Verdict(orig, origDup, Frame(cols, dupMean), render).0 <= 7
    ensures Verdict(orig, origDup, Frame(cols, dupMean), render).0 < ScoreThreshold
  {
    NotesCost(orig, origDup, cols, dupMean);
  }

  /** Without column loss a frame always passes, whatever the duplicate and
      trim checks find. */
  lemma {:induction false} NoLossPasses(orig: seq<string>, origDup: Outcome<Mean>, cols: seq<Column>, dupMean: Outcome<Mean>, render: Note -> string)
    requires !ManyLost(SetOf(orig), SetOf(orig) - Names(cols))
    ensures Verdict(orig, origDup, Frame(cols, dupMean), render).0 >= ScoreThreshold
  {
    NotesCost(orig, origDup, cols, dupMean);
  }

  /** A column has a trim issue exactly when it is not empty and more than
      5% of its values have an edge space. */
  lemma {:induction false} TrimShareRule(c: Column)
    ensures HasTrimIssue(c) <==> |c.values| > 0 && EdgeShare(c) > 0.05
  {
    if |c.values| > 0 {
      ShareAbove(|Filter(HasEdgeSpace, c.values)| as real, |c.values| as real);
    }
  }

  /** A quotient by a positive number exceeds 5% exactly when twenty times
      the numerator exceeds the denominator. */
  lemma {:induction false} ShareAbove(x: real, n: real)
    requires n > 0.0
    ensures x / n > 0.05 <==> 20.0 * x > n
  {
    var e := x / n;
    assert e * n == x;
    if e > 0.05 {
      assert (e - 0.05) * n > 0.0;
    } else {
      assert (0.05 - e) * n >= 0.0;
    }
  }

  /** The trim check only looks at the first six object columns: when they
      are clean, nothing else in the frame can cost a trim point. Duplicate
      column names make it cost nothing at all. */
  lemma {:induction false} TrimFirstSixOnly(cols: seq<Column>)
    ensures (forall i :: 0 <= i < |TrimCandidates(cols)| ==> !HasTrimIssue(TrimCandidates(cols)[i])) ==>
              TrimNote(cols).None?
    ensures !UniqueNames(cols) ==> TrimNote(cols).None?
    ensures |TrimCandidates(cols)| <= 6
  {
    FilterAllOrNone(HasTrimIssue, TrimCandidates(cols));
  }

  // ---------------------------------------------------- placeholder guard

  /** The guard in the controller loop, which Python reads as
      `A or (B and C)`. The first disjunct adds nothing: the guard fires
      exactly when both `DataFrame(...)` and `pd.DataFrame` occur. */
  predicate PlaceholderGuard(code: string): (r: bool)
    ensures r <==> Contains(code, "DataFrame(...)") && Contains(code, "pd.DataFrame")
  {
    if Contains(code, "pd.DataFrame(...)") then
      var whole := "pd.DataFrame(...)";
      assert OccursAt(whole, "DataFrame(...)", 3);
      assert OccursAt(whole, "pd.DataFrame", 0);
      ContainsTransitive(code, whole, "DataFrame(...)");
      ContainsTransitive(code, whole, "pd.DataFrame");
      true
    else
      Contains(code, "DataFrame(...)") && Contains(code, "pd.DataFrame")
  }

  /** A bare `DataFrame(...)` slips past the guard ... */
  lemma {:induction false} PlainCallPassesGuard(a: string, b: string)
    requires !Contains(a + "DataFrame(...)" + b, "pd.DataFrame")
    ensures !PlaceholderGuard(a + "DataFrame(...)" + b)
  {
  }

  /** ... but is refused by the executor's own check. */
  lemma {:induction false} PlainCallRefused(a: string, b: string)
    requires a == [] || !IsWordChar(a[|a| - 1])
    requires forall k :: 0 <= k < |a + "DataFrame(...)" + b| ==> !CodeExecutor.ImportPdAt(a + "DataFrame(...)" + b, k)
    ensures CodeExecutor.Sanitize(a + "DataFrame(...)" + b) == (false, CodeExecutor.PlaceholderMessage)
  {
    var code := a + "DataFrame(...)" + b;
    CodeExecutor.DataFrameCallCaught(a, b);
    assert CodeExecutor.HasPlaceholder(CodeExecutor.ImportFix(code));
  }
}
