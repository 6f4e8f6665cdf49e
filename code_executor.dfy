/** `CodeExecutor`: the checks made on generated cleaning code before it is
    run, and what `execute` returns around the run itself. */
module CodeExecutor {
  import opened Base
  import opened PyText

  /** The number of white-space characters from position `k` on (`\s*`). */
  function WsRun(s: string, k: nat): (n: nat)
    ensures k >= |s| ==> n == 0
    ensures k < |s| ==> k + n <= |s|
    ensures forall j :: k <= j < k + n ==> IsSpace(s[j])
    ensures k + n < |s| ==> !IsSpace(s[k + n])
    decreases |s| - k
  {
    if k < |s| && IsSpace(s[k]) then 1 + WsRun(s, k + 1) else 0
  }

  /** `\b` before a word character at `i`. */
  predicate WordStart(s: string, i: nat)
    requires i <= |s|
  {
    i == 0 || !IsWordChar(s[i - 1])
  }

  /** `\b` after a word character ending at `i`. */
  predicate WordEnd(s: string, i: nat)
    requires i <= |s|
  {
    i == |s| || !IsWordChar(s[i])
  }

  // ------------------------------------------------------------ import pd

  /** `\bimport\s+pd\b` (case-insensitive) matches at `i`. */
  predicate ImportPdAt(s: string, i: nat) {
    i + 6 <= |s| && WordStart(s, i) && Lower(s[i..i + 6]) == "import" &&
    WsRun(s, i + 6) > 0 &&
    var p := i + 6 + WsRun(s, i + 6);
    p + 2 <= |s| && Lower(s[p..p + 2]) == "pd" && WordEnd(s, p + 2)
  }

  /** Where a match at `i` ends. */
  function ImportPdEnd(s: string, i: nat): (e: nat)
    requires ImportPdAt(s, i)
    ensures i < e <= |s|
  {
    i + 6 + WsRun(s, i + 6) + 2
  }

  const ImportFixed: string := "import pandas as pd"

  /** No match starts at or after `i`. */
  predicate NoMatchFrom(s: string, i: nat) {
    forall k :: i <= k < |s| ==> !ImportPdAt(s, k)
  }

  /** `re.sub` of every match from position `i` on, scanning left to right
      over the original text; what it keeps and what it rewrites is stated by
      `SubUnmatched` and `FirstImportRewritten` below. */
  function SubImports(s: string, i: nat): string
    decreases |s| - i
  {
    if i >= |s| then ""
    else if ImportPdAt(s, i) then ImportFixed + SubImports(s, ImportPdEnd(s, i))
    else [s[i]] + SubImports(s, i + 1)
  }

  /** `_fix_import_pd`: without a match the code is left as it is, so the
      `search` guard in front of the `sub` changes nothing. */
  function ImportFix(code: string): (r: string)
    ensures NoMatchFrom(code, 0) ==> r == code
  {
    if NoMatchFrom(code, 0) then
      SubUnmatched(code, 0, |code|);
      assert code[0..|code|] == code;
      SubImports(code, 0)
    else SubImports(code, 0)
  }

  /** A position with no match copies its character. */
  lemma {:induction false} SubStep(s: string, j: nat)
    requires j < |s| && !ImportPdAt(s, j)
    ensures SubImports(s, j) == [s[j]] + SubImports(s, j + 1)
  {
  }

  /** Text with no match is copied unchanged. */
  lemma {:induction false} SubUnmatched(s: string, j: nat, i: nat)
    requires j <= i <= |s|
    requires forall k :: j <= k < i ==> !ImportPdAt(s, k)
    ensures SubImports(s, j) == s[j..i] + SubImports(s, i)
    decreases i - j
  {
    if j < i {
      assert !ImportPdAt(s, j);
      SubUnmatched(s, j + 1, i);
      SubPrepend(s, j, i);
    } else {
      assert s[j..i] == [];
    }
  }

  /** One unmatched character in front of an unmatched stretch. */
  lemma {:induction false} SubPrepend(s: string, j: nat, i: nat)
    requires j < i <= |s| && !ImportPdAt(s, j)
    requires SubImports(s, j + 1) == s[j + 1..i] + SubImports(s, i)
    ensures SubImports(s, j) == s[j..i] + SubImports(s, i)
  {
    SubStep(s, j);
    ConsSlice(s, j, i, SubImports(s, j + 1), SubImports(s, i), SubImports(s, j));
  }

  /** The sequence step of `SubPrepend`, over plain values. */
  lemma {:induction false} ConsSlice(s: string, j: nat, i: nat, a: string, b: string, c: string)
    requires j < i <= |s|
    requires c == [s[j]] + a && a == s[j + 1..i] + b
    ensures c == s[j..i] + b
  {
    assert s[j..i] == [s[j]] + s[j + 1..i];
  }

  /** The first match is rewritten and everything before it is kept. */
  lemma {:induction false} FirstImportRewritten(code: string, i: nat)
    requires ImportPdAt(code, i)
    requires forall k :: 0 <= k < i ==> !ImportPdAt(code, k)
    ensures ImportFix(code) == code[..i] + ImportFixed + SubImports(code, ImportPdEnd(code, i))
  {
    SubUnmatched(code, 0, i);
    assert code[0..i] == code[..i];
  }

  /** A whole-word `import pd` is a match. */
  lemma {:induction false} ImportPdMatches(a: string, b: string)
    requires a == [] || !IsWordChar(a[|a| - 1])
    requires b == [] || !IsWordChar(b[0])
    ensures ImportPdAt(a + "import pd" + b, |a|)
    ensures ImportPdEnd(a + "import pd" + b, |a|) == |a| + 9
  {
    var s := a + "import pd" + b;
    var i := |a|;
    assert s[i..i + 6] == "import";
    ImportPdLower();
    assert s[i + 6] == ' ' && s[i + 7] == 'p';
    assert WsRun(s, i + 7) == 0;
    assert WsRun(s, i + 6) == 1;
    assert s[i + 7..i + 9] == "pd";
    if b != [] {
      assert s[i + 9] == b[0];
    }
  }

  /** Both words of the pattern are already lower-case. */
  lemma {:induction false} ImportPdLower()
    ensures Lower("import") == "import" && Lower("pd") == "pd"
  {
    var l := Lower("import");
    assert l[0] == 'i' && l[1] == 'm' && l[2] == 'p' && l[3] == 'o' && l[4] == 'r' && l[5] == 't';
    var m := Lower("pd");
    assert m[0] == 'p' && m[1] == 'd';
  }

  // ----------------------------------------------------------- placeholder

  /** `\s*\(\s*\.\.\.\s*\)` matches from `k`. */
  predicate EmptyCallAt(s: string, k: nat) {
    var p1 := k + WsRun(s, k);
    p1 < |s| && s[p1] == '(' &&
    var p2 := p1 + 1 + WsRun(s, p1 + 1);
    p2 + 3 <= |s| && s[p2..p2 + 3] == "..." &&
    var p3 := p2 + 3 + WsRun(s, p2 + 3);
    p3 < |s| && s[p3] == ')'
  }

  /** The first alternative, `\bDataFrame\s*\(\s*\.\.\.\s*\)`. */
  predicate DataFrameCallAt(s: string, i: nat) {
    i + 9 <= |s| && WordStart(s, i) && Lower(s[i..i + 9]) == "dataframe" && EmptyCallAt(s, i + 9)
  }

  /** The second alternative, `\bpd\.DataFrame\s*\(\s*\.\.\.\s*\)`. */
  predicate PdDataFrameCallAt(s: string, i: nat) {
    i + 12 <= |s| && WordStart(s, i) && Lower(s[i..i + 2]) == "pd" && s[i + 2] == '.' &&
    Lower(s[i + 3..i + 12]) == "dataframe" && EmptyCallAt(s, i + 12)
  }

  predicate PlaceholderAt(s: string, i: nat) {
    DataFrameCallAt(s, i) || PdDataFrameCallAt(s, i)
  }

  /** `PLACEHOLDER_PATTERN.search(code)` finds something: exactly when some
      position starts a whole-word `DataFrame(...)`. */
  predicate HasPlaceholder(s: string): (r: bool)
    ensures r <==> exists i | 0 <= i < |s| :: DataFrameCallAt(s, i)
  {
    PlaceholderIsDataFrameCall(s);
    exists i | 0 <= i < |s| :: PlaceholderAt(s, i)
  }

  /** The `pd.` alternative adds nothing: wherever it matches, the plain one
      matches three characters later, since `.` ends a word. */
  lemma {:induction false} PdAlternativeRedundant(s: string, i: nat)
    requires PdDataFrameCallAt(s, i)
    ensures DataFrameCallAt(s, i + 3)
  {
    assert s[i + 3..i + 12] == s[i + 3..i + 3 + 9];
  }

  lemma {:induction false} PlaceholderIsDataFrameCall(s: string)
    ensures (exists i | 0 <= i < |s| :: PlaceholderAt(s, i)) <==> exists i | 0 <= i < |s| :: DataFrameCallAt(s, i)
  {
    if exists i | 0 <= i < |s| :: PlaceholderAt(s, i) {
      var i :| 0 <= i < |s| && PlaceholderAt(s, i);
      if !DataFrameCallAt(s, i) {
        PdAlternativeRedundant(s, i);
        assert DataFrameCallAt(s, i + 3) && i + 3 < |s|;
      }
    }
    if exists i | 0 <= i < |s| :: DataFrameCallAt(s, i) {
      var i :| 0 <= i < |s| && DataFrameCallAt(s, i);
      assert PlaceholderAt(s, i);
    }
  }

  /** `(...)` written without spaces is an empty call. */
  lemma {:induction false} EmptyCallLiteral(s: string, k: nat)
    requires k + 5 <= |s| && s[k..k + 5] == "(...)"
    ensures EmptyCallAt(s, k)
  {
    assert s[k] == '(' && s[k + 1] == '.' && s[k + 4] == ')';
    assert WsRun(s, k) == 0;
    assert WsRun(s, k + 1) == 0;
    assert s[k + 2] == '.' && s[k + 3] == '.';
    assert s[k + 1..k + 4] == "...";
    assert WsRun(s, k + 4) == 0;
  }

  lemma {:induction false} LowerDataFrame()
    ensures Lower("DataFrame") == "dataframe"
  {
    assert Lower("DataFrame")[0] == 'd' && Lower("DataFrame")[4] == 'f';
  }

  /** A whole-word `DataFrame(...)` is caught. */
  lemma {:induction false} DataFrameCallCaught(a: string, b: string)
    requires a == [] || !IsWordChar(a[|a| - 1])
    ensures DataFrameCallAt(a + "DataFrame(...)" + b, |a|)
    ensures HasPlaceholder(a + "DataFrame(...)" + b)
  {
    var lit := "DataFrame(...)";
    var s := a + lit + b;
    var i := |a|;
    assert s[i..i + 14] == lit;
    assert s[i..i + 9] == lit[..9] == "DataFrame";
    LowerDataFrame();
    assert s[i + 9..i + 14] == lit[9..] == "(...)";
    EmptyCallLiteral(s, i + 9);
    assert PlaceholderAt(s, i);
  }

  // ------------------------------------------------------------- execute

  const PlaceholderMessage: string :=
    "Code contains placeholder DataFrame(...) calls (e.g., pd.DataFrame(...)). Remove placeholders and operate on existing df."
  const EmptyMessage: string := "Empty code string"
  const NoFrameMessage: string := "Executed code did not produce a pandas DataFrame named 'df'."

  /** `_sanitize`: `(ok, code or message)`. */
  function Sanitize(code: string): (r: (bool, string))
    ensures r.0 <==> !HasPlaceholder(ImportFix(code))
    ensures r.0 ==> r.1 == ImportFix(code)
    ensures !r.0 ==> r.1 == PlaceholderMessage
  {
    var fixed := ImportFix(code);
    if HasPlaceholder(fixed) then (false, PlaceholderMessage) else (true, fixed)
  }

  /** How `exec` ended, as far as `execute` looks at it: it raised with a
      traceback, or it finished with `df` bound to a DataFrame, or with `df`
      unbound, `None` or something else. */
  datatype ExecEnd<F> = ExecRaised(traceback: string) | DfFrame(frame: F) | DfOther

  /** `execute(df, code)`. The frame is `None` when the caller passes
      something without `.copy()`, which raises; `run` is `exec` on the
      sanitized code and a copy of the frame. The result pairs the cleaned
      frame with the error text. */
  function Execute<F>(df: Option<F>, code: Option<string>, run: (string, F) -> ExecEnd<F>): (r: Outcome<(Option<F>, Option<string>)>)
    ensures code.None? || Strip(code.value) == "" ==> r == Returned((None, Some(EmptyMessage)))
    ensures r.Returned? ==> (r.value.0.Some? <==> r.value.1.None?)
  {
    if code.None? || code.value == "" || Strip(code.value) == "" then Returned((None, Some(EmptyMessage)))
    else
      var (ok, text) := Sanitize(code.value);
      if !ok then Returned((None, Some(text)))
      else if df.None? then Raised
      else
        match run(text, df.value)
        case ExecRaised(tb) => Returned((None, Some(tb)))
        case DfFrame(f) => Returned((Some(f), None))
        case DfOther => Returned((None, Some(NoFrameMessage)))
  }

  /** Code made only of white space is refused before anything else. */
  lemma {:induction false} BlankRefused<F>(df: Option<F>, code: string, run: (string, F) -> ExecEnd<F>)
    requires forall i :: 0 <= i < |code| ==> IsSpace(code[i])
    ensures Execute(df, Some(code), run) == Returned((None, Some(EmptyMessage)))
  {
    var l := LStripWhile(code, IsSpace);
    LStripSuffix(code, IsSpace);
    assert l == [];
  }

  /** Code with a placeholder is refused with the fixed message and never
      run. */
  lemma {:induction false} PlaceholderRefused<F>(df: Option<F>, code: string, run: (string, F) -> ExecEnd<F>)
    requires Strip(code) != ""
    requires HasPlaceholder(ImportFix(code))
    ensures Execute(df, Some(code), run) == Returned((None, Some(PlaceholderMessage)))
  {
  }

  /** Otherwise the rewritten code is what runs, on the caller's frame, and
      the outcome of the run decides the result. */
  lemma {:induction false} RunsFixedCode<F>(df: F, code: string, run: (string, F) -> ExecEnd<F>)
    requires Strip(code) != ""
    requires !HasPlaceholder(ImportFix(code))
    ensures var e := run(ImportFix(code), df);
            Execute(Some(df), Some(code), run) ==
              match e
              case ExecRaised(tb) => Returned((None, Some(tb)))
              case DfFrame(f) => Returned((Some(f), None))
              case DfOther => Returned((None, Some(NoFrameMessage)))
  {
  }
}
