/** The chat client of the code-cleaning agent: pulling Python code out of a
    model reply, and reading the reply out of the JSON the server returns,
    with retries on request errors. */
module CleaningLlmClient {
  import opened Base
  import opened PyText
  import opened OllamaReply

  // ------------------------------------------------- extract_python_code

  /** The text inside the first python fence (case-insensitive), else inside
      the first generic fence, else the whole text. The inner text is not
      stripped at this point. */
  function Unfenced(s: string): (r: string)
    ensures FenceMatch(s, PythonFence, true).Some? ==>
              r == s[FenceMatch(s, PythonFence, true).value.0 + |PythonFence|..FenceMatch(s, PythonFence, true).value.1]
    ensures FenceMatch(s, PythonFence, true).None? && FenceMatch(s, Fence, false).Some? ==>
              r == s[FenceMatch(s, Fence, false).value.0 + |Fence|..FenceMatch(s, Fence, false).value.1]
    ensures FenceMatch(s, PythonFence, true).None? && FenceMatch(s, Fence, false).None? ==> r == s
  {
    match FenceMatch(s, PythonFence, true)
    case Some((i, j)) => s[i + |PythonFence|..j]
    case None =>
      match FenceMatch(s, Fence, false)
      case Some((i, j)) => s[i + |Fence|..j]
      case None => s
  }

  predicate IsDoubleQuote(c: char) { c == '"' }
  predicate IsSingleQuote(c: char) { c == '\'' }

  /** `strip()`, then `strip('"')`, then `strip("'")`, then `strip()`: a
      piece of the input no longer than it, with no white space at its ends. */
  function Unquote(s: string): (r: string)
    ensures |r| <= |s|
    ensures r != [] ==> !IsSpace(r[0]) && !IsSpace(r[|r| - 1])
  {
    var inner := StripWhile(StripWhile(Strip(s), IsDoubleQuote), IsSingleQuote);
    StripWhileSpec(inner, IsSpace);
    Strip(inner)
  }

  /** A line that is dropped: its stripped form starts with "#" and is
      shorter than 300 characters. */
  predicate IsShortComment(line: string) {
    var t := Strip(line);
    StartsWith(t, "#") && |t| < 300
  }

  predicate Kept(line: string) { !IsShortComment(line) }

  /** The lines the comment filter keeps, verbatim and in order: none is a
      short comment, and every line that is not one is kept. */
  function KeepLines(lines: seq<string>): (r: seq<string>)
    ensures forall i :: 0 <= i < |r| ==> r[i] in lines && !IsShortComment(r[i])
    ensures forall i :: 0 <= i < |lines| && !IsShortComment(lines[i]) ==> lines[i] in r
  {
    Filter(Kept, lines)
  }

  /** The whole of `extract_python_code`. */
  function CodeOf(text: Json): (r: string)
    ensures !text.JStr? ==> r == ""
    ensures r != "" ==> !IsSpace(r[0]) && !IsSpace(r[|r| - 1])
  {
    if !text.JStr? then ""
    else StripEnds(Join("\n", KeepLines(SplitLines(Unquote(Unfenced(text.s))))))
  }

  /** The filter loop, line by line. */
  method DropCommentLines(text: string) returns (lines: seq<string>)
    ensures lines == KeepLines(SplitLines(text))
  {
    var all := SplitLines(text);
    lines := [];
    for i := 0 to |all|
      invariant lines == KeepLines(all[..i])
    {
      FilterSnoc(Kept, all, i);
      var s := Strip(all[i]);
      if StartsWith(s, "#") && |s| < 300 {
        continue;
      }
      lines := lines + [all[i]];
    }
    assert all[..|all|] == all;
  }

  /** `extract_python_code` step by step. */
  method ExtractPythonCode(text: Json) returns (code: string)
    ensures code == CodeOf(text)
  {
    if !text.JStr? {
      return "";
    }
    var t := Unfenced(text.s);
    t := Unquote(t);
    var lines := DropCommentLines(t);
    code := Strip(Join("\n", lines));
  }

  /** A reply made only of short comment lines gives no code. */
  lemma {:induction false} CommentsOnly(text: string)
    requires forall i :: 0 <= i < |SplitLines(Unquote(Unfenced(text)))| ==>
               IsShortComment(SplitLines(Unquote(Unfenced(text)))[i])
    ensures CodeOf(JStr(text)) == ""
  {
    FilterAllOrNone(Kept, SplitLines(Unquote(Unfenced(text))));
    StripNoop("");
  }

  /** Every line that survives is not a short comment, every line that is
      not a short comment survives, and nothing else is changed. */
  lemma {:induction false} KeepLinesExact(lines: seq<string>)
    ensures forall i :: 0 <= i < |KeepLines(lines)| ==> !IsShortComment(KeepLines(lines)[i])
    ensures forall i :: 0 <= i < |lines| && !IsShortComment(lines[i]) ==> lines[i] in KeepLines(lines)
    ensures (forall i :: 0 <= i < |lines| ==> !IsShortComment(lines[i])) ==> KeepLines(lines) == lines
  {
    FilterAllOrNone(Kept, lines);
  }

  /** The filter works on each block of lines independently. */
  lemma {:induction false} KeepLinesConcat(a: seq<string>, b: seq<string>)
    ensures KeepLines(a + b) == KeepLines(a) + KeepLines(b)
  {
    FilterConcat(Kept, a, b);
  }

  /** No line of `s` is a short comment. */
  predicate NoShortCommentLine(s: string) {
    forall i :: 0 <= i < |SplitLines(s)| ==> !IsShortComment(SplitLines(s)[i])
  }

  /** The promise of the comment filter holds of what `extract_python_code`
      returns: no line of the code is a short comment. */
  lemma {:induction false} CodeHasNoShortCommentLine(text: Json)
    ensures NoShortCommentLine(CodeOf(text))
  {
    if text.JStr? {
      var kept := KeepLines(SplitLines(Unquote(Unfenced(text.s))));
      KeepLinesExact(SplitLines(Unquote(Unfenced(text.s))));
      JoinedLines(kept);
      StripKeepsLines(Join("\n", kept));
    }
  }

  /** Joining lines without breaks, none a short comment, with "\n" makes a
      text whose lines are those lines. */
  lemma {:induction false} JoinedLines(lines: seq<string>)
    requires forall k, i :: 0 <= k < |lines| && 0 <= i < |lines[k]| ==> !IsLineBreak(lines[k][i])
    requires forall k :: 0 <= k < |lines| ==> !IsShortComment(lines[k])
    ensures NoShortCommentLine(Join("\n", lines))
    decreases |lines|
  {
    if |lines| == 1 {
      assert LineEnd(lines[0]) == |lines[0]|;
      OneLine(lines[0]);
    } else if |lines| > 1 {
      var rest := Join("\n", lines[1..]);
      JoinedLines(lines[1..]);
      BreakAfterLine(lines[0], rest);
    }
  }

  /** A line without breaks, "\n", and a text free of short comments make a
      text free of short comments when the line is no short comment. */
  lemma {:induction false} BreakAfterLine(line: string, rest: string)
    requires forall i :: 0 <= i < |line| ==> !IsLineBreak(line[i])
    requires !IsShortComment(line) && NoShortCommentLine(rest)
    ensures NoShortCommentLine(line + "\n" + rest)
  {
    var s := line + "\n" + rest;
    assert s[|line|] == '\n';
    assert LineEnd(s) == |line|;
    assert s[..|line|] == line && s[|line| + 1..] == rest;
    FromFirstLineAndRest(s);
  }

  /** What holds of every element holds of every element of the tail. */
  lemma {:induction false} AllTail<T>(p: T -> bool, xs: seq<T>)
    requires xs != [] && forall i :: 0 <= i < |xs| ==> p(xs[i])
    ensures forall i :: 0 <= i < |xs| - 1 ==> p(xs[1..][i])
  {
  }

  /** The empty line is no comment. */
  lemma {:induction false} EmptyLineNotComment()
    ensures !IsShortComment("")
  {
    assert Strip("") == "";
  }

  /** `strip()` turns no line into a short comment. */
  lemma {:induction false} StripKeepsLines(s: string)
    requires NoShortCommentLine(s)
    ensures NoShortCommentLine(Strip(s))
  {
    LStripKeepsLines(s);
    RStripKeepsLines(LStripWhile(s, IsSpace));
  }

  lemma {:induction false} LStripKeepsLines(s: string)
    requires NoShortCommentLine(s)
    ensures NoShortCommentLine(LStripWhile(s, IsSpace))
    decreases |s|
  {
    if s != [] && IsSpace(s[0]) {
      DropFirstSpace(s);
      LStripKeepsLines(s[1..]);
    }
  }

  lemma {:induction false} RStripKeepsLines(s: string)
    requires NoShortCommentLine(s)
    ensures NoShortCommentLine(RStripWhile(s, IsSpace))
    decreases |s|
  {
    if s != [] && IsSpace(s[|s| - 1]) {
      DropLastSpace(s);
      RStripKeepsLines(s[..|s| - 1]);
    }
  }

  /** The first line of a text with a line break, and the lines after it. */
  lemma {:induction false} FirstLineAndRest(s: string)
    requires NoShortCommentLine(s) && LineEnd(s) < |s|
    ensures !IsShortComment(s[..LineEnd(s)]) && NoShortCommentLine(s[NextLine(s)..])
  {
    FirstLine(s);
    RestLines(s);
  }

  lemma {:induction false} FirstLine(s: string)
    requires NoShortCommentLine(s) && LineEnd(s) < |s|
    ensures !IsShortComment(s[..LineEnd(s)])
  {
    SplitLinesStep(s);
    assert SplitLines(s)[0] == s[..LineEnd(s)];
  }

  lemma {:induction false} RestLines(s: string)
    requires NoShortCommentLine(s) && LineEnd(s) < |s|
    ensures NoShortCommentLine(s[NextLine(s)..])
  {
    var all := SplitLines(s);
    var rest := SplitLines(s[NextLine(s)..]);
    SplitLinesStep(s);
    assert rest == all[1..];
    AllTail(Kept, all);
  }

  /** A text whose first line is no short comment and whose later lines are
      none either. */
  lemma {:induction false} FromFirstLineAndRest(s: string)
    requires LineEnd(s) < |s|
    requires !IsShortComment(s[..LineEnd(s)]) && NoShortCommentLine(s[NextLine(s)..])
    ensures NoShortCommentLine(s)
  {
    SplitLinesStep(s);
    forall i | 0 <= i < |SplitLines(s)| ensures !IsShortComment(SplitLines(s)[i]) {
      if i > 0 {
        assert SplitLines(s)[i] == SplitLines(s[NextLine(s)..])[i - 1];
      }
    }
  }

  /** A text without line breaks is its one line (or none, when empty). */
  lemma {:induction false} OneLine(s: string)
    requires LineEnd(s) == |s|
    ensures NoShortCommentLine(s) <==> s == [] || !IsShortComment(s)
  {
    if s != [] {
      assert SplitLines(s) == [s];
      assert SplitLines(s)[0] == s;
    } else {
      assert SplitLines(s) == [];
    }
  }

  /** Cutting a leading white-space character keeps the lines free of short
      comments: a cut line break removes an empty line, a cut space leaves a
      line with the same stripped form. */
  lemma {:induction false} DropFirstSpace(s: string)
    requires s != [] && IsSpace(s[0]) && NoShortCommentLine(s)
    ensures NoShortCommentLine(s[1..])
  {
    if IsLineBreak(s[0]) {
      DropFirstBreak(s);
    } else {
      DropFirstBlank(s);
    }
  }

  lemma {:induction false} DropFirstBreak(s: string)
    requires s != [] && IsLineBreak(s[0]) && NoShortCommentLine(s)
    ensures NoShortCommentLine(s[1..])
  {
    var t := s[1..];
    EmptyLineNotComment();
    assert LineEnd(s) == 0;
    FirstLineAndRest(s);
    if NextLine(s) == 2 {
      assert LineEnd(t) == 0 && NextLine(t) == 1;
      assert t[1..] == s[2..];
      FromFirstLineAndRest(t);
    }
  }

  lemma {:induction false} DropFirstBlank(s: string)
    requires s != [] && IsSpace(s[0]) && !IsLineBreak(s[0]) && NoShortCommentLine(s)
    ensures NoShortCommentLine(s[1..])
  {
    var t := s[1..];
    LineEndTail(s);
    FirstLineBlankCut(s);
    if LineEnd(s) == |s| {
      OneLine(s);
      OneLine(t);
    } else {
      FirstLineAndRest(s);
      DropFirstBlankRest(s);
    }
  }

  /** Cutting a leading blank that is no line break leaves the first line
      with the same stripped form. */
  lemma {:induction false} FirstLineBlankCut(s: string)
    requires s != [] && IsSpace(s[0]) && !IsLineBreak(s[0])
    ensures LineEnd(s[1..]) == LineEnd(s) - 1
    ensures IsShortComment(s[1..][..LineEnd(s[1..])]) == IsShortComment(s[..LineEnd(s)])
  {
    var k := LineEnd(s);
    LineEndTail(s);
    StripDropFirst(s[..k], IsSpace);
    assert s[..k][1..] == s[1..][..k - 1];
  }

  /** After such a cut the lines past the first are those of the text. */
  lemma {:induction false} DropFirstBlankRest(s: string)
    requires s != [] && !IsLineBreak(s[0]) && LineEnd(s) < |s|
    requires !IsShortComment(s[1..][..LineEnd(s[1..])]) && NoShortCommentLine(s[NextLine(s)..])
    ensures NoShortCommentLine(s[1..])
  {
    var t := s[1..];
    var k := LineEnd(s);
    LineEndTail(s);
    assert NextLine(t) == NextLine(s) - 1 by {
      assert t[k - 1] == s[k];
      assert k < |s| - 1 ==> t[k] == s[k + 1];
    }
    assert t[NextLine(t)..] == s[NextLine(s)..];
    FromFirstLineAndRest(t);
  }

  /** Cutting a trailing white-space character keeps the lines free of short
      comments: it removes a trailing line break or shortens the last line
      without changing its stripped form. */
  lemma {:induction false} DropLastSpace(s: string)
    requires s != [] && IsSpace(s[|s| - 1]) && NoShortCommentLine(s)
    ensures NoShortCommentLine(s[..|s| - 1])
    decreases |s|
  {
    var k := LineEnd(s);
    if k == |s| {
      DropLastOfOneLine(s);
    } else if NextLine(s) == |s| {
      DropLastOfLastBreak(s);
    } else {
      var next := NextLine(s);
      var w := s[next..];
      FirstLineAndRest(s);
      DropLastSpace(w);
      assert w[..|w| - 1] == s[next..|s| - 1];
      DropLastInRest(s);
    }
  }

  /** A text of one line: the cut leaves the line's stripped form. */
  lemma {:induction false} DropLastOfOneLine(s: string)
    requires s != [] && IsSpace(s[|s| - 1]) && NoShortCommentLine(s)
    requires LineEnd(s) == |s|
    ensures NoShortCommentLine(s[..|s| - 1])
  {
    var u := s[..|s| - 1];
    LineEndPrefix(s, |s| - 1);
    OneLine(s);
    OneLine(u);
    if u != [] {
      StripDropLast(s, IsSpace);
    }
  }

  /** A text whose first line break ends it. */
  lemma {:induction false} DropLastOfLastBreak(s: string)
    requires s != [] && IsSpace(s[|s| - 1]) && NoShortCommentLine(s)
    requires LineEnd(s) < |s| && NextLine(s) == |s|
    ensures NoShortCommentLine(s[..|s| - 1])
  {
    var u := s[..|s| - 1];
    var k := LineEnd(s);
    LineEndPrefix(s, |s| - 1);
    FirstLineAndRest(s);
    assert u[..k] == s[..k];
    EmptyLineNotComment();
    if k < |u| {
      assert NextLine(u) == |u|;
      assert SplitLines(u[NextLine(u)..]) == [];
      FromFirstLineAndRest(u);
    } else {
      OneLine(u);
    }
  }

  /** A text with lines after the first: the cut happens in the rest. */
  lemma {:induction false} DropLastInRest(s: string)
    requires s != [] && NoShortCommentLine(s)
    requires LineEnd(s) < |s| && NextLine(s) < |s|
    requires NoShortCommentLine(s[NextLine(s)..|s| - 1])
    ensures NoShortCommentLine(s[..|s| - 1])
  {
    var u := s[..|s| - 1];
    var k := LineEnd(s);
    var next := NextLine(s);
    NextLinePrefix(s, |s| - 1);
    assert u[next..] == s[next..|s| - 1];
    FirstLineAndRest(s);
    assert u[..k] == s[..k];
    FromFirstLineAndRest(u);
  }

  /** `strip(q)` removes one enclosing pair of `q` from text that does not
      itself start or end with `q`. */
  lemma {:induction false} EnclosingOff(x: string, q: char, drop: char -> bool)
    requires drop(q)
    requires x != [] ==> !drop(x[0]) && !drop(x[|x| - 1])
    ensures StripWhile([q] + x + [q], drop) == x
  {
    var w := [q] + x + [q];
    assert w[1..] == x + [q];
    if x == [] {
      assert LStripWhile(x + [q], drop) == [];
    } else {
      assert LStripWhile(x + [q], drop) == x + [q];
      assert (x + [q])[..|x|] == x;
      assert RStripWhile(x, drop) == x;
    }
  }

  /** Text wrapped in double quotes loses them. */
  lemma {:induction false} DoubleQuotesRemoved(x: string)
    requires x != [] ==> !IsSpace(x[0]) && !IsSpace(x[|x| - 1])
    requires x != [] ==> x[0] != '"' && x[|x| - 1] != '"' && x[0] != '\'' && x[|x| - 1] != '\''
    ensures Unquote("\"" + x + "\"") == x
  {
    StripNoop("\"" + x + "\"");
    EnclosingOff(x, '"', IsDoubleQuote);
    StripWhileNoop(x, IsSingleQuote);
    StripNoop(x);
  }

  /** The quotes are stripped double first, then single: double quotes inside
      single quotes survive. */
  lemma {:induction false} QuoteOrder(x: string)
    requires x != [] ==> !IsSpace(x[0]) && !IsSpace(x[|x| - 1])
    ensures Unquote("'\"" + x + "\"'") == "\"" + x + "\""
  {
    var inner := "\"" + x + "\"";
    assert "'\"" + x + "\"'" == "'" + inner + "'";
    StripNoop("'" + inner + "'");
    StripWhileNoop("'" + inner + "'", IsDoubleQuote);
    EnclosingOff(inner, '\'', IsSingleQuote);
    StripNoop(inner);
  }

  // ------------------------------------------------------------ chat

  /** What one POST attempt gave: a request error (retried), any other error
      (not retried), or the decoded JSON body. */
  datatype Attempt = RequestFailed | UnexpectedError | Answer(data: Json)

  /** `"choices" in data and isinstance(data["choices"], list) and data["choices"]`. */
  predicate ChoicesGiven(m: map<string, Json>) {
    "choices" in m && m["choices"].JList? && m["choices"].items != []
  }

  /** The reply text out of the decoded body, in the order the client tries
      the shapes; `render` stands for `str(data)`. Reading a non-dict
      choice, or a non-dict `message` inside a choice, raises. */
  function ParseChat(data: Json, render: Json -> string): (r: Outcome<Json>)
    ensures !data.JObj? ==> r == Returned(JStr(render(data)))
    ensures data.JObj? && "message" in data.fields && data.fields["message"].JObj? ==>
              r == Get(data.fields["message"], "content", JStr(""))
    ensures data.JObj? && !("message" in data.fields && data.fields["message"].JObj?) && "response" in data.fields ==>
              r == Returned(data.fields["response"])
    ensures data.JObj? && !("message" in data.fields && data.fields["message"].JObj?) && "response" !in data.fields &&
              ChoicesGiven(data.fields) ==>
              var ch := data.fields["choices"].items[0];
              r == if ch.JObj? && "message" in ch.fields then Get(ch.fields["message"], "content", JStr(""))
                   else Get(ch, "text", JStr(""))
    ensures data.JObj? && !("message" in data.fields && data.fields["message"].JObj?) && "response" !in data.fields &&
              !ChoicesGiven(data.fields) ==>
              r == Returned(JStr(render(data)))
    ensures r.Raised? ==> data.JObj? && "choices" in data.fields
  {
    if !data.JObj? then Returned(JStr(render(data)))
    else
      var m := data.fields;
      if "message" in m && m["message"].JObj? then Get(m["message"], "content", JStr(""))
      else if "response" in m then Returned(m["response"])
      else if ChoicesGiven(m) then
        var ch := m["choices"].items[0];
        if ch.JObj? && "message" in ch.fields then Get(ch.fields["message"], "content", JStr(""))
        else Get(ch, "text", JStr(""))
      else Returned(JStr(render(data)))
  }

  /** The parsed reply passed through `extract_python_code`: only a
      "choices" reply can raise, and the code holds no short comment line. */
  function CodeFromAnswer(data: Json, render: Json -> string): (r: Outcome<string>)
    ensures r.Raised? ==> data.JObj? && "choices" in data.fields
    ensures r.Returned? ==> NoShortCommentLine(r.value)
  {
    match ParseChat(data, render)
    case Raised => Raised
    case Returned(t) =>
      CodeHasNoShortCommentLine(t);
      Returned(CodeOf(t))
  }

  /** The retry loop from attempt `attempt` on; `post(k)` is what attempt `k`
      gave and `decode` what is made of a decoded body. */
  function Retry<R>(post: nat -> Attempt, attempt: nat, maxRetries: int, empty: R, decode: Json -> R): R
    decreases if attempt <= maxRetries then maxRetries - attempt + 1 else 0
  {
    if attempt == 0 || attempt > maxRetries then empty
    else
      match post(attempt)
      case RequestFailed => if attempt == maxRetries then empty else Retry(post, attempt + 1, maxRetries, empty, decode)
      case UnexpectedError => empty
      case Answer(data) => decode(data)
  }

  /** What `chat` makes of a decoded body. */
  function ChatDecode(render: Json -> string): Json -> Outcome<string>
  {
    (data: Json) => CodeFromAnswer(data, render)
  }

  /** `LLMClient.chat` as a function of what the attempts give: "" or the
      code of an answer some attempt within the budget got. */
  function ChatResult(post: nat -> Attempt, maxRetries: int, render: Json -> string): (r: Outcome<string>)
    ensures r == Returned("") ||
            exists k :: 1 <= k <= maxRetries && post(k).Answer? && r == CodeFromAnswer(post(k).data, render)
    ensures r.Returned? ==> NoShortCommentLine(r.value)
  {
    RetryOutcome(post, 1, maxRetries, Returned(""), ChatDecode(render));
    Retry(post, 1, maxRetries, Returned(""), ChatDecode(render))
  }

  /** The retry loop gives the empty value or the decoding of the answer some
      attempt between `attempt` and the budget got. */
  lemma {:induction false} RetryOutcome<R>(post: nat -> Attempt, attempt: nat, maxRetries: int, empty: R, decode: Json -> R)
    ensures var r := Retry(post, attempt, maxRetries, empty, decode);
            r == empty ||
            exists k :: attempt <= k <= maxRetries && post(k).Answer? && r == decode(post(k).data)
    decreases if attempt <= maxRetries then maxRetries - attempt + 1 else 0
  {
    if 1 <= attempt <= maxRetries {
      RetryUnfold(post, attempt, maxRetries, empty, decode);
      if post(attempt).RequestFailed? && attempt < maxRetries {
        RetryOutcome(post, attempt + 1, maxRetries, empty, decode);
      }
    }
  }

  /** `LLMClient.chat`: attempts 1 to `max_retries`. */
  method Chat(post: nat -> Attempt, maxRetries: int, render: Json -> string) returns (r: Outcome<string>)
    ensures r == ChatResult(post, maxRetries, render)
  {
    var decode := ChatDecode(render);
    var attempt := 1;
    while attempt <= maxRetries
      invariant 1 <= attempt
      invariant Retry(post, attempt, maxRetries, Returned(""), decode) == ChatResult(post, maxRetries, render)
      decreases maxRetries - attempt + 1
    {
      RetryUnfold(post, attempt, maxRetries, Returned(""), decode);
      var outcome := post(attempt);
      if outcome.RequestFailed? {
        if attempt == maxRetries {
          return Returned("");
        }
        attempt := attempt + 1;
        continue;
      }
      if outcome.UnexpectedError? {
        return Returned("");
      }
      var text := ParseChat(outcome.data, render);
      if text.Raised? {
        return Raised;
      }
      var code := ExtractPythonCode(text.value);
      assert decode(outcome.data) == Returned(code);
      return Returned(code);
    }
    return Returned("");
  }

  /** One step of the retry loop at an attempt within the budget. */
  lemma {:induction false} RetryUnfold<R>(post: nat -> Attempt, attempt: nat, maxRetries: int, empty: R, decode: Json -> R)
    requires 1 <= attempt <= maxRetries
    ensures post(attempt).RequestFailed? && attempt == maxRetries ==>
              Retry(post, attempt, maxRetries, empty, decode) == empty
    ensures post(attempt).RequestFailed? && attempt < maxRetries ==>
              Retry(post, attempt, maxRetries, empty, decode) == Retry(post, attempt + 1, maxRetries, empty, decode)
    ensures post(attempt).UnexpectedError? ==> Retry(post, attempt, maxRetries, empty, decode) == empty
    ensures post(attempt).Answer? ==> Retry(post, attempt, maxRetries, empty, decode) == decode(post(attempt).data)
  {
  }

  /** After request errors on attempts `from` to `k - 1`, the loop reaches
      attempt `k`. */
  lemma {:induction false} RetriesReach<R>(post: nat -> Attempt, from: nat, k: nat, maxRetries: int, empty: R, decode: Json -> R)
    requires 1 <= from <= k <= maxRetries
    requires forall i :: from <= i < k ==> post(i) == RequestFailed
    ensures Retry(post, from, maxRetries, empty, decode) == Retry(post, k, maxRetries, empty, decode)
    decreases k - from
  {
    if from < k {
      RetryUnfold(post, from, maxRetries, empty, decode);
      RetriesReach(post, from + 1, k, maxRetries, empty, decode);
    }
  }

  /** The first attempt that is not a request error decides the result: an
      answer is parsed, any other error gives "" at once. */
  lemma {:induction false} FirstOutcomeDecides(post: nat -> Attempt, k: nat, maxRetries: int, render: Json -> string)
    requires 1 <= k <= maxRetries
    requires forall i :: 1 <= i < k ==> post(i) == RequestFailed
    requires !post(k).RequestFailed?
    ensures post(k).UnexpectedError? ==> ChatResult(post, maxRetries, render) == Returned("")
    ensures post(k).Answer? ==> ChatResult(post, maxRetries, render) == CodeFromAnswer(post(k).data, render)
  {
    RetriesReach(post, 1, k, maxRetries, Returned(""), ChatDecode(render));
    RetryUnfold(post, k, maxRetries, Returned(""), ChatDecode(render));
  }

  /** When no attempt gets an answer the result is the empty value. */
  lemma {:induction false} NoAnswerEmpty<R>(post: nat -> Attempt, from: nat, maxRetries: int, empty: R, decode: Json -> R)
    requires 1 <= from
    requires forall i :: from <= i <= maxRetries ==> !post(i).Answer?
    ensures Retry(post, from, maxRetries, empty, decode) == empty
    decreases if from <= maxRetries then maxRetries - from + 1 else 0
  {
    if from <= maxRetries {
      RetryUnfold(post, from, maxRetries, empty, decode);
      if post(from).RequestFailed? && from < maxRetries {
        NoAnswerEmpty(post, from + 1, maxRetries, empty, decode);
      }
    }
  }

  /** Only attempts `from` to `max_retries` are consulted. */
  lemma {:induction false} OnlyBudgetUsed<R>(post: nat -> Attempt, post2: nat -> Attempt, from: nat, maxRetries: int, empty: R, decode: Json -> R)
    requires 1 <= from
    requires forall i :: from <= i <= maxRetries ==> post(i) == post2(i)
    ensures Retry(post, from, maxRetries, empty, decode) == Retry(post2, from, maxRetries, empty, decode)
    decreases if from <= maxRetries then maxRetries - from + 1 else 0
  {
    if from <= maxRetries {
      RetryUnfold(post, from, maxRetries, empty, decode);
      RetryUnfold(post2, from, maxRetries, empty, decode);
      if post(from).RequestFailed? && from < maxRetries {
        OnlyBudgetUsed(post, post2, from + 1, maxRetries, empty, decode);
      }
    }
  }

  /** So with no answer in the budget, `chat` gives "", and what happens after
      the last allowed attempt never matters. */
  lemma {:induction false} ChatBudget(post: nat -> Attempt, post2: nat -> Attempt, maxRetries: int, render: Json -> string)
    ensures (forall i :: 1 <= i <= maxRetries ==> !post(i).Answer?) ==> ChatResult(post, maxRetries, render) == Returned("")
    ensures (forall i :: 1 <= i <= maxRetries ==> post(i) == post2(i)) ==>
              ChatResult(post, maxRetries, render) == ChatResult(post2, maxRetries, render)
  {
    if forall i :: 1 <= i <= maxRetries ==> !post(i).Answer? {
      NoAnswerEmpty(post, 1, maxRetries, Returned(""), ChatDecode(render));
    }
    if forall i :: 1 <= i <= maxRetries ==> post(i) == post2(i) {
      OnlyBudgetUsed(post, post2, 1, maxRetries, Returned(""), ChatDecode(render));
    }
  }
}
