/** What the Ollama clients do with a decoded chat response: pick the reply
    text out of one of the response shapes Ollama and OpenAI-style servers
    produce, and pull a fenced code block out of a reply. */
module OllamaReply {
  import opened Base
  import opened PyText

  /** A decoded JSON value, as `resp.json()` returns it. */
  datatype Json =
    | JNull
    | JBool(b: bool)
    | JNum(n: real)
    | JStr(s: string)
    | JList(items: seq<Json>)
    | JObj(fields: map<string, Json>)

  /** Python truthiness (`not data`). */
  predicate Truthy(v: Json) {
    match v
    case JNull => false
    case JBool(b) => b
    case JNum(n) => n != 0.0
    case JStr(s) => s != ""
    case JList(xs) => xs != []
    case JObj(m) => m != map[]
  }

  /** `key in v`: a dict key, a list member or a substring; other types raise. */
  function In(key: string, v: Json): (r: Outcome<bool>)
    ensures r.Raised? <==> v.JNull? || v.JBool? || v.JNum?
    ensures v.JObj? ==> r == Returned(key in v.fields)
  {
    match v
    case JObj(m) => Returned(key in m)
    case JList(xs) => Returned(JStr(key) in xs)
    case JStr(s) => Returned(Contains(s, key))
    case _ => Raised
  }

  /** `v[key]`: only a dict holding the key answers; anything else raises. */
  function GetItem(v: Json, key: string): (r: Outcome<Json>)
    ensures r.Returned? <==> v.JObj? && key in v.fields
    ensures r.Returned? ==> r.value == v.fields[key]
  {
    if v.JObj? && key in v.fields then Returned(v.fields[key]) else Raised
  }

  /** `v.get(key, default)`: only a dict has `get`. */
  function Get(v: Json, key: string, default: Json): (r: Outcome<Json>)
    ensures r.Returned? <==> v.JObj?
    ensures v.JObj? && key in v.fields ==> r == Returned(v.fields[key])
    ensures v.JObj? && key !in v.fields ==> r == Returned(default)
  {
    if !v.JObj? then Raised
    else if key in v.fields then Returned(v.fields[key])
    else Returned(default)
  }

  /** `v[0]`: the first list element or the first character; a dict has no
      key `0` (JSON keys are strings) and the rest are not subscriptable. */
  function First(v: Json): (r: Outcome<Json>)
    ensures r.Returned? <==> (v.JList? && v.items != []) || (v.JStr? && v.s != "")
  {
    match v
    case JList(xs) => if xs == [] then Raised else Returned(xs[0])
    case JStr(s) => if s == "" then Raised else Returned(JStr([s[0]]))
    case _ => Raised
  }

  /** What `ask` hands back: a value taken out of the response, or `str(data)`
      of the whole response (rendering is not modelled). */
  datatype Reply = Picked(value: Json) | Rendered(data: Json)

  /** `message.content` (default ""), else `response`, else
      `choices[0].message.content`, else `choices[0].text` (default ""). */
  function PickText(data: Json): (r: Option<Outcome<Json>>)
    ensures r.None? <==> In("message", data) == Returned(false) && In("response", data) == Returned(false)
                         && In("choices", data) == Returned(false)
  {
    match In("message", data)
    case Raised => Some(Raised)
    case Returned(true) =>
      Some(match GetItem(data, "message")
           case Raised => Raised
           case Returned(m) => Get(m, "content", JStr("")))
    case Returned(false) =>
      match In("response", data)
      case Raised => Some(Raised)
      case Returned(true) => Some(GetItem(data, "response"))
      case Returned(false) =>
        match In("choices", data)
        case Raised => Some(Raised)
        case Returned(true) => Some(PickChoice(data))
        case Returned(false) => None
  }

  /** The response has a `choices` list whose first element is a dict. */
  predicate HasDictChoice(data: Json) {
    data.JObj? && "choices" in data.fields && data.fields["choices"].JList? &&
    data.fields["choices"].items != [] && data.fields["choices"].items[0].JObj?
  }

  function ChoiceOf(data: Json): map<string, Json>
    requires HasDictChoice(data)
  {
    data.fields["choices"].items[0].fields
  }

  /** `choices[0]["message"].get("content", "")` when the first choice has a
      `message`, else `choices[0].get("text", "")`; any other shape raises. */
  function PickChoice(data: Json): (r: Outcome<Json>)
    ensures r.Returned? ==> data.JObj? && "choices" in data.fields
    ensures HasDictChoice(data) && "message" !in ChoiceOf(data) ==>
              r == Returned(if "text" in ChoiceOf(data) then ChoiceOf(data)["text"] else JStr(""))
    ensures HasDictChoice(data) && "message" in ChoiceOf(data) ==> (r.Returned? <==> ChoiceOf(data)["message"].JObj?)
  {
    match GetItem(data, "choices")
    case Raised => Raised
    case Returned(cs) =>
      match First(cs)
      case Raised => Raised
      case Returned(c) =>
        match In("message", c)
        case Raised => Raised
        case Returned(true) =>
          (match GetItem(c, "message")
           case Raised => Raised
           case Returned(m) => Get(m, "content", JStr("")))
        case Returned(false) => Get(c, "text", JStr(""))
  }

  /** The dispatch shared by both `ask` methods once the response is truthy:
      the picked field, or `str(data)` when none of the three keys is present. */
  function Dispatch(data: Json): (r: Outcome<Reply>)
    ensures r.Returned? && r.value.Rendered? ==> r.value.data == data
  {
    match PickText(data)
    case None => Returned(Rendered(data))
    case Some(Raised) => Raised
    case Some(Returned(v)) => Returned(Picked(v))
  }

  /** `message` is looked at first: a dict whose `message` is a dict answers
      with its `content` (or "") whatever else the response holds. */
  lemma {:induction false} DispatchMessageFirst(fields: map<string, Json>)
    requires "message" in fields && fields["message"].JObj?
    ensures var m := fields["message"].fields;
            Dispatch(JObj(fields)) == Returned(Picked(if "content" in m then m["content"] else JStr("")))
  {
  }

  /** Without `message`, `response` is returned as it is. */
  lemma {:induction false} DispatchResponseSecond(fields: map<string, Json>)
    requires "message" !in fields && "response" in fields
    ensures Dispatch(JObj(fields)) == Returned(Picked(fields["response"]))
  {
  }

  /** Without `message` and `response`, a non-empty `choices` list whose first
      element is a dict answers with that choice's `message.content`, else its
      `text`, defaulting to "". */
  lemma {:induction false} DispatchChoicesThird(fields: map<string, Json>)
    requires "message" !in fields && "response" !in fields && "choices" in fields
    requires fields["choices"].JList? && fields["choices"].items != []
    requires fields["choices"].items[0].JObj?
    ensures var c := fields["choices"].items[0].fields;
            Dispatch(JObj(fields)) ==
              if "message" in c then
                (if c["message"].JObj? then
                   Returned(Picked(if "content" in c["message"].fields then c["message"].fields["content"] else JStr("")))
                 else Raised)
              else Returned(Picked(if "text" in c then c["text"] else JStr("")))
  {
  }

  /** An empty `choices` list raises `IndexError`. */
  lemma {:induction false} DispatchEmptyChoicesRaises(fields: map<string, Json>)
    requires "message" !in fields && "response" !in fields && "choices" in fields
    requires fields["choices"] == JList([])
    ensures Dispatch(JObj(fields)).Raised?
  {
  }

  /** A dict with none of the three keys is rendered whole. */
  lemma {:induction false} DispatchFallsBackToStr(fields: map<string, Json>)
    requires "message" !in fields && "response" !in fields && "choices" !in fields
    ensures Dispatch(JObj(fields)) == Returned(Rendered(JObj(fields)))
  {
  }

  /** A bare number or boolean response cannot be searched with `in`. */
  lemma {:induction false} DispatchScalarRaises(data: Json)
    requires data.JNum? || data.JBool?
    ensures Dispatch(data).Raised?
  {
  }

  // ------------------------------------------------------ code fences

  /** `opener` matches at `i`, case-insensitively when `fold` is set. */
  predicate OpenerAt(s: string, opener: string, fold: bool, i: int) {
    0 <= i && i + |opener| <= |s| && (if fold then Lower(s[i..i + |opener|]) else s[i..i + |opener|]) == opener
  }

  /** The regex `opener(.*?)```` (DOTALL) matches with its opener at `i` and
      its closing fence at `j`. */
  predicate FenceAt(s: string, opener: string, fold: bool, i: int, j: int) {
    OpenerAt(s, opener, fold, i) && i + |opener| <= j && OccursAt(s, "```", j)
  }

  function FindOpener(s: string, opener: string, fold: bool, from: nat): (r: Option<nat>)
    ensures r.Some? ==> from <= r.value && OpenerAt(s, opener, fold, r.value)
    ensures r.Some? ==> forall k :: from <= k < r.value ==> !OpenerAt(s, opener, fold, k)
    ensures r.None? ==> forall k :: from <= k ==> !OpenerAt(s, opener, fold, k)
    decreases |s| - from
  {
    if from + |opener| > |s| then None
    else if OpenerAt(s, opener, fold, from) then Some(from)
    else FindOpener(s, opener, fold, from + 1)
  }

  /** `re.search(opener + "(.*?)```", s, re.DOTALL)`: the leftmost match, and
      among matches at that start the shortest one; `None` iff there is no
      match at all. The result is the positions of the opener and the closer. */
  function FenceMatch(s: string, opener: string, fold: bool): (r: Option<(nat, nat)>)
    ensures r.Some? ==> FenceAt(s, opener, fold, r.value.0, r.value.1)
    ensures r.Some? ==> forall i, j :: FenceAt(s, opener, fold, i, j) ==>
                          r.value.0 < i || (r.value.0 == i && r.value.1 <= j)
    ensures r.None? ==> forall i, j :: !FenceAt(s, opener, fold, i, j)
  {
    match FindOpener(s, opener, fold, 0)
    case None => None
    case Some(i) =>
      match IndexOf(s, "```", i + |opener|)
      case None => None
      case Some(j) => Some((i, j))
  }

  const PythonFence: string := "```python"
  const Fence: string := "```"

  /** `_extract_python_code`: "" for a non-string; else the stripped body of
      the first python fence (matched case-insensitively), else of the first
      generic fence, else the whole text stripped. */
  function ExtractPythonCode(text: Json): (r: string)
    ensures !text.JStr? ==> r == ""
    ensures text.JStr? && FenceMatch(text.s, PythonFence, true).Some? ==>
              var m := FenceMatch(text.s, PythonFence, true).value;
              r == Strip(text.s[m.0 + |PythonFence|..m.1])
    ensures text.JStr? && FenceMatch(text.s, PythonFence, true).None? && FenceMatch(text.s, Fence, false).Some? ==>
              var m := FenceMatch(text.s, Fence, false).value;
              r == Strip(text.s[m.0 + |Fence|..m.1])
    ensures text.JStr? && FenceMatch(text.s, PythonFence, true).None? && FenceMatch(text.s, Fence, false).None? ==>
              r == Strip(text.s)
    ensures r != "" ==> !IsSpace(r[0]) && !IsSpace(r[|r| - 1])
  {
    if !text.JStr? then ""
    else ExtractFromText(text.s)
  }

  function ExtractFromText(s: string): (r: string)
    ensures r != "" ==> !IsSpace(r[0]) && !IsSpace(r[|r| - 1])
  {
    match FenceMatch(s, PythonFence, true)
    case Some((i, j)) => StripEnds(s[i + |PythonFence|..j])
    case None =>
      match FenceMatch(s, Fence, false)
      case Some((i, j)) => StripEnds(s[i + |Fence|..j])
      case None => StripEnds(s)
  }

  /** `Strip`, with the fact that its ends are not white space at hand. */
  function StripEnds(s: string): (r: string)
    ensures r == Strip(s)
    ensures r != "" ==> !IsSpace(r[0]) && !IsSpace(r[|r| - 1])
  {
    StripWhileSpec(s, IsSpace);
    Strip(s)
  }

  /** `chat_code` (the same in the risk-score and backend clients): "" when the
      post failed or gave an empty response; otherwise the text chosen as in
      `ask` but with "" instead of `str(data)` when no key matches, passed
      through `_extract_python_code`. */
  function ChatCode(post: Option<Json>): (r: Outcome<string>)
    ensures post.None? || !Truthy(post.value) ==> r == Returned("")
    ensures post.Some? && Truthy(post.value) && PickText(post.value).None? ==> r == Returned("")
    ensures post.Some? && Truthy(post.value) && PickText(post.value).Some? ==>
              match PickText(post.value)
              case Some(Returned(v)) => r == Returned(ExtractPythonCode(v))
              case _ => r.Raised?
    ensures r.Returned? && r.value != "" ==> !IsSpace(r.value[0]) && !IsSpace(r.value[|r.value| - 1])
  {
    if post.None? || !Truthy(post.value) then Returned("")
    else
      match PickText(post.value)
      case None => Returned(ExtractPythonCode(JStr("")))
      case Some(Raised) => Raised
      case Some(Returned(v)) => Returned(ExtractPythonCode(v))
  }

  /** Round trip: code wrapped in a python fence, after text holding no
      fence, comes back out stripped, whatever follows the fence. */
  lemma {:induction false} FencedCodeRoundTrip(a: string, body: string, b: string)
    requires !Contains(a, Fence) && !Contains(body, Fence)
    requires body == [] || body[|body| - 1] != '`'
    ensures ExtractPythonCode(JStr(a + PythonFence + body + Fence + b)) == Strip(body)
  {
    var s := a + PythonFence + body + Fence + b;
    PythonFenceFound(a, body, b);
    var m := FenceMatch(s, PythonFence, true).value;
    assert s[m.0 + |PythonFence|..m.1] == body;
  }

  /** Helper for `FencedCodeRoundTrip`: the regex finds exactly that fence. */
  lemma {:induction false} PythonFenceFound(a: string, body: string, b: string)
    requires !Contains(a, Fence) && !Contains(body, Fence)
    requires body == [] || body[|body| - 1] != '`'
    ensures var s := a + PythonFence + body + Fence + b;
            FenceMatch(s, PythonFence, true) == Some((|a|, |a| + 9 + |body|)) &&
            s[|a| + 9..|a| + 9 + |body|] == body
  {
    var s := a + PythonFence + body + Fence + b;
    var i := |a|;
    var j := i + 9 + |body|;
    FencedPieces(a, body, b);
    PythonFenceLower();
    assert OpenerAt(s, PythonFence, true, i);
    assert OccursAt(s, Fence, j);
    NoOpenerBefore(s, a);
    NoCloserWithin(s, body, i + 9);
    FenceMatchAt(s, PythonFence, true, i, j);
  }

  lemma {:induction false} PythonFenceLower()
    ensures Lower(PythonFence) == PythonFence
  {
    forall k | 0 <= k < |PythonFence| ensures Lower(PythonFence)[k] == PythonFence[k] {
    }
  }

  lemma {:induction false} NoOpenerBefore(s: string, a: string)
    requires |s| >= |a| + 9 && s[..|a| + 9] == a + PythonFence
    requires !Contains(a, Fence)
    ensures forall k :: 0 <= k < |a| ==> !OpenerAt(s, PythonFence, true, k)
  {
    forall k | 0 <= k < |a|
      ensures !OpenerAt(s, PythonFence, true, k)
    {
      NoOpenerInPrefix(s, a, k);
    }
  }

  lemma {:induction false} NoCloserWithin(s: string, body: string, start: int)
    requires 0 <= start && |s| >= start + |body| + 3
    requires s[start..start + |body| + 3] == body + Fence
    requires !Contains(body, Fence)
    requires body == [] || body[|body| - 1] != '`'
    ensures forall k :: start <= k < start + |body| ==> !OccursAt(s, Fence, k)
  {
    forall k | start <= k < start + |body|
      ensures !OccursAt(s, Fence, k)
    {
      NoCloserInBody(s, body, start, k);
    }
  }

  lemma {:induction false} FencedPieces(a: string, body: string, b: string)
    ensures var s := a + PythonFence + body + Fence + b;
            var i := |a|;
            var j := i + 9 + |body|;
            |s| == j + 3 + |b| &&
            s[..i + 9] == a + PythonFence && s[i + 9..j + 3] == body + Fence &&
            s[i..i + 9] == PythonFence && s[j..j + 3] == Fence && s[i + 9..j] == body
  {
  }

  /** A fence whose opener is the first one and whose closer is the first
      after it is the one the regex finds. */
  lemma {:induction false} FenceMatchAt(s: string, opener: string, fold: bool, i: nat, j: nat)
    requires FenceAt(s, opener, fold, i, j)
    requires forall k :: 0 <= k < i ==> !OpenerAt(s, opener, fold, k)
    requires forall k :: i + |opener| <= k < j ==> !OccursAt(s, "```", k)
    ensures FenceMatch(s, opener, fold) == Some((i, j))
  {
    var m := FenceMatch(s, opener, fold);
    assert m.Some?;
    var p, q := m.value.0, m.value.1;
    assert FenceAt(s, opener, fold, p, q);
    assert p < i || (p == i && q <= j);
  }

  /** Helper for `FencedCodeRoundTrip`: an opener starting inside `a` would
      need three backticks in `a` or a `p` where the fence has a backtick. */
  lemma {:induction false} NoOpenerInPrefix(s: string, a: string, k: int)
    requires |s| >= |a| + 9 && s[..|a| + 9] == a + PythonFence
    requires !Contains(a, Fence)
    requires 0 <= k < |a|
    ensures !OpenerAt(s, PythonFence, true, k)
  {
    if k + 9 <= |s| {
      var w := s[k..k + 9];
      if k + 3 <= |a| {
        assert s[k] == a[k] && s[k + 1] == a[k + 1] && s[k + 2] == a[k + 2];
        assert !OccursAt(a, Fence, k);
        assert a[k..k + 3] == [a[k], a[k + 1], a[k + 2]];
        if a[k] != '`' {
          assert Lower(w)[0] != PythonFence[0];
        } else if a[k + 1] != '`' {
          assert Lower(w)[1] != PythonFence[1];
        } else {
          assert Lower(w)[2] != PythonFence[2];
        }
      } else {
        assert s[k + 3] == (a + PythonFence)[k + 3] == '`';
        assert Lower(w)[3] != PythonFence[3];
      }
    }
  }

  /** Helper for `FencedCodeRoundTrip`: a closer starting inside the body
      would need three backticks in the body or a body ending in a backtick. */
  lemma {:induction false} NoCloserInBody(s: string, body: string, start: int, k: int)
    requires 0 <= start && |s| >= start + |body| + 3
    requires s[start..start + |body| + 3] == body + Fence
    requires !Contains(body, Fence)
    requires body == [] || body[|body| - 1] != '`'
    requires start <= k < start + |body|
    ensures !OccursAt(s, Fence, k)
  {
    var e := start + |body|;
    var d := k - start;
    if k + 3 <= e {
      assert s[k] == body[d] && s[k + 1] == body[d + 1] && s[k + 2] == body[d + 2];
      assert !OccursAt(body, Fence, d);
      assert body[d..d + 3] == [body[d], body[d + 1], body[d + 2]];
      assert s[k..k + 3] == [s[k], s[k + 1], s[k + 2]];
    } else {
      assert s[e - 1] == body[|body| - 1];
      assert s[k..k + 3][e - 1 - k] == s[e - 1];
    }
  }
}
