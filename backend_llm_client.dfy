/** The chat backend's Ollama client (`backend/llm_client.py`): the choice of
    system prompt from the user's message, and `ask` with its fallback text.
    The HTTP post with its retries is an input. */
module BackendLlmClient {
  import opened Base
  import opened PyText
  import opened OllamaReply

  /** The three fixed system prompts (their wording is not modelled). */
  datatype Mode = DataAnalysis | EmsOperational | GeneralChat

  const DataKeywords: seq<string> := [
    "dataset", "csv", "table", "incident count", "top city",
    "cluster", "kmeans", "model", "heatmap", "classification",
    "risk dashboard", "predict", "feature"
  ]

  const EmsKeywords: seq<string> := [
    "ems", "protocol", "patient", "breathing", "difficulty",
    "incident", "collapse", "risk", "seizure", "unresponsive",
    "chest pain"
  ]

  /** `_build_system_prompt`: data mode when the lowercased message contains a
      data keyword; EMS mode when it contains no data keyword but some EMS
      keyword; general chat otherwise. */
  function BuildSystemPrompt(userMessage: string): (r: Mode)
    ensures r == DataAnalysis <==> ContainsAny(Lower(userMessage), DataKeywords)
    ensures r == EmsOperational <==>
              !ContainsAny(Lower(userMessage), DataKeywords) && ContainsAny(Lower(userMessage), EmsKeywords)
    ensures r == GeneralChat <==>
              !ContainsAny(Lower(userMessage), DataKeywords) && !ContainsAny(Lower(userMessage), EmsKeywords)
  {
    var msg := Lower(userMessage);
    if ContainsAny(msg, DataKeywords) then DataAnalysis
    else if ContainsAny(msg, EmsKeywords) then EmsOperational
    else GeneralChat
  }

  /** Mode selection ignores letter case. */
  lemma {:induction false} BuildSystemPromptCaseBlind(m: string)
    ensures BuildSystemPrompt(Lower(m)) == BuildSystemPrompt(m)
  {
    LowerIdempotent(m);
  }

  /** "incident count" holds the EMS keyword "incident", yet the data check
      runs first, so such a message gets the data prompt. */
  lemma {:induction false} IncidentCountIsData(userMessage: string)
    requires Contains(Lower(userMessage), "incident count")
    ensures ContainsAny(Lower(userMessage), EmsKeywords)
    ensures BuildSystemPrompt(userMessage) == DataAnalysis
  {
    var msg := Lower(userMessage);
    assert OccursAt("incident count", "incident", 0);
    ContainsTransitive(msg, "incident count", "incident");
    assert Contains(msg, EmsKeywords[5]);
    assert Contains(msg, DataKeywords[3]);
  }

  const FallbackReply: string := "I'm having trouble reaching the model right now."

  /** `ask`: the fixed apology when the post failed or the response is falsy;
      otherwise the dispatch over the response shapes. The system prompt
      chosen for the message only shapes the request, which is not modelled. */
  function Ask(post: Option<Json>): (r: Outcome<Reply>)
    ensures post.None? || !Truthy(post.value) ==> r == Returned(Picked(JStr(FallbackReply)))
    ensures post.Some? && Truthy(post.value) ==> r == Dispatch(post.value)
  {
    if post.None? || !Truthy(post.value) then Returned(Picked(JStr(FallbackReply)))
    else Dispatch(post.value)
  }

  /** An empty reply from the model is passed on as "", never replaced by the
      fallback text: only a failed or falsy response gets the apology. */
  lemma {:induction false} EmptyContentIsNotFallback()
    ensures Ask(Some(JObj(map["message" := JObj(map["content" := JStr("")])])))
            == Returned(Picked(JStr("")))
  {
    var data := JObj(map["message" := JObj(map["content" := JStr("")])]);
    assert Truthy(data) by {
      assert "message" in data.fields;
    }
    DispatchMessageFirst(data.fields);
  }
}
