/** The risk-score pipeline's Ollama client (`risk_score/llm_client.py`):
    `ask` and the cluster-summary call built on it. The HTTP post with its
    retries is an input: `None` when every attempt failed, else the decoded
    response. */
module RiskLlmClient {
  import opened Base
  import opened PyText
  import opened OllamaReply

  /** `ask`: "" when the post failed or the response is falsy (`{}`, `""`,
      `[]`, `null`, `0`); otherwise the dispatch over the response shapes. */
  function Ask(post: Option<Json>): (r: Outcome<Reply>)
    ensures post.None? || !Truthy(post.value) ==> r == Returned(Picked(JStr("")))
    ensures post.Some? && Truthy(post.value) ==> r == Dispatch(post.value)
  {
    if post.None? || !Truthy(post.value) then Returned(Picked(JStr("")))
    else Dispatch(post.value)
  }

  /** `summarize_cluster` builds a prompt from the samples and returns `ask`'s
      reply unchanged, so a failed call yields "". */
  function SummarizeCluster(post: Option<Json>): (r: Outcome<Reply>)
    ensures r == Ask(post)
    ensures post.None? ==> r == Returned(Picked(JStr("")))
  {
    Ask(post)
  }

  /** Where `ask` renders a response that has none of the known keys,
      `chat_code` extracts from "" and so returns "". */
  lemma {:induction false} AskRendersWhereChatCodeIsEmpty(fields: map<string, Json>)
    requires fields != map[]
    requires "message" !in fields && "response" !in fields && "choices" !in fields
    ensures Ask(Some(JObj(fields))) == Returned(Rendered(JObj(fields)))
    ensures ChatCode(Some(JObj(fields))) == Returned("")
  {
    DispatchFallsBackToStr(fields);
  }
}
