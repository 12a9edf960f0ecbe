/**
  Concrete inputs and what the service makes of them. (Fenced replies are
  covered by the general lemmas of the Extraction module: written out as
  literals they make the verifier evaluate the whole extraction.)
 */
module ExtractionCases {
  import opened Text
  import opened Outcomes
  import opened Extraction
  import opened GeminiService

  /** Unfenced text is kept as it is. */
  lemma PlainTextCase()
    ensures ExtractCode("just plain text") == Success("just plain text")
  {
    UnfencedVerbatimTier("just plain text");
    TrimPadded([], "just plain text", []);
    assert [] + "just plain text" + [] == "just plain text";
  }

  /** Blank replies are rejected. */
  lemma BlankReplyCases()
    ensures ExtractCode("") == Failure(EmptyReplyMessage)
    ensures ExtractCode(" \n\t ") == Failure(EmptyReplyMessage)
  {
    assert AllWs("") && AllWs(" \n\t ");
  }

  /** Quotes in the task are not escaped in the prompt. */
  lemma QuotedTaskCase()
    ensures UserPrompt("say \"hi\"") == PromptOpen + "say \"hi\"" + PromptClose
    ensures TaskOfPrompt(UserPrompt("say \"hi\"")) == Some("say \"hi\"")
  {
    PromptRoundTrip("say \"hi\"", []);
  }
}
