/** Normalisation of the conversation before it is sent: a system message
    with the default prompt is put in front unless the conversation already
    starts with one. Only position 0 is inspected. */
module SystemPrompt {
  import opened Types

  const SystemRole: string := "system"

  /** True when the default system message has to be put in front. */
  predicate NeedsSystemPrompt(messages: seq<Message>) {
    |messages| == 0 || messages[0].role != SystemRole
  }

  /** The conversation as sent. `prompt` is the default system prompt, an
      opaque text fixed at process start. */
  function WithSystemPrompt(messages: seq<Message>, prompt: string): (r: seq<Message>)
    // the conversation sent always opens with a system message
    ensures |r| > 0 && r[0].role == SystemRole
    // the caller's messages are sent unchanged, in order, after at most one added message
    ensures |messages| <= |r| <= |messages| + 1
    ensures r[|r| - |messages|..] == messages
    // the default prompt is added exactly when the conversation does not open with a system message
    ensures |r| == |messages| + 1 <==> NeedsSystemPrompt(messages)
    ensures NeedsSystemPrompt(messages) ==> r[0] == Message(SystemRole, prompt)
  {
    if NeedsSystemPrompt(messages) then [Message(SystemRole, prompt)] + messages else messages
  }

  /** Normalising twice adds nothing: a normalised conversation is left alone. */
  lemma WithSystemPromptIdempotent(messages: seq<Message>, prompt: string)
    ensures WithSystemPrompt(WithSystemPrompt(messages, prompt), prompt) == WithSystemPrompt(messages, prompt)
  {
  }

  /** Only the first message decides: a system message further down does not
      stop the default prompt from being added, and messages appended to a
      non-empty conversation are passed through untouched. */
  lemma OnlyFirstMessageInspected(messages: seq<Message>, tail: seq<Message>, prompt: string)
    requires |messages| > 0
    ensures WithSystemPrompt(messages + tail, prompt) == WithSystemPrompt(messages, prompt) + tail
  {
  }
}
