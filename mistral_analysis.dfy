/** `analyze_text`: wraps a prompt in fixed instructions, asks the local model,
    and turns whatever comes back into a verdict dict with a `DANGEROUS` and a
    `reason` entry, never raising. The chat call and `json.loads` are external:
    the chat outcome is a value and the decoder a function parameter. */
module MistralAnalysis {
  import opened Common
  import opened Text
  import opened Json

  /** The instructions put in front of every prompt. */
  const Preamble: string :=
    "You are a security monitoring AI. Carefully analyze the following command.\n"
    + "Respond ONLY in this strict JSON format:\n"
    + "{ \"DANGEROUS\": true/false, \"reason\": \"Short explanation of the risk or why it is safe.\" }\n\n"

  /** The single user message sent to the model. */
  function FullPrompt(prompt: string): (r: string)
    ensures |r| == |Preamble| + 9 + |prompt|
    ensures r[..|Preamble|] == Preamble
    ensures r[|Preamble| + 9..] == prompt
  {
    Preamble + "Command:\n" + prompt
  }

  /** Different prompts give different messages: the model sees the prompt intact. */
  lemma FullPromptInjective(p: string, q: string)
    requires FullPrompt(p) == FullPrompt(q)
    ensures p == q
  {
    assert p == FullPrompt(p)[|Preamble| + 9..];
  }

  /** What `ollama.chat` did: raised, or returned a response object, seen as the
      JSON value whose `.get` the code calls. */
  datatype ChatOutcome = ChatRaised | ChatReply(response: Json)

  /** `response.get("message", {}).get("content", "").strip()`: `None` when a
      step raises, that is when the response or its message is not a dict or
      the content is not a string. */
  function ReplyContent(response: Json): (r: Option<string>)
    ensures r.Some? <==>
      && response.JObj?
      && Get(response.fields, "message", JObj(map[])).JObj?
      && Get(Get(response.fields, "message", JObj(map[])).fields, "content", JStr("")).JStr?
    ensures r.Some? ==>
      r.value == Strip(Get(Get(response.fields, "message", JObj(map[])).fields, "content", JStr("")).s)
  {
    if !response.JObj? then None
    else
      var message := Get(response.fields, "message", JObj(map[]));
      if !message.JObj? then None
      else
        var content := Get(message.fields, "content", JStr(""));
        if !content.JStr? then None else Some(Strip(content.s))
  }

  /** A reply with no message, or a message with no content, reads as "". */
  lemma MissingContentIsEmpty(fields: map<string, Json>)
    requires "message" !in fields || (fields["message"].JObj? && "content" !in fields["message"].fields)
    ensures ReplyContent(JObj(fields)) == Some("")
  {
    assert AllSpace("");
    StripEmptyIff("");
  }

  const InvalidFormat: string := "Invalid response format. Treated as safe."
  const Malformed: string := "Malformed AI response. Treated as safe."
  const AiError: string := "AI error. Command assumed safe."

  /** The dict the fallbacks return. */
  function SafeVerdict(reason: string): (r: Json)
    ensures r.JObj? && r.fields.Keys == {"DANGEROUS", "reason"}
    ensures r.fields["DANGEROUS"] == JBool(false) && r.fields["reason"] == JStr(reason)
  {
    JObj(map["DANGEROUS" := JBool(false), "reason" := JStr(reason)])
  }

  /** A decoded value the code accepts as the model's verdict. */
  predicate IsVerdict(j: Json) {
    j.JObj? && "DANGEROUS" in j.fields && "reason" in j.fields
  }

  /** `analyze_text` after the chat call: a well-formed verdict is returned as
      decoded, any other JSON is replaced by the invalid-format verdict, a
      decoding failure by the malformed verdict, and an exception anywhere
      before by the AI-error verdict. */
  function AnalyzeText(outcome: ChatOutcome, loads: string -> Loaded): (r: Json)
    ensures IsVerdict(r)
    ensures outcome.ChatRaised? ==> r == SafeVerdict(AiError)
    ensures outcome.ChatReply? && ReplyContent(outcome.response).None? ==> r == SafeVerdict(AiError)
    ensures outcome.ChatReply? && ReplyContent(outcome.response).Some? ==>
      var parsed := loads(ReplyContent(outcome.response).value);
      && (parsed.DecodeError? ==> r == SafeVerdict(Malformed))
      && (parsed.Loaded? && IsVerdict(parsed.value) ==> r == parsed.value)
      && (parsed.Loaded? && !IsVerdict(parsed.value) ==> r == SafeVerdict(InvalidFormat))
  {
    match outcome
    case ChatRaised => SafeVerdict(AiError)
    case ChatReply(response) =>
      match ReplyContent(response)
      case None => SafeVerdict(AiError)
      case Some(content) =>
        match loads(content)
        case DecodeError => SafeVerdict(Malformed)
        case Loaded(parsed) => if IsVerdict(parsed) then parsed else SafeVerdict(InvalidFormat)
  }

  /** The fallbacks all say "not dangerous": only the model's own verdict can
      report danger, so every failure lets the command through. */
  lemma FailuresAreSafe(outcome: ChatOutcome, loads: string -> Loaded)
    requires AnalyzeText(outcome, loads).fields["DANGEROUS"] != JBool(false)
    ensures outcome.ChatReply? && ReplyContent(outcome.response).Some?
    ensures loads(ReplyContent(outcome.response).value) == Loaded(AnalyzeText(outcome, loads))
  {
  }

  /** An empty or missing content is a decoding failure for a decoder that,
      like `json.loads`, rejects "", and gives the malformed verdict. */
  lemma EmptyContentIsMalformed(fields: map<string, Json>, loads: string -> Loaded)
    requires "message" !in fields || (fields["message"].JObj? && "content" !in fields["message"].fields)
    requires loads("") == DecodeError
    ensures AnalyzeText(ChatReply(JObj(fields)), loads) == SafeVerdict(Malformed)
  {
    MissingContentIsEmpty(fields);
  }
}
