/** The length-capping fallback of `src/services/ai.service.ts`.

    `shortenText` asks a chat model to shorten a text and turns what happened
    into the final string: the text itself when no client is configured, the
    model's (trimmed) answer cut to the budget when it replied, or a brute
    prefix of the text when the call threw. The call is not modelled; what it
    did is an argument. */
module AiService {
  import opened Wrappers
  import opened JsText

  /** The service object: the only state is whether the constructor created
      an OpenAI client. */
  datatype AiService = AiService(hasClient: bool)

  /** What the chat completion call did: it answered, with the content of the
      first choice (missing when `choices[0]`, its message or its content is
      absent), or it threw an error with a message. */
  datatype ChatOutcome = Replied(content: Option<string>) | Threw(message: string)

  /** The constructor: a client exists exactly when the configured key is a
      non-empty string (a truthy value). */
  function NewAiService(apiKey: Option<string>): (svc: AiService)
    ensures svc.hasClient <==> apiKey.Some? && |apiKey.value| > 0
  {
    AiService(apiKey.Some? && apiKey.value != "")
  }

  /** `String.prototype.substring(start, end)`: both bounds clamped into the
      string, swapped when given in the wrong order. */
  function Substring(s: string, start: int, end: int): (r: string)
  {
    var a := Max(0, Min(start, |s|));
    var b := Max(0, Min(end, |s|));
    if a <= b then s[a..b] else s[b..a]
  }

  /** `substring(0, n)` is the prefix of length n, clamped into the string. */
  lemma SubstringPrefix(s: string, n: int)
    ensures |Substring(s, 0, n)| == Max(0, Min(n, |s|))
    ensures Substring(s, 0, n) == s[..Max(0, Min(n, |s|))]
  {
  }

  /** Line 43: the trimmed answer when it has some non-whitespace character,
      otherwise (missing, empty or blank answer) the original text,
      untrimmed. */
  function Candidate(text: string, content: Option<string>): (c: string)
    ensures content.Some? && HasContent(content.value) ==> c == Trim(content.value)
    ensures !(content.Some? && HasContent(content.value)) ==> c == text
    ensures c == [] ==> text == []
  {
    if content.None? then text
    else
      TrimEmptyIffBlank(content.value);
      if Trim(content.value) != "" then Trim(content.value) else text
  }

  /** `shortenText(text, maxLength, language)` with the outcome of the call.
      The language only shapes the prompt, so it has no part here. */
  function ShortenText(svc: AiService, text: string, maxLength: int, call: ChatOutcome): (r: string)
    // No client: the text comes back as it is, whatever its length.
    ensures !svc.hasClient ==> r == text
    // The call threw: the longest prefix of the text that fits the budget.
    ensures svc.hasClient && call.Threw? ==>
              |r| == Min(|text|, Max(0, maxLength)) && r == text[..|r|]
    // A reply within the budget is returned as it is.
    ensures svc.hasClient && call.Replied? && |Candidate(text, call.content)| <= maxLength ==>
              r == Candidate(text, call.content)
    // A reply over the budget is cut: a prefix of it, then "...", in all
    // max(maxLength, 3) characters.
    ensures svc.hasClient && call.Replied? && |Candidate(text, call.content)| > maxLength ==>
              |r| == Max(maxLength, 3) && r[|r| - 3..] == "..."
              && r[..|r| - 3] == Candidate(text, call.content)[..|r| - 3]
  {
    if !svc.hasClient then text
    else match call
      case Threw(_) =>
        SubstringPrefix(text, maxLength);
        Substring(text, 0, maxLength)
      case Replied(content) =>
        var shortened := Candidate(text, content);
        SubstringPrefix(shortened, maxLength - 3);
        if |shortened| > maxLength then Substring(shortened, 0, maxLength - 3) + "..."
        else shortened
  }

  /** When the model answered, the result never exceeds a budget of at least
      three characters; below three it is "..." or the reply itself. */
  lemma {:induction false} RepliedWithinBudget(svc: AiService, text: string, maxLength: int, content: Option<string>)
    requires svc.hasClient
    ensures maxLength >= 3 ==> |ShortenText(svc, text, maxLength, Replied(content))| <= maxLength
    ensures maxLength < 3 && |Candidate(text, content)| > maxLength ==>
              ShortenText(svc, text, maxLength, Replied(content)) == "..."
  {
    var r := ShortenText(svc, text, maxLength, Replied(content));
    if maxLength < 3 && |Candidate(text, content)| > maxLength {
      assert |r| == 3 && r == r[3 - 3..];
    }
  }

  /** A blank or missing answer falls back to the original text, which is
      then capped like any answer. */
  lemma BlankReplyUsesText(svc: AiService, text: string, maxLength: int, content: Option<string>)
    requires svc.hasClient && (content.None? || !HasContent(content.value))
    requires |text| <= maxLength
    ensures ShortenText(svc, text, maxLength, Replied(content)) == text
  {
  }

  /** The environment schema declares no AI key, and parsing drops keys it
      does not declare, so the service is built without one: every call
      hands the text back unchanged. */
  lemma UnconfiguredServiceKeepsText(text: string, maxLength: int, call: ChatOutcome)
    ensures !NewAiService(None).hasClient
    ensures ShortenText(NewAiService(None), text, maxLength, call) == text
  {
  }
}
