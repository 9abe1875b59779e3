/**
 * The answer-choosing part of `ask_gemini` (chat_bot_ai.py:31-50).
 *
 * The environment lookup of the API key and the HTTP round trip are not
 * modelled; they become two parameters: the key as read at start-up, and
 * what the call to the generative-text endpoint came to.
 */
module Gemini {
  import opened Wrappers

  /** Returned when no API key is configured (chat_bot_ai.py:33). */
  const MissingKeyMessage: string :=
    "❌ کلید API پیدا نشد. لطفاً متغیر محیطی GEMINI_API_KEY را ست کنید."

  /** Returned when the call or the extraction of its text fails (chat_bot_ai.py:50). */
  const Apology: string := "متاسفم، نتونستم پاسخی از Gemini دریافت کنم."

  /**
   * What the request to the endpoint came to: either the text found at
   * candidates[0].content.parts[0].text of the reply, or a failure of any
   * kind (connection, timeout, non-2xx status, unparsable or wrongly shaped
   * body), all of which the source catches with one handler.
   */
  datatype CallOutcome = Extracted(text: string) | Failed

  /** Python's `not GEMINI_API_KEY` is true for an unset and for an empty variable. */
  predicate HasKey(apiKey: Option<string>)
  {
    apiKey.Some? && apiKey.value != ""
  }

  /**
   * The answer `ask_gemini` returns. It never fails: every path yields a
   * string, and the call outcome is consulted only when a key is present.
   */
  function AskGemini(apiKey: Option<string>, outcome: CallOutcome): (answer: string)
    ensures answer == MissingKeyMessage || answer == Apology
            || (outcome.Extracted? && answer == outcome.text)
    ensures !HasKey(apiKey) ==> answer == MissingKeyMessage
    ensures HasKey(apiKey) && outcome.Extracted? ==> answer == outcome.text
    ensures HasKey(apiKey) && outcome.Failed? ==> answer == Apology
  {
    if !HasKey(apiKey) then
      MissingKeyMessage
    else
      match outcome
      case Extracted(text) => text
      case Failed => Apology
  }
}
