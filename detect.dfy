/**
 * The decision made by the `/detect` request handler: validate the submitted
 * text, consult the inference service, and turn its outcome into a JSON
 * response with a status code. The web framework and the inference call
 * itself are abstracted away: the call's outcome is a parameter.
 */
module Detect {
  import opened PyStr
  import opened LabelExtractor

  datatype Option<T> = None | Some(value: T)

  /**
   * What the guarded block produced: the reply text of the inference service,
   * or the message of an exception raised either by the call itself or while
   * reading the reply (a `response` member that is present but not a string).
   */
  datatype Inference = Generated(response: string) | Failed(message: string)

  /** A JSON response: the HTTP status and the body's `label` member (here `category`) and `error` member. */
  datatype Response = Response(status: int, category: Option<string>, error: Option<string>)

  /** The error returned for a blank request. */
  const NO_TEXT: string := "No text provided"

  /** The inference service is called only when the text has a non-whitespace character. */
  function InvokesInference(text: string): (invoked: bool)
    ensures invoked <==> exists i :: 0 <= i < |text| && !IsSpace(text[i])
  {
    Strip(text) != []
  }

  /**
   * The response to a request whose `text` member is `text`, given what the
   * inference service does when it is called.
   */
  function Decide(text: string, inference: Inference): (r: Response)
    ensures r.status in {200, 400, 500}
    ensures r.category.Some? <==> r.error.None?
    ensures r.status == 200 <==> r.category.Some?
    ensures r.status == 400 <==> !InvokesInference(text)
    ensures r.status == 400 ==> r.error == Some(NO_TEXT)
    ensures r.status == 500 <==> InvokesInference(text) && inference.Failed?
    ensures r.status == 500 ==> r.error == Some(inference.message)
    ensures r.status == 200 ==> inference.Generated?
    ensures r.status == 200 ==> r.category == Some(ExtractLabel(inference.response))
    ensures r.status == 200 ==> r.category.value in OUTPUTS
  {
    if Strip(text) == [] then Response(400, None, Some(NO_TEXT))
    else
      match inference
      case Failed(message) => Response(500, None, Some(message))
      case Generated(response) =>
        ExtractStripInvariant(response);
        Response(200, Some(ExtractLabel(Strip(response))), None)
  }

  /** A blank request is answered without regard to the inference service. */
  lemma DecideBlankIgnoresInference(text: string, i1: Inference, i2: Inference)
    requires !InvokesInference(text)
    ensures Decide(text, i1) == Decide(text, i2) == Response(400, None, Some(NO_TEXT))
  {
  }

  /** Only the stripped text matters to the handler. */
  lemma DecideDependsOnStrippedText(text: string, inference: Inference)
    ensures Decide(Strip(text), inference) == Decide(text, inference)
  {
    StripIdempotent(text);
  }

  /** Example requests: blank text, a successful reply, a failed call. */
  lemma DecideExamples()
    ensures Decide("", Failed("unreachable")) == Response(400, None, Some(NO_TEXT))
    ensures Decide("  ", Generated("safe")) == Response(400, None, Some(NO_TEXT))
    ensures Decide("you are awful", Generated("This text is classified as: toxic."))
            == Response(200, Some("toxic"), None)
    ensures Decide("you are awful", Failed("connection refused"))
            == Response(500, None, Some("connection refused"))
  {
    assert InvokesInference("you are awful") by {
      assert !IsSpace("you are awful"[0]);
    }
    ExtractQuotedReply();
  }

  /** Whitespace around the submitted text does not change the response. */
  lemma DecideIgnoresPadding(p: string, text: string, q: string, inference: Inference)
    requires AllSpace(p) && AllSpace(q)
    ensures Decide(p + text + q, inference) == Decide(text, inference)
  {
    StripPadded(p, text, q);
  }
}
