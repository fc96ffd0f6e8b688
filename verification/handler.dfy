/** The `POST /api/generate-audio` handler as one pure function: validate the
    `ssmlText` field, build one synthesis request, ask the provider once, and
    map its answer to the HTTP response. The provider and the base64 encoder
    are parameters; the handler also returns the requests it sent, so that
    "nothing is sent" is a statement about its result. */
module Handler {
  import opened JsString
  import opened Envelope
  import opened Synthesis

  const FailureMessage: string := "Failed to generate audio"

  /** The JSON bodies the handler can send. */
  datatype Body =
    | ErrorBody(error: string)
    | AudioBody(success: bool, audioContent: string)
    | FailureBody(success: bool, error: string, details: string)

  datatype Response = Response(status: nat, body: Body)

  /** A response, together with every request handed to the provider on the way. */
  datatype Exchange = Exchange(response: Response, sent: seq<SynthesisRequest>)

  /** The response to a request the validator refused. */
  function RejectionResponse(why: Rejection): (r: Response)
    ensures r.status == 400 && r.body.ErrorBody?
    ensures why == MissingInput ==> r.body.error == "SSML text is required"
    ensures why == InvalidFormat ==> r.body.error == "Invalid SSML format"
  {
    Response(400, ErrorBody(why.Message()))
  }

  /** The response to the provider's answer: success carries the encoding of
      exactly the bytes returned; any failure becomes a 500 with its message. */
  function MapOutcome(outcome: ProviderOutcome, encode: seq<byte> -> string): (r: Response)
    ensures r.status == 200 <==> outcome.Audio?
    ensures outcome.Audio? ==> r.body == AudioBody(true, encode(outcome.bytes))
    ensures outcome.ProviderError? ==>
              r.status == 500 && r.body == FailureBody(false, "Failed to generate audio", outcome.message)
  {
    match outcome
    case Audio(bytes) => Response(200, AudioBody(true, encode(bytes)))
    case ProviderError(message) => Response(500, FailureBody(false, FailureMessage, message))
  }

  /** The whole handler. */
  function GenerateAudio(
    f: SsmlField,
    provider: SynthesisRequest -> ProviderOutcome,
    encode: seq<byte> -> string): (x: Exchange)
    ensures |x.sent| <= 1
    ensures x.sent == [] <==> x.response.status == 400
    ensures x.response.status in {200, 400, 500}
    ensures !IsTruthy(f) ==> x.response == Response(400, ErrorBody("SSML text is required"))
    ensures IsTruthy(f) && !HasEnvelope(Trim(f.text)) ==>
      x.response == Response(400, ErrorBody("Invalid SSML format"))
    ensures x.sent != [] ==> (f.Present? && x.sent[0].input.ssml == f.text
                              && x.sent[0].voice == FixedVoice && x.sent[0].audioConfig == FixedAudioConfig)
    ensures x.sent != [] ==> x.response == MapOutcome(provider(x.sent[0]), encode)
    ensures CheckEnvelope(f).Accepted? ==> x.sent == [BuildRequest(f.text)]
  {
    match CheckEnvelope(f)
    case Rejected(why) => Exchange(RejectionResponse(why), [])
    case Accepted(ssml) =>
      var request := BuildRequest(ssml);
      Exchange(MapOutcome(provider(request), encode), [request])
  }

  /** A refused request never reaches the provider: its response is the same
      whatever the provider would have answered. */
  lemma RejectionIgnoresProvider(
    f: SsmlField,
    p1: SynthesisRequest -> ProviderOutcome,
    p2: SynthesisRequest -> ProviderOutcome,
    encode: seq<byte> -> string)
    requires CheckEnvelope(f).Rejected?
    ensures GenerateAudio(f, p1, encode) == GenerateAudio(f, p2, encode)
    ensures GenerateAudio(f, p1, encode).sent == []
  {
  }

  /** An accepted request sends exactly one request, carrying the original
      untrimmed text, and the response depends on the provider only through
      its answer to that request. */
  lemma AcceptedSendsOriginalText(
    s: string,
    provider: SynthesisRequest -> ProviderOutcome,
    encode: seq<byte> -> string)
    requires CheckEnvelope(Present(s)).Accepted?
    ensures GenerateAudio(Present(s), provider, encode).sent == [BuildRequest(s)]
    ensures GenerateAudio(Present(s), provider, encode).response
      == MapOutcome(provider(BuildRequest(s)), encode)
  {
  }

  /** The presence check comes first, yet only the empty string fails it: a
      whitespace-only text is refused as badly formatted, not as missing. */
  lemma WhiteSpaceOnlyIsBadFormat(
    s: string,
    provider: SynthesisRequest -> ProviderOutcome,
    encode: seq<byte> -> string)
    requires s != [] && AllWhiteSpace(s)
    ensures GenerateAudio(Present(s), provider, encode)
         == Exchange(Response(400, ErrorBody("Invalid SSML format")), [])
  {
    WhiteSpaceOnlyIsInvalidFormat(s);
  }

  /** A provider failure on an accepted request is reported as a 500 with the
      failure's message, and no audio is returned. */
  lemma ProviderFailureIsReported(
    s: string,
    message: string,
    provider: SynthesisRequest -> ProviderOutcome,
    encode: seq<byte> -> string)
    requires CheckEnvelope(Present(s)).Accepted?
    requires provider(BuildRequest(s)) == ProviderError(message)
    ensures GenerateAudio(Present(s), provider, encode).response
         == Response(500, FailureBody(false, "Failed to generate audio", message))
  {
  }
}
