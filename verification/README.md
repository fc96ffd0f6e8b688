# generate-audio handler, modelled in Dafny

This project models the request decision of the `POST /api/generate-audio`
endpoint of a small text-to-speech backend. The endpoint receives a JSON body
with an `ssmlText` field. It refuses the request with status 400 when the field
is missing or empty ("SSML text is required"). It also refuses it when the
trimmed text does not both start with `<speak>` and end with `</speak>`
("Invalid SSML format"). Otherwise it builds one synthesis request with fixed
voice and audio settings. That request carries the original, untrimmed text.
The handler sends it to the cloud text-to-speech provider once. The provider's
audio comes back base64-encoded under `success: true`. Any provider failure
becomes a 500 response carrying the failure's message.

The handler does no voice segmentation and no concatenation of audio. A
document is sent to the provider whole, whatever it contains between the
envelope tags. In particular, nothing refuses a document that has no
`<voice>` element, or has one without a `name`: such checks would belong to a
multi-voice design that splits a document into per-voice segments, and
server.js has none. `Envelope.AcceptsVoicelessDocuments` shows that both kinds
of document are accepted.

Modules:

- `JsString` (`jsstring.dfy`): JavaScript's `trim`, `startsWith` and
  `endsWith` on strings. The whitespace set is that of ECMAScript's WhiteSpace
  and LineTerminator productions. `Trim` is characterised by two lemmas: a split
  of any string into whitespace, trimmed text and whitespace, and its converse.
- `Envelope` (`envelope.dfy`): the presence check and the envelope check, in
  their order, with the lemmas about trimming, padding and minimum length.
- `Synthesis` (`synthesis.dfy`): the synthesis request, its fixed settings and
  the provider's possible answers.
- `Handler` (`handler.dfy`): the response bodies, the mapping of the provider's
  answer to a response, and the whole handler. The provider and the base64
  encoder are function parameters. The handler also returns the list of
  requests it handed to the provider, so "no provider call on rejection" is a
  statement about its result.
- `Sequences` (`seqs.dfy`): three regrouping facts about concatenation.

## Model

| member | source | states |
|---|---|---|
| JsString.IsWhiteSpace | server.js:27 | The code points `trim` removes are ECMAScript's WhiteSpace and LineTerminator sets; each fits in one UTF-16 code unit and none is printable ASCII |
| JsString.StartsWith | server.js:27 | `startsWith` holds exactly when the prefix is no longer than the string and agrees with it position by position from the start |
| JsString.EndsWith | server.js:27 | `endsWith` holds exactly when the suffix is no longer than the string and agrees with it position by position at the end |
| JsString.SkipForward | server.js:27 | The start of the trimmed text is the first non-whitespace index, and everything before it is whitespace |
| JsString.SkipBackward | server.js:27 | The end of the trimmed text is the start of the trailing whitespace run, and it never passes the start |
| JsString.Trim | server.js:27 | `trim()` yields a string with no whitespace at either end; it is empty exactly when the input is all whitespace |
| JsString.TrimSplits | server.js:27 | Every string is some whitespace, then its trimmed form, then some whitespace |
| JsString.TrimOfPadded | server.js:27 | A string with no whitespace at its ends, padded with whitespace, trims back to itself, so the split above is unique |
| JsString.TrimIgnoresPadding | server.js:27 | Whitespace added on either side of any string does not change its trimmed form |
| JsString.TrimIdempotent | server.js:27 | Trimming twice is trimming once |
| Envelope.IsTruthy | server.js:22 | `!ssmlText` is false exactly for a present, non-empty string; a blank string is truthy |
| Envelope.HasEnvelope | server.js:27 | The combined `startsWith('<speak>')` and `endsWith('</speak>')` test; a text passing it has at least 15 characters |
| Envelope.Rejection.Message | server.js:23-28 | The `error` text of each refusal: "SSML text is required" for the presence check, "Invalid SSML format" for the format check |
| Envelope.TagsDoNotOverlap | server.js:27 | A text that starts with `<speak>` and ends with `</speak>` is at least 15 characters long, because the two tags cannot share characters |
| Envelope.CheckEnvelope | server.js:22-29 | A missing or empty field is refused as missing; otherwise a text whose trimmed form lacks `<speak>` at the start or `</speak>` at the end is refused as badly formatted; otherwise the text itself, untrimmed, is accepted |
| Envelope.EnvelopeMinLength | server.js:27 | The two tags cannot overlap: a text with the envelope has at least 15 characters and is exactly `<speak>`, a body, then `</speak>` |
| Envelope.AcceptedIsLongEnough | server.js:27-29 | No accepted text has a trimmed length below 15 |
| Envelope.AcceptedDecomposes | server.js:27-29 | Every accepted text is whitespace, `<speak>`, a body, `</speak>`, whitespace |
| Envelope.EnvelopedIsAccepted | server.js:27-29 | Conversely, every text of that shape is accepted, and forwarded unchanged |
| Envelope.WhiteSpaceOnlyIsInvalidFormat | server.js:22-28 | A non-empty whitespace-only text passes the presence check and is refused as badly formatted |
| Envelope.PaddingKeepsVerdict | server.js:27 | Adding whitespace around a non-empty text never turns acceptance into refusal or back, nor changes the refusal reason |
| Envelope.RejectedExamples | server.js:22-28 | A missing field and `""` are refused as missing; `"hello"` and a whitespace-only text as badly formatted |
| Envelope.AcceptsAnyBody | server.js:27-29 | Instance of `EnvelopedIsAccepted` with no padding, kept as documentation: whatever stands between `<speak>` and `</speak>` is accepted; the body is never inspected |
| Envelope.AcceptsVoicelessDocuments | server.js:27-29 | A document without a `<voice>` element, and one whose `<voice>` has no `name`, are both accepted |
| Envelope.AcceptsPaddedEnvelope | server.js:27-32 | Instance of `EnvelopedIsAccepted`, kept as documentation: one concrete envelope with surrounding whitespace is accepted and forwarded with that whitespace |
| Synthesis.BuildRequest | server.js:31-43 | The request carries the given document, language `en-IN` with no voice name, `MP3`, pitch 0, speaking rate 1.0, gain 0 and the `headphone-class-device` profile |
| Synthesis.RequestSettingsAreFixed | server.js:31-43 | Any two requests agree on voice and audio settings, and are equal exactly when their documents are |
| Handler.RejectionResponse | server.js:22-29 | A refusal is a 400 whose body has only an `error` field, with the message of the failed check |
| Handler.MapOutcome | server.js:45-59 | Status 200 exactly when the provider returned audio, whose body is `success: true` and the encoding of exactly those bytes; a provider failure is a 500 with `success: false`, "Failed to generate audio" and the failure's message |
| Handler.GenerateAudio | server.js:18-61 | At most one request reaches the provider, and none exactly when the response is a 400; an accepted text always sends exactly the request built from it; the status is 200, 400 or 500; each refusal carries its own message; the request sent carries the untrimmed text and the fixed settings; the response is the mapping of the provider's answer to that request |
| Handler.RejectionIgnoresProvider | server.js:22-29 | A refused request sends nothing, and its response is the same whatever the provider would answer |
| Handler.AcceptedSendsOriginalText | server.js:31-51 | An accepted text leads to exactly one request built from the untrimmed text, and the response depends only on the provider's answer to it |
| Handler.WhiteSpaceOnlyIsBadFormat | server.js:22-28 | A whitespace-only text gets the 400 "Invalid SSML format" response and no provider request |
| Handler.ProviderFailureIsReported | server.js:53-59 | A provider failure on an accepted text yields the 500 failure body with the provider's message as `details` |

## Left out

- Express setup, CORS, the 50 MB JSON body limit, dotenv, the port and `app.listen` (server.js:3-16, 63-66): server plumbing with no decisions in it.
- The Google Cloud client and its credentials (server.js:14-16, 45): a network call. Its answer is the `provider` parameter of `Handler.GenerateAudio`.
- Base64 encoding with `toString('base64')` (server.js:46): a library call. It is the `encode` parameter, assumed to be a function of the bytes alone.
- `console.error` logging (server.js:54): output only.
- Non-string JSON values for `ssmlText` are only partly modelled. The falsy ones (`null`, `0`, `false`) never reach `trim`: `!ssmlText` holds for them, so server.js:22-23 answers 400 "SSML text is required", exactly as for a missing field, and `Absent` stands for them too. Every truthy non-string (non-zero numbers, `true`, arrays, objects) makes `ssmlText.trim()` throw a TypeError at server.js:27; the catch at server.js:53-59 turns that into a 500 "Failed to generate audio" with no provider call. The model has no such input, so `Handler.GenerateAudio`'s "no request exactly when the status is 400" holds only for inputs that are missing, falsy or strings; in the program a truthy non-string gets a 500 without a request.
- JavaScript strings are sequences of UTF-16 code units and may hold lone surrogates. The model uses Unicode scalar values. The whitespace code points all lie in the Basic Multilingual Plane, so trimming agrees on every string both can represent.
- The numeric settings pitch 0, speaking rate 1.0 and gain 0 (server.js:38-40) are exact constants. No floating-point arithmetic is modelled.
- An error object without a `message` (server.js:58), which would drop `details` from the JSON: a provider failure always carries a message string here.
- The `async`/`await` control flow and concurrent requests: each request is one pure evaluation.
