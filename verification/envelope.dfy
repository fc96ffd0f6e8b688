/** The request validator of `POST /api/generate-audio`: a presence check on
    `ssmlText`, then a structural check that its trimmed form is wrapped in a
    `<speak>` ... `</speak>` envelope. The presence check runs first. */
module Envelope {
  import opened JsString
  import opened Sequences

  const Open: string := "<speak>"
  const Close: string := "</speak>"

  const RequiredMessage: string := "SSML text is required"
  const InvalidFormatMessage: string := "Invalid SSML format"

  /** The `ssmlText` field of the JSON body: missing (which also stands for
      the falsy non-strings `null`, `0` and `false`, treated alike), or a
      string. */
  datatype SsmlField = Absent | Present(text: string)

  /** Why the validator turned a request away. */
  datatype Rejection = MissingInput | InvalidFormat {
    /** The `error` text the 400 response carries. */
    function Message(): (m: string)
      ensures this == MissingInput ==> m == "SSML text is required"
      ensures this == InvalidFormat ==> m == "Invalid SSML format"
    {
      match this
      case MissingInput => RequiredMessage
      case InvalidFormat => InvalidFormatMessage
    }
  }

  /** The validator's verdict: the text to forward, or the reason to refuse. */
  datatype Verdict = Accepted(ssml: string) | Rejected(reason: Rejection)

  /** The structural test applied to the trimmed text. Since the tags cannot
      overlap, a text that passes it has room for both. */
  predicate HasEnvelope(t: string): (b: bool)
    ensures b ==> |t| >= |Open| + |Close|
  {
    var b := StartsWith(t, Open) && EndsWith(t, Close);
    if b then TagsDoNotOverlap(t); b else b
  }

  /** JavaScript truthiness of the field: missing and `""` are falsy, every
      other string is truthy, however short or blank. */
  predicate IsTruthy(f: SsmlField): (b: bool)
    ensures b <==> f.Present? && |f.text| > 0
  {
    f.Present? && f.text != []
  }

  /** The two guards of the handler, in their order. */
  function CheckEnvelope(f: SsmlField): (v: Verdict)
    ensures v == Rejected(MissingInput) <==> !IsTruthy(f)
    ensures v == Rejected(InvalidFormat) <==> IsTruthy(f) && !HasEnvelope(Trim(f.text))
    ensures v.Accepted? ==> IsTruthy(f) && v.ssml == f.text && HasEnvelope(Trim(f.text))
  {
    if !IsTruthy(f) then Rejected(MissingInput)
    else if !HasEnvelope(Trim(f.text)) then Rejected(InvalidFormat)
    else Accepted(f.text)
  }

  /** `<speak>` and `</speak>` cannot overlap: a text that starts with the
      one and ends with the other has room for both. */
  lemma TagsDoNotOverlap(t: string)
    requires StartsWith(t, Open) && EndsWith(t, Close)
    ensures |t| >= |Open| + |Close|
  {
    // `</speak>` begins with `</`; inside `<speak>` a `<` only ever stands
    // first, and is followed by `s`.
    var k := |t| - |Close|;
    assert t[k] == '<' && t[k + 1] == '/';
    assert forall j :: 0 <= j < |Open| ==> t[j] == Open[j];
    assert forall j :: 0 < j < |Open| ==> Open[j] != '<';
    assert Open[1] != '/';
  }

  /** An enveloped text has room for both tags, and is exactly the two tags
      around its body. */
  lemma EnvelopeMinLength(t: string)
    requires HasEnvelope(t)
    ensures |t| >= |Open| + |Close|
    ensures t == Open + t[|Open|..|t| - |Close|] + Close
  {
    assert t == t[..|Open|] + t[|Open|..|t| - |Close|] + t[|t| - |Close|..];
  }

  /** Every accepted request has a trimmed text of at least 15 characters. */
  lemma AcceptedIsLongEnough(f: SsmlField)
    requires CheckEnvelope(f).Accepted?
    ensures |Trim(f.text)| >= 15
  {
    EnvelopeMinLength(Trim(f.text));
  }

  /** An accepted text is an envelope around some body, with only whitespace
      outside it. */
  lemma AcceptedDecomposes(s: string) returns (lead: string, body: string, trail: string)
    requires CheckEnvelope(Present(s)).Accepted?
    ensures AllWhiteSpace(lead) && AllWhiteSpace(trail)
    ensures s == lead + Open + body + Close + trail
  {
    var t := Trim(s);
    EnvelopeMinLength(t);
    body := t[|Open|..|t| - |Close|];
    lead, trail := TrimSplits(s);
    Regroup(lead, Open, body, Close, trail);
  }

  /** Conversely, any body wrapped in the envelope and padded with whitespace
      is accepted as it stands. */
  lemma EnvelopedIsAccepted(lead: string, body: string, trail: string)
    requires AllWhiteSpace(lead) && AllWhiteSpace(trail)
    ensures var s := lead + Open + body + Close + trail;
      CheckEnvelope(Present(s)) == Accepted(s)
  {
    var t := Open + body + Close;
    assert IsTrimmed(t) by {
      assert t[0] == '<' && t[|t| - 1] == '>';
    }
    assert HasEnvelope(t) by {
      Ends(Open, body, Close);
    }
    Regroup(lead, Open, body, Close, trail);
    TrimOfPadded(lead, t, trail);
  }

  /** A text of whitespace alone passes the presence check and fails the
      format check. */
  lemma WhiteSpaceOnlyIsInvalidFormat(s: string)
    requires s != [] && AllWhiteSpace(s)
    ensures CheckEnvelope(Present(s)) == Rejected(InvalidFormat)
  {
  }

  /** Whitespace added around a non-empty text never changes the verdict. */
  lemma PaddingKeepsVerdict(p: string, s: string, q: string)
    requires s != [] && AllWhiteSpace(p) && AllWhiteSpace(q)
    ensures CheckEnvelope(Present(p + s + q)).Accepted? == CheckEnvelope(Present(s)).Accepted?
    ensures CheckEnvelope(Present(s)).Rejected? ==>
      CheckEnvelope(Present(p + s + q)) == CheckEnvelope(Present(s))
  {
    TrimIgnoresPadding(p, s, q);
  }

  /** Concrete refusals: a missing or empty field, a text with no envelope,
      and a text of whitespace alone. */
  lemma RejectedExamples()
    ensures CheckEnvelope(Absent) == Rejected(MissingInput)
    ensures CheckEnvelope(Present("")) == Rejected(MissingInput)
    ensures CheckEnvelope(Present("hello")) == Rejected(InvalidFormat)
    ensures CheckEnvelope(Present(" \n\t")) == Rejected(InvalidFormat)
  {
    WhiteSpaceOnlyIsInvalidFormat(" \n\t");
  }

  /** Any body inside the envelope is accepted: the handler never looks
      between `<speak>` and `</speak>`. */
  lemma AcceptsAnyBody(body: string)
    ensures CheckEnvelope(Present(Open + body + Close)) == Accepted(Open + body + Close)
  {
    EnvelopedIsAccepted([], body, []);
    NoPadding(Open, body, Close);
  }

  /** So a document with no `<voice>` element is accepted, and so is one
      whose `<voice>` element lacks a `name`. */
  lemma AcceptsVoicelessDocuments()
    ensures CheckEnvelope(Present("<speak>" + "no voices here" + "</speak>")).Accepted?
    ensures CheckEnvelope(Present("<speak>" + "<voice>hi</voice>" + "</speak>")).Accepted?
  {
    AcceptsAnyBody("no voices here");
    AcceptsAnyBody("<voice>hi</voice>");
  }

  /** Whitespace around the envelope is accepted and forwarded as it stands. */
  lemma AcceptsPaddedEnvelope()
    ensures var s := "  " + "<speak>" + "hi" + "</speak>" + "\n";
      CheckEnvelope(Present(s)) == Accepted(s)
  {
    EnvelopedIsAccepted("  ", "hi", "\n");
  }
}
