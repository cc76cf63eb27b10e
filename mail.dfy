/** The part of class `Email` that chooses and decodes the message body.
    Parsing the MIME structure and decoding encoded-word headers are done by
    Python's email library and are not modelled: a `Message` carries their
    results. The charset detector and the bytes-to-text codec are parameters. */
module Mail {
  import opened Wrappers

  newtype byte = b: int | 0 <= b < 256

  /** The content type whose payload becomes the body. */
  const PlainText: string := "text/plain"

  /** One part of a multipart message: its content type as the email library
      reports it (lower case, with the library's default when the part has no
      Content-Type header) and its transfer-decoded payload. */
  datatype Part = Part(contentType: string, payload: seq<byte>)

  /** A parsed message. The three headers are already decoded and are `""`
      when the header is absent; `parts` matters only when `multipart`,
      `payload` only when not; `charset` is the charset parameter the message
      declares, if any. */
  datatype Message = Message(
    sender: string,
    recipient: string,
    subject: string,
    multipart: bool,
    parts: seq<Part>,
    payload: seq<byte>,
    charset: Option<string>)

  /** The body before decoding. `NoText` is the text value `''` that the
      multipart scan starts from and keeps when no part is plain text;
      `Bytes` is a payload, which is never equal to `''`, even when empty. */
  datatype Selected = NoText | Bytes(data: seq<byte>)

  /** The charset detector: its best guess, or `None` when it has none. */
  type Detector = seq<byte> -> Option<string>

  /** The codec: the text the bytes decode to under the named charset, or
      `None` when the charset is unknown or the bytes are not valid in it. */
  type Decoder = (string, seq<byte>) -> Option<string>

  predicate IsPlainText(p: Part) {
    p.contentType == PlainText
  }

  /** The body the multipart scan ends with: the payload of the last plain-text
      part, since each such part overwrites the one before. */
  function LastPlainText(parts: seq<Part>): Selected {
    if parts == [] then NoText
    else if IsPlainText(parts[|parts| - 1]) then Bytes(parts[|parts| - 1].payload)
    else LastPlainText(parts[..|parts| - 1])
  }

  /** A plain-text part with no plain-text part after it is the one chosen;
      `SelectedIsLastPlainPart` gives the converse. */
  lemma {:induction false} LastPlainTextAt(parts: seq<Part>, k: nat)
    requires k < |parts| && IsPlainText(parts[k])
    requires forall j | k < j < |parts| :: !IsPlainText(parts[j])
    ensures LastPlainText(parts) == Bytes(parts[k].payload)
  {
    if k < |parts| - 1 {
      var init := parts[..|parts| - 1];
      assert forall j | k < j < |init| :: init[j] == parts[j];
      LastPlainTextAt(init, k);
    }
  }

  /** No body is selected exactly when no part is plain text. */
  lemma {:induction false} NoPlainTextPart(parts: seq<Part>)
    ensures LastPlainText(parts) == NoText <==> forall j | 0 <= j < |parts| :: !IsPlainText(parts[j])
  {
    if parts != [] {
      var init := parts[..|parts| - 1];
      assert forall j | 0 <= j < |init| :: init[j] == parts[j];
      NoPlainTextPart(init);
    }
  }

  /** A selected payload always comes from a plain-text part with no plain-text
      part after it. */
  lemma {:induction false} SelectedIsLastPlainPart(parts: seq<Part>)
    requires LastPlainText(parts).Bytes?
    ensures exists k | 0 <= k < |parts| ::
              && IsPlainText(parts[k])
              && parts[k].payload == LastPlainText(parts).data
              && forall j | k < j < |parts| :: !IsPlainText(parts[j])
  {
    var n := |parts|;
    if !IsPlainText(parts[n - 1]) {
      var init := parts[..n - 1];
      SelectedIsLastPlainPart(init);
      var k :| 0 <= k < |init| && IsPlainText(init[k]) && init[k].payload == LastPlainText(init).data
               && forall j | k < j < |init| :: !IsPlainText(init[j]);
      assert parts[k] == init[k];
      assert forall j | k < j < n - 1 :: parts[j] == init[j];
    }
  }

  /** `Email.__multipart_body`: scan the parts in order, overwriting the body
      with every plain-text payload met. */
  method MultipartBody(parts: seq<Part>) returns (body: Selected)
    ensures body == LastPlainText(parts)
  {
    body := NoText;
    for i := 0 to |parts|
      invariant body == LastPlainText(parts[..i])
    {
      if parts[i].contentType == PlainText {
        body := Bytes(parts[i].payload);
      }
      assert parts[..i + 1][..i] == parts[..i];
    }
    assert parts[..|parts|] == parts;
  }

  /** The body before decoding: the multipart scan, or the whole payload. */
  function SelectBody(m: Message): Selected {
    if m.multipart then LastPlainText(m.parts) else Bytes(m.payload)
  }

  /** The declared charset; only without one is the detector consulted. */
  function ResolveCharset(declared: Option<string>, data: seq<byte>, detect: Detector): Option<string> {
    if declared.Some? then declared else detect(data)
  }

  /** The decoding step of `Email.body`. */
  function DecodeBody(selected: Selected, declared: Option<string>, detect: Detector, decode: Decoder): (r: Result<string>)
    // nothing selected: the empty body, without any decoding
    ensures selected.NoText? ==> r == Success("")
    // no charset can be resolved: the empty body, never an error
    ensures selected.Bytes? && ResolveCharset(declared, selected.data, detect).None? ==> r == Success("")
    // the only failure is the codec's, under the resolved charset
    ensures r.Failure? ==>
              && selected.Bytes?
              && r.error == CodecError(ResolveCharset(declared, selected.data, detect).value)
              && decode(r.error.charset, selected.data).None?
    // a codec failure under the resolved charset is raised, not turned into `''`
    ensures selected.Bytes? && ResolveCharset(declared, selected.data, detect).Some? &&
            decode(ResolveCharset(declared, selected.data, detect).value, selected.data).None? ==>
              r == Failure(CodecError(ResolveCharset(declared, selected.data, detect).value))
    // any text the codec yields under the resolved charset is the body
    ensures selected.Bytes? && ResolveCharset(declared, selected.data, detect).Some? ==>
              var text := decode(ResolveCharset(declared, selected.data, detect).value, selected.data);
              text.Some? ==> r == Success(text.value)
    // a non-empty body is always the codec's output
    ensures r.Success? && r.value != "" ==>
              && selected.Bytes?
              && ResolveCharset(declared, selected.data, detect).Some?
              && decode(ResolveCharset(declared, selected.data, detect).value, selected.data) == Some(r.value)
  {
    match selected
    case NoText => Success("")
    case Bytes(data) =>
      var charset := ResolveCharset(declared, data, detect);
      if charset.None? then Success("")
      else
        match decode(charset.value, data)
        case None => Failure(CodecError(charset.value))
        case Some(text) => Success(text)
  }

  /** The value of `Email.body()` for a message. */
  function BodyOf(m: Message, detect: Detector, decode: Decoder): Result<string> {
    DecodeBody(SelectBody(m), m.charset, detect, decode)
  }

  /** `Email.body`: select the body, resolve the charset and decode. */
  method Body(m: Message, detect: Detector, decode: Decoder) returns (r: Result<string>)
    ensures r == BodyOf(m, detect, decode)
  {
    var selected: Selected;
    if m.multipart {
      selected := MultipartBody(m.parts);
    } else {
      selected := Bytes(m.payload);
    }
    r := DecodeBody(selected, m.charset, detect, decode);
  }

  /** A multipart message without a plain-text part has the empty body,
      whatever the charset, detector and codec. */
  lemma NoPlainTextGivesEmptyBody(m: Message, detect: Detector, decode: Decoder)
    requires m.multipart
    requires forall j | 0 <= j < |m.parts| :: !IsPlainText(m.parts[j])
    ensures BodyOf(m, detect, decode) == Success("")
  {
    NoPlainTextPart(m.parts);
  }

  /** A multipart message's body is decoded from its last plain-text part. */
  lemma MultipartBodyIsLastPlainPart(m: Message, k: nat, detect: Detector, decode: Decoder)
    requires m.multipart && k < |m.parts| && IsPlainText(m.parts[k])
    requires forall j | k < j < |m.parts| :: !IsPlainText(m.parts[j])
    ensures BodyOf(m, detect, decode) == DecodeBody(Bytes(m.parts[k].payload), m.charset, detect, decode)
  {
    LastPlainTextAt(m.parts, k);
  }

  /** When the message declares a charset, the detector plays no part. */
  lemma DeclaredCharsetWins(m: Message, detect1: Detector, detect2: Detector, decode: Decoder)
    requires m.charset.Some?
    ensures BodyOf(m, detect1, decode) == BodyOf(m, detect2, decode)
    ensures SelectBody(m).Bytes? ==>
              BodyOf(m, detect1, decode) ==
                (match decode(m.charset.value, SelectBody(m).data)
                 case None => Failure(CodecError(m.charset.value))
                 case Some(text) => Success(text))
  {
  }

  /** With no declared charset and no guess from the detector the body is empty. */
  lemma UnresolvedCharsetGivesEmptyBody(m: Message, detect: Detector, decode: Decoder)
    requires m.charset.None?
    requires SelectBody(m).Bytes? && detect(SelectBody(m).data).None?
    ensures BodyOf(m, detect, decode) == Success("")
  {
  }
}
