/** The message builder of apps/email-worker/src/mime.ts. */
module Mime {
  import opened Wrappers
  import opened Wire
  import opened Chunking
  import opened EncodedWord
  import opened Utf8
  import Base64

  const MESSAGE_ID_DOMAIN := "rajahinta.fi"
  const LINE_LENGTH := 76

  datatype OutgoingEmail = OutgoingEmail(
    from: string, to: string, subject: string,
    text: Option<string>, html: Option<string>, replyTo: Option<string>)

  /** The payload of the `send_email` binding, which builds its own MIME. */
  datatype BindingMessage = BindingMessage(
    from: string, to: string, subject: string,
    text: Option<string>, html: Option<string>, replyTo: Option<string>)

  /** The email a binding message stands for: the binding puts in the headers itself. */
  function ReadBinding(message: BindingMessage): (email: OutgoingEmail)
  {
    OutgoingEmail(message.from, message.to, message.subject, message.text, message.html, message.replyTo)
  }

  datatype BuiltEmail = BuiltEmail(messageId: string, date: string, mime: string, binding: BindingMessage)

  /** The header-injection guard's fields, in the order the builder checks them. */
  datatype GuardedField = FromField | ToField | SubjectField | ReplyToField

  function Guarded(email: OutgoingEmail, field: GuardedField): (value: Option<string>)
  {
    match field
    case FromField => Some(email.from)
    case ToField => Some(email.to)
    case SubjectField => Some(email.subject)
    case ReplyToField => email.replyTo
  }

  predicate Clean(email: OutgoingEmail, field: GuardedField)
  {
    var value := Guarded(email, field);
    value.Some? ==> NoCrlf(value.value)
  }

  /** The first guarded field that holds a CR or an LF. */
  function Refusal(email: OutgoingEmail): (field: Option<GuardedField>)
    ensures field.Some? <==> exists f :: !Clean(email, f)
    ensures field.Some? ==> !Clean(email, field.value)
  {
    if !Clean(email, FromField) then Some(FromField)
    else if !Clean(email, ToField) then Some(ToField)
    else if !Clean(email, SubjectField) then Some(SubjectField)
    else if !Clean(email, ReplyToField) then Some(ReplyToField)
    else None
  }

  /** `btoa` over the UTF-8 bytes, gathered one by one. */
  method Base64Utf8(text: string) returns (code: string)
    ensures code == Base64.Encode(Utf8.Encode(text))
  {
    var bytes := Utf8.Encode(text);
    var binary: seq<byte> := [];
    for i := 0 to |bytes|
      invariant binary == bytes[..i]
    {
      binary := binary + [bytes[i]];
    }
    assert bytes[..|bytes|] == bytes;
    code := Base64.Encode(binary);
  }

  /** `match(/.{1,76}/g)` joined by CRLF; no match leaves the empty string. */
  function WrapBase64(code: string): (wrapped: string)
  {
    Join(Chunks(code, LINE_LENGTH), CRLF)
  }

  /** The lines a wrapped body occupies on the wire: an empty body is one empty line. */
  function BodyLines(text: string): (lines: seq<string>)
  {
    var chunks := Chunks(Base64.Encode(Utf8.Encode(text)), LINE_LENGTH);
    if chunks == [] then [""] else chunks
  }

  lemma WrappedIsLines(text: string)
    ensures WrapBase64(Base64.Encode(Utf8.Encode(text))) + CRLF == Terminated(BodyLines(text))
  {
    var chunks := Chunks(Base64.Encode(Utf8.Encode(text)), LINE_LENGTH);
    if chunks != [] {
      JoinIsTerminated(chunks);
    }
  }

  function MessageId(localPart: string): (id: string) { "<" + localPart + "@" + MESSAGE_ID_DOMAIN + ">" }

  function Boundary(token: string): (b: string) { "=_rh_" + token }

  function Delimiter(token: string): (d: string) { "--" + Boundary(token) }

  /** The fields every message carries, Reply-To only when there is one. */
  function EnvelopeFields(email: OutgoingEmail, date: string, localPart: string): (fields: seq<Field>)
  {
    [Field("From", email.from), Field("To", email.to)]
    + (if email.replyTo.Some? then [Field("Reply-To", email.replyTo.value)] else [])
    + [Field("Subject", EncodeSubject(email.subject)), Field("Date", date),
       Field("Message-ID", MessageId(localPart)), Field("MIME-Version", "1.0")]
  }

  function EntityFields(mediaType: string): (fields: seq<Field>)
    ensures |fields| == 2
  {
    [Field("Content-Type", mediaType + "; charset=utf-8"), Field("Content-Transfer-Encoding", "base64")]
  }

  function MultipartField(token: string): (f: Field)
  {
    Field("Content-Type", "multipart/alternative; boundary=\"" + Boundary(token) + "\"")
  }

  predicate IsMultipart(email: OutgoingEmail) { email.text.Some? && email.html.Some? }

  /** The one body of a single-part message: the text, else the HTML, else nothing. */
  function SingleBody(email: OutgoingEmail): (body: string)
  {
    if email.text.Some? then email.text.value else if email.html.Some? then email.html.value else ""
  }

  function SingleType(email: OutgoingEmail): (mediaType: string)
  {
    if email.html.Some? then "text/html" else "text/plain"
  }

  function EntityLines(mediaType: string, body: string): (lines: seq<string>)
  {
    RenderAll(EntityFields(mediaType)) + [""] + BodyLines(body)
  }

  function AllFields(email: OutgoingEmail, date: string, localPart: string, token: string): (fields: seq<Field>)
  {
    EnvelopeFields(email, date, localPart)
    + (if IsMultipart(email) then [MultipartField(token)] else EntityFields(SingleType(email)))
  }

  /** What follows the blank line that ends the header block. */
  function ContentLines(email: OutgoingEmail, token: string): (lines: seq<string>)
  {
    if IsMultipart(email) then
      ([Delimiter(token)] + EntityLines("text/plain", email.text.value))
      + ([Delimiter(token)] + EntityLines("text/html", email.html.value))
      + [Delimiter(token) + "--"]
    else
      BodyLines(SingleBody(email))
  }

  /** The whole message, line by line. */
  function MessageLines(email: OutgoingEmail, date: string, localPart: string, token: string): (lines: seq<string>)
  {
    RenderAll(AllFields(email, date, localPart, token)) + [""] + ContentLines(email, token)
  }

  /** One part of a multipart body, as the `part` closure prints it. */
  function Part(token: string, mediaType: string, body: string): (s: string)
  {
    Delimiter(token) + CRLF
    + Render(EntityFields(mediaType)[0]) + CRLF
    + Render(EntityFields(mediaType)[1]) + CRLF
    + CRLF
    + WrapBase64(Base64.Encode(Utf8.Encode(body))) + CRLF
  }

  lemma TerminatedFour(a: string, b: string, c: string, rest: seq<string>)
    ensures Terminated([a, b, c, ""] + rest) == a + CRLF + b + CRLF + c + CRLF + CRLF + Terminated(rest)
  {
    TerminatedCons(a, [b, c, ""] + rest);
    TerminatedCons(b, [c, ""] + rest);
    TerminatedCons(c, [""] + rest);
    TerminatedCons("", rest);
    assert [a] + ([b, c, ""] + rest) == [a, b, c, ""] + rest;
    assert [b] + ([c, ""] + rest) == [b, c, ""] + rest;
    assert [c] + ([""] + rest) == [c, ""] + rest;
  }

  lemma PartIsLines(token: string, mediaType: string, body: string)
    ensures Part(token, mediaType, body) == Terminated([Delimiter(token)] + EntityLines(mediaType, body))
  {
    var fields := EntityFields(mediaType);
    var a, b, c := Delimiter(token), Render(fields[0]), Render(fields[1]);
    var wrapped := WrapBase64(Base64.Encode(Utf8.Encode(body)));
    hide Delimiter, Render, WrapBase64, BodyLines, Terminated;
    RenderAllTwo(fields[0], fields[1]);
    assert [a] + EntityLines(mediaType, body) == [a, b, c, ""] + BodyLines(body);
    TerminatedFour(a, b, c, BodyLines(body));
    WrappedIsLines(body);
    assert a + CRLF + b + CRLF + c + CRLF + CRLF + (wrapped + CRLF)
        == a + CRLF + b + CRLF + c + CRLF + CRLF + wrapped + CRLF;
  }

  /** The envelope's lines, in the order of the builder's array literal. */
  lemma RenderedEnvelope(email: OutgoingEmail, date: string, localPart: string)
    ensures RenderAll(EnvelopeFields(email, date, localPart)) == EnvelopeLines(email, date, MessageId(localPart))
  {
    hide Render, EncodeSubject, MessageId;
    var a := [Field("From", email.from), Field("To", email.to)];
    var b := if email.replyTo.Some? then [Field("Reply-To", email.replyTo.value)] else [];
    var c := [Field("Subject", EncodeSubject(email.subject)), Field("Date", date)];
    var d := [Field("Message-ID", MessageId(localPart)), Field("MIME-Version", "1.0")];
    assert EnvelopeFields(email, date, localPart) == a + b + (c + d);
    RenderAllAppend(a + b, c + d);
    RenderAllAppend(a, b);
    RenderAllAppend(c, d);
    RenderAllTwo(a[0], a[1]);
    RenderAllTwo(c[0], c[1]);
    RenderAllTwo(d[0], d[1]);
    if b != [] {
      RenderAllTwo(b[0], b[0]);
    }
  }

  function EnvelopeLines(email: OutgoingEmail, date: string, messageId: string): (lines: seq<string>)
  {
    [Render(Field("From", email.from)), Render(Field("To", email.to))]
    + (if email.replyTo.Some? then [Render(Field("Reply-To", email.replyTo.value))] else [])
    + [Render(Field("Subject", EncodeSubject(email.subject))), Render(Field("Date", date)),
       Render(Field("Message-ID", messageId)), Render(Field("MIME-Version", "1.0"))]
  }

  /**
   * `buildMimeMessage`. The date text, the Message-ID's local part and the boundary token
   * are inputs: the source takes them from the clock and from `crypto.randomUUID()`.
   */
  method BuildMimeMessage(email: OutgoingEmail, date: string, localPart: string, token: string)
    returns (r: Result<BuiltEmail, GuardedField>)
    ensures r.Err? <==> Refusal(email).Some?
    ensures r.Err? ==> Refusal(email) == Some(r.error)
    ensures r.Ok? ==> r.value.mime == Terminated(MessageLines(email, date, localPart, token))
    ensures r.Ok? ==> r.value.messageId == "<" + localPart + "@rajahinta.fi>" && r.value.date == date
    ensures r.Ok? ==> ReadBinding(r.value.binding) == email
    ensures r.Ok? ==> r.value.binding.text == email.text && r.value.binding.html == email.html
  {
    assert MessageId(localPart) == "<" + localPart + "@rajahinta.fi>";
    hide NoCrlf, Terminated, MessageLines, Join, WrapBase64, Part, EnvelopeLines;
    hide MessageId, MultipartField, EntityFields;
    if !NoCrlf(email.from) { return Err(FromField); }
    if !NoCrlf(email.to) { return Err(ToField); }
    if !NoCrlf(email.subject) { return Err(SubjectField); }
    if email.replyTo.Some? && !NoCrlf(email.replyTo.value) { return Err(ReplyToField); }

    var messageId := MessageId(localPart);
    var headers := EnvelopeLines(email, date, messageId);
    var mime: string;
    if email.text.Some? && email.html.Some? {
      headers := headers + [Render(MultipartField(token))];
      mime := Join(headers, CRLF) + CRLF + CRLF
              + Part(token, "text/plain", email.text.value)
              + Part(token, "text/html", email.html.value)
              + (Delimiter(token) + "--") + CRLF;
      MultipartMime(email, date, localPart, token);
    } else {
      var body := if email.text.Some? then email.text.value else if email.html.Some? then email.html.value else "";
      var contentType := if email.html.Some? then "text/html" else "text/plain";
      headers := headers + [Render(EntityFields(contentType)[0]), Render(EntityFields(contentType)[1])];
      var code := Base64Utf8(body);
      mime := Join(headers, CRLF) + CRLF + CRLF + WrapBase64(code) + CRLF;
      SingleMime(email, date, localPart, token);
    }
    var binding := BindingMessage(email.from, email.to, email.subject, email.text, email.html, email.replyTo);
    r := Ok(BuiltEmail(messageId, date, mime, binding));
  }

  lemma MultipartMime(email: OutgoingEmail, date: string, localPart: string, token: string)
    requires IsMultipart(email)
    ensures Join(EnvelopeLines(email, date, MessageId(localPart)) + [Render(MultipartField(token))], CRLF) + CRLF + CRLF
            + Part(token, "text/plain", email.text.value) + Part(token, "text/html", email.html.value)
            + (Delimiter(token) + "--") + CRLF
         == Terminated(MessageLines(email, date, localPart, token))
  {
    hide EnvelopeLines, EnvelopeFields, Part, Delimiter, Join, MultipartField, EntityLines;
    var headers := EnvelopeLines(email, date, MessageId(localPart)) + [Render(MultipartField(token))];
    RenderedEnvelope(email, date, localPart);
    RenderAllAppend(EnvelopeFields(email, date, localPart), [MultipartField(token)]);
    RenderAllTwo(MultipartField(token), MultipartField(token));
    MultipartText(headers, email.text.value, email.html.value, token);
  }

  lemma SingleMime(email: OutgoingEmail, date: string, localPart: string, token: string)
    requires !IsMultipart(email)
    ensures Join(EnvelopeLines(email, date, MessageId(localPart))
                 + [Render(EntityFields(SingleType(email))[0]), Render(EntityFields(SingleType(email))[1])], CRLF)
            + CRLF + CRLF + WrapBase64(Base64.Encode(Utf8.Encode(SingleBody(email)))) + CRLF
         == Terminated(MessageLines(email, date, localPart, token))
  {
    hide EnvelopeLines, EnvelopeFields, Join, Terminated, WrapBase64, BodyLines, Render;
    var fields := EntityFields(SingleType(email));
    var headers := EnvelopeLines(email, date, MessageId(localPart)) + [Render(fields[0]), Render(fields[1])];
    RenderedEnvelope(email, date, localPart);
    RenderAllAppend(EnvelopeFields(email, date, localPart), fields);
    RenderAllTwo(fields[0], fields[1]);
    SingleText(headers, SingleBody(email));
  }

  lemma HeadText(headers: seq<string>, content: seq<string>)
    requires headers != []
    ensures Terminated(headers + [""] + content) == Join(headers, CRLF) + CRLF + CRLF + Terminated(content)
  {
    JoinIsTerminated(headers);
    TerminatedAppend(headers + [""], content);
    TerminatedAppend(headers, [""]);
    assert Terminated([""]) == "" + CRLF + Terminated([""][1..]) == CRLF;
  }

  lemma SingleText(headers: seq<string>, body: string)
    requires headers != []
    ensures Join(headers, CRLF) + CRLF + CRLF + WrapBase64(Base64.Encode(Utf8.Encode(body))) + CRLF
         == Terminated(headers + [""] + BodyLines(body))
  {
    hide Base64.Encode, Utf8.Encode, WrapBase64, BodyLines, Join, Terminated;
    HeadText(headers, BodyLines(body));
    WrappedIsLines(body);
  }

  lemma MultipartText(headers: seq<string>, text: string, html: string, token: string)
    requires headers != []
    ensures Join(headers, CRLF) + CRLF + CRLF
            + Part(token, "text/plain", text) + Part(token, "text/html", html)
            + (Delimiter(token) + "--") + CRLF
         == Terminated(headers + [""]
                       + (([Delimiter(token)] + EntityLines("text/plain", text))
                          + ([Delimiter(token)] + EntityLines("text/html", html))
                          + [Delimiter(token) + "--"]))
  {
    var plain := [Delimiter(token)] + EntityLines("text/plain", text);
    var rich := [Delimiter(token)] + EntityLines("text/html", html);
    var close := [Delimiter(token) + "--"];
    hide EntityLines, Part, Join, Delimiter;
    HeadText(headers, plain + rich + close);
    TerminatedAppend(plain + rich, close);
    TerminatedAppend(plain, rich);
    PartIsLines(token, "text/plain", text);
    PartIsLines(token, "text/html", html);
    assert Terminated(close) == close[0] + CRLF + Terminated(close[1..]);
    assert close[1..] == [];
  }
}
