/**
 * A reader of the wire format, independent of the builder: RFC 5322 section 2.2 headers,
 * RFC 2046 section 5.1.1 multipart bodies, RFC 2045 section 6.8 base64. It is the partner
 * of `Mime.BuildMimeMessage`, and the lemmas below prove that it undoes the builder.
 */
module MimeReader {
  import opened Wrappers
  import opened Wire
  import opened Chunking
  import opened EncodedWord
  import opened Utf8
  import Base64
  import opened Mime

  datatype Entity = Entity(mediaType: string, content: string)

  datatype ReadMessage = ReadMessage(fields: seq<Field>, entities: seq<Entity>)

  function Concat(lines: seq<string>): (s: string) { Flatten(lines) }

  /** A body: the line breaks are dropped, then base64, then UTF-8. */
  function ReadBody(lines: seq<string>): (content: Option<string>)
  {
    var bytes := Base64.Decode(Concat(lines));
    if bytes.None? then None else Utf8.Decode(bytes.value)
  }

  /** A header block's media type (up to the parameters) over the body it announces. */
  function ReadEntity(fields: seq<Field>, lines: seq<string>): (entity: Option<Entity>)
  {
    var mediaType, encoding := Lookup(fields, "Content-Type"), Lookup(fields, "Content-Transfer-Encoding");
    var content := ReadBody(lines);
    if mediaType.None? || encoding != Some("base64") || content.None? then None
    else Some(Entity(mediaType.value[..IndexOf(mediaType.value, ';')], content.value))
  }

  /** A boundary is recognised by the start of the line alone (RFC 2046 section 5.1.1). */
  predicate IsDelimiter(line: string, delimiter: string) { delimiter <= line }

  predicate IsClose(line: string, delimiter: string) { delimiter + "--" <= line }

  function NextDelimiter(lines: seq<string>, delimiter: string): (i: nat)
    ensures i <= |lines|
  {
    if lines == [] || IsDelimiter(lines[0], delimiter) then 0 else 1 + NextDelimiter(lines[1..], delimiter)
  }

  /** The line groups from just after one delimiter up to the closing one. */
  function Parts(lines: seq<string>, delimiter: string): (parts: Option<seq<seq<string>>>)
    decreases |lines|
  {
    var i := NextDelimiter(lines, delimiter);
    if i == |lines| then None
    else if IsClose(lines[i], delimiter) then Some([lines[..i]])
    else
      var rest := Parts(lines[i + 1..], delimiter);
      if rest.None? then None else Some([lines[..i]] + rest.value)
  }

  /** One part: its header block over its body. */
  function ReadPart(lines: seq<string>): (entity: Option<Entity>)
  {
    var head := ParseHead(lines);
    if head.None? then None else ReadEntity(head.value.0, head.value.1)
  }

  function ReadParts(parts: seq<seq<string>>): (entities: Option<seq<Entity>>)
  {
    if parts == [] then Some([])
    else
      var entity, rest := ReadPart(parts[0]), ReadParts(parts[1..]);
      if entity.None? || rest.None? then None else Some([entity.value] + rest.value)
  }

  const MULTIPART := "multipart/alternative; boundary=\""

  /** The boundary parameter of a multipart Content-Type. */
  function ReadBoundary(contentType: string): (boundary: Option<string>)
  {
    if MULTIPART <= contentType then
      var value := contentType[|MULTIPART|..];
      Some(value[..IndexOf(value, '"')])
    else None
  }

  /** The parts of a multipart body after its preamble. */
  function ReadMultipart(lines: seq<string>, delimiter: string): (entities: Option<seq<Entity>>)
  {
    var i := NextDelimiter(lines, delimiter);
    if i == |lines| then None
    else
      var parts := Parts(lines[i + 1..], delimiter);
      if parts.None? then None else ReadParts(parts.value)
  }

  function Read(raw: string): (message: Option<ReadMessage>)
  {
    var head := ParseHead(Split(raw));
    if head.None? then None
    else
      var (fields, body) := head.value;
      var contentType := Lookup(fields, "Content-Type");
      var boundary := if contentType.Some? then ReadBoundary(contentType.value) else None;
      if boundary.Some? then
        var entities := ReadMultipart(body, "--" + boundary.value);
        if entities.None? then None else Some(ReadMessage(fields, entities.value))
      else
        var entity := ReadEntity(fields, body);
        if entity.None? then None else Some(ReadMessage(fields, [entity.value]))
  }

  // ---- the lines of a wrapped body -------------------------------------------------

  /** What the wire can hold: at most 76 characters, base64 letters or padding only. */
  predicate IsBodyLine(line: string)
  {
    |line| <= LINE_LENGTH && forall i :: 0 <= i < |line| ==> Base64.IsLetter(line[i]) || line[i] == '='
  }

  lemma {:induction false} ChunkLines(code: string)
    requires forall i :: 0 <= i < |code| ==> Base64.IsLetter(code[i]) || code[i] == '='
    ensures forall c :: 0 <= c < |Chunks(code, LINE_LENGTH)| ==> IsBodyLine(Chunks(code, LINE_LENGTH)[c])
    decreases |code|
  {
    if |code| > LINE_LENGTH {
      ChunkLines(code[LINE_LENGTH..]);
    }
  }

  /** No wrapped line is over-long and none can be mistaken for a boundary delimiter. */
  lemma BodyLinesAreSafe(text: string, token: string)
    ensures forall i :: 0 <= i < |BodyLines(text)| ==>
              && |BodyLines(text)[i]| <= 76
              && NoCrlf(BodyLines(text)[i])
              && !IsDelimiter(BodyLines(text)[i], Delimiter(token))
  {
    var code := Base64.Encode(Utf8.Encode(text));
    Base64.EncodedAlphabet(Utf8.Encode(text));
    ChunkLines(code);
    forall i | 0 <= i < |BodyLines(text)|
      ensures IsBodyLine(BodyLines(text)[i]) && NoCrlf(BodyLines(text)[i])
      ensures !IsDelimiter(BodyLines(text)[i], Delimiter(token))
    {
      var line := BodyLines(text)[i];
      assert Delimiter(token)[0] == '-';
      assert IsBodyLine(line);
    }
  }

  lemma ReadBodyLines(text: string)
    ensures ReadBody(BodyLines(text)) == Some(text)
  {
    var code := Base64.Encode(Utf8.Encode(text));
    ChunksPartition(code, LINE_LENGTH);
    if code == "" {
      assert Flatten([""]) == "" + Flatten([""][1..]) == "";
    }
    Base64.DecodeEncode(Utf8.Encode(text));
    Utf8.DecodeEncode(text);
  }

  // ---- entities and parts ----------------------------------------------------------

  lemma ReadWrittenEntity(envelope: seq<Field>, mediaType: string, body: string)
    requires forall i :: 0 <= i < |envelope| ==>
               envelope[i].name != "Content-Type" && envelope[i].name != "Content-Transfer-Encoding"
    requires forall i :: 0 <= i < |mediaType| ==> mediaType[i] != ';'
    ensures ReadEntity(envelope + EntityFields(mediaType), BodyLines(body)) == Some(Entity(mediaType, body))
    ensures Lookup(envelope + EntityFields(mediaType), "Content-Type") == Some(mediaType + "; charset=utf-8")
  {
    hide ReadBody, BodyLines;
    var fields := EntityFields(mediaType);
    LookupSkips(envelope, fields, "Content-Type");
    LookupSkips(envelope, fields, "Content-Transfer-Encoding");
    assert Lookup(fields, "Content-Type") == Some(mediaType + "; charset=utf-8");
    assert fields[1..][0] == fields[1];
    assert fields[0].name != "Content-Transfer-Encoding";
    assert Lookup(fields[1..], "Content-Transfer-Encoding") == Some("base64");
    TypeBeforeParameters(mediaType, "; charset=utf-8");
    ReadBodyLines(body);
  }

  lemma TypeBeforeParameters(mediaType: string, parameters: string)
    requires forall i :: 0 <= i < |mediaType| ==> mediaType[i] != ';'
    requires parameters != "" && parameters[0] == ';'
    ensures (mediaType + parameters)[..IndexOf(mediaType + parameters, ';')] == mediaType
  {
    var value := mediaType + parameters;
    assert value[|mediaType|] == ';';
    assert forall k :: 0 <= k < |mediaType| ==> value[k] == mediaType[k];
    assert IndexOf(value, ';') == |mediaType|;
  }

  predicate IsMediaType(mediaType: string)
  {
    NoCrlf(mediaType) && forall i :: 0 <= i < |mediaType| ==> mediaType[i] != ';'
  }

  lemma EntityFieldsWellFormed(mediaType: string)
    requires IsMediaType(mediaType)
    ensures WellFormed(EntityFields(mediaType))
  {
    hide IsName;
    EntityNames();
    assert NoCrlf("; charset=utf-8") && NoCrlf("base64");
  }

  lemma EntityNames()
    ensures IsName("Content-Type") && IsName("Content-Transfer-Encoding")
  {
  }

  lemma ReadWrittenPart(mediaType: string, body: string)
    requires IsMediaType(mediaType)
    ensures ReadPart(EntityLines(mediaType, body)) == Some(Entity(mediaType, body))
  {
    EntityFieldsWellFormed(mediaType);
    ParseRenderedHead(EntityFields(mediaType), BodyLines(body));
    ReadWrittenEntity([], mediaType, body);
    assert [] + EntityFields(mediaType) == EntityFields(mediaType);
  }

  lemma {:induction false} NextDelimiterAfter(lines: seq<string>, line: string, rest: seq<string>, delimiter: string)
    requires forall i :: 0 <= i < |lines| ==> !IsDelimiter(lines[i], delimiter)
    requires IsDelimiter(line, delimiter)
    ensures NextDelimiter(lines + ([line] + rest), delimiter) == |lines|
  {
    var all := lines + ([line] + rest);
    if lines != [] {
      assert all[1..] == lines[1..] + ([line] + rest);
      NextDelimiterAfter(lines[1..], line, rest, delimiter);
    }
  }

  lemma EntityLinesAreSafe(mediaType: string, body: string, token: string)
    requires IsMediaType(mediaType)
    ensures AllNoCrlf(EntityLines(mediaType, body))
    ensures forall i :: 0 <= i < |EntityLines(mediaType, body)| ==>
              !IsDelimiter(EntityLines(mediaType, body)[i], Delimiter(token))
  {
    var fields := EntityFields(mediaType);
    var head := RenderAll(fields);
    EntityFieldsWellFormed(mediaType);
    RenderedLines(fields);
    RenderAllTwo(fields[0], fields[1]);
    assert head == [Render(fields[0]), Render(fields[1])];
    assert head[0][0] == 'C' && head[1][0] == 'C' && Delimiter(token)[0] == '-';
    BodyLinesAreSafe(body, token);
    var lines := EntityLines(mediaType, body);
    forall i | 0 <= i < |lines|
      ensures NoCrlf(lines[i]) && !IsDelimiter(lines[i], Delimiter(token))
    {
      if i == 2 {
        assert lines[i] == "";
      } else if i > 2 {
        assert lines[i] == BodyLines(body)[i - 3];
      }
    }
  }

  predicate NoDelimiters(lines: seq<string>, delimiter: string)
  {
    forall i :: 0 <= i < |lines| ==> !IsDelimiter(lines[i], delimiter)
  }

  /** Two delimited line groups and the closing delimiter are cut back into the two groups. */
  lemma PartsOfTwo(plain: seq<string>, rich: seq<string>, d: string)
    requires NoDelimiters(plain, d) && NoDelimiters(rich, d)
    ensures Parts(plain + ([d] + (rich + ([d + "--"] + []))), d) == Some([plain, rich])
  {
    var close := d + "--";
    var afterPlain := rich + ([close] + []);
    var lines := plain + ([d] + afterPlain);
    NextDelimiterAfter(plain, d, afterPlain, d);
    NextDelimiterAfter(rich, close, [], d);
    assert lines[..|plain|] == plain && lines[|plain| + 1..] == afterPlain && lines[|plain|] == d;
    assert afterPlain[..|rich|] == rich && afterPlain[|rich|] == close;
    assert IsClose(close, d) && |d| < |close| && !IsClose(d, d);
    assert Parts(afterPlain, d) == Some([rich]);
    assert [plain] + [rich] == [plain, rich];
  }

  lemma ReadPartsCons(part: seq<string>, rest: seq<seq<string>>)
    ensures ReadParts([part] + rest)
         == if ReadPart(part).None? || ReadParts(rest).None? then None
            else Some([ReadPart(part).value] + ReadParts(rest).value)
    ensures ReadParts([]) == Some([])
  {
    hide ReadPart;
    assert ([part] + rest)[1..] == rest;
  }

  /** The two parts of an alternative body are read back apart, in order. */
  lemma ReadWrittenMultipart(email: OutgoingEmail, token: string)
    requires IsMultipart(email)
    ensures ReadMultipart(ContentLines(email, token), Delimiter(token))
         == Some([Entity("text/plain", email.text.value), Entity("text/html", email.html.value)])
  {
    var d := Delimiter(token);
    var plain, rich := EntityLines("text/plain", email.text.value), EntityLines("text/html", email.html.value);
    PlainAndRich(email.text.value, email.html.value, token);
    hide EntityLines, Delimiter, ReadMultipart, ReadParts;
    ReadDelimited(plain, rich, d);
  }

  lemma ReadDelimited(plain: seq<string>, rich: seq<string>, d: string)
    requires NoDelimiters(plain, d) && NoDelimiters(rich, d)
    ensures ReadMultipart(([d] + plain) + ([d] + rich) + [d + "--"], d) == ReadParts([plain, rich])
  {
    hide Parts, ReadParts;
    var all := ([d] + plain) + ([d] + rich) + [d + "--"];
    var lines := plain + ([d] + (rich + ([d + "--"] + [])));
    assert all == [] + ([d] + lines);
    NextDelimiterAfter([], d, lines, d);
    assert all[1..] == lines;
    PartsOfTwo(plain, rich, d);
  }

  lemma PlainAndRich(text: string, html: string, token: string)
    ensures NoDelimiters(EntityLines("text/plain", text), Delimiter(token))
    ensures NoDelimiters(EntityLines("text/html", html), Delimiter(token))
    ensures ReadParts([EntityLines("text/plain", text), EntityLines("text/html", html)])
         == Some([Entity("text/plain", text), Entity("text/html", html)])
  {
    MediaTypes();
    hide EntityLines, ReadPart, Delimiter, ReadParts, IsMediaType;
    EntityLinesAreSafe("text/plain", text, token);
    EntityLinesAreSafe("text/html", html, token);
    ReadWrittenPart("text/plain", text);
    ReadWrittenPart("text/html", html);
    var plain, rich := EntityLines("text/plain", text), EntityLines("text/html", html);
    ReadPartsCons(rich, []);
    ReadPartsCons(plain, [rich]);
    assert [rich] + [] == [rich] && [plain] + [rich] == [plain, rich];
    var first, second := Entity("text/plain", text), Entity("text/html", html);
    assert [first] + ([second] + []) == [first, second];
  }

  // ---- whole messages --------------------------------------------------------------

  predicate HexToken(token: string)
  {
    forall i :: 0 <= i < |token| ==> '0' <= token[i] <= '9' || 'a' <= token[i] <= 'f'
  }

  /** The generated inputs: a date, an identifier and a boundary token without CR or LF. */
  predicate Generated(date: string, localPart: string, token: string)
  {
    NoCrlf(date) && NoCrlf(localPart) && HexToken(token)
  }

  lemma SubjectLine(subject: string)
    requires NoCrlf(subject)
    ensures NoCrlf(EncodeSubject(subject))
  {
    WordHasNoSpace(subject);
  }

  lemma GeneratedLines(localPart: string)
    requires NoCrlf(localPart)
    ensures NoCrlf(MessageId(localPart)) && NoCrlf("1.0")
  {
  }

  lemma EnvelopeWellFormed(email: OutgoingEmail, date: string, localPart: string)
    requires Refusal(email).None? && NoCrlf(date) && NoCrlf(localPart)
    ensures WellFormed(EnvelopeFields(email, date, localPart))
    ensures forall i :: 0 <= i < |EnvelopeFields(email, date, localPart)| ==>
              var name := EnvelopeFields(email, date, localPart)[i].name;
              name != "Content-Type" && name != "Content-Transfer-Encoding"
  {
    assert Clean(email, FromField) && Clean(email, ToField) && Clean(email, SubjectField) && Clean(email, ReplyToField);
    SubjectLine(email.subject);
    GeneratedLines(localPart);
    hide EncodeSubject, IsName, NoCrlf, MessageId, Clean;
    var fields := EnvelopeFields(email, date, localPart);
    forall i | 0 <= i < |fields|
      ensures IsName(fields[i].name) && NoCrlf(fields[i].value)
      ensures fields[i].name != "Content-Type" && fields[i].name != "Content-Transfer-Encoding"
    {
      EnvelopeName(fields[i].name);
    }
  }

  lemma EnvelopeName(name: string)
    requires || name == "From" || name == "To" || name == "Reply-To" || name == "Subject" || name == "Date"
             || name == "Message-ID" || name == "MIME-Version"
    ensures IsName(name) && name != "Content-Type" && name != "Content-Transfer-Encoding"
  {
  }

  lemma ReadWrittenBoundary(boundary: string)
    requires forall i :: 0 <= i < |boundary| ==> boundary[i] != '"'
    ensures ReadBoundary(MULTIPART + boundary + "\"") == Some(boundary)
  {
    var tail := boundary + "\"";
    var value := MULTIPART + boundary + "\"";
    hide MULTIPART;
    assert value[|MULTIPART|..] == tail && value[..|MULTIPART|] == MULTIPART;
    assert tail[|boundary|] == '"';
    assert forall k :: 0 <= k < |boundary| ==> tail[k] == boundary[k];
    assert IndexOf(tail, '"') == |boundary|;
    assert tail[..|boundary|] == boundary;
  }

  lemma MultipartFieldRead(token: string)
    requires HexToken(token)
    ensures IsName(MultipartField(token).name) && NoCrlf(MultipartField(token).value)
    ensures ReadBoundary(MultipartField(token).value) == Some(Boundary(token))
  {
    var boundary := Boundary(token);
    assert forall i :: 0 <= i < |boundary| ==> boundary[i] != '"' && boundary[i] != '\r' && boundary[i] != '\n';
    ReadWrittenBoundary(boundary);
    hide Boundary, ReadBoundary;
    assert NoCrlf(MULTIPART);
  }

  lemma DelimiterNoCrlf(token: string)
    requires HexToken(token)
    ensures AllNoCrlf([Delimiter(token)]) && AllNoCrlf([Delimiter(token) + "--"])
  {
  }

  lemma BodyNoCrlf(text: string, token: string)
    ensures AllNoCrlf(BodyLines(text))
  {
    BodyLinesAreSafe(text, token);
  }

  lemma AllNoCrlfBoth(a: seq<string>, b: seq<string>)
    requires AllNoCrlf(a) && AllNoCrlf(b)
    ensures AllNoCrlf(a + b)
  {
    hide NoCrlf;
  }

  lemma ContentLinesNoCrlf(email: OutgoingEmail, token: string)
    requires HexToken(token)
    ensures AllNoCrlf(ContentLines(email, token))
  {
    hide EntityLines, Delimiter, NoCrlf, AllNoCrlf, IsDelimiter;
    if IsMultipart(email) {
      DelimiterNoCrlf(token);
      MediaTypes();
      var plain, rich := EntityLines("text/plain", email.text.value), EntityLines("text/html", email.html.value);
      EntityLinesAreSafe("text/plain", email.text.value, token);
      EntityLinesAreSafe("text/html", email.html.value, token);
      AllNoCrlfBoth([Delimiter(token)], plain);
      AllNoCrlfBoth([Delimiter(token)], rich);
      AllNoCrlfBoth([Delimiter(token)] + plain, [Delimiter(token)] + rich);
      AllNoCrlfBoth(([Delimiter(token)] + plain) + ([Delimiter(token)] + rich), [Delimiter(token) + "--"]);
    } else {
      BodyNoCrlf(SingleBody(email), token);
    }
  }

  /** The entities the message carries, media type and content. */
  function Entities(email: OutgoingEmail): (entities: seq<Entity>)
  {
    if IsMultipart(email) then [Entity("text/plain", email.text.value), Entity("text/html", email.html.value)]
    else [Entity(SingleType(email), SingleBody(email))]
  }

  lemma AllFieldsWellFormed(email: OutgoingEmail, date: string, localPart: string, token: string)
    requires Refusal(email).None? && Generated(date, localPart, token)
    ensures WellFormed(AllFields(email, date, localPart, token))
  {
    hide EnvelopeFields, MultipartField, EntityFields, NoCrlf, IsName, Refusal;
    EnvelopeWellFormed(email, date, localPart);
    MultipartFieldRead(token);
    MediaTypes();
    EntityFieldsWellFormed(SingleType(email));
  }

  lemma MediaTypes()
    ensures IsMediaType("text/plain") && IsMediaType("text/html")
    ensures ReadBoundary("text/plain; charset=utf-8").None? && ReadBoundary("text/html; charset=utf-8").None?
  {
    assert "text/plain; charset=utf-8"[0] == 't' && "text/html; charset=utf-8"[0] == 't' && MULTIPART[0] == 'm';
  }

  lemma SplitMessage(email: OutgoingEmail, date: string, localPart: string, token: string)
    requires Refusal(email).None? && Generated(date, localPart, token)
    ensures ParseHead(Split(Terminated(MessageLines(email, date, localPart, token))))
         == Some((AllFields(email, date, localPart, token), ContentLines(email, token)))
  {
    hide AllFields, ContentLines, ParseHead, Split, Terminated, Refusal, HexToken;
    var fields := AllFields(email, date, localPart, token);
    var content := ContentLines(email, token);
    AllFieldsWellFormed(email, date, localPart, token);
    RenderedLines(fields);
    ContentLinesNoCrlf(email, token);
    assert AllNoCrlf(MessageLines(email, date, localPart, token));
    SplitTerminated(MessageLines(email, date, localPart, token));
    ParseRenderedHead(fields, content);
  }

  /**
   * Reading a built message recovers every header field in order and exactly the one or
   * two bodies, for all header values without CR or LF and all texts.
   */
  lemma ReadBuilt(email: OutgoingEmail, date: string, localPart: string, token: string)
    requires Refusal(email).None? && Generated(date, localPart, token)
    ensures Read(Terminated(MessageLines(email, date, localPart, token)))
         == Some(ReadMessage(AllFields(email, date, localPart, token), Entities(email)))
  {
    var envelope := EnvelopeFields(email, date, localPart);
    SplitMessage(email, date, localPart, token);
    EnvelopeWellFormed(email, date, localPart);
    hide EnvelopeFields, ParseHead, Split, Terminated, MessageLines, EntityFields, ReadEntity, ReadMultipart,
      ReadBoundary, Refusal, BodyLines;
    if IsMultipart(email) {
      var field := MultipartField(token);
      LookupSkips(envelope, [field], "Content-Type");
      MultipartFieldRead(token);
      ReadWrittenMultipart(email, token);
    } else {
      MediaTypes();
      ReadWrittenEntity(envelope, SingleType(email), SingleBody(email));
    }
  }

  // ---- back to the email -----------------------------------------------------------

  function FindEntity(entities: seq<Entity>, mediaType: string): (content: Option<string>)
  {
    if entities == [] then None
    else if entities[0].mediaType == mediaType then Some(entities[0].content)
    else FindEntity(entities[1..], mediaType)
  }

  /** The email a receiver reconstructs from a raw message; how it reads encoded-words is a parameter. */
  function Recover(read: WordReader, raw: string): (email: Option<OutgoingEmail>)
  {
    var message := Read(raw);
    if message.None? then None
    else
      var fields := message.value.fields;
      var from, to, subject := Lookup(fields, "From"), Lookup(fields, "To"), Lookup(fields, "Subject");
      if from.None? || to.None? || subject.None? then None
      else
        Some(OutgoingEmail(from.value, to.value, DecodeSubject(read, subject.value),
                           FindEntity(message.value.entities, "text/plain"),
                           FindEntity(message.value.entities, "text/html"),
                           Lookup(fields, "Reply-To")))
  }

  /** What arrives: the email as sent, an absent body standing as an empty plain text. */
  function Delivered(read: WordReader, email: OutgoingEmail): (d: OutgoingEmail)
  {
    email.(subject := DecodeSubject(read, EncodeSubject(email.subject)),
           text := if email.text.None? && email.html.None? then Some("") else email.text)
  }

  lemma LookupEnvelope(email: OutgoingEmail, date: string, localPart: string, token: string)
    ensures var fields := AllFields(email, date, localPart, token);
            && Lookup(fields, "From") == Some(email.from)
            && Lookup(fields, "To") == Some(email.to)
            && Lookup(fields, "Subject") == Some(EncodeSubject(email.subject))
            && Lookup(fields, "Reply-To") == email.replyTo
  {
    hide EncodeSubject, MessageId, Lookup, MultipartField, EntityFields;
    var reply := if email.replyTo.Some? then [Field("Reply-To", email.replyTo.value)] else [];
    var last := [Field("Date", date), Field("Message-ID", MessageId(localPart)), Field("MIME-Version", "1.0")];
    var content := if IsMultipart(email) then [MultipartField(token)] else EntityFields(SingleType(email));
    ContentNames(email, token);
    NoReplyTo(last, content);
    LookupLayout(Field("From", email.from), Field("To", email.to), reply,
                 Field("Subject", EncodeSubject(email.subject)), last + content,
                 AllFields(email, date, localPart, token));
  }

  lemma NoReplyTo(last: seq<Field>, content: seq<Field>)
    requires |last| == 3 && last[0].name == "Date" && last[1].name == "Message-ID" && last[2].name == "MIME-Version"
    requires forall f :: f in content ==> f.name == "Content-Type" || f.name == "Content-Transfer-Encoding"
    ensures forall i :: 0 <= i < |last + content| ==> (last + content)[i].name != "Reply-To"
  {
    forall i | 0 <= i < |last + content|
      ensures (last + content)[i].name != "Reply-To"
    {
      if i >= |last| {
        assert (last + content)[i] in content;
      }
    }
  }

  lemma LookupLayout(from: Field, to: Field, reply: seq<Field>, subject: Field, rest: seq<Field>, fields: seq<Field>)
    requires from.name == "From" && to.name == "To" && subject.name == "Subject"
    requires |reply| <= 1 && (reply != [] ==> reply[0].name == "Reply-To")
    requires forall i :: 0 <= i < |rest| ==> rest[i].name != "Reply-To"
    requires fields == [from, to] + reply + ([subject] + rest)
    ensures Lookup(fields, "From") == Some(from.value)
    ensures Lookup(fields, "To") == Some(to.value)
    ensures Lookup(fields, "Subject") == Some(subject.value)
    ensures Lookup(fields, "Reply-To") == if reply == [] then None else Some(reply[0].value)
  {
    hide Lookup;
    LookupAt([], from, [to] + reply + ([subject] + rest), fields);
    LookupAt([from], to, reply + ([subject] + rest), fields);
    LookupAt([from, to] + reply, subject, rest, fields);
    if reply != [] {
      LookupAt([from, to], reply[0], [subject] + rest, fields);
    } else {
      LookupNone(fields, "Reply-To");
    }
  }

  /** The remaining headers of a built message, as a receiver finds them. */
  lemma HeadersAre(email: OutgoingEmail, date: string, localPart: string, token: string)
    ensures var fields := AllFields(email, date, localPart, token);
            && Lookup(fields, "Date") == Some(date)
            && Lookup(fields, "Message-ID") == Some("<" + localPart + "@rajahinta.fi>")
            && Lookup(fields, "MIME-Version") == Some("1.0")
            && (if email.text.Some? && email.html.Some? then
                  Lookup(fields, "Content-Type") == Some("multipart/alternative; boundary=\"=_rh_" + token + "\"")
                else
                  && Lookup(fields, "Content-Transfer-Encoding") == Some("base64")
                  && Lookup(fields, "Content-Type")
                     == Some(if email.html.Some? then "text/html; charset=utf-8" else "text/plain; charset=utf-8"))
  {
    var day, version := Field("Date", date), Field("MIME-Version", "1.0");
    var id := Field("Message-ID", MessageId(localPart));
    var content := if IsMultipart(email) then [MultipartField(token)] else EntityFields(SingleType(email));
    assert MessageId(localPart) == "<" + localPart + "@rajahinta.fi>";
    ContentIs(email, token);
    EarlyHead(email);
    Layout(email, date, localPart, token);
    hide EarlyFields, AllFields, MessageId, Lookup, MultipartField, EntityFields, EarlyName, SingleType;
    LateHeaders(EarlyFields(email), day, id, version, content, AllFields(email, date, localPart, token));
  }

  function EarlyFields(email: OutgoingEmail): (fields: seq<Field>)
  {
    [Field("From", email.from), Field("To", email.to)]
    + (if email.replyTo.Some? then [Field("Reply-To", email.replyTo.value)] else [])
    + [Field("Subject", EncodeSubject(email.subject))]
  }

  lemma Layout(email: OutgoingEmail, date: string, localPart: string, token: string)
    ensures AllFields(email, date, localPart, token)
         == EarlyFields(email)
            + ([Field("Date", date), Field("Message-ID", MessageId(localPart)), Field("MIME-Version", "1.0")]
               + if IsMultipart(email) then [MultipartField(token)] else EntityFields(SingleType(email)))
  {
    hide EncodeSubject, MessageId, MultipartField, EntityFields, SingleType;
  }

  lemma EarlyHead(email: OutgoingEmail)
    ensures forall i :: 0 <= i < |EarlyFields(email)| ==> EarlyName(EarlyFields(email)[i].name)
  {
    hide EncodeSubject;
  }

  lemma LateHeaders(head: seq<Field>, day: Field, id: Field, version: Field, content: seq<Field>, fields: seq<Field>)
    requires forall i :: 0 <= i < |head| ==> EarlyName(head[i].name)
    requires day.name == "Date" && id.name == "Message-ID" && version.name == "MIME-Version"
    requires 1 <= |content| <= 2 && content[0].name == "Content-Type"
    requires |content| == 2 ==> content[1].name == "Content-Transfer-Encoding"
    requires fields == head + ([day, id, version] + content)
    ensures Lookup(fields, "Date") == Some(day.value) && Lookup(fields, "Message-ID") == Some(id.value)
    ensures Lookup(fields, "MIME-Version") == Some(version.value)
    ensures Lookup(fields, "Content-Type") == Some(content[0].value)
    ensures |content| == 2 ==> Lookup(fields, "Content-Transfer-Encoding") == Some(content[1].value)
  {
    EarlyNames();
    hide EarlyName, Lookup;
    assert fields == head + [day] + ([id, version] + content);
    LookupAt(head, day, [id, version] + content, fields);
    assert fields == (head + [day]) + [id] + ([version] + content);
    LookupAt(head + [day], id, [version] + content, fields);
    assert fields == (head + [day, id]) + [version] + content;
    LookupAt(head + [day, id], version, content, fields);
    assert fields == (head + [day, id, version]) + [content[0]] + content[1..];
    LookupAt(head + [day, id, version], content[0], content[1..], fields);
    if |content| == 2 {
      assert fields == (head + [day, id, version, content[0]]) + [content[1]] + [];
      LookupAt(head + [day, id, version, content[0]], content[1], [], fields);
    }
  }

  predicate EarlyName(name: string)
  {
    name == "From" || name == "To" || name == "Reply-To" || name == "Subject"
  }

  lemma EarlyNames()
    ensures forall name :: EarlyName(name) ==>
              && name != "Date" && name != "Message-ID" && name != "MIME-Version"
              && name != "Content-Type" && name != "Content-Transfer-Encoding"
    ensures "Date" != "Message-ID" && "Date" != "MIME-Version" && "Date" != "Content-Type"
            && "Date" != "Content-Transfer-Encoding" && "Message-ID" != "MIME-Version"
            && "Message-ID" != "Content-Type" && "Message-ID" != "Content-Transfer-Encoding"
            && "MIME-Version" != "Content-Type" && "MIME-Version" != "Content-Transfer-Encoding"
            && "Content-Type" != "Content-Transfer-Encoding"
  {
  }

  lemma ContentIs(email: OutgoingEmail, token: string)
    ensures MultipartField(token)
         == Field("Content-Type", "multipart/alternative; boundary=\"=_rh_" + token + "\"")
    ensures EntityFields(SingleType(email))
         == [Field("Content-Type",
                   if email.html.Some? then "text/html; charset=utf-8" else "text/plain; charset=utf-8"),
             Field("Content-Transfer-Encoding", "base64")]
  {
    var before := "multipart/alternative; boundary=\"";
    assert before + "=_rh_" == "multipart/alternative; boundary=\"=_rh_";
    assert before + ("=_rh_" + token) == before + "=_rh_" + token;
    assert Boundary(token) == "=_rh_" + token;
    assert MultipartField(token).value == before + ("=_rh_" + token) + "\"";
    TypeText(email);
  }

  lemma TypeText(email: OutgoingEmail)
    ensures SingleType(email) + "; charset=utf-8"
         == if email.html.Some? then "text/html; charset=utf-8" else "text/plain; charset=utf-8"
  {
    assert "text/html" + "; charset=utf-8" == "text/html; charset=utf-8";
    assert "text/plain" + "; charset=utf-8" == "text/plain; charset=utf-8";
  }

  lemma ContentNames(email: OutgoingEmail, token: string)
    ensures MultipartField(token).name == "Content-Type"
    ensures forall f :: f in EntityFields(SingleType(email)) ==>
              f.name == "Content-Type" || f.name == "Content-Transfer-Encoding"
  {
  }

  lemma LookupAt(before: seq<Field>, f: Field, after: seq<Field>, fields: seq<Field>)
    requires fields == before + [f] + after
    requires forall i :: 0 <= i < |before| ==> before[i].name != f.name
    ensures Lookup(fields, f.name) == Some(f.value)
  {
    LookupSkips(before, [f] + after, f.name);
    assert fields == before + ([f] + after);
  }

  lemma {:induction false} LookupNone(fields: seq<Field>, name: string)
    requires forall i :: 0 <= i < |fields| ==> fields[i].name != name
    ensures Lookup(fields, name) == None
  {
    if fields != [] {
      LookupNone(fields[1..], name);
    }
  }

  lemma FindEntities(read: WordReader, email: OutgoingEmail)
    ensures FindEntity(Entities(email), "text/plain") == Delivered(read, email).text
    ensures FindEntity(Entities(email), "text/html") == Delivered(read, email).html
  {
    assert "text/plain"[5] != "text/html"[5];
    if IsMultipart(email) {
      assert Entities(email)[1..] == [Entity("text/html", email.html.value)];
    } else {
      assert Entities(email)[1..] == [];
    }
  }

  lemma RecoverDelivered(read: WordReader, email: OutgoingEmail, date: string, localPart: string, token: string)
    requires Refusal(email).None? && Generated(date, localPart, token)
    ensures Recover(read, Terminated(MessageLines(email, date, localPart, token))) == Some(Delivered(read, email))
  {
    hide Read, AllFields, MessageLines, Terminated, Refusal, Entities, EncodeSubject, DecodeSubject;
    ReadBuilt(email, date, localPart, token);
    LookupEnvelope(email, date, localPart, token);
    FindEntities(read, email);
  }

  /**
   * The round trip, with its exact condition: whatever words the receiver knows, it reconstructs the
   * very email that was sent iff that has a body and its subject survives.
   */
  lemma RoundTrip(read: WordReader, email: OutgoingEmail, date: string, localPart: string, token: string)
    requires Shortens(read)
    requires Refusal(email).None? && Generated(date, localPart, token)
    ensures Recover(read, Terminated(MessageLines(email, date, localPart, token))) == Some(email)
       <==> (email.text.Some? || email.html.Some?) && Survives(read, email.subject)
  {
    hide Recover, MessageLines, Terminated, Refusal, Generated, EncodeSubject, DecodeSubject, Survives, Shortens;
    RecoverDelivered(read, email, date, localPart, token);
    SubjectRoundTrip(read, email.subject);
  }

  /** Both forms of a built message carry one email, under the very condition of the round trip. */
  lemma FormsAgree(read: WordReader, email: OutgoingEmail, built: BuiltEmail, localPart: string, token: string)
    requires Shortens(read)
    requires Refusal(email).None? && Generated(built.date, localPart, token)
    requires built.mime == Terminated(MessageLines(email, built.date, localPart, token))
    requires ReadBinding(built.binding) == email
    ensures Recover(read, built.mime) == Some(ReadBinding(built.binding))
       <==> (built.binding.text.Some? || built.binding.html.Some?) && Survives(read, built.binding.subject)
  {
    hide Recover, MessageLines, Terminated, Refusal, Generated, Survives, Shortens;
    RoundTrip(read, email, built.date, localPart, token);
  }
}
