/**
 * A receiver's reader of encoded-words after RFC 2047 section 2: any charset and either encoding,
 * their names in any case, with the language tag of RFC 2231 section 5.
 */
module Rfc2047 {
  import opened Wrappers
  import opened Utf8
  import opened EncodedWord
  import Base64
  import Wire

  /**
   * The charsets a receiver knows, by their upper-case names, and whether it is lenient: a strict
   * one takes only words of at most 75 characters with some encoded text in them.
   */
  datatype Receiver = Receiver(decode: (string, seq<byte>) -> Option<string>, lenient: bool)

  /** UTF-8 is known, and no charset makes more characters than there are bytes. */
  ghost predicate CharsetLaws(r: Receiver)
  {
    (forall bytes :: r.decode("UTF-8", bytes) == Utf8.Decode(bytes))
    && forall charset, bytes :: r.decode(charset, bytes).Some? ==> |r.decode(charset, bytes).value| <= |bytes|
  }

  function Upper(c: char): (u: char) { if 'a' <= c <= 'z' then c - 'a' + 'A' else c }

  function UpperAll(s: string): (u: string)
  {
    seq(|s|, i requires 0 <= i < |s| => Upper(s[i]))
  }

  /** `( ) < > @ , ; : " / [ ] ? . =` */
  predicate IsEspecial(c: char)
  {
    c == '(' || c == ')' || c == '<' || c == '>' || c == '@' || c == ',' || c == ';' || c == ':' || c == '"'
    || c == '/' || c == '[' || c == ']' || c == '?' || c == '.' || c == '='
  }

  /** A charset name: printable but for the especials. */
  predicate IsToken(s: string)
  {
    s != "" && forall i :: 0 <= i < |s| ==> '!' <= s[i] <= '~' && !IsEspecial(s[i])
  }

  predicate IsEncodedText(s: string)
  {
    forall i :: 0 <= i < |s| ==> '!' <= s[i] <= '~' && s[i] != '?'
  }

  function HexValue(c: char): (v: Option<int>)
    ensures v.Some? ==> 0 <= v.value < 16
  {
    if '0' <= c <= '9' then Some(c as int - '0' as int)
    else if 'A' <= Upper(c) <= 'F' then Some(Upper(c) as int - 'A' as int + 10)
    else None
  }

  /** The Q encoding: `_` is a space, `=XX` a byte, any other character its own code. */
  function DecodeQ(text: string): (bytes: Option<seq<byte>>)
    requires IsEncodedText(text)
    ensures bytes.Some? ==> |bytes.value| <= |text|
  {
    if text == "" then Some([])
    else if text[0] == '=' then
      if |text| < 3 || HexValue(text[1]).None? || HexValue(text[2]).None? then None
      else
        var rest := DecodeQ(text[3..]);
        if rest.None? then None else Some([HexValue(text[1]).value * 16 + HexValue(text[2]).value] + rest.value)
    else
      var rest := DecodeQ(text[1..]);
      if rest.None? then None else Some([if text[0] == '_' then 32 else text[0] as int] + rest.value)
  }

  /** `=?charset?encoding?encoded-text?=`, cut at its question marks. */
  datatype Parts = Parts(charset: string, encoding: char, text: string)

  function Cut(token: string): (parts: Option<Parts>)
    ensures parts.Some? ==> |token| >= 2 && token[0] == '=' && token[1] == '?'
    ensures parts.Some? ==> |parts.value.text| < |token| && IsEncodedText(parts.value.text)
  {
    if |token| < 4 || !("=?" <= token) || token[|token| - 2..] != "?=" then None
    else
      var inner := token[2..|token| - 2];
      var q := Wire.IndexOf(inner, '?');
      if !IsToken(inner[..q]) || |inner| < q + 3 || inner[q + 2] != '?' || !IsEncodedText(inner[q + 3..]) then None
      else
        var charset := inner[..q];
        Some(Parts(UpperAll(charset[..Wire.IndexOf(charset, '*')]), Upper(inner[q + 1]), inner[q + 3..]))
  }

  function DecodeParts(r: Receiver, parts: Parts): (text: Option<string>)
    requires IsEncodedText(parts.text)
  {
    var bytes :=
      if parts.encoding == 'B' then Base64.Decode(parts.text)
      else if parts.encoding == 'Q' then DecodeQ(parts.text)
      else None;
    if bytes.None? then None else r.decode(parts.charset, bytes.value)
  }

  function ReadWord(r: Receiver, token: string): (text: Option<string>)
  {
    var parts := Cut(token);
    if parts.None? || !(r.lenient || (parts.value.text != "" && |token| <= 75)) then None
    else DecodeParts(r, parts.value)
  }

  function ReaderOf(r: Receiver): (read: WordReader) { token => ReadWord(r, token) }

  // ---- it is a receiver the general theorem covers ---------------------------------

  lemma {:induction false} DecodedBytesFit(text: string)
    requires Base64.Decode(text).Some?
    ensures |Base64.Decode(text).value| <= |text|
  {
    var bytes := Base64.Decode(text).value;
    Base64.DecodeIffEncode(bytes, text);
    Base64.EncodedAlphabet(bytes);
  }

  lemma ReaderShortens(r: Receiver)
    requires CharsetLaws(r)
    ensures Shortens(ReaderOf(r))
  {
    hide Cut, Base64.Decode, DecodeQ, CharsetLaws;
    forall token | ReadWord(r, token).Some?
      ensures |ReadWord(r, token).value| < |token|
    {
      PartsFit(r, Cut(token).value);
    }
  }

  lemma PartsFit(r: Receiver, parts: Parts)
    requires CharsetLaws(r) && IsEncodedText(parts.text) && DecodeParts(r, parts).Some?
    ensures |DecodeParts(r, parts).value| <= |parts.text|
  {
    hide Base64.Decode, DecodeQ;
    if parts.encoding == 'B' {
      DecodedBytesFit(parts.text);
    }
  }

  /** An encoded-word as section 2 writes it. */
  function Written(charset: string, encoding: char, text: string): (token: string)
  {
    "=?" + charset + "?" + [encoding] + "?" + text + "?="
  }

  lemma Sandwich(inner: string)
    ensures var token := "=?" + inner + "?=";
            && |token| == |inner| + 4 && "=?" <= token && token[|token| - 2..] == "?="
            && token[2..|token| - 2] == inner
  {
  }

  lemma InnerParts(charset: string, encoding: char, text: string)
    requires IsToken(charset)
    ensures var inner := charset + "?" + [encoding] + "?" + text;
            && |inner| == |charset| + 3 + |text| && Wire.IndexOf(inner, '?') == |charset|
            && inner[..|charset|] == charset && inner[|charset| + 1] == encoding
            && inner[|charset| + 2] == '?' && inner[|charset| + 3..] == text
  {
    var inner := charset + "?" + [encoding] + "?" + text;
    assert IsEspecial('?');
    assert inner[|charset|] == '?' && forall i :: 0 <= i < |charset| ==> inner[i] == charset[i] != '?';
  }

  lemma CutsWritten(charset: string, encoding: char, text: string)
    requires IsToken(charset) && IsEncodedText(text)
    ensures Cut(Written(charset, encoding, text))
         == Some(Parts(UpperAll(charset[..Wire.IndexOf(charset, '*')]), Upper(encoding), text))
  {
    var inner := charset + "?" + [encoding] + "?" + text;
    assert Written(charset, encoding, text) == "=?" + inner + "?=";
    hide Upper, UpperAll, IsEncodedText, IsToken, Written, Wire.IndexOf;
    Sandwich(inner);
    InnerParts(charset, encoding, text);
  }

  lemma Utf8Name(name: string)
    requires name == "UTF-8" || name == "utf-8"
    ensures IsToken(name) && Wire.IndexOf(name, '*') == 5 && UpperAll(name[..5]) == "UTF-8"
  {
    assert |name| == 5 && forall i :: 0 <= i < 5 ==> name[i] != '*';
    assert Upper(name[0]) == 'U' && Upper(name[1]) == 'T' && Upper(name[2]) == 'F' && Upper(name[3]) == '-';
    assert Upper(name[4]) == '8';
  }

  lemma CutsBuiltWord(text: string)
    ensures Cut(Word(text)) == Some(Parts("UTF-8", 'B', Base64.Encode(Utf8.Encode(text))))
  {
    var code := Base64.Encode(Utf8.Encode(text));
    Base64.EncodedAlphabet(Utf8.Encode(text));
    assert IsEncodedText(code);
    WordIsWritten(text);
    hide Base64.Encode, Utf8.Encode, Cut, IsEncodedText, Upper, UpperAll, Word, Written;
    Utf8Name("UTF-8");
    UpperOfB();
    CutsWritten("UTF-8", 'B', code);
  }

  lemma WordIsWritten(text: string)
    ensures Word(text) == Written("UTF-8", 'B', Base64.Encode(Utf8.Encode(text)))
  {
    assert PREFIX == "=?" + "UTF-8" + "?" + ['B'] + "?";
  }

  lemma UpperOfB()
    ensures Upper('B') == 'B' && Upper('b') == 'B' && Upper('Q') == 'Q' && Upper('q') == 'Q'
  {
  }

  /** A lenient receiver reads every word the builder makes; a strict one those of 1 to 45 bytes of text. */
  lemma ReadsBuiltWord(r: Receiver, text: string)
    requires CharsetLaws(r)
    ensures ReadWord(r, Word(text))
         == if r.lenient || 1 <= |Utf8.Encode(text)| <= 45 then Some(text) else None
  {
    var bytes := Utf8.Encode(text);
    var code := Base64.Encode(bytes);
    CutsBuiltWord(text);
    Base64.EncodedAlphabet(bytes);
    Base64.DecodeEncode(bytes);
    Utf8.DecodeEncode(text);
    hide Cut, Base64.Encode, Base64.Decode, Utf8.Encode, Utf8.Decode;
    assert |Word(text)| == 12 + (|bytes| + 2) / 3 * 4;
    assert code != "" <==> |bytes| >= 1;
  }

  /** Which subjects arrive at a receiver that follows the standard. */
  lemma SurvivesIff(r: Receiver, subject: string)
    requires CharsetLaws(r)
    ensures Survives(ReaderOf(r), subject)
       <==> if PassesThrough(subject) then !HasWord(ReaderOf(r), subject)
            else r.lenient || 1 <= |Utf8.Encode(subject)| <= 45
    ensures DecodeSubject(ReaderOf(r), EncodeSubject(subject)) == subject <==> Survives(ReaderOf(r), subject)
  {
    hide Cut, CharsetLaws, PassesThrough, HasWord, EncodeSubject, DecodeSubject, Word, Utf8.Encode, Survives, ReadWord;
    ReaderShortens(r);
    SubjectRoundTrip(ReaderOf(r), subject);
    ReadsBuiltWord(r, subject);
    SurvivesMeans(r, subject);
  }

  lemma SurvivesMeans(r: Receiver, subject: string)
    ensures Survives(ReaderOf(r), subject)
       <==> if PassesThrough(subject) then !HasWord(ReaderOf(r), subject)
            else ReadWord(r, Word(subject)) == Some(subject)
  {
  }

  /** In particular every subject without the `=?` mark comes back from a lenient receiver. */
  lemma UnmarkedSubjectRoundTrip(r: Receiver, subject: string)
    requires CharsetLaws(r) && !ContainsMark(subject)
    ensures r.lenient || PassesThrough(subject) ==> DecodeSubject(ReaderOf(r), EncodeSubject(subject)) == subject
  {
    hide CharsetLaws, PassesThrough, HasWord, EncodeSubject, DecodeSubject, ContainsMark;
    SurvivesIff(r, subject);
    UnmarkedHasNoWord(ReaderOf(r), subject);
  }

  // ---- subjects that are lost ------------------------------------------------------

  /** A written word in some charset: printable, short, and of a text the receiver can read. */
  predicate IsLookalike(r: Receiver, charset: string, encoding: char, text: string)
  {
    && IsToken(charset) && IsEncodedText(text) && text != "" && ' ' < encoding <= '~'
    && |Written(charset, encoding, text)| <= 75
    && DecodeParts(r, Parts(UpperAll(charset[..Wire.IndexOf(charset, '*')]), Upper(encoding), text)).Some?
  }

  /** As a subject such a word is sent as it stands, and what arrives is its text. */
  lemma LookalikeIsLost(r: Receiver, charset: string, encoding: char, text: string)
    requires CharsetLaws(r) && IsLookalike(r, charset, encoding, text)
    ensures var subject := Written(charset, encoding, text);
            var name := UpperAll(charset[..Wire.IndexOf(charset, '*')]);
            && EncodeSubject(subject) == subject
            && Some(DecodeSubject(ReaderOf(r), subject)) == DecodeParts(r, Parts(name, Upper(encoding), text))
            && DecodeSubject(ReaderOf(r), subject) != subject
  {
    var subject := Written(charset, encoding, text);
    CutsWritten(charset, encoding, text);
    WrittenHasNoSpace(charset, encoding, text);
    ReaderShortens(r);
    hide Cut, DecodeParts, Upper, UpperAll, CharsetLaws, Written, IsToken, IsEncodedText;
    assert Wire.IndexOf(subject, ' ') == |subject|;
    assert Tokens(subject) == [subject];
  }

  lemma WrittenHasNoSpace(charset: string, encoding: char, text: string)
    requires IsToken(charset) && IsEncodedText(text) && ' ' < encoding <= '~'
    ensures var token := Written(charset, encoding, text); forall i :: 0 <= i < |token| ==> '!' <= token[i] <= '~'
  {
    hide IsEspecial;
  }

  /** For instance, in any case and either encoding, the words for "A": every such receiver reads them so. */
  lemma WordsForA(r: Receiver, charset: string, encoding: char, text: string)
    requires CharsetLaws(r) && (charset == "UTF-8" || charset == "utf-8")
    requires if Upper(encoding) == 'B' then text == "QQ==" else Upper(encoding) == 'Q' && (text == "A" || text == "=41")
    ensures EncodeSubject(Written(charset, encoding, text)) == Written(charset, encoding, text)
    ensures DecodeSubject(ReaderOf(r), Written(charset, encoding, text)) == "A"
  {
    Utf8Name(charset);
    BytesOfA();
    Utf8OfA();
    assert |text| <= 4 && IsEncodedText(text);
    assert |Written(charset, encoding, text)| <= 75;
    assert ' ' < encoding <= '~';
    hide Wire.IndexOf, Upper, Base64.Decode, DecodeQ, Utf8.Decode, UpperAll, IsToken, IsEncodedText;
    hide DecodeSubject, EncodeSubject, Written;
    assert DecodeParts(r, Parts("UTF-8", Upper(encoding), text)) == Some("A");
    LookalikeIsLost(r, charset, encoding, text);
  }

  lemma BytesOfA()
    ensures Base64.Decode("QQ==") == Some([65]) && DecodeQ("A") == Some([65]) && DecodeQ("=41") == Some([65])
  {
    assert Base64.Value('Q') == 16;
    assert Base64.Byte0(16, 16) == 65;
    var none: seq<byte> := [];
    assert "A"[1..] == "" && "=41"[3..] == "" && DecodeQ("") == Some(none);
    assert [65] + none == [65];
    assert HexValue('4') == Some(4) && HexValue('1') == Some(1);
  }

  lemma Utf8OfA()
    ensures Utf8.Decode([65]) == Some("A")
  {
    var bytes: seq<byte> := [65];
    assert Utf8.DecodeChar(bytes) == Some(('A', 1));
    assert bytes[1..] == [] && Utf8.Decode(bytes[1..]) == Some("");
    assert ['A'] + "" == "A";
  }

  // ---- the laws can be met ---------------------------------------------------------

  function AsciiText(bytes: seq<byte>, limit: nat): (text: Option<string>)
    requires limit <= 256
    ensures text.Some? ==> |text.value| == |bytes|
  {
    if bytes == [] then Some("")
    else
      var rest := AsciiText(bytes[1..], limit);
      if rest.None? || bytes[0] >= limit then None else Some([bytes[0] as char] + rest.value)
  }

  function CommonDecode(charset: string, bytes: seq<byte>): (text: Option<string>)
  {
    if charset == "UTF-8" then Utf8.Decode(bytes)
    else if charset == "US-ASCII" then AsciiText(bytes, 128)
    else if charset == "ISO-8859-1" then AsciiText(bytes, 256)
    else None
  }

  /** A receiver that knows UTF-8, US-ASCII and ISO-8859-1. */
  function CommonReceiver(lenient: bool): (r: Receiver) { Receiver(CommonDecode, lenient) }

  lemma {:induction false} DecodedCharsFit(bytes: seq<byte>)
    requires Utf8.Decode(bytes).Some?
    ensures |Utf8.Decode(bytes).value| <= |bytes|
    decreases |bytes|
  {
    if bytes != [] {
      DecodedCharsFit(bytes[Utf8.DecodeChar(bytes).value.1..]);
    }
  }

  lemma CommonReceiverIsLawful(lenient: bool)
    ensures CharsetLaws(CommonReceiver(lenient))
  {
    var r := CommonReceiver(lenient);
    forall charset, bytes | r.decode(charset, bytes).Some?
      ensures |r.decode(charset, bytes).value| <= |bytes|
    {
      assert r.decode(charset, bytes) == CommonDecode(charset, bytes);
      if charset == "UTF-8" {
        DecodedCharsFit(bytes);
      }
    }
  }
}
