/** Base64 with padding: RFC 2045 section 6.8, the alphabet `btoa` writes. */
module Base64 {
  import opened Wrappers
  import opened Utf8

  type sextet = v: int | 0 <= v < 64

  /** Table 1 of RFC 2045 section 6.8. */
  function Letter(v: sextet): (c: char)
    ensures IsLetter(c)
  {
    if v < 26 then 'A' + v as char
    else if v < 52 then 'a' + (v - 26) as char
    else if v < 62 then '0' + (v - 52) as char
    else if v == 62 then '+'
    else '/'
  }

  predicate IsLetter(c: char)
  {
    'A' <= c <= 'Z' || 'a' <= c <= 'z' || '0' <= c <= '9' || c == '+' || c == '/'
  }

  function Value(c: char): (v: sextet)
    requires IsLetter(c)
  {
    if 'A' <= c <= 'Z' then c as int - 'A' as int
    else if 'a' <= c <= 'z' then c as int - 'a' as int + 26
    else if '0' <= c <= '9' then c as int - '0' as int + 52
    else if c == '+' then 62
    else 63
  }

  lemma ValueLetter(v: sextet)
    ensures Value(Letter(v)) == v
  {
  }

  lemma LetterValue(c: char)
    requires IsLetter(c)
    ensures Letter(Value(c)) == c
  {
  }

  // The four sextets of three bytes, and the three bytes of four sextets.
  function Sextet0(a: byte): sextet { a / 4 }
  function Sextet1(a: byte, b: byte): sextet { var high: int := a % 4; high * 16 + b / 16 }
  function Sextet2(b: byte, c: byte): sextet { var high: int := b % 16; high * 4 + c / 64 }
  function Sextet3(c: byte): sextet { c % 64 }
  function Byte0(v0: sextet, v1: sextet): byte { var high: int := v0; high * 4 + v1 / 16 }
  function Byte1(v1: sextet, v2: sextet): byte { var high: int := v1 % 16; high * 16 + v2 / 4 }
  function Byte2(v2: sextet, v3: sextet): byte { var high: int := v2 % 4; high * 64 + v3 }

  lemma BytesOfSextets(a: byte, b: byte, c: byte)
    ensures Byte0(Sextet0(a), Sextet1(a, b)) == a
    ensures Byte1(Sextet1(a, b), Sextet2(b, c)) == b
    ensures Byte2(Sextet2(b, c), Sextet3(c)) == c
    ensures Sextet1(a, 0) % 16 == 0 && Sextet2(b, 0) % 4 == 0
  {
  }

  lemma SextetsOfBytes(v0: sextet, v1: sextet, v2: sextet, v3: sextet)
    ensures Sextet0(Byte0(v0, v1)) == v0
    ensures Sextet1(Byte0(v0, v1), Byte1(v1, v2)) == v1
    ensures Sextet2(Byte1(v1, v2), Byte2(v2, v3)) == v2
    ensures Sextet3(Byte2(v2, v3)) == v3
    ensures v1 % 16 == 0 ==> Sextet1(Byte0(v0, v1), 0) == v1
    ensures v2 % 4 == 0 ==> Sextet2(Byte1(v1, v2), 0) == v2
  {
  }

  /** `btoa`: three bytes to four letters, the last group padded with `=`. */
  function Encode(bytes: seq<byte>): (text: string)
  {
    if bytes == [] then []
    else if |bytes| == 1 then
      [Letter(Sextet0(bytes[0])), Letter(Sextet1(bytes[0], 0)), '=', '=']
    else if |bytes| == 2 then
      [Letter(Sextet0(bytes[0])), Letter(Sextet1(bytes[0], bytes[1])), Letter(Sextet2(bytes[1], 0)), '=']
    else
      Quad(bytes[0], bytes[1], bytes[2]) + Encode(bytes[3..])
  }

  function Quad(a: byte, b: byte, c: byte): (text: string)
    ensures |text| == 4
  {
    [Letter(Sextet0(a)), Letter(Sextet1(a, b)), Letter(Sextet2(b, c)), Letter(Sextet3(c))]
  }

  /** The strict decoder: full quads, padding only at the very end and only over zero bits. */
  function Decode(text: string): (bytes: Option<seq<byte>>)
  {
    if text == [] then Some([])
    else if |text| < 4 || !IsLetter(text[0]) || !IsLetter(text[1]) then None
    else
      var v0, v1 := Value(text[0]), Value(text[1]);
      if |text| == 4 && text[2] == '=' && text[3] == '=' then
        if v1 % 16 == 0 then Some([Byte0(v0, v1)]) else None
      else if !IsLetter(text[2]) then None
      else
        var v2 := Value(text[2]);
        if |text| == 4 && text[3] == '=' then
          if v2 % 4 == 0 then Some([Byte0(v0, v1), Byte1(v1, v2)]) else None
        else if !IsLetter(text[3]) then None
        else
          var rest := Decode(text[4..]);
          if rest.None? then None
          else Some([Byte0(v0, v1), Byte1(v1, v2), Byte2(v2, Value(text[3]))] + rest.value)
  }

  /** Only letters and the padding sign ever reach the wire. */
  lemma {:induction false} EncodedAlphabet(bytes: seq<byte>)
    ensures forall i :: 0 <= i < |Encode(bytes)| ==> IsLetter(Encode(bytes)[i]) || Encode(bytes)[i] == '='
    ensures bytes != [] ==> Encode(bytes) != [] && IsLetter(Encode(bytes)[0])
    ensures |Encode(bytes)| == (|bytes| + 2) / 3 * 4
  {
    hide Sextet0, Sextet1, Sextet2, Sextet3;
    if |bytes| >= 3 {
      EncodedAlphabet(bytes[3..]);
    }
  }

  lemma {:induction false} DecodeEncode(bytes: seq<byte>)
    ensures Decode(Encode(bytes)) == Some(bytes)
  {
    hide Letter, Value, Sextet0, Sextet1, Sextet2, Sextet3, Byte0, Byte1, Byte2;
    if |bytes| == 1 {
      DecodeOne(bytes[0]);
      assert bytes == [bytes[0]];
    } else if |bytes| == 2 {
      DecodeTwo(bytes[0], bytes[1]);
      assert bytes == [bytes[0], bytes[1]];
    } else if |bytes| >= 3 {
      DecodeEncode(bytes[3..]);
      DecodeQuad(bytes[0], bytes[1], bytes[2], Encode(bytes[3..]), bytes[3..]);
      assert bytes == [bytes[0], bytes[1], bytes[2]] + bytes[3..];
    }
  }

  lemma DecodeOne(a: byte)
    ensures Decode(Encode([a])) == Some([a])
  {
    hide Letter, Value, IsLetter, Sextet0, Sextet1, Byte0, Byte1, Byte2, Quad;
    var text := [Letter(Sextet0(a)), Letter(Sextet1(a, 0)), '=', '='];
    assert Encode([a]) == text;
    BytesOfSextets(a, 0, 0);
    ValueLetter(Sextet0(a));
    ValueLetter(Sextet1(a, 0));
  }

  lemma DecodeTwo(a: byte, b: byte)
    ensures Decode(Encode([a, b])) == Some([a, b])
  {
    hide Letter, Value, Sextet0, Sextet1, Sextet2, Byte0, Byte1;
    BytesOfSextets(a, b, 0);
    ValueLetter(Sextet0(a));
    ValueLetter(Sextet1(a, b));
    ValueLetter(Sextet2(b, 0));
  }

  lemma DecodeQuad(a: byte, b: byte, c: byte, rest: string, tail: seq<byte>)
    requires Decode(rest) == Some(tail)
    ensures Decode(Quad(a, b, c) + rest) == Some([a, b, c] + tail)
  {
    hide Letter, Value, Sextet0, Sextet1, Sextet2, Sextet3, Byte0, Byte1, Byte2;
    var text := Quad(a, b, c) + rest;
    BytesOfSextets(a, b, c);
    ValueLetter(Sextet0(a));
    ValueLetter(Sextet1(a, b));
    ValueLetter(Sextet2(b, c));
    ValueLetter(Sextet3(c));
    assert text[4..] == rest;
  }

  lemma {:induction false} EncodeDecode(text: string)
    requires Decode(text).Some?
    ensures Encode(Decode(text).value) == text
  {
    hide Letter, Value, IsLetter, Sextet0, Sextet1, Sextet2, Sextet3, Byte0, Byte1, Byte2;
    if text != [] {
      var v0, v1 := Value(text[0]), Value(text[1]);
      LetterValue(text[0]);
      LetterValue(text[1]);
      if |text| == 4 && text[2] == '=' && text[3] == '=' {
        SextetsOfBytes(v0, v1, 0, 0);
      } else {
        LetterValue(text[2]);
        if |text| == 4 && text[3] == '=' {
          SextetsOfBytes(v0, v1, Value(text[2]), 0);
        } else {
          LetterValue(text[3]);
          EncodeDecode(text[4..]);
          EncodeQuad(text, Decode(text[4..]).value);
        }
      }
    }
  }

  lemma EncodeQuad(text: string, tail: seq<byte>)
    requires |text| >= 4 && forall i :: 0 <= i < 4 ==> IsLetter(text[i])
    requires Encode(tail) == text[4..]
    ensures var v0, v1, v2, v3 := Value(text[0]), Value(text[1]), Value(text[2]), Value(text[3]);
            Encode([Byte0(v0, v1), Byte1(v1, v2), Byte2(v2, v3)] + tail) == text
  {
    var v0, v1, v2, v3 := Value(text[0]), Value(text[1]), Value(text[2]), Value(text[3]);
    var bytes := [Byte0(v0, v1), Byte1(v1, v2), Byte2(v2, v3)] + tail;
    SextetsOfBytes(v0, v1, v2, v3);
    LetterValue(text[0]);
    LetterValue(text[1]);
    LetterValue(text[2]);
    LetterValue(text[3]);
    assert bytes[3..] == tail;
    assert text == text[..4] + text[4..];
  }

  /** Encoding and strict decoding are inverse to each other, on all byte strings and all texts. */
  lemma DecodeIffEncode(bytes: seq<byte>, text: string)
    ensures Decode(text) == Some(bytes) <==> Encode(bytes) == text
  {
    DecodeEncode(bytes);
    if Decode(text).Some? {
      EncodeDecode(text);
    }
  }
}
