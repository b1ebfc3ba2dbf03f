/**
 * UTF-8 as `TextEncoder` and `TextDecoder` apply it. A `char` is a Unicode scalar
 * value, so the unpaired surrogates a JavaScript string may hold do not occur here.
 */
module Utf8 {
  import opened Wrappers

  type byte = b: int | 0 <= b < 256

  /** The one to four bytes of a scalar value. */
  function EncodeChar(c: char): (bytes: seq<byte>)
  {
    var n := c as int;
    if n < 0x80 then [n]
    else if n < 0x800 then [0xC0 + n / 64, 0x80 + n % 64]
    else if n < 0x10000 then [0xE0 + n / 64 / 64, 0x80 + n / 64 % 64, 0x80 + n % 64]
    else [0xF0 + n / 64 / 64 / 64, 0x80 + n / 64 / 64 % 64, 0x80 + n / 64 % 64, 0x80 + n % 64]
  }

  function Encode(text: string): (bytes: seq<byte>)
  {
    if text == [] then [] else EncodeChar(text[0]) + Encode(text[1..])
  }

  predicate IsTail(b: int) { 0x80 <= b < 0xC0 }

  predicate IsScalar(n: int) { 0 <= n < 0xD800 || 0xE000 <= n < 0x11_0000 }

  /** The value carried by a lead byte's payload followed by the six-bit payloads of `tail`. */
  function Payload(lead: int, tail: seq<byte>): (n: int)
  {
    if tail == [] then lead else Payload(lead, tail[..|tail| - 1]) * 64 + tail[|tail| - 1] - 0x80
  }

  /** Reads one scalar value off the front: the value and how many bytes it took. */
  function DecodeChar(bytes: seq<byte>): (r: Option<(char, nat)>)
    requires bytes != []
    ensures r.Some? ==> 1 <= r.value.1 <= |bytes|
  {
    var b: int := bytes[0];
    if b < 0x80 then Some((b as char, 1))
    else if 0xC2 <= b < 0xE0 then DecodeTail(bytes, b - 0xC0, 2, 0x80)
    else if 0xE0 <= b < 0xF0 then DecodeTail(bytes, b - 0xE0, 3, 0x800)
    else if 0xF0 <= b < 0xF8 then DecodeTail(bytes, b - 0xF0, 4, 0x10000)
    else None
  }

  /** The rest of a `size`-byte form; overlong forms (below `least`) and surrogates are refused. */
  function DecodeTail(bytes: seq<byte>, lead: int, size: nat, least: nat): (r: Option<(char, nat)>)
    requires 2 <= size
    ensures r.Some? ==> r.value.1 == size <= |bytes|
  {
    if |bytes| < size || exists k :: 1 <= k < size && !IsTail(bytes[k]) then None
    else
      var n := Payload(lead, bytes[1..size]);
      if least <= n && IsScalar(n) then Some((n as char, size)) else None
  }

  function Decode(bytes: seq<byte>): (text: Option<string>)
  {
    if bytes == [] then Some([])
    else
      var head := DecodeChar(bytes);
      if head.None? then None
      else
        var tail := Decode(bytes[head.value.1..]);
        if tail.None? then None else Some([head.value.0] + tail.value)
  }

  lemma PayloadOfDigits(n: nat)
    ensures Payload(n / 64, [0x80 + n % 64]) == n
    ensures Payload(n / 64 / 64, [0x80 + n / 64 % 64, 0x80 + n % 64]) == n
    ensures Payload(n / 64 / 64 / 64, [0x80 + n / 64 / 64 % 64, 0x80 + n / 64 % 64, 0x80 + n % 64]) == n
  {
    var a, b, c := 0x80 + n / 64 / 64 % 64, 0x80 + n / 64 % 64, 0x80 + n % 64;
    assert Payload(n / 64, [c]) == Payload(n / 64, []) * 64 + n % 64;
    assert [b, c][..1] == [b];
    assert [a, b, c][..2] == [a, b] && [a, b][..1] == [a];
    assert Payload(n / 64 / 64, [b]) == n / 64;
    assert Payload(n / 64 / 64 / 64, [a]) == n / 64 / 64;
    assert Payload(n / 64 / 64 / 64, [a, b]) == n / 64;
  }

  lemma DecodeEncodedChar(c: char, rest: seq<byte>)
    ensures DecodeChar(EncodeChar(c) + rest) == Some((c, |EncodeChar(c)|))
  {
    var n := c as int;
    var code := EncodeChar(c);
    var bytes := code + rest;
    PayloadOfDigits(n);
    assert bytes[1..|code|] == code[1..];
    if 0x80 <= n {
      var size := |code|;
      assert forall k :: 1 <= k < size ==> bytes[k] == code[k];
      if n < 0x800 {
        assert code[1..] == [0x80 + n % 64];
      } else if n < 0x10000 {
        assert code[1..] == [0x80 + n / 64 % 64, 0x80 + n % 64];
      } else {
        assert code[1..] == [0x80 + n / 64 / 64 % 64, 0x80 + n / 64 % 64, 0x80 + n % 64];
      }
    }
  }

  /** Every text survives the encoding. */
  lemma {:induction false} DecodeEncode(text: string)
    ensures Decode(Encode(text)) == Some(text)
  {
    if text != [] {
      var first := EncodeChar(text[0]);
      var rest := Encode(text[1..]);
      DecodeEncodedChar(text[0], rest);
      DecodeEncode(text[1..]);
      assert (first + rest)[|first|..] == rest;
      assert [text[0]] + text[1..] == text;
    }
  }
}
