/**
 * The Subject header: the encoder of apps/email-worker/src/mime.ts, and what any receiver makes of
 * it. A receiver is the function that reads one encoded-word; which words it knows is its own matter.
 */
module EncodedWord {
  import opened Wrappers
  import opened Utf8
  import Base64
  import Wire

  const PREFIX := "=?UTF-8?B?"
  const SUFFIX := "?="

  predicate IsPrintable(s: string)
  {
    forall i :: 0 <= i < |s| ==> ' ' <= s[i] <= '~'
  }

  /** `/^[\x20-\x7E]+$/`: such a subject is not encoded. */
  predicate PassesThrough(subject: string) { subject != "" && IsPrintable(subject) }

  /** Printable subjects pass through; anything else, the empty one included, is encoded. */
  function EncodeSubject(subject: string): (header: string)
  {
    if PassesThrough(subject) then subject else Word(subject)
  }

  function Word(text: string): (word: string)
  {
    PREFIX + Base64.Encode(Utf8.Encode(text)) + SUFFIX
  }

  // ---- the receiver ----------------------------------------------------------------

  /** The text of an encoded-word, or None when the receiver does not take the token for one. */
  type WordReader = string -> Option<string>

  /** A word is longer than the text it stands for. */
  ghost predicate Shortens(read: WordReader)
  {
    forall token :: read(token).Some? ==> |read(token).value| < |token|
  }

  /** The space-separated tokens of a header value. */
  function Tokens(value: string): (tokens: seq<string>)
    ensures tokens != []
    decreases |value|
  {
    var i := Wire.IndexOf(value, ' ');
    if i == |value| then [value] else [value[..i]] + Tokens(value[i + 1..])
  }

  /** How many empty tokens come first: each stands for one more space. */
  function Blanks(tokens: seq<string>): (n: nat)
    ensures n <= |tokens|
  {
    if tokens == [] || tokens[0] != "" then 0 else 1 + Blanks(tokens[1..])
  }

  /**
   * Every token that is an encoded-word is replaced by its text, and the white space between two
   * adjacent encoded-words is dropped (RFC 2047 section 6.2).
   */
  function DecodeTokens(read: WordReader, tokens: seq<string>): (text: string)
    requires tokens != []
  {
    var head := read(tokens[0]);
    var text := if head.Some? then head.value else tokens[0];
    if |tokens| == 1 then text
    else
      var next := 1 + Blanks(tokens[1..]);
      if head.Some? && next < |tokens| && read(tokens[next]).Some? then text + DecodeTokens(read, tokens[next..])
      else text + " " + DecodeTokens(read, tokens[1..])
  }

  function DecodeSubject(read: WordReader, header: string): (subject: string)
  {
    DecodeTokens(read, Tokens(header))
  }

  /** Some space-separated piece of the value is an encoded-word to the receiver. */
  predicate HasWord(read: WordReader, value: string)
  {
    exists i :: 0 <= i < |Tokens(value)| && read(Tokens(value)[i]).Some?
  }

  /** What a subject must satisfy to arrive: the receiver finds no word in it, or reads the one it is put in. */
  predicate Survives(read: WordReader, subject: string)
  {
    if PassesThrough(subject) then !HasWord(read, subject) else read(Word(subject)) == Some(subject)
  }

  lemma {:induction false} JoinTokens(value: string)
    ensures Wire.Join(Tokens(value), " ") == value
    decreases |value|
  {
    var i := Wire.IndexOf(value, ' ');
    if i < |value| {
      JoinTokens(value[i + 1..]);
      assert Tokens(value) == [value[..i]] + Tokens(value[i + 1..]);
      hide Tokens;
      assert value == value[..i] + " " + value[i + 1..];
    }
  }

  lemma {:induction false} JoinSuffix(tokens: seq<string>, k: nat)
    requires k < |tokens|
    ensures |Wire.Join(tokens[k..], " ")| <= |Wire.Join(tokens, " ")|
  {
    if k > 0 {
      assert tokens[1..][k - 1..] == tokens[k..];
      JoinSuffix(tokens[1..], k - 1);
    } else {
      assert tokens[0..] == tokens;
    }
  }

  predicate AnyWord(read: WordReader, tokens: seq<string>)
  {
    exists i :: 0 <= i < |tokens| && read(tokens[i]).Some?
  }

  lemma AnyWordStep(read: WordReader, tokens: seq<string>)
    requires tokens != []
    ensures AnyWord(read, tokens) <==> read(tokens[0]).Some? || AnyWord(read, tokens[1..])
  {
    if AnyWord(read, tokens[1..]) {
      var i :| 0 <= i < |tokens| - 1 && read(tokens[1..][i]).Some?;
      assert read(tokens[i + 1]).Some?;
    }
    if i :| 0 <= i < |tokens| && read(tokens[i]).Some? {
      assert i > 0 ==> read(tokens[1..][i - 1]).Some?;
    }
  }

  /** Without a word the tokens come back joined; with one the text gets shorter. */
  lemma {:induction false} DecodeTokensLength(read: WordReader, tokens: seq<string>)
    requires tokens != [] && Shortens(read)
    ensures |DecodeTokens(read, tokens)| <= |Wire.Join(tokens, " ")|
    ensures AnyWord(read, tokens) ==> |DecodeTokens(read, tokens)| < |Wire.Join(tokens, " ")|
    ensures !AnyWord(read, tokens) ==> DecodeTokens(read, tokens) == Wire.Join(tokens, " ")
    decreases |tokens|
  {
    hide AnyWord, Blanks;
    AnyWordStep(read, tokens);
    if |tokens| == 1 {
      assert tokens[1..] == [];
      NoTokens(read);
    } else {
      var next := 1 + Blanks(tokens[1..]);
      DecodeTokensLength(read, tokens[1..]);
      if next < |tokens| {
        DecodeTokensLength(read, tokens[next..]);
        assert tokens[1..][next - 1..] == tokens[next..];
        JoinSuffix(tokens[1..], next - 1);
      }
    }
  }

  lemma NoTokens(read: WordReader)
    ensures !AnyWord(read, [])
  {
  }

  lemma WordHasNoSpace(text: string)
    ensures forall i :: 0 <= i < |Word(text)| ==> '!' <= Word(text)[i] <= '~'
  {
    var code := Base64.Encode(Utf8.Encode(text));
    Base64.EncodedAlphabet(Utf8.Encode(text));
    var word := Word(text);
    forall i | 0 <= i < |word|
      ensures '!' <= word[i] <= '~'
    {
      if |PREFIX| <= i < |PREFIX| + |code| {
        assert word[i] == code[i - |PREFIX|];
      } else if i >= |PREFIX| + |code| {
        assert word[i] == SUFFIX[i - |PREFIX| - |code|];
      }
    }
  }

  lemma DecodeOneWord(read: WordReader, text: string)
    ensures DecodeSubject(read, Word(text)) == if read(Word(text)).Some? then read(Word(text)).value else Word(text)
  {
    var word := Word(text);
    WordHasNoSpace(text);
    assert Wire.IndexOf(word, ' ') == |word|;
    assert Tokens(word) == [word];
  }

  /**
   * For every receiver: a subject comes back exactly when it passed through and no piece of it is an
   * encoded-word to that receiver, or was encoded and the receiver reads that word.
   */
  lemma SubjectRoundTrip(read: WordReader, subject: string)
    requires Shortens(read)
    ensures DecodeSubject(read, EncodeSubject(subject)) == subject <==> Survives(read, subject)
  {
    if PassesThrough(subject) {
      JoinTokens(subject);
      DecodeTokensLength(read, Tokens(subject));
    } else {
      DecodeOneWord(read, subject);
      WordPassesThrough(subject);
    }
  }

  lemma WordPassesThrough(text: string)
    ensures PassesThrough(Word(text))
  {
    WordHasNoSpace(text);
  }

  // ---- subjects without the mark ---------------------------------------------------

  predicate ContainsMark(s: string)
  {
    exists i :: 0 <= i < |s| - 1 && s[i] == '=' && s[i + 1] == '?'
  }

  lemma {:induction false} MarkedToken(value: string, k: nat)
    requires k < |Tokens(value)|
    requires var t := Tokens(value)[k]; |t| >= 2 && t[0] == '=' && t[1] == '?'
    ensures ContainsMark(value)
    decreases |value|
  {
    var i := Wire.IndexOf(value, ' ');
    if k == 0 {
      assert value[0] == '=' && value[1] == '?';
    } else {
      var rest := value[i + 1..];
      MarkedToken(rest, k - 1);
      var j :| 0 <= j < |rest| - 1 && rest[j] == '=' && rest[j + 1] == '?';
      assert value[i + 1 + j] == '=' && value[i + 1 + j + 1] == '?';
    }
  }

  /** To a receiver that knows words by their opening mark, a subject without it holds none. */
  lemma UnmarkedHasNoWord(read: WordReader, value: string)
    requires forall t :: read(t).Some? ==> |t| >= 2 && t[0] == '=' && t[1] == '?'
    requires !ContainsMark(value)
    ensures !HasWord(read, value)
  {
    forall k | 0 <= k < |Tokens(value)|
      ensures read(Tokens(value)[k]).None?
    {
      if read(Tokens(value)[k]).Some? {
        MarkedToken(value, k);
      }
    }
  }

  /** Which subjects are sent as they stand: those of printable ASCII, and no others. */
  lemma SentAsItIs(subject: string)
    ensures EncodeSubject(subject) == subject
       <==> subject != "" && forall i :: 0 <= i < |subject| ==> 32 <= subject[i] as int <= 126
    ensures EncodeSubject(subject) != subject ==>
              EncodeSubject(subject) == "=?UTF-8?B?" + Base64.Encode(Utf8.Encode(subject)) + "?="
  {
    hide Base64.Encode, Utf8.Encode;
    WordHasNoSpace(subject);
    var text := Base64.Encode(Utf8.Encode(subject));
    assert |Word(subject)| >= |PREFIX|;
  }

  /** Two adjacent words read as their texts put together, however many spaces stand between them. */
  lemma {:induction false} AdjacentWords(read: WordReader, first: string, second: string, spaces: nat)
    requires read(first).Some? && read(second).Some? && second != ""
    ensures DecodeTokens(read, [first] + seq(spaces, _ => "") + [second]) == read(first).value + read(second).value
  {
    var tokens := [first] + seq(spaces, _ => "") + [second];
    assert tokens[1..] == seq(spaces, _ => "") + [second];
    CountBlanks(spaces, second);
    assert tokens[1 + spaces..] == [second];
  }

  lemma {:induction false} CountBlanks(spaces: nat, second: string)
    requires second != ""
    ensures Blanks(seq(spaces, _ => "") + [second]) == spaces
  {
    if spaces > 0 {
      CountBlanks(spaces - 1, second);
      assert (seq(spaces, _ => "") + [second])[1..] == seq(spaces - 1, _ => "") + [second];
    }
  }
}
