/**
 * A reader of SQL text, independent of the emitter: a lexer that knows string and identifier
 * quoting, comments and bare words, and a parser of INSERT statements over its tokens.
 */
module SqlReader {
  import opened Wrappers
  import opened SqlValues

  datatype Token = Word(word: string) | Text(text: string) | Name(name: string) | Mark(mark: char) | Bad

  predicate IsSpace(c: char) { c in " \n\r\t" }

  predicate IsMark(c: char) { c in "(),;" }

  predicate IsWordChar(c: char)
  {
    'A' <= c <= 'Z' || 'a' <= c <= 'z' || IsDigit(c) || c in "_.+-"
  }

  /** The text of a quoted run and what follows it; a doubled quote stands for one. */
  function ReadQuoted(s: string, quote: char): (r: Option<(string, string)>)
    ensures r.Some? ==> |r.value.1| < |s|
  {
    if s == "" then None
    else if s[0] != quote then
      var rest := ReadQuoted(s[1..], quote);
      if rest.None? then None else Some(([s[0]] + rest.value.0, rest.value.1))
    else if |s| >= 2 && s[1] == quote then
      var rest := ReadQuoted(s[2..], quote);
      if rest.None? then None else Some(([quote] + rest.value.0, rest.value.1))
    else Some(("", s[1..]))
  }

  /** The end of the maximal run of word characters. */
  function WordEnd(s: string): (i: nat)
    ensures i <= |s|
    ensures s != "" && IsWordChar(s[0]) ==> i > 0
  {
    if s == "" || !IsWordChar(s[0]) then 0 else 1 + WordEnd(s[1..])
  }

  function SkipLine(s: string): (rest: string)
    ensures |rest| <= |s|
  {
    if s == "" then "" else if s[0] == '\n' then s[1..] else SkipLine(s[1..])
  }

  function Lex(s: string): (tokens: seq<Token>)
    decreases |s|
  {
    if s == "" then []
    else if IsSpace(s[0]) then Lex(s[1..])
    else if IsMark(s[0]) then [Mark(s[0])] + Lex(s[1..])
    else if |s| >= 2 && s[0] == '-' && s[1] == '-' then Lex(SkipLine(s[2..]))
    else if s[0] == '\'' || s[0] == '"' then
      var run := ReadQuoted(s[1..], s[0]);
      if run.None? then [Bad]
      else [if s[0] == '\'' then Text(run.value.0) else Name(run.value.0)] + Lex(run.value.1)
    else if IsWordChar(s[0]) then [Word(s[..WordEnd(s)])] + Lex(s[WordEnd(s)..])
    else [Bad]
  }

  /** The value a literal token denotes. */
  function Literal(t: Token): (d: Option<D1Value>)
  {
    match t
    case Word(w) => if w == "NULL" then Some(D1Null) else if IsNumeral(w) then Some(D1Number(w)) else None
    case Text(s) => Some(D1Text(s))
    case _ => None
  }

  datatype Insert = Insert(table: string, columns: seq<string>, rows: seq<seq<D1Value>>)

  /** Comma-separated names up to the closing parenthesis. */
  function ParseNames(tokens: seq<Token>): (r: Option<(seq<string>, seq<Token>)>)
    ensures r.Some? ==> |r.value.1| < |tokens|
  {
    if |tokens| < 2 || !tokens[0].Name? then None
    else if tokens[1] == Mark(')') then Some(([tokens[0].name], tokens[2..]))
    else if tokens[1] != Mark(',') then None
    else
      var rest := ParseNames(tokens[2..]);
      if rest.None? then None else Some(([tokens[0].name] + rest.value.0, rest.value.1))
  }

  /** Comma-separated literals up to the closing parenthesis. */
  function ParseCells(tokens: seq<Token>): (r: Option<(seq<D1Value>, seq<Token>)>)
    ensures r.Some? ==> |r.value.1| < |tokens|
  {
    if |tokens| < 2 || Literal(tokens[0]).None? then None
    else if tokens[1] == Mark(')') then Some(([Literal(tokens[0]).value], tokens[2..]))
    else if tokens[1] != Mark(',') then None
    else
      var rest := ParseCells(tokens[2..]);
      if rest.None? then None else Some(([Literal(tokens[0]).value] + rest.value.0, rest.value.1))
  }

  /** Comma-separated tuples up to the semicolon. */
  function ParseTuples(tokens: seq<Token>): (r: Option<(seq<seq<D1Value>>, seq<Token>)>)
    ensures r.Some? ==> |r.value.1| < |tokens|
    decreases |tokens|
  {
    if tokens == [] || tokens[0] != Mark('(') then None
    else
      var head := ParseCells(tokens[1..]);
      if head.None? || head.value.1 == [] then None
      else
        var after := head.value.1;
        if after[0] == Mark(';') then Some(([head.value.0], after[1..]))
        else if after[0] != Mark(',') then None
        else
          var rest := ParseTuples(after[1..]);
          if rest.None? then None else Some(([head.value.0] + rest.value.0, rest.value.1))
  }

  const INSERT_WORDS: seq<Token> := [Word("INSERT"), Word("OR"), Word("IGNORE"), Word("INTO")]

  /** A script of `INSERT OR IGNORE INTO "t" ("c", …) VALUES (…), …;` statements. */
  function ParseInserts(tokens: seq<Token>): (r: Option<seq<Insert>>)
    decreases |tokens|
  {
    if tokens == [] then Some([])
    else if |tokens| < 6 || tokens[..4] != INSERT_WORDS || !tokens[4].Name? || tokens[5] != Mark('(') then None
    else
      var names := ParseNames(tokens[6..]);
      if names.None? || names.value.1 == [] || names.value.1[0] != Word("VALUES") then None
      else
        var tuples := ParseTuples(names.value.1[1..]);
        if tuples.None? then None
        else
          var rest := ParseInserts(tuples.value.1);
          if rest.None? then None
          else Some([Insert(tokens[4].name, names.value.0, tuples.value.0)] + rest.value)
  }

  function ReadScript(s: string): (r: Option<seq<Insert>>) { ParseInserts(Lex(s)) }

  // ---- how the pieces of a statement lex -------------------------------------------

  lemma {:induction false} ReadEscaped(s: string, rest: string)
    requires rest == "" || rest[0] != '\''
    ensures ReadQuoted(Escape(s) + "'" + rest, '\'') == Some((s, rest))
  {
    var text := Escape(s) + "'" + rest;
    if s == "" {
      assert text[1..] == rest;
    } else {
      var tail := Escape(s[1..]) + "'" + rest;
      ReadEscaped(s[1..], rest);
      assert [s[0]] + s[1..] == s;
      if s[0] == '\'' {
        assert text == "''" + tail;
        hide Escape;
        assert text[2..] == tail;
      } else {
        assert text == [s[0]] + tail;
        hide Escape;
        assert text[1..] == tail;
      }
    }
  }

  lemma LexQuoted(quote: char, body: string, value: string, rest: string)
    requires quote == '\'' || quote == '"'
    requires ReadQuoted(body, quote) == Some((value, rest))
    ensures Lex([quote] + body) == [if quote == '\'' then Text(value) else Name(value)] + Lex(rest)
  {
    hide ReadQuoted;
    assert ([quote] + body)[1..] == body;
  }

  lemma LexText(s: string, rest: string)
    requires rest == "" || rest[0] != '\''
    ensures Lex(Quote(Escape(s)) + rest) == [Text(s)] + Lex(rest)
  {
    hide Escape, Lex, ReadQuoted;
    ReadEscaped(s, rest);
    LexQuoted('\'', Escape(s) + "'" + rest, s, rest);
    assert Quote(Escape(s)) + rest == ['\''] + (Escape(s) + "'" + rest);
  }

  predicate NoChar(s: string, c: char) { forall i :: 0 <= i < |s| ==> s[i] != c }

  lemma {:induction false} EscapeNothing(s: string)
    requires NoChar(s, '\'')
    ensures Escape(s) == s
  {
    if s != "" {
      EscapeNothing(s[1..]);
    }
  }

  lemma {:induction false} ReadPlainName(s: string, rest: string)
    requires NoChar(s, '"')
    requires rest == "" || rest[0] != '"'
    ensures ReadQuoted(s + "\"" + rest, '"') == Some((s, rest))
  {
    var text := s + "\"" + rest;
    if s == "" {
      assert text[1..] == rest;
    } else {
      assert text[1..] == s[1..] + "\"" + rest;
      ReadPlainName(s[1..], rest);
      assert [s[0]] + s[1..] == s;
    }
  }

  lemma LexName(s: string, rest: string)
    requires NoChar(s, '"')
    requires rest == "" || rest[0] != '"'
    ensures Lex("\"" + s + "\"" + rest) == [Name(s)] + Lex(rest)
  {
    hide Lex, ReadQuoted;
    ReadPlainName(s, rest);
    LexQuoted('"', s + "\"" + rest, s, rest);
    assert "\"" + s + "\"" + rest == ['"'] + (s + "\"" + rest);
  }

  predicate IsWord(w: string)
  {
    w != "" && (forall i :: 0 <= i < |w| ==> IsWordChar(w[i])) && !(|w| >= 2 && w[0] == '-' && w[1] == '-')
  }

  lemma {:induction false} WordEndAfter(w: string, rest: string)
    requires forall i :: 0 <= i < |w| ==> IsWordChar(w[i])
    requires rest == "" || !IsWordChar(rest[0])
    ensures WordEnd(w + rest) == |w|
  {
    if w != "" {
      assert (w + rest)[1..] == w[1..] + rest;
      WordEndAfter(w[1..], rest);
    } else {
      assert w + rest == rest;
    }
  }

  lemma LexWord(w: string, rest: string)
    requires IsWord(w)
    requires rest == "" || !IsWordChar(rest[0])
    ensures Lex(w + rest) == [Word(w)] + Lex(rest)
  {
    var text := w + rest;
    WordEndAfter(w, rest);
    assert IsWordChar(text[0]);
    if |w| == 1 && rest != "" {
      assert text[1] == rest[0];
    }
    assert text[..|w|] == w && text[|w|..] == rest;
  }

  lemma LexMark(c: char, rest: string)
    requires IsMark(c)
    ensures Lex([c] + rest) == [Mark(c)] + Lex(rest)
  {
    assert ([c] + rest)[1..] == rest;
  }

  lemma LexSpace(c: char, rest: string)
    requires IsSpace(c)
    ensures Lex([c] + rest) == Lex(rest)
  {
    assert ([c] + rest)[1..] == rest;
  }

  /** A literal as it stands in a tuple: the token it lexes to, whatever ends it. */
  ghost predicate LexesTo(sql: string, t: Token)
  {
    sql != ""
    && forall rest :: rest != "" && (IsMark(rest[0]) || IsSpace(rest[0])) ==> Lex(sql + rest) == [t] + Lex(rest)
  }

  lemma WordLexes(w: string)
    requires IsWord(w)
    ensures LexesTo(w, Word(w))
  {
    forall rest | rest != "" && (IsMark(rest[0]) || IsSpace(rest[0]))
      ensures Lex(w + rest) == [Word(w)] + Lex(rest)
    {
      LexWord(w, rest);
    }
  }

  lemma TextLexes(s: string)
    ensures LexesTo(Quote(Escape(s)), Text(s))
  {
    forall rest | rest != "" && (IsMark(rest[0]) || IsSpace(rest[0]))
      ensures Lex(Quote(Escape(s)) + rest) == [Text(s)] + Lex(rest)
    {
      LexText(s, rest);
    }
  }

  /** The token of a D1 value in literal position. */
  function TokenOf(d: D1Value): (t: Token)
  {
    match d
    case D1Null => Word("NULL")
    case D1Number(text) => Word(text)
    case D1Text(s) => Text(s)
  }

  /** An emitted literal denotes the value: it lexes to one token, and that token reads as it. */
  ghost predicate Denotes(sql: string, d: D1Value)
  {
    LexesTo(sql, TokenOf(d)) && Literal(TokenOf(d)) == Some(d)
  }

  lemma NumeralDenotes(s: string)
    requires IsNumeral(s)
    ensures Denotes(s, D1Number(s))
  {
    WordLexes(s);
  }

  lemma QuotedDenotes(s: string)
    requires NoChar(s, '\'')
    ensures Denotes(Quote(s), D1Text(s))
  {
    EscapeNothing(s);
    TextLexes(s);
  }

  /**
   * `transformValue` is exact: it throws precisely on the values without a D1 counterpart, and
   * every literal it emits reads back as the value meant. NULL never meets the text 'NULL'.
   */
  lemma TransformIsExact(js: Coercions, kind: Kind, value: PgValue)
    ensures TransformValue(js, kind, value).Some? <==> Meaning(js, kind, value).Some?
    ensures TransformValue(js, kind, value).Some?
        ==> Denotes(TransformValue(js, kind, value).value, Meaning(js, kind, value).value)
  {
    hide Denotes;
    var sql, meaning := TransformValue(js, kind, value), Meaning(js, kind, value);
    assert sql.Some? <==> meaning.Some?;
    if sql.Some? {
      match meaning.value
      case D1Null =>
        NullDenotes();
      case D1Number(text) =>
        if kind.NumericKind? {
          PlainDecimalIsNumeral(text);
        }
        assert sql.value == text;
        NumeralDenotes(text);
      case D1Text(s) =>
        if kind.TextKind? || kind.JsonbKind? {
          EscapedDenotes(s);
        } else {
          DateNoQuote(s);
          QuotedDenotes(s);
        }
    }
  }

  /** The literals of two jsonb values are the same only if their JSON is. */
  lemma JsonbIsInjective(js: Coercions, a: PgValue, b: PgValue)
    requires TransformValue(js, JsonbKind, a).Some? && !a.PgNull? && !b.PgNull?
    ensures TransformValue(js, JsonbKind, a) == TransformValue(js, JsonbKind, b)
       <==> Meaning(js, JsonbKind, a) == Meaning(js, JsonbKind, b)
    ensures a.PgObject? && b.PgObject? && a.json != b.json
        ==> TransformValue(js, JsonbKind, a) != TransformValue(js, JsonbKind, b)
  {
    hide Denotes, Escape;
    TransformIsExact(js, JsonbKind, a);
    TransformIsExact(js, JsonbKind, b);
    if TransformValue(js, JsonbKind, a) == TransformValue(js, JsonbKind, b) {
      DenotesOne(TransformValue(js, JsonbKind, a).value,
                 Meaning(js, JsonbKind, a).value, Meaning(js, JsonbKind, b).value);
    }
  }

  /** A literal denotes one value. */
  lemma DenotesOne(sql: string, d: D1Value, e: D1Value)
    requires Denotes(sql, d) && Denotes(sql, e)
    ensures d == e
  {
    hide Lex, Literal;
    assert Lex(sql + ",") == [TokenOf(d)] + Lex(",");
    assert Lex(sql + ",") == [TokenOf(e)] + Lex(",");
    assert TokenOf(d) == ([TokenOf(d)] + Lex(","))[0];
    assert TokenOf(e) == ([TokenOf(e)] + Lex(","))[0];
  }

  lemma NullDenotes()
    ensures Denotes("NULL", D1Null)
  {
    WordLexes("NULL");
  }

  lemma EscapedDenotes(s: string)
    ensures Denotes(Quote(Escape(s)), D1Text(s))
  {
    TextLexes(s);
  }

  lemma DateNoQuote(s: string)
    ensures IsIsoText(s) || PlainDate(s) ==> NoChar(s, '\'')
  {
    if PlainDate(s) {
      forall i | 0 <= i < |s|
        ensures s[i] != '\''
      {
        if i < 4 { assert s[i] == s[..4][i]; }
        if 5 <= i < 7 { assert s[i] == s[5..7][i - 5]; }
        if 8 <= i { assert s[i] == s[8..][i - 8]; }
      }
    }
  }
}
