/** The line and header layer of a message: RFC 5322 sections 2.1 and 2.2. */
module Wire {
  import opened Wrappers

  const CRLF := "\r\n"

  predicate NoCrlf(s: string)
  {
    forall i :: 0 <= i < |s| ==> s[i] != '\r' && s[i] != '\n'
  }

  predicate AllNoCrlf(lines: seq<string>)
  {
    forall i :: 0 <= i < |lines| ==> NoCrlf(lines[i])
  }

  /** `Array.prototype.join`. */
  function Join(parts: seq<string>, separator: string): (s: string)
  {
    if parts == [] then ""
    else if |parts| == 1 then parts[0]
    else parts[0] + separator + Join(parts[1..], separator)
  }

  /** The lines, each one followed by CRLF. */
  function Terminated(lines: seq<string>): (s: string)
  {
    if lines == [] then "" else lines[0] + CRLF + Terminated(lines[1..])
  }

  lemma {:induction false} JoinIsTerminated(lines: seq<string>)
    requires lines != []
    ensures Join(lines, CRLF) + CRLF == Terminated(lines)
  {
    if |lines| == 1 {
      assert Terminated(lines[1..]) == "";
    } else {
      JoinIsTerminated(lines[1..]);
      assert Join(lines, CRLF) + CRLF == lines[0] + CRLF + (Join(lines[1..], CRLF) + CRLF);
    }
  }

  lemma TerminatedCons(line: string, rest: seq<string>)
    ensures Terminated([line] + rest) == line + CRLF + Terminated(rest)
  {
    assert ([line] + rest)[1..] == rest;
  }

  lemma {:induction false} TerminatedAppend(a: seq<string>, b: seq<string>)
    ensures Terminated(a + b) == Terminated(a) + Terminated(b)
  {
    if a == [] {
      assert a + b == b;
    } else {
      TerminatedAppend(a[1..], b);
      assert (a + b)[1..] == a[1..] + b;
      assert Terminated(a + b) == a[0] + CRLF + (Terminated(a[1..]) + Terminated(b));
    }
  }

  /** Where the first CRLF starts, or the length of the text. */
  function FirstCrlf(text: string): (i: nat)
    ensures i <= |text|
    ensures i < |text| ==> i + 2 <= |text|
  {
    if |text| < 2 then |text|
    else if text[0] == '\r' && text[1] == '\n' then 0
    else 1 + FirstCrlf(text[1..])
  }

  /** Cuts a text at every CRLF; a final CRLF ends the last line, it opens no new one. */
  function Split(text: string): (lines: seq<string>)
    decreases |text|
  {
    if text == "" then []
    else
      var i := FirstCrlf(text);
      if i == |text| then [text] else [text[..i]] + Split(text[i + 2..])
  }

  lemma {:induction false} FirstCrlfAfterLine(line: string, rest: string)
    requires NoCrlf(line)
    ensures FirstCrlf(line + CRLF + rest) == |line|
  {
    var text := line + CRLF + rest;
    if line != "" {
      assert text[1..] == line[1..] + CRLF + rest;
      FirstCrlfAfterLine(line[1..], rest);
    }
  }

  /** Reading the lines back gives exactly the lines that were written. */
  lemma {:induction false} SplitTerminated(lines: seq<string>)
    requires AllNoCrlf(lines)
    ensures Split(Terminated(lines)) == lines
  {
    if lines != [] {
      var rest := Terminated(lines[1..]);
      var text := lines[0] + CRLF + rest;
      FirstCrlfAfterLine(lines[0], rest);
      SplitTerminated(lines[1..]);
      assert text[..|lines[0]|] == lines[0];
      assert text[|lines[0]| + 2..] == rest;
    }
  }

  datatype Field = Field(name: string, value: string)

  /** Field names: printable US-ASCII but for the colon (RFC 5322 section 2.2). */
  predicate IsName(name: string)
  {
    name != "" && forall i :: 0 <= i < |name| ==> '!' <= name[i] <= '~' && name[i] != ':'
  }

  predicate WellFormed(fields: seq<Field>)
  {
    forall i :: 0 <= i < |fields| ==> IsName(fields[i].name) && NoCrlf(fields[i].value)
  }

  function Render(f: Field): (line: string) { f.name + ": " + f.value }

  function RenderAll(fields: seq<Field>): (lines: seq<string>)
  {
    if fields == [] then [] else [Render(fields[0])] + RenderAll(fields[1..])
  }

  function IndexOf(s: string, c: char): (i: nat)
    ensures i <= |s| && (i < |s| ==> s[i] == c)
    ensures forall k :: 0 <= k < i ==> s[k] != c
  {
    if s == "" || s[0] == c then 0 else 1 + IndexOf(s[1..], c)
  }

  predicate IsContinuation(line: string) { line != "" && (line[0] == ' ' || line[0] == '\t') }

  /** How many of the leading lines continue a folded field. */
  function Continuations(lines: seq<string>): (n: nat)
    ensures n <= |lines|
  {
    if lines == [] || !IsContinuation(lines[0]) then 0 else 1 + Continuations(lines[1..])
  }

  /** One unfolded header line: the name up to the colon, the value after one optional space. */
  function ParseField(line: string): (f: Option<Field>)
  {
    var colon := IndexOf(line, ':');
    if colon == |line| || !IsName(line[..colon]) then None
    else
      var value := line[colon + 1..];
      Some(Field(line[..colon], if value != "" && value[0] == ' ' then value[1..] else value))
  }

  /** The header block up to the empty line, unfolding as it goes, and the lines after it. */
  function ParseHead(lines: seq<string>): (r: Option<(seq<Field>, seq<string>)>)
    decreases |lines|
  {
    if lines == [] then None
    else if lines[0] == "" then Some(([], lines[1..]))
    else
      var k := Continuations(lines[1..]);
      var field := ParseField(lines[0] + Join(lines[1..1 + k], ""));
      var rest := ParseHead(lines[1 + k..]);
      if field.None? || rest.None? then None
      else Some(([field.value] + rest.value.0, rest.value.1))
  }

  lemma ParseRendered(f: Field)
    requires IsName(f.name)
    ensures ParseField(Render(f)) == Some(f)
  {
    var line := Render(f);
    var colon := IndexOf(line, ':');
    assert line[|f.name|] == ':';
    assert forall k :: 0 <= k < |f.name| ==> line[k] == f.name[k];
    assert colon == |f.name|;
    assert line[..colon] == f.name;
    assert line[colon + 1..] == " " + f.value;
  }

  lemma StartsWithName(f: Field)
    requires IsName(f.name)
    ensures Render(f) != "" && !IsContinuation(Render(f))
  {
    assert Render(f)[0] == f.name[0];
  }

  /** A written header block parses to exactly its fields, and the body lines are untouched. */
  lemma {:induction false} ParseRenderedHead(fields: seq<Field>, body: seq<string>)
    requires WellFormed(fields)
    ensures ParseHead(RenderAll(fields) + [""] + body) == Some((fields, body))
  {
    hide Render, IsName, ParseField;
    var lines := RenderAll(fields) + [""] + body;
    if fields == [] {
      assert lines[1..] == body;
    } else {
      var tail := RenderAll(fields[1..]) + [""] + body;
      assert lines[1..] == tail;
      StartsWithName(fields[0]);
      if |fields| > 1 {
        StartsWithName(fields[1]);
        assert tail[0] == Render(fields[1]);
      }
      assert Continuations(tail) == 0;
      assert lines[1..1] == [] && lines[0] + Join([], "") == lines[0];
      ParseRendered(fields[0]);
      ParseRenderedHead(fields[1..], body);
      assert [fields[0]] + fields[1..] == fields;
    }
  }

  lemma RenderAllTwo(f: Field, g: Field)
    ensures RenderAll([f]) == [Render(f)]
    ensures RenderAll([f, g]) == [Render(f), Render(g)]
  {
    assert [f][1..] == [] && [g][1..] == [] && [f, g][1..] == [g];
    assert RenderAll([g]) == [Render(g)];
  }

  lemma {:induction false} RenderAllAppend(a: seq<Field>, b: seq<Field>)
    ensures RenderAll(a + b) == RenderAll(a) + RenderAll(b)
  {
    if a == [] {
      assert a + b == b;
    } else {
      RenderAllAppend(a[1..], b);
      assert (a + b)[1..] == a[1..] + b;
    }
  }

  lemma {:induction false} RenderedLines(fields: seq<Field>)
    requires WellFormed(fields)
    ensures AllNoCrlf(RenderAll(fields))
  {
    if fields != [] {
      RenderedLines(fields[1..]);
    }
  }

  /** The value of the first field of that name. */
  function Lookup(fields: seq<Field>, name: string): (value: Option<string>)
  {
    if fields == [] then None
    else if fields[0].name == name then Some(fields[0].value)
    else Lookup(fields[1..], name)
  }

  lemma {:induction false} LookupSkips(a: seq<Field>, b: seq<Field>, name: string)
    requires forall i :: 0 <= i < |a| ==> a[i].name != name
    ensures Lookup(a + b, name) == Lookup(b, name)
  {
    if a == [] {
      assert a + b == b;
    } else {
      LookupSkips(a[1..], b, name);
      assert (a + b)[1..] == a[1..] + b;
    }
  }
}
