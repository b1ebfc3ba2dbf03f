/** A reader of the paths and numbers that scripts/dual-run-parity.ts prints, written apart from the printer. */
module JsonPaths {
  import opened Wrappers
  import opened Json
  import opened JsonDiff

  function Digit(c: char): (d: Option<nat>)
  {
    if '0' <= c <= '9' then Some(c as nat - '0' as nat) else None
  }

  /** A decimal number, of at least one digit. */
  function ReadNat(s: string): (n: Option<nat>)
  {
    if s == "" then None
    else
      var front, last := s[..|s| - 1], Digit(s[|s| - 1]);
      if last.None? then None
      else if front == "" then last
      else if ReadNat(front).None? then None
      else Some(10 * ReadNat(front).value + last.value)
  }

  lemma {:induction false} ReadNatText(n: nat)
    ensures ReadNat(NatText(n)) == Some(n)
    ensures NatText(n) != "" && forall i :: 0 <= i < |NatText(n)| ==> Digit(NatText(n)[i]).Some?
  {
    var digit := ['0' + (n % 10) as char];
    assert Digit(digit[0]) == Some(n % 10);
    if n >= 10 {
      ReadNatText(n / 10);
      var text := NatText(n / 10) + digit;
      assert text[..|text| - 1] == NatText(n / 10);
    }
  }

  predicate IsMark(c: char) { c == '.' || c == '[' || c == ']' }

  /** A key that the printed form can be told apart by: not empty, and without the form's own marks. */
  predicate IsPlain(key: string)
  {
    key != "" && forall i :: 0 <= i < |key| ==> !IsMark(key[i])
  }

  predicate IsPlainPath(path: seq<Step>)
  {
    forall i :: 0 <= i < |path| && path[i].Key? ==> IsPlain(path[i].key)
  }

  /** Where the run without a mark ends. */
  function RunEnd(s: string): (i: nat)
    ensures i <= |s| && (i < |s| ==> IsMark(s[i]))
    ensures forall k :: 0 <= k < i ==> !IsMark(s[k])
  {
    if s == "" || IsMark(s[0]) then 0 else 1 + RunEnd(s[1..])
  }

  /** Steps from the left: `.key` or `[index]`. */
  function ReadSteps(s: string): (path: Option<seq<Step>>)
    decreases |s|
  {
    if s == "" then Some([])
    else
      var i := 1 + RunEnd(s[1..]);
      if s[0] == '.' then
        var rest := ReadSteps(s[i..]);
        if rest.None? then None else Some([Key(s[1..i])] + rest.value)
      else if s[0] == '[' && i < |s| && s[i] == ']' then
        var n, rest := ReadNat(s[1..i]), ReadSteps(s[i + 1..]);
        if n.None? || rest.None? then None else Some([Index(n.value)] + rest.value)
      else None
  }

  /** A whole path: a key at the front stands without its dot. */
  function ReadPath(s: string): (path: Option<seq<Step>>)
  {
    if s == "" || IsMark(s[0]) then ReadSteps(s) else ReadSteps("." + s)
  }

  // ---- it reads what is printed ----------------------------------------------------

  function Piece(step: Step): (s: string)
  {
    match step
    case Key(key) => "." + key
    case Index(i) => "[" + NatText(i) + "]"
  }

  function Written(path: seq<Step>): (s: string)
  {
    if path == [] then "" else Piece(path[0]) + Written(path[1..])
  }

  lemma {:induction false} WrittenSnoc(path: seq<Step>, step: Step)
    ensures Written(path + [step]) == Written(path) + Piece(step)
  {
    hide Piece;
    if path == [] {
      assert [step][1..] == [];
    } else {
      WrittenSnoc(path[1..], step);
      assert (path + [step])[1..] == path[1..] + [step];
      assert Written(path + [step]) == Piece(path[0]) + (Written(path[1..]) + Piece(step));
    }
  }

  lemma RunOf(run: string, rest: string)
    requires forall i :: 0 <= i < |run| ==> !IsMark(run[i])
    requires rest == "" || IsMark(rest[0])
    ensures RunEnd(run + rest) == |run|
  {
    var all := run + rest;
    assert forall i :: 0 <= i < |run| ==> all[i] == run[i];
    assert rest != "" ==> all[|run|] == rest[0];
  }

  lemma StartsMarked(path: seq<Step>)
    ensures Written(path) == "" || IsMark(Written(path)[0])
  {
  }

  lemma ReadKey(key: string, rest: string)
    requires IsPlain(key) && (rest == "" || IsMark(rest[0])) && ReadSteps(rest).Some?
    ensures ReadSteps("." + key + rest) == Some([Key(key)] + ReadSteps(rest).value)
  {
    hide IsMark, RunEnd;
    RunOf(key, rest);
    CutKey(key, rest);
  }

  lemma CutKey(key: string, rest: string)
    ensures var s := "." + key + rest;
            && s != "" && s[0] == '.' && s[1..] == key + rest && |s| == 1 + |key| + |rest|
            && s[1..1 + |key|] == key && s[1 + |key|..] == rest
  {
  }

  lemma ReadIndex(i: nat, rest: string)
    requires ReadSteps(rest).Some?
    ensures ReadSteps("[" + NatText(i) + "]" + rest) == Some([Index(i)] + ReadSteps(rest).value)
  {
    ReadNatText(i);
    ReadBracket(NatText(i), i, rest);
  }

  lemma ReadBracket(digits: string, i: nat, rest: string)
    requires ReadNat(digits) == Some(i) && ReadSteps(rest).Some?
    requires forall k :: 0 <= k < |digits| ==> Digit(digits[k]).Some?
    ensures ReadSteps("[" + digits + "]" + rest) == Some([Index(i)] + ReadSteps(rest).value)
  {
    forall k | 0 <= k < |digits|
      ensures !IsMark(digits[k])
    {
      assert Digit(digits[k]).Some?;
    }
    hide ReadNat, Digit, IsMark;
    IsMarks();
    RunOf(digits, "]" + rest);
    CutBracket(digits, rest);
  }

  lemma IsMarks()
    ensures IsMark('.') && IsMark('[') && IsMark(']')
  {
  }

  lemma CutBracket(digits: string, rest: string)
    ensures var s := "[" + digits + "]" + rest;
            && s != "" && s[0] == '[' && s[1..] == digits + ("]" + rest) && |s| == |digits| + 2 + |rest|
            && s[1..1 + |digits|] == digits && s[1 + |digits|] == ']' && s[2 + |digits|..] == rest
  {
  }

  lemma {:induction false} ReadWritten(path: seq<Step>)
    requires IsPlainPath(path)
    ensures ReadSteps(Written(path)) == Some(path)
  {
    hide ReadSteps, NatText, IsPlain;
    if path == [] {
      ReadNothing();
    } else {
      var rest := Written(path[1..]);
      ReadWritten(path[1..]);
      StartsMarked(path[1..]);
      assert [path[0]] + path[1..] == path;
      match path[0]
      case Key(key) => ReadKey(key, rest);
      case Index(i) => ReadIndex(i, rest);
    }
  }

  lemma ReadNothing()
    ensures ReadSteps("") == Some([])
  {
  }

  lemma FormatSnoc(path: seq<Step>, step: Step)
    ensures FormatPath(path + [step])
         == if step.Key? && FormatPath(path) == "" then step.key else FormatPath(path) + Piece(step)
  {
    assert (path + [step])[..|path|] == path;
    if step.Key? {
      assert FormatPath(path) + "." + step.key == FormatPath(path) + Piece(step);
    } else {
      assert FormatPath(path) + "[" + NatText(step.index) + "]" == FormatPath(path) + Piece(step);
    }
  }

  /** The form with a dot at the front, from the one without. */
  function Dotted(path: seq<Step>, format: string): (s: string)
  {
    if path != [] && path[0].Key? then "." + format else format
  }

  /** What is printed is what is written, but for a dot at the front. */
  lemma {:induction false} FormatIsWritten(path: seq<Step>)
    requires IsPlainPath(path)
    ensures path == [] <==> FormatPath(path) == ""
    ensures Written(path) == Dotted(path, FormatPath(path))
    ensures path != [] ==> (path[0].Key? <==> !IsMark(FormatPath(path)[0]))
  {
    if path != [] {
      var front, step := path[..|path| - 1], path[|path| - 1];
      assert path == front + [step];
      FormatIsWritten(front);
      hide Written, FormatPath;
      NoPath();
      WrittenSnoc(front, step);
      FormatSnoc(front, step);
      OneMore(front, step, FormatPath(front));
    }
  }

  lemma NoPath()
    ensures Written([]) == "" && FormatPath([]) == ""
  {
  }

  lemma OneMore(front: seq<Step>, step: Step, format: string)
    requires step.Key? ==> IsPlain(step.key)
    requires front == [] <==> format == ""
    requires front != [] ==> (front[0].Key? <==> !IsMark(format[0]))
    ensures var longer := if step.Key? && format == "" then step.key else format + Piece(step);
            && longer != "" && Dotted(front + [step], longer) == Dotted(front, format) + Piece(step)
            && ((front + [step])[0].Key? <==> !IsMark(longer[0]))
  {
    hide NatText;
    if front == [] {
      assert format + Piece(step) == Piece(step);
    } else {
      assert "." + (format + Piece(step)) == "." + format + Piece(step);
    }
  }

  /** Every printed path of plain keys reads back as the path itself. */
  lemma ReadFormatted(path: seq<Step>)
    requires IsPlainPath(path)
    ensures ReadPath(FormatPath(path)) == Some(path)
  {
    hide ReadSteps, FormatPath, Written;
    FormatIsWritten(path);
    ReadWritten(path);
    if path == [] {
      ReadNothing();
    }
  }

  lemma ReadLengthAlone()
    ensures ReadPath("" + ".length") == Some([Key("length")])
  {
    hide ReadSteps;
    ReadNothing();
    assert IsPlain("length");
    ReadKey("length", "");
    assert "." + "length" + "" == ".length" && "" + ".length" == ".length";
    assert [Key("length")] + [] == [Key("length")];
  }

  lemma LengthIsPlain(path: seq<Step>)
    requires IsPlainPath(path)
    ensures IsPlainPath(path + [Key("length")]) && Piece(Key("length")) == ".length"
  {
    assert IsPlain("length");
    hide IsPlain;
  }

  /** So does the path of an array's length. */
  lemma ReadLength(path: seq<Step>)
    requires IsPlainPath(path)
    ensures ReadPath(FormatPath(path) + ".length") == Some(path + [Key("length")])
  {
    hide *;
    FormatIsWritten(path);
    if path == [] {
      NoPath();
      ReadLengthAlone();
      assert path + [Key("length")] == [Key("length")];
    } else {
      LengthIsPlain(path);
      FormatSnoc(path, Key("length"));
      ReadFormatted(path + [Key("length")]);
    }
  }
}
