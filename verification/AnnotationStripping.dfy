/**
 * `stripAnnotations` of packages/data-acquisition/src/services/name-quality.ts: a global regular
 * expression replacement, written out as the left-to-right search it performs.
 */
module AnnotationStripping {
  import opened Wrappers
  import opened Wire
  import opened NameQuality

  /** `\s`, which is also what `trim` takes off. */
  predicate IsSpace(c: char)
  {
    '\t' <= c <= '\r' || c == ' ' || c == '\U{A0}' || c == '\U{1680}' || '\U{2000}' <= c <= '\U{200A}'
    || c == '\U{2028}' || c == '\U{2029}' || c == '\U{202F}' || c == '\U{205F}' || c == '\U{3000}'
    || c == '\U{FEFF}'
  }

  /** The twenty-five white-space characters of ECMAScript. */
  lemma SpacesAre(c: char)
    ensures IsSpace(c) <==>
              c in ['\U{9}', '\U{A}', '\U{B}', '\U{C}', '\U{D}', ' ', '\U{A0}', '\U{1680}', '\U{2000}', '\U{2001}',
                    '\U{2002}', '\U{2003}', '\U{2004}', '\U{2005}', '\U{2006}', '\U{2007}', '\U{2008}', '\U{2009}',
                    '\U{200A}', '\U{2028}', '\U{2029}', '\U{202F}', '\U{205F}', '\U{3000}', '\U{FEFF}']
  {
  }

  function SkipSpaces(s: string): (rest: string)
    ensures |rest| <= |s|
    ensures rest != "" ==> !IsSpace(rest[0])
  {
    if s == "" || !IsSpace(s[0]) then s else SkipSpaces(s[1..])
  }

  // ---- the vocabulary --------------------------------------------------------------

  /** The one-word alternatives of the commentary vocabulary, optional letters spelt out. */
  const WORDS := ["saatavuus", "rajallinen", "rajoitettu", "loppu", "asiaka", "asiakka", "varastossa", "varaston",
                  "ennakkotilaus", "availability", "limited", "limit", "restock"]

  /** The alternatives of two words with white space between them. */
  const PAIRS := [("sold", "out"), ("in", "stock"), ("while", "stocks"), ("per", "customer")]

  /** The `i` flag over the vocabulary's letters: only the ASCII capitals fold. */
  function Fold(c: char): (f: char)
  {
    if 'A' <= c <= 'Z' then c - 'A' + 'a' else c
  }

  /** What follows the word at the start of the text. */
  function After(s: string, word: string): (rest: Option<string>)
  {
    if word == "" then Some(s)
    else if s == "" || Fold(s[0]) != word[0] then None
    else After(s[1..], word[1..])
  }

  predicate StartsPair(s: string, pair: (string, string))
  {
    var rest := After(s, pair.0);
    rest.Some? && rest.value != "" && IsSpace(rest.value[0]) && After(SkipSpaces(rest.value), pair.1).Some?
  }

  predicate StartsVocabulary(s: string)
  {
    (exists k :: 0 <= k < |WORDS| && After(s, WORDS[k]).Some?)
    || (exists k :: 0 <= k < |PAIRS| && StartsPair(s, PAIRS[k]))
  }

  /** `ANNOTATION_CONTENT_PATTERN` finds something in the text. */
  predicate HasVocabulary(s: string)
  {
    StartsVocabulary(s) || (s != "" && HasVocabulary(s[1..]))
  }

  // ---- the replacement -------------------------------------------------------------

  /** Up to, and without, the first closing parenthesis. */
  function Inner(s: string): (inner: string)
  {
    if s == "" || s[0] == ')' then "" else [s[0]] + Inner(s[1..])
  }

  predicate Closes(s: string) { |Inner(s)| < |s| }

  /** An annotated parenthetical starts right here. */
  predicate Opens(s: string)
  {
    s != "" && s[0] == '(' && Closes(s[1..]) && HasVocabulary(Inner(s[1..]))
  }

  /** `ANNOTATED_PARENTHETICAL_PATTERN` matches here, the white space before it included. */
  predicate Matches(s: string) { Opens(SkipSpaces(s)) }

  /** What the match at the start of the text leaves behind it. */
  function Behind(s: string): (rest: string)
    requires Matches(s)
    ensures |rest| < |s|
  {
    var open := SkipSpaces(s);
    open[|Inner(open[1..])| + 2..]
  }

  /** The global replacement: the leftmost match becomes one space, and the search goes on behind it. */
  function Replace(s: string): (text: string)
    decreases |s|
  {
    if s == "" then ""
    else if Matches(s) then " " + Replace(Behind(s))
    else [s[0]] + Replace(s[1..])
  }

  /** The captured contents, trimmed, in order. */
  function Annotations(s: string): (notes: seq<string>)
    decreases |s|
  {
    if s == "" then []
    else if Matches(s) then [Trim(Inner(SkipSpaces(s)[1..]))] + Annotations(Behind(s))
    else Annotations(s[1..])
  }

  /** `replace(/\s+/g, ' ')`. */
  function Collapse(s: string): (c: string)
    decreases |s|
  {
    if s == "" then ""
    else if IsSpace(s[0]) then " " + Collapse(SkipSpaces(s[1..]))
    else [s[0]] + Collapse(s[1..])
  }

  function TrimEnd(s: string): (t: string)
    ensures |t| <= |s|
  {
    if s == "" || !IsSpace(s[|s| - 1]) then s else TrimEnd(s[..|s| - 1])
  }

  function Trim(s: string): (t: string) { TrimEnd(SkipSpaces(s)) }

  /** `stripNameAnnotation`. */
  function Strip(name: string): (r: Stripped)
  {
    var notes := Annotations(name);
    Stripped(Trim(Collapse(Replace(name))), if notes == [] then None else Some(Join(notes, "; ")))
  }

  // ---- texts and their parts -------------------------------------------------------

  lemma Spaces()
    ensures IsSpace(' ') && !IsSpace('(') && !IsSpace(')')
    ensures forall c :: 'a' <= Fold(c) <= 'z' ==> !IsSpace(c)
    ensures !Opens("")
  {
  }

  predicate NoClose(s: string) { forall i :: 0 <= i < |s| ==> s[i] != ')' }

  /** A text, a closing parenthesis, and more. */
  function Around(a: string, b: string): (s: string) { a + ")" + b }

  lemma AroundParts(a: string, b: string)
    ensures |Around(a, b)| == |a| + 1 + |b|
    ensures a == "" ==> Around(a, b)[0] == ')' && Around(a, b)[1..] == b && Around(a, b) == [')'] + b
    ensures a != "" ==> Around(a, b)[0] == a[0] && Around(a, b)[1..] == Around(a[1..], b)
    ensures a != "" ==> Around(a, b) == [a[0]] + Around(a[1..], b)
  {
  }

  lemma {:induction false} SkipIsSuffix(s: string)
    ensures SkipSpaces(s) == s[|s| - |SkipSpaces(s)|..]
  {
    hide IsSpace;
    if s != "" && IsSpace(s[0]) {
      SkipIsSuffix(s[1..]);
    }
  }

  lemma {:induction false} TrimIsPrefix(s: string)
    ensures TrimEnd(s) == s[..|TrimEnd(s)|]
    ensures TrimEnd(s) != "" ==> !IsSpace(TrimEnd(s)[|TrimEnd(s)| - 1])
  {
    hide IsSpace;
    if s != "" && IsSpace(s[|s| - 1]) {
      TrimIsPrefix(s[..|s| - 1]);
    }
  }

  lemma {:induction false} InnerOf(a: string, b: string)
    requires NoClose(a)
    ensures Inner(Around(a, b)) == a && Closes(Around(a, b))
  {
    hide Around;
    AroundParts(a, b);
    if a != "" {
      InnerOf(a[1..], b);
    }
  }

  lemma {:induction false} InnerOfOpen(s: string)
    requires NoClose(s)
    ensures Inner(s) == s
  {
    if s != "" {
      InnerOfOpen(s[1..]);
    }
  }

  /** The first closing parenthesis cuts a text in two. */
  lemma {:induction false} InnerCuts(s: string)
    ensures NoClose(Inner(s))
    ensures if Closes(s) then s == Around(Inner(s), s[|Inner(s)| + 1..]) else Inner(s) == s
  {
    hide Around;
    if s == "" {
    } else if s[0] == ')' {
      AroundParts("", s[1..]);
    } else {
      var inner := Inner(s[1..]);
      InnerCuts(s[1..]);
      if Closes(s[1..]) {
        var rest := s[1..][|inner| + 1..];
        AroundParts(Inner(s), rest);
        assert rest == s[|Inner(s)| + 1..];
      }
    }
  }

  lemma {:induction false} SkipAround(a: string, b: string)
    ensures SkipSpaces(Around(a, b)) == Around(SkipSpaces(a), b)
  {
    Spaces();
    hide IsSpace, Around;
    AroundParts(a, b);
    if a != "" && IsSpace(a[0]) {
      SkipAround(a[1..], b);
    }
  }

  // ---- no annotation is left -------------------------------------------------------

  /** No annotated parenthetical anywhere. */
  predicate Free(s: string)
  {
    s == "" || (!Opens(s) && Free(s[1..]))
  }

  lemma {:induction false} VocabularySuffix(s: string, i: nat)
    requires i <= |s| && HasVocabulary(s[i..])
    ensures HasVocabulary(s)
  {
    hide StartsVocabulary;
    if i > 0 {
      assert s[1..][i - 1..] == s[i..];
      VocabularySuffix(s[1..], i - 1);
    } else {
      assert s[0..] == s;
    }
  }

  lemma SpaceOpensNot(s: string)
    requires s != "" && IsSpace(s[0])
    ensures !Opens(s)
  {
  }

  lemma {:induction false} FreeSkips(s: string)
    ensures Free(s) <==> Free(SkipSpaces(s))
  {
    hide Opens, IsSpace;
    if s != "" && IsSpace(s[0]) {
      FreeSkips(s[1..]);
      SpaceOpensNot(s);
    }
  }

  /** Without a closing parenthesis nothing matches. */
  lemma {:induction false} NothingToReplace(s: string)
    requires NoClose(s)
    ensures Replace(s) == s && Annotations(s) == []
  {
    hide HasVocabulary, IsSpace, Trim;
    if s != "" {
      var open := SkipSpaces(s);
      SkipIsSuffix(s);
      if open != "" {
        InnerOfOpen(open[1..]);
      }
      assert !Matches(s);
      NothingToReplace(s[1..]);
    }
  }

  /** Inside a parenthetical without vocabulary nothing matches. */
  lemma CopiedMatchesNot(inner: string, rest: string)
    requires NoClose(inner) && !HasVocabulary(inner)
    ensures !Matches(Around(inner, rest))
  {
    hide HasVocabulary, IsSpace, Around;
    var open := SkipSpaces(inner);
    SkipAround(inner, rest);
    SkipIsSuffix(inner);
    AroundParts(open, rest);
    if open != "" && open[0] == '(' {
      InnerOf(open[1..], rest);
      if HasVocabulary(open[1..]) {
        VocabularySuffix(open, 1);
        VocabularySuffix(inner, |inner| - |open|);
      }
    }
  }

  /** Such a parenthetical is copied, up to its end. */
  lemma {:induction false} ReplaceCopies(inner: string, rest: string)
    requires NoClose(inner) && !HasVocabulary(inner)
    ensures Replace(Around(inner, rest)) == Around(inner, Replace(rest))
  {
    hide HasVocabulary, Matches, Around;
    AroundParts(inner, rest);
    AroundParts(inner, Replace(rest));
    CopiedMatchesNot(inner, rest);
    if inner != "" {
      if HasVocabulary(inner[1..]) {
        VocabularySuffix(inner, 1);
      }
      ReplaceCopies(inner[1..], rest);
    }
  }

  /** A parenthesis the search passed over does not open an annotation afterwards either. */
  lemma KeptOpensNot(s: string)
    requires s != "" && !Matches(s)
    ensures !Opens([s[0]] + Replace(s[1..]))
  {
    Spaces();
    hide HasVocabulary, Replace, IsSpace, Around;
    var t := s[1..];
    if s[0] == '(' {
      var inner := Inner(t);
      InnerCuts(t);
      if Closes(t) {
        var rest := t[|inner| + 1..];
        ReplaceCopies(inner, rest);
        InnerOf(inner, Replace(rest));
      } else {
        NothingToReplace(t);
      }
    }
  }

  lemma {:induction false} ReplaceIsFree(s: string)
    ensures Free(Replace(s))
    decreases |s|
  {
    Spaces();
    hide Opens, Matches, IsSpace;
    if s != "" {
      if Matches(s) {
        var rest := Replace(Behind(s));
        ReplaceIsFree(Behind(s));
        SpaceOpensNot(" " + rest);
      } else {
        ReplaceIsFree(s[1..]);
        KeptOpensNot(s);
      }
    }
  }

  // ---- white space does not matter -------------------------------------------------

  lemma CollapseHead(s: string)
    requires s != "" && !IsSpace(s[0])
    ensures Collapse(s) != "" && Collapse(s)[0] == s[0] && Collapse(s)[1..] == Collapse(s[1..])
  {
    hide IsSpace;
  }

  lemma CollapseSkips(s: string)
    requires s != "" && IsSpace(s[0])
    ensures |SkipSpaces(s)| < |s|
    ensures Collapse(s) == " " + Collapse(SkipSpaces(s)) && Collapse(s)[1..] == Collapse(SkipSpaces(s))
    ensures SkipSpaces(Collapse(s)) == Collapse(SkipSpaces(s))
  {
    Spaces();
    hide IsSpace;
    var rest := SkipSpaces(s[1..]);
    if rest != "" {
      CollapseHead(rest);
    }
  }

  lemma {:induction false} AfterCollapse(s: string, word: string)
    requires forall i :: 0 <= i < |word| ==> 'a' <= word[i] <= 'z'
    ensures After(s, word).Some? <==> After(Collapse(s), word).Some?
    ensures After(s, word).Some? ==> After(Collapse(s), word) == Some(Collapse(After(s, word).value))
  {
    Spaces();
    hide IsSpace;
    if word != "" && s != "" {
      if IsSpace(s[0]) {
        CollapseSkips(s);
        assert Collapse(s)[0] == ' ';
      } else {
        CollapseHead(s);
        AfterCollapse(s[1..], word[1..]);
      }
    }
  }

  lemma PairCollapse(s: string, pair: (string, string))
    requires forall i :: 0 <= i < |pair.0| ==> 'a' <= pair.0[i] <= 'z'
    requires forall i :: 0 <= i < |pair.1| ==> 'a' <= pair.1[i] <= 'z'
    ensures StartsPair(s, pair) <==> StartsPair(Collapse(s), pair)
  {
    Spaces();
    hide IsSpace, After;
    AfterCollapse(s, pair.0);
    if After(s, pair.0).Some? {
      var rest := After(s, pair.0).value;
      if rest != "" {
        if IsSpace(rest[0]) {
          CollapseSkips(rest);
          AfterCollapse(SkipSpaces(rest), pair.1);
        } else {
          CollapseHead(rest);
        }
      }
    }
  }

  lemma VocabularyIsLetters()
    ensures forall k, i :: 0 <= k < |WORDS| && 0 <= i < |WORDS[k]| ==> 'a' <= WORDS[k][i] <= 'z'
    ensures forall k, i :: 0 <= k < |PAIRS| && 0 <= i < |PAIRS[k].0| ==> 'a' <= PAIRS[k].0[i] <= 'z'
    ensures forall k, i :: 0 <= k < |PAIRS| && 0 <= i < |PAIRS[k].1| ==> 'a' <= PAIRS[k].1[i] <= 'z'
    ensures forall k :: 0 <= k < |WORDS| ==> WORDS[k] != ""
    ensures forall k :: 0 <= k < |PAIRS| ==> PAIRS[k].0 != ""
  {
  }

  lemma StartCollapse(s: string)
    ensures StartsVocabulary(s) <==> StartsVocabulary(Collapse(s))
    ensures s == "" || IsSpace(s[0]) ==> !StartsVocabulary(s)
  {
    VocabularyIsLetters();
    Spaces();
    hide Collapse, WORDS, PAIRS, IsSpace;
    forall k | 0 <= k < |WORDS|
      ensures After(s, WORDS[k]).Some? <==> After(Collapse(s), WORDS[k]).Some?
    {
      AfterCollapse(s, WORDS[k]);
    }
    forall k | 0 <= k < |PAIRS|
      ensures StartsPair(s, PAIRS[k]) <==> StartsPair(Collapse(s), PAIRS[k])
    {
      PairCollapse(s, PAIRS[k]);
    }
  }

  lemma {:induction false} VocabularySkips(s: string)
    ensures HasVocabulary(s) <==> HasVocabulary(SkipSpaces(s))
  {
    hide StartsVocabulary, IsSpace;
    StartCollapse(s);
    if s != "" && IsSpace(s[0]) {
      VocabularySkips(s[1..]);
    }
  }

  lemma {:induction false} VocabularyCollapse(s: string)
    ensures HasVocabulary(s) <==> HasVocabulary(Collapse(s))
    decreases |s|
  {
    hide StartsVocabulary, IsSpace;
    StartCollapse(s);
    if s != "" {
      if IsSpace(s[0]) {
        CollapseSkips(s);
        VocabularySkips(s);
        VocabularyCollapse(SkipSpaces(s));
        VocabularySkips(Collapse(s));
      } else {
        CollapseHead(s);
        VocabularyCollapse(s[1..]);
      }
    }
  }

  lemma {:induction false} CollapseAround(a: string, b: string)
    ensures Collapse(Around(a, b)) == Around(Collapse(a), Collapse(b))
    decreases |a|
  {
    Spaces();
    hide IsSpace, Around;
    AroundParts(a, b);
    AroundParts(Collapse(a), Collapse(b));
    if a != "" && IsSpace(a[0]) {
      CollapseSkips(a);
      CollapseSkips(Around(a, b));
      SkipAround(a, b);
      CollapseAround(SkipSpaces(a), b);
    } else if a != "" {
      CollapseHead(a);
      CollapseAround(a[1..], b);
    }
  }

  lemma {:induction false} CollapseKeepsOut(s: string)
    requires NoClose(s)
    ensures NoClose(Collapse(s))
    decreases |s|
  {
    hide IsSpace;
    if s != "" {
      if IsSpace(s[0]) {
        SkipIsSuffix(s[1..]);
        CollapseKeepsOut(SkipSpaces(s[1..]));
      } else {
        CollapseKeepsOut(s[1..]);
      }
    }
  }

  lemma OpensCollapse(s: string)
    requires s != "" && !IsSpace(s[0])
    ensures Opens(Collapse(s)) <==> Opens(s)
  {
    hide HasVocabulary, IsSpace, Around, Collapse;
    var t := s[1..];
    CollapseHead(s);
    InnerCuts(t);
    if Closes(t) {
      var inner := Inner(t);
      var rest := t[|inner| + 1..];
      CollapseAround(inner, rest);
      CollapseKeepsOut(inner);
      InnerOf(Collapse(inner), Collapse(rest));
      VocabularyCollapse(inner);
    } else {
      CollapseKeepsOut(t);
      InnerOfOpen(Collapse(t));
    }
  }

  lemma {:induction false} FreeCollapse(s: string)
    requires Free(s)
    ensures Free(Collapse(s))
    decreases |s|
  {
    Spaces();
    hide Opens, IsSpace;
    if s != "" {
      if IsSpace(s[0]) {
        CollapseSkips(s);
        FreeSkips(s);
        FreeCollapse(SkipSpaces(s));
        SpaceOpensNot(Collapse(s));
      } else {
        CollapseHead(s);
        OpensCollapse(s);
        FreeCollapse(s[1..]);
      }
    }
  }

  lemma OpensLonger(s: string, more: string)
    requires Opens(s)
    ensures Opens(s + more)
  {
    hide HasVocabulary;
    var t := s[1..];
    InnerCuts(t);
    var rest := t[|Inner(t)| + 1..];
    assert (s + more)[1..] == Around(Inner(t), rest + more);
    InnerOf(Inner(t), rest + more);
  }

  lemma {:induction false} FreePrefix(s: string, more: string)
    requires Free(s + more)
    ensures Free(s)
  {
    hide Opens;
    if s != "" {
      if Opens(s) {
        OpensLonger(s, more);
      }
      assert (s + more)[1..] == s[1..] + more;
      FreePrefix(s[1..], more);
    }
  }

  lemma FreeTrim(s: string)
    requires Free(s)
    ensures Free(Trim(s))
  {
    hide Opens, Free, IsSpace;
    FreeSkips(s);
    var t := SkipSpaces(s);
    TrimIsPrefix(t);
    var u := TrimEnd(t);
    assert t == u + t[|u|..];
    FreePrefix(u, t[|u|..]);
  }

  // ---- stripping a stripped name ---------------------------------------------------

  lemma FreeMatchesNot(s: string)
    requires Free(s)
    ensures !Matches(s)
  {
    hide HasVocabulary, IsSpace;
    FreeSkips(s);
  }

  lemma {:induction false} FreeIsKept(s: string)
    requires Free(s)
    ensures Replace(s) == s && Annotations(s) == []
  {
    hide Opens, Matches, Trim;
    if s != "" {
      FreeMatchesNot(s);
      FreeIsKept(s[1..]);
    }
  }

  /** Single plain spaces only. */
  predicate Collapsed(s: string)
  {
    s == "" || ((IsSpace(s[0]) ==> s[0] == ' ' && (|s| > 1 ==> !IsSpace(s[1]))) && Collapsed(s[1..]))
  }

  lemma {:induction false} CollapseIsCollapsed(s: string)
    ensures Collapsed(Collapse(s))
    decreases |s|
  {
    hide IsSpace;
    if s != "" {
      if IsSpace(s[0]) {
        var rest := SkipSpaces(s);
        CollapseSkips(s);
        CollapseIsCollapsed(rest);
        if rest != "" {
          CollapseHead(rest);
          assert Collapse(s)[1] == Collapse(rest)[0];
        }
      } else {
        CollapseHead(s);
        CollapseIsCollapsed(s[1..]);
      }
    }
  }

  lemma {:induction false} CollapsedIsKept(s: string)
    requires Collapsed(s)
    ensures Collapse(s) == s
  {
    hide IsSpace;
    if s != "" {
      CollapsedIsKept(s[1..]);
    }
  }

  lemma {:induction false} CollapsedSkip(s: string)
    requires Collapsed(s)
    ensures Collapsed(SkipSpaces(s))
  {
    hide IsSpace;
    if s != "" && IsSpace(s[0]) {
      CollapsedSkip(s[1..]);
    }
  }

  lemma {:induction false} CollapsedPrefix(s: string, k: nat)
    requires Collapsed(s) && k <= |s|
    ensures Collapsed(s[..k])
  {
    hide IsSpace;
    if k > 0 {
      assert s[..k][1..] == s[1..][..k - 1];
      CollapsedPrefix(s[1..], k - 1);
    }
  }

  lemma TrimCollapsed(s: string)
    requires Collapsed(s)
    ensures Collapsed(Trim(s)) && Trim(Trim(s)) == Trim(s)
  {
    hide IsSpace;
    var t := SkipSpaces(s);
    CollapsedSkip(s);
    TrimIsPrefix(t);
    CollapsedPrefix(t, |TrimEnd(t)|);
  }

  /** Stripping a stripped name finds no annotation and changes nothing. */
  lemma StripTwice(name: string)
    ensures Strip(Strip(name).displayName) == Stripped(Strip(name).displayName, None)
  {
    hide Free, Replace, Annotations, Collapse, Trim, Collapsed;
    var replaced := Replace(name);
    var base := Trim(Collapse(replaced));
    ReplaceIsFree(name);
    FreeCollapse(replaced);
    FreeTrim(Collapse(replaced));
    FreeIsKept(base);
    CollapseIsCollapsed(replaced);
    TrimCollapsed(Collapse(replaced));
    CollapsedIsKept(base);
  }

  /** A name yields an annotation exactly when an annotated parenthetical is in it; else only spaces change. */
  lemma AnnotatedIff(name: string)
    ensures Strip(name).annotation.Some? <==> !Free(name)
    ensures Free(name) ==> Strip(name).displayName == Trim(Collapse(name))
  {
    hide Opens, Trim, Collapse;
    if Free(name) {
      FreeIsKept(name);
    } else {
      SomeAnnotation(name);
    }
  }

  lemma {:induction false} SomeAnnotation(s: string)
    requires !Free(s)
    ensures Annotations(s) != []
  {
    hide Trim, Opens, Matches;
    if !Matches(s) {
      OpenMatches(s);
      SomeAnnotation(s[1..]);
    }
  }

  lemma OpenMatches(s: string)
    ensures Opens(s) ==> Matches(s)
  {
    Spaces();
    hide HasVocabulary, IsSpace;
  }

  // ---- what a stripped name says ---------------------------------------------------

  predicate NoOpen(s: string) { forall i :: 0 <= i < |s| ==> s[i] != '(' }

  /** A text, a parenthetical, and more. */
  function WithNote(before: string, note: string, after: string): (s: string)
  {
    before + ("(" + Around(note, after))
  }

  lemma WithNoteParts(before: string, note: string, after: string)
    ensures before == "" ==> WithNote(before, note, after) == "(" + Around(note, after)
    ensures before != "" ==>
              var s := WithNote(before, note, after);
              s != "" && s[0] == before[0] && s[1..] == WithNote(before[1..], note, after)
  {
    assert before == "" ==> before + ("(" + Around(note, after)) == "(" + Around(note, after);
  }

  lemma NoteCut(note: string, after: string)
    requires NoClose(note)
    ensures var s := "(" + Around(note, after);
            s[0] == '(' && s[1..] == Around(note, after) && s[|note| + 2..] == after
  {
    AroundParts(note, after);
  }

  lemma {:induction false} SkipToNote(before: string, note: string, after: string)
    ensures SkipSpaces(WithNote(before, note, after)) == WithNote(SkipSpaces(before), note, after)
  {
    Spaces();
    WithNoteParts(before, note, after);
    hide IsSpace, WithNote;
    if before == "" {
      assert ("(" + Around(note, after))[0] == '(';
    } else if IsSpace(before[0]) {
      SkipToNote(before[1..], note, after);
    }
  }

  lemma TrimEndCons(s: string)
    requires s != ""
    ensures SkipSpaces(s) == "" ==> TrimEnd(s) == ""
    ensures SkipSpaces(s) != "" ==> TrimEnd(s) == [s[0]] + TrimEnd(s[1..])
    decreases |s|
  {
    hide IsSpace;
    var front := s[..|s| - 1];
    if !IsSpace(s[|s| - 1]) {
      NotAllSpaces(s);
      assert |s| > 1 ==> s[1..][|s| - 2] == s[|s| - 1];
    } else if front == "" {
      assert s[1..] == "";
    } else {
      TrimEndCons(front);
      SkipFront(s);
      assert s[1..][..|s| - 2] == front[1..];
      assert s[1..][|s| - 2] == s[|s| - 1];
    }
  }

  lemma {:induction false} NotAllSpaces(s: string)
    requires s != "" && !IsSpace(s[|s| - 1])
    ensures SkipSpaces(s) != ""
  {
    hide IsSpace;
    if |s| > 1 {
      assert s[1..][|s| - 2] == s[|s| - 1];
      NotAllSpaces(s[1..]);
    }
  }

  lemma {:induction false} SkipFront(s: string)
    requires s != "" && IsSpace(s[|s| - 1])
    ensures SkipSpaces(s) == "" <==> SkipSpaces(s[..|s| - 1]) == ""
  {
    hide IsSpace;
    if |s| > 1 && IsSpace(s[0]) {
      assert s[1..][|s| - 2] == s[|s| - 1];
      SkipFront(s[1..]);
      assert s[1..][..|s| - 2] == s[..|s| - 1][1..];
    }
  }

  /**
   * The first annotated parenthetical, after a text without an opening one: it is replaced, with the
   * white space before it, by one space, its trimmed content is the first annotation, and the search
   * goes on behind it.
   */
  lemma {:induction false} FirstNote(before: string, note: string, after: string)
    requires NoOpen(before) && NoClose(note) && HasVocabulary(note)
    ensures Replace(WithNote(before, note, after)) == TrimEnd(before) + (" " + Replace(after))
    ensures Annotations(WithNote(before, note, after)) == [Trim(note)] + Annotations(after)
  {
    hide IsSpace, HasVocabulary, Trim, WithNote, Around;
    var s := WithNote(before, note, after);
    SkipToNote(before, note, after);
    SkipIsSuffix(before);
    WithNoteParts(SkipSpaces(before), note, after);
    WithNoteParts(before, note, after);
    NoteCut(note, after);
    InnerOf(note, after);
    if SkipSpaces(before) == "" {
      assert Matches(s) && Behind(s) == after;
      if before != "" {
        TrimEndCons(before);
      }
      assert TrimEnd(before) + (" " + Replace(after)) == " " + Replace(after);
    } else {
      assert !Matches(s);
      TrimEndCons(before);
      FirstNote(before[1..], note, after);
      assert TrimEnd(before) + (" " + Replace(after)) == [before[0]] + (TrimEnd(before[1..]) + (" " + Replace(after)));
    }
  }

  lemma {:induction false} NoNote(s: string)
    requires NoOpen(s)
    ensures Replace(s) == s && Annotations(s) == []
  {
    hide HasVocabulary, IsSpace, Trim;
    if s != "" {
      SkipIsSuffix(s);
      assert !Matches(s);
      NoNote(s[1..]);
    }
  }

  lemma TwoJoined(a: string, b: string)
    ensures Join([a], "; ") == a && Join([a] + [b], "; ") == a + "; " + b
  {
    assert ([a] + [b])[1..] == [b];
  }

  /** A name with one note, or with two: what is shown, and what the annotation says. */
  lemma NotesAreKept(name: string, note: string, middle: string, second: string, rest: string)
    requires NoOpen(name) && NoOpen(middle) && NoOpen(rest)
    requires NoClose(note) && NoClose(second) && HasVocabulary(note) && HasVocabulary(second)
    ensures Strip(WithNote(name, note, rest))
         == Stripped(Trim(Collapse(TrimEnd(name) + (" " + rest))), Some(Trim(note)))
    ensures Strip(WithNote(name, note, WithNote(middle, second, rest)))
         == Stripped(Trim(Collapse(TrimEnd(name) + (" " + (TrimEnd(middle) + (" " + rest))))),
                     Some(Trim(note) + "; " + Trim(second)))
  {
    hide HasVocabulary, Trim, TrimEnd, Collapse, WithNote, Replace, Annotations;
    FirstNote(name, note, rest);
    FirstNote(name, note, WithNote(middle, second, rest));
    FirstNote(middle, second, rest);
    NoNote(rest);
    assert [Trim(note)] + [] == [Trim(note)];
    assert [Trim(second)] + [] == [Trim(second)];
    TwoJoined(Trim(note), Trim(second));
  }

  // ---- which notes count -----------------------------------------------------------

  /** The word in capital letters, small ones or both. */
  predicate IsWritten(written: string, word: string)
  {
    |written| == |word|
    && forall i :: 0 <= i < |word| ==>
         'a' <= word[i] <= 'z' && (written[i] == word[i] || written[i] == word[i] - 'a' + 'A')
  }

  lemma {:induction false} AfterItself(written: string, word: string, more: string)
    requires IsWritten(written, word)
    ensures After(written + more, word) == Some(more)
  {
    if word == "" {
      assert written + more == more;
    } else {
      AfterItself(written[1..], word[1..], more);
      assert (written + more)[1..] == written[1..] + more;
    }
  }

  /** The words of merchant commentary, in capitals or not, wherever they stand in the note. */
  lemma CommentaryCounts(before: string, word: string, written: string, more: string)
    requires || word == "saatavuus" || word == "rajallinen" || word == "rajoitettu" || word == "loppu"
             || word == "asiaka" || word == "asiakka" || word == "varastossa" || word == "varaston"
             || word == "ennakkotilaus" || word == "availability" || word == "limited" || word == "limit"
             || word == "restock"
    requires IsWritten(written, word)
    ensures HasVocabulary(before + written + more)
  {
    InWords(word);
    hide WORDS;
    var k :| 0 <= k < |WORDS| && WORDS[k] == word;
    AfterItself(written, word, more);
    assert StartsVocabulary(written + more);
    hide IsWritten;
    assert (before + written + more)[|before|..] == written + more;
    VocabularySuffix(before + written + more, |before|);
  }

  lemma InWords(word: string)
    ensures word in WORDS <==>
              || word == "saatavuus" || word == "rajallinen" || word == "rajoitettu" || word == "loppu"
              || word == "asiaka" || word == "asiakka" || word == "varastossa" || word == "varaston"
              || word == "ennakkotilaus" || word == "availability" || word == "limited" || word == "limit"
              || word == "restock"
  {
  }

  lemma PairCounts(before: string, first: string, second: string, more: string)
    requires (first, second) in PAIRS
    requires forall i :: 0 <= i < |first| ==> 'a' <= first[i] <= 'z'
    requires second != "" && forall i :: 0 <= i < |second| ==> 'a' <= second[i] <= 'z'
    ensures HasVocabulary(before + (first + " " + (second + more)))
  {
    hide PAIRS;
    var k :| 0 <= k < |PAIRS| && PAIRS[k] == (first, second);
    var here := first + " " + (second + more);
    Spaces();
    AfterItself(second, second, more);
    AfterItself(first, first, " " + (second + more));
    assert here == first + (" " + (second + more));
    var rest := " " + (second + more);
    assert rest[1..] == second + more;
    assert Fold(second[0]) == second[0];
    hide IsSpace;
    assert SkipSpaces(rest) == second + more;
    assert StartsPair(here, PAIRS[k]);
    assert StartsVocabulary(here);
    assert (before + here)[|before|..] == here;
    VocabularySuffix(before + here, |before|);
  }

  lemma PairsCount(before: string, more: string)
    ensures HasVocabulary(before + ("sold" + " " + ("out" + more)))
    ensures HasVocabulary(before + ("in" + " " + ("stock" + more)))
    ensures HasVocabulary(before + ("while" + " " + ("stocks" + more)))
    ensures HasVocabulary(before + ("per" + " " + ("customer" + more)))
  {
    hide HasVocabulary;
    PairCounts(before, "sold", "out", more);
    PairCounts(before, "in", "stock", more);
    PairCounts(before, "while", "stocks", more);
    PairCounts(before, "per", "customer", more);
  }

  lemma {:induction false} AfterMatches(s: string, word: string)
    ensures After(s, word).Some? ==> |word| <= |s| && forall i :: 0 <= i < |word| ==> Fold(s[i]) == word[i]
  {
    hide Fold;
    if word != "" && After(s, word).Some? {
      AfterMatches(s[1..], word[1..]);
      assert forall i :: 1 <= i < |word| ==> word[i] == word[1..][i - 1] && s[i] == s[1..][i - 1];
    }
  }

  /** Digits, signs and white space, and the letters of `x`, `l`, `cl` and `ml`. */
  predicate IsNotation(s: string)
  {
    forall i :: 0 <= i < |s| ==>
      !('a' <= Fold(s[i]) <= 'z') || s[i] == 'x' || s[i] == 'l' || s[i] == 'c' || s[i] == 'm'
  }

  lemma NoWordHere(s: string, word: string)
    requires IsNotation(s) && word in WORDS
    ensures After(s, word).None?
  {
    InWords(word);
    AfterMatches(s, word);
    hide WORDS, After;
    assert word[0] != 'l' ==> word[0] != 'x' && word[0] != 'c' && word[0] != 'm';
    assert word[0] == 'l' ==> word[1] == 'i' || word[1] == 'o';
  }

  lemma NoPairHere(s: string, k: nat)
    requires IsNotation(s) && k < |PAIRS|
    ensures !StartsPair(s, PAIRS[k])
  {
    AfterMatches(s, PAIRS[k].0);
    hide After;
    assert PAIRS[k].0[0] == 's' || PAIRS[k].0[0] == 'i' || PAIRS[k].0[0] == 'w' || PAIRS[k].0[0] == 'p';
  }

  /** Pack notation such as `24 x 0,33 l` never counts. */
  lemma {:induction false} PackNotationStays(s: string)
    requires IsNotation(s)
    ensures !HasVocabulary(s)
  {
    hide StartsPair, After, Fold, WORDS, PAIRS;
    forall k | 0 <= k < |WORDS|
      ensures After(s, WORDS[k]).None?
    {
      NoWordHere(s, WORDS[k]);
    }
    forall k | 0 <= k < |PAIRS|
      ensures !StartsPair(s, PAIRS[k])
    {
      NoPairHere(s, k);
    }
    if s != "" {
      PackNotationStays(s[1..]);
    }
  }

  // ---- the gate's assumptions ------------------------------------------------------

  /** `classifyNameQuality` over the real stripper; the informativeness test stays a parameter. */
  function NameGate(informative: string -> bool): (g: Gate)
  {
    Gate(Strip, informative, name => Trim(name) == "")
  }

  lemma {:induction false} TrimmedAway(s: string)
    requires SkipSpaces(s) == ""
    ensures Replace(s) == s && SkipSpaces(Collapse(s)) == ""
  {
    Spaces();
    hide Opens, IsSpace;
    if s != "" {
      TrimmedAway(s[1..]);
      assert !Matches(s);
      assert s == [s[0]] + s[1..];
      CollapseSkips(s);
    }
  }

  lemma BlankIsSpaces(s: string)
    requires Trim(s) == ""
    ensures SkipSpaces(s) == ""
  {
    hide IsSpace;
    var t := SkipSpaces(s);
    if t != "" {
      FirstStays(t);
    }
  }

  lemma {:induction false} FirstStays(t: string)
    requires t != "" && !IsSpace(t[0])
    ensures TrimEnd(t) != ""
  {
    hide IsSpace;
    if |t| > 1 {
      FirstStays(t[..|t| - 1]);
    }
  }

  /** What the write plan relies on holds of the real stripper, if an empty name is uninformative. */
  lemma GateIsSound(informative: string -> bool)
    requires !informative("")
    ensures StripIsStable(NameGate(informative))
    ensures BlankIsUninformative(NameGate(informative))
  {
    var g := NameGate(informative);
    forall name
      ensures g.strip(g.strip(name).displayName) == Stripped(g.strip(name).displayName, None)
    {
      StripTwice(name);
    }
    forall name | g.blank(name)
      ensures Classify(g, name).Quarantined?
    {
      BlankIsSpaces(name);
      TrimmedAway(name);
      assert Strip(name).displayName == "";
    }
  }

  /** With the real stripper the backfill is idempotent, whatever the informativeness test. */
  lemma BackfillConverges(informative: string -> bool, table: seq<Row>)
    requires DistinctIds(table)
    ensures var g := NameGate(informative);
            Plan(ClassifyAll(g, Execute(table, Plan(ClassifyAll(g, table))))) == []
  {
    hide Strip, Plan, Execute;
    var g := NameGate(informative);
    forall name
      ensures g.strip(g.strip(name).displayName) == Stripped(g.strip(name).displayName, None)
    {
      StripTwice(name);
    }
    ApplyConverges(g, table);
  }
}
