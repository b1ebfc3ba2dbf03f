/** The SQL emission of scripts/etl-pg-to-d1.ts and its round trip through the SQL reader. */
module InsertStatements {
  import opened Wrappers
  import opened Chunking
  import opened SqlValues
  import opened SqlReader
  import opened Wire

  /** `(v1, v2, …)`. */
  function RenderTuple(tuple: seq<string>): (s: string) { "(" + Join(tuple, ", ") + ")" }

  function RenderTuples(tuples: seq<seq<string>>): (rendered: seq<string>)
  {
    if tuples == [] then [] else [RenderTuple(tuples[0])] + RenderTuples(tuples[1..])
  }

  function QuoteNames(columns: seq<string>): (quoted: seq<string>)
    ensures |quoted| == |columns|
  {
    if columns == [] then [] else ["\"" + columns[0] + "\""] + QuoteNames(columns[1..])
  }

  /** One multi-row statement. */
  function Statement(table: string, columns: seq<string>, tuples: seq<seq<string>>): (s: string)
  {
    "INSERT OR IGNORE INTO " + "\"" + table + "\"" + " (" + Join(QuoteNames(columns), ", ") + ") VALUES\n"
    + Join(RenderTuples(tuples), ",\n") + ";"
  }

  function Statements(table: string, columns: seq<string>, batches: seq<seq<seq<string>>>): (all: seq<string>)
  {
    if batches == [] then []
    else [Statement(table, columns, batches[0])] + Statements(table, columns, batches[1..])
  }

  /** `buildInsertStatements`: one statement per slice of `batchSize` rows. */
  method BuildInsertStatements(table: string, columns: seq<string>, tuples: seq<seq<string>>, batchSize: nat)
    returns (statements: seq<string>)
    requires 1 <= batchSize
    ensures statements == Statements(table, columns, Chunks(tuples, batchSize))
  {
    hide Statement;
    statements := [];
    var i := 0;
    assert Drop(tuples, 0) == tuples;
    while i < |tuples|
      invariant 0 <= i
      invariant statements + Statements(table, columns, Chunks(Drop(tuples, i), batchSize))
             == Statements(table, columns, Chunks(tuples, batchSize))
      decreases |tuples| - i
    {
      ChunksStep(tuples, i, batchSize);
      var chunk := Slice(tuples, i, batchSize);
      statements := statements + [Statement(table, columns, chunk)];
      i := i + batchSize;
    }
  }

  /** The provenance comment over each artifact: every line is a `--` comment. */
  predicate IsComment(lines: seq<string>)
  {
    forall i :: 0 <= i < |lines| ==> "--" <= lines[i] && NoChar(lines[i], '\n')
  }

  function CommentBlock(lines: seq<string>): (s: string)
  {
    if lines == [] then "" else lines[0] + "\n" + CommentBlock(lines[1..])
  }

  /** A whole `NN-<table>.d1.sql` artifact. */
  function Script(comment: seq<string>, statements: seq<string>): (s: string)
  {
    CommentBlock(comment) + (Join(statements, "\n\n") + "\n")
  }

  // ---- reading it back -------------------------------------------------------------

  ghost predicate DenotesRow(tuple: seq<string>, row: seq<D1Value>)
  {
    |tuple| == |row| && forall j :: 0 <= j < |tuple| ==> Denotes(tuple[j], row[j])
  }

  ghost predicate DenotesRows(tuples: seq<seq<string>>, rows: seq<seq<D1Value>>)
  {
    |tuples| == |rows| && forall i :: 0 <= i < |tuples| ==> tuples[i] != [] && DenotesRow(tuples[i], rows[i])
  }

  lemma {:induction false} ReadCells(tuple: seq<string>, row: seq<D1Value>, rest: string)
    requires tuple != [] && DenotesRow(tuple, row)
    ensures ParseCells(Lex(Join(tuple, ", ") + ")" + rest)) == Some((row, Lex(rest)))
  {
    hide Lex, Literal, TokenOf, ParseCells;
    var t, d := tuple[0], row[0];
    assert Denotes(t, d);
    if |tuple| == 1 {
      var close := ")" + rest;
      assert t + ")" + rest == t + close;
      LexMark(')', rest);
      assert Lex(t + close) == [TokenOf(d)] + ([Mark(')')] + Lex(rest));
      assert row == [d];
      FinalCell(TokenOf(d), Lex(rest));
    } else {
      var tail := Join(tuple[1..], ", ") + ")" + rest;
      assert Join(tuple, ", ") + ")" + rest == t + (", " + tail);
      LexCommaSpace(tail);
      assert Lex(t + (", " + tail)) == [TokenOf(d)] + ([Mark(',')] + Lex(tail));
      ReadCells(tuple[1..], row[1..], rest);
      NextCell(TokenOf(d), Lex(tail));
      assert row == [d] + row[1..];
    }
  }

  lemma LexCommaSpace(tail: string)
    ensures Lex(", " + tail) == [Mark(',')] + Lex(tail)
    ensures Lex(",\n" + tail) == [Mark(',')] + Lex(tail)
  {
    hide Lex;
    LexMark(',', " " + tail);
    LexMark(',', "\n" + tail);
    LexSpace(' ', tail);
    LexSpace('\n', tail);
    assert ", " + tail == "," + (" " + tail);
    assert ",\n" + tail == "," + ("\n" + tail);
  }

  lemma FinalCell(t: Token, rest: seq<Token>)
    requires Literal(t).Some?
    ensures ParseCells([t] + ([Mark(')')] + rest)) == Some(([Literal(t).value], rest))
  {
    hide Literal;
    assert ([t] + ([Mark(')')] + rest))[2..] == rest;
  }

  lemma NextCell(t: Token, rest: seq<Token>)
    requires Literal(t).Some? && ParseCells(rest).Some?
    ensures ParseCells([t] + ([Mark(',')] + rest))
         == Some(([Literal(t).value] + ParseCells(rest).value.0, ParseCells(rest).value.1))
  {
    hide Literal;
    assert ([t] + ([Mark(',')] + rest))[2..] == rest;
  }

  lemma {:induction false} ReadNames(columns: seq<string>, rest: string)
    requires columns != [] && forall i :: 0 <= i < |columns| ==> NoChar(columns[i], '"')
    ensures ParseNames(Lex(Join(QuoteNames(columns), ", ") + ")" + rest)) == Some((columns, Lex(rest)))
  {
    hide Lex, LexesTo;
    var name := columns[0];
    var quoted := "\"" + name + "\"";
    if |columns| == 1 {
      assert QuoteNames(columns) == [quoted];
      assert Join(QuoteNames(columns), ", ") + ")" + rest == quoted + (")" + rest);
      LexName(name, ")" + rest);
      LexMark(')', rest);
      assert columns == [name];
      FinalName(name, Lex(rest));
    } else {
      var tail := Join(QuoteNames(columns[1..]), ", ") + ")" + rest;
      assert QuoteNames(columns)[1..] == QuoteNames(columns[1..]);
      assert Join(QuoteNames(columns), ", ") + ")" + rest == quoted + (", " + tail);
      LexName(name, ", " + tail);
      LexCommaSpace(tail);
      ReadNames(columns[1..], rest);
      NextName(name, Lex(tail));
      assert columns == [name] + columns[1..];
    }
  }

  lemma FinalName(name: string, rest: seq<Token>)
    ensures ParseNames([Name(name)] + ([Mark(')')] + rest)) == Some(([name], rest))
  {
    assert ([Name(name)] + ([Mark(')')] + rest))[2..] == rest;
  }

  lemma NextName(name: string, rest: seq<Token>)
    requires ParseNames(rest).Some?
    ensures ParseNames([Name(name)] + ([Mark(',')] + rest))
         == Some(([name] + ParseNames(rest).value.0, ParseNames(rest).value.1))
  {
    assert ([Name(name)] + ([Mark(',')] + rest))[2..] == rest;
  }

  lemma {:induction false} ReadTuples(tuples: seq<seq<string>>, rows: seq<seq<D1Value>>, rest: string)
    requires tuples != [] && DenotesRows(tuples, rows)
    ensures ParseTuples(Lex(Join(RenderTuples(tuples), ",\n") + ";" + rest)) == Some((rows, Lex(rest)))
  {
    hide Lex, ParseCells, DenotesRow;
    var cells := Join(tuples[0], ", ");
    if |tuples| == 1 {
      var after := ";" + rest;
      assert RenderTuples(tuples) == [RenderTuple(tuples[0])];
      assert Join(RenderTuples(tuples), ",\n") + ";" + rest == "(" + (cells + ")" + after);
      LexMark('(', cells + ")" + after);
      ReadCells(tuples[0], rows[0], after);
      LexMark(';', rest);
      assert rows == [rows[0]];
    } else {
      var tail := Join(RenderTuples(tuples[1..]), ",\n") + ";" + rest;
      var after := ",\n" + tail;
      assert RenderTuples(tuples)[1..] == RenderTuples(tuples[1..]);
      assert Join(RenderTuples(tuples), ",\n") + ";" + rest == "(" + (cells + ")" + after);
      LexMark('(', cells + ")" + after);
      ReadCells(tuples[0], rows[0], after);
      LexCommaSpace(tail);
      ReadTuples(tuples[1..], rows[1..], rest);
      assert rows == [rows[0]] + rows[1..];
    }
  }

  lemma LexKeyword(w: string, rest: string)
    requires IsWord(w)
    ensures Lex(w + " " + rest) == [Word(w)] + Lex(rest)
    ensures Lex(w + "\n" + rest) == [Word(w)] + Lex(rest)
  {
    hide Lex;
    assert w + " " + rest == w + (" " + rest) && w + "\n" + rest == w + ("\n" + rest);
    LexWord(w, " " + rest);
    LexWord(w, "\n" + rest);
    LexSpace(' ', rest);
    LexSpace('\n', rest);
  }

  lemma KeywordsAreWords()
    ensures IsWord("INTO") && IsWord("IGNORE") && IsWord("OR") && IsWord("INSERT") && IsWord("VALUES")
  {
  }

  lemma InsertText(rest: string)
    ensures "INSERT" + " " + ("OR" + " " + ("IGNORE" + " " + ("INTO" + " " + rest)))
         == "INSERT OR IGNORE INTO " + rest
  {
    assert "INSERT" + " " + ("OR" + " " + ("IGNORE" + " " + ("INTO" + " ")))
        == "INSERT OR IGNORE INTO ";
  }

  lemma LexInsertWords(rest: string)
    ensures Lex("INSERT OR IGNORE INTO " + rest) == INSERT_WORDS + Lex(rest)
  {
    hide Lex, IsWord;
    KeywordsAreWords();
    InsertText(rest);
    LexKeyword("INTO", rest);
    LexKeyword("IGNORE", "INTO" + " " + rest);
    LexKeyword("OR", "IGNORE" + " " + ("INTO" + " " + rest));
    LexKeyword("INSERT", "OR" + " " + ("IGNORE" + " " + ("INTO" + " " + rest)));
  }

  /** One statement in front of a script reads as one INSERT in front of the rest. */
  lemma ReadStatement(table: string, columns: seq<string>, tuples: seq<seq<string>>, rows: seq<seq<D1Value>>,
                      rest: string)
    requires NoChar(table, '"')
    requires columns != [] && forall i :: 0 <= i < |columns| ==> NoChar(columns[i], '"')
    requires tuples != [] && DenotesRows(tuples, rows)
    requires ReadScript(rest).Some?
    ensures ReadScript(Statement(table, columns, tuples) + rest)
         == Some([Insert(table, columns, rows)] + ReadScript(rest).value)
  {
    hide Lex, ParseTuples, ParseNames, ParseInserts, DenotesRows, IsWord;
    var values := Join(RenderTuples(tuples), ",\n") + ";" + rest;
    var afterNames := " VALUES\n" + values;
    var names := Join(QuoteNames(columns), ", ") + ")" + afterNames;
    var afterTable := " (" + names;
    var quoted := "\"" + table + "\"" + afterTable;
    StatementText(table, columns, tuples, rest);
    LexInsertWords(quoted);
    LexName(table, afterTable);
    LexSpace(' ', "(" + names);
    LexMark('(', names);
    assert afterTable == " " + ("(" + names);
    ReadNames(columns, afterNames);
    LexSpace(' ', "VALUES\n" + values);
    KeywordsAreWords();
    LexKeyword("VALUES", values);
    assert afterNames == " " + ("VALUES\n" + values) && "VALUES" + "\n" + values == "VALUES\n" + values;
    ReadTuples(tuples, rows, rest);
    ParseStatement(table, columns, rows, Lex(names), Lex(values), Lex(rest));
  }

  lemma StatementText(table: string, columns: seq<string>, tuples: seq<seq<string>>, rest: string)
    ensures Statement(table, columns, tuples) + rest
         == "INSERT OR IGNORE INTO "
            + ("\"" + table + "\""
               + (" (" + (Join(QuoteNames(columns), ", ") + ")"
                          + (" VALUES\n" + (Join(RenderTuples(tuples), ",\n") + ";" + rest)))))
  {
    hide Join, QuoteNames, RenderTuples;
    var a, b := Join(QuoteNames(columns), ", "), Join(RenderTuples(tuples), ",\n");
    assert a + ") VALUES\n" == a + ")" + " VALUES\n";
    assert Statement(table, columns, tuples) + rest
        == "INSERT OR IGNORE INTO " + "\"" + table + "\"" + " (" + a + ")" + " VALUES\n" + b + ";" + rest;
  }

  lemma ParseStatement(table: string, columns: seq<string>, rows: seq<seq<D1Value>>,
                       names: seq<Token>, values: seq<Token>, rest: seq<Token>)
    requires ParseNames(names) == Some((columns, [Word("VALUES")] + values))
    requires ParseTuples(values) == Some((rows, rest))
    requires ParseInserts(rest).Some?
    ensures ParseInserts(INSERT_WORDS + ([Name(table)] + ([Mark('(')] + names)))
         == Some([Insert(table, columns, rows)] + ParseInserts(rest).value)
  {
    hide ParseNames, ParseTuples;
    var tokens := INSERT_WORDS + ([Name(table)] + ([Mark('(')] + names));
    assert tokens[..4] == INSERT_WORDS && tokens[6..] == names;
    assert ([Word("VALUES")] + values)[1..] == values;
  }

  /** The INSERTs a batched script stands for. */
  function Inserts(table: string, columns: seq<string>, batches: seq<seq<seq<D1Value>>>): (all: seq<Insert>)
    ensures |all| == |batches|
  {
    if batches == [] then []
    else [Insert(table, columns, batches[0])] + Inserts(table, columns, batches[1..])
  }

  ghost predicate DenotesBatches(batches: seq<seq<seq<string>>>, rows: seq<seq<seq<D1Value>>>)
  {
    |batches| == |rows| && forall i :: 0 <= i < |batches| ==> batches[i] != [] && DenotesRows(batches[i], rows[i])
  }

  lemma {:induction false} ReadStatements(table: string, columns: seq<string>,
                                          batches: seq<seq<seq<string>>>, rows: seq<seq<seq<D1Value>>>)
    requires NoChar(table, '"')
    requires columns != [] && forall i :: 0 <= i < |columns| ==> NoChar(columns[i], '"')
    requires DenotesBatches(batches, rows)
    ensures ReadScript(Join(Statements(table, columns, batches), "\n\n") + "\n") == Some(Inserts(table, columns, rows))
  {
    hide Lex, ParseInserts, DenotesRows, Statement;
    LexSpace('\n', "");
    assert "\n" + "" == "\n";
    EmptyScript();
    if batches == [] {
      assert Join(Statements(table, columns, batches), "\n\n") + "\n" == "\n";
    } else {
      var first := Statement(table, columns, batches[0]);
      assert Statements(table, columns, batches)[1..] == Statements(table, columns, batches[1..]);
      if |batches| == 1 {
        ReadStatement(table, columns, batches[0], rows[0], "\n");
        assert Inserts(table, columns, rows[1..]) == [];
      } else {
        var tail := Join(Statements(table, columns, batches[1..]), "\n\n") + "\n";
        ReadStatements(table, columns, batches[1..], rows[1..]);
        LexSpace('\n', tail);
        LexSpace('\n', "\n" + tail);
        assert "\n" + ("\n" + tail) == "\n\n" + tail;
        ReadStatement(table, columns, batches[0], rows[0], "\n\n" + tail);
        assert Join(Statements(table, columns, batches), "\n\n") + "\n" == first + ("\n\n" + tail);
      }
    }
  }

  lemma EmptyScript()
    ensures ReadScript("") == Some([])
  {
  }

  lemma {:induction false} LexComment(line: string, rest: string)
    requires NoChar(line, '\n')
    ensures SkipLine(line + "\n" + rest) == rest
  {
    var text := line + "\n" + rest;
    if line == "" {
      assert text[1..] == rest;
    } else {
      assert text[1..] == line[1..] + "\n" + rest;
      LexComment(line[1..], rest);
    }
  }

  lemma {:induction false} CommentsAreSilent(lines: seq<string>, rest: string)
    requires IsComment(lines)
    ensures Lex(CommentBlock(lines) + rest) == Lex(rest)
  {
    if lines == [] {
      assert CommentBlock(lines) + rest == rest;
    } else {
      var tail := CommentBlock(lines[1..]) + rest;
      var text := lines[0] + "\n" + tail;
      assert CommentBlock(lines) + rest == text;
      assert text[2..] == lines[0][2..] + "\n" + tail;
      assert text[0] == '-' && text[1] == '-';
      LexComment(lines[0][2..], tail);
      CommentsAreSilent(lines[1..], rest);
    }
  }

  lemma {:induction false} ChunksDenote(tuples: seq<seq<string>>, rows: seq<seq<D1Value>>, batchSize: nat)
    requires 1 <= batchSize && DenotesRows(tuples, rows)
    ensures DenotesBatches(Chunks(tuples, batchSize), Chunks(rows, batchSize))
    decreases |tuples|
  {
    hide DenotesRow;
    if |tuples| > batchSize {
      ChunksDenote(tuples[batchSize..], rows[batchSize..], batchSize);
    }
  }

  /**
   * The values round trip: reading an emitted artifact back yields the original rows,
   * batch by batch, for every text, every number of rows and every batch size.
   */
  lemma ScriptRoundTrip(comment: seq<string>, table: string, columns: seq<string>,
                        tuples: seq<seq<string>>, rows: seq<seq<D1Value>>, batchSize: nat)
    requires IsComment(comment) && NoChar(table, '"')
    requires columns != [] && forall i :: 0 <= i < |columns| ==> NoChar(columns[i], '"')
    requires 1 <= batchSize && DenotesRows(tuples, rows)
    ensures ReadScript(Script(comment, Statements(table, columns, Chunks(tuples, batchSize))))
         == Some(Inserts(table, columns, Chunks(rows, batchSize)))
  {
    hide Lex, ParseInserts, Chunks, Statements, DenotesRows;
    ChunksDenote(tuples, rows, batchSize);
    ReadStatements(table, columns, Chunks(tuples, batchSize), Chunks(rows, batchSize));
    CommentsAreSilent(comment, Join(Statements(table, columns, Chunks(tuples, batchSize)), "\n\n") + "\n");
  }

  /** The rows a list of INSERTs would write, in order. */
  function RowsOf(inserts: seq<Insert>): (rows: seq<seq<D1Value>>)
  {
    if inserts == [] then [] else inserts[0].rows + RowsOf(inserts[1..])
  }

  lemma {:induction false} RowsOfInserts(table: string, columns: seq<string>, batches: seq<seq<seq<D1Value>>>)
    ensures RowsOf(Inserts(table, columns, batches)) == Flatten(batches)
    ensures forall i :: 0 <= i < |batches| ==> Inserts(table, columns, batches)[i].rows == batches[i]
  {
    if batches != [] {
      RowsOfInserts(table, columns, batches[1..]);
      assert Inserts(table, columns, batches)[1..] == Inserts(table, columns, batches[1..]);
    }
  }
}
