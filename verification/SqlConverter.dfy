/**
 From dump lines to INSERT statements: the grouping loop of scripts/sql_to_json.py, which strips and
 classifies each line and holds one statement at a time in a buffer of bounded size.
 */
module SqlConverter {
  import opened Support

  // ----- grouping lines into statements -----

  const MAX_STATEMENT_LINES: nat := 100_000

  function UpperChar(c: char): char {
    if 'a' <= c <= 'z' then c - 'a' + 'A' else c
  }

  predicate StartsInsert(line: string) {
    var word := "INSERT INTO";
    |line| >= |word| && forall i :: 0 <= i < |word| ==> UpperChar(line[i]) == word[i]
  }

  predicate Skipped(line: string) {
    line == "" || "--" <= line
  }

  predicate Terminated(line: string) {
    line != "" && line[|line| - 1] == ';'
  }

  function Spaced(buffer: seq<string>): string {
    JoinWith(buffer, " ")
  }

  /** A raw line, stripped and classified. */
  datatype Line = Line(text: string, skipped: bool, starts: bool, ends: bool)

  function ReadLine(raw: string): Line {
    var line := Strip(raw);
    Line(line, Skipped(line), StartsInsert(line), Terminated(line))
  }

  function ReadLines(raw: seq<string>): seq<Line> {
    seq(|raw|, i requires 0 <= i < |raw| => ReadLine(raw[i]))
  }

  function Flushed(buffer: seq<string>): seq<string> {
    if |buffer| > MAX_STATEMENT_LINES then [] else buffer
  }

  function Longer(buffer: seq<string>, line: Line): seq<string> {
    if line.skipped then buffer
    else if line.starts then [line.text]
    else if buffer != [] then buffer + [line.text]
    else []
  }

  predicate Completes(buffer: seq<string>, line: Line) {
    !line.skipped && line.ends && Longer(buffer, line) != []
  }

  /** The statements one more line completes, the flush of an overlong buffer included. */
  function Emitted(buffer: seq<string>, line: Line): seq<string> {
    (if |buffer| > MAX_STATEMENT_LINES then [Spaced(buffer)] else []) +
    (if Completes(Flushed(buffer), line) then [Spaced(Longer(Flushed(buffer), line))] else [])
  }

  /** The lines buffered after one more line. */
  function NextBuffer(buffer: seq<string>, line: Line): seq<string> {
    if Completes(Flushed(buffer), line) then [] else Longer(Flushed(buffer), line)
  }

  function Group(lines: seq<Line>, buffer: seq<string>): seq<string> {
    if lines == [] then if buffer == [] then [] else [Spaced(buffer)]
    else Emitted(buffer, lines[0]) + Group(lines[1..], NextBuffer(buffer, lines[0]))
  }

  /** The lines held in memory after reading `lines`. */
  function Buffered(lines: seq<Line>): seq<string> {
    if lines == [] then [] else NextBuffer(Buffered(lines[..|lines| - 1]), lines[|lines| - 1])
  }

  /** Whatever the dump, the buffer never holds more than MAX_STATEMENT_LINES + 1 lines. */
  lemma {:induction false} BufferBounded(lines: seq<Line>)
    ensures |Buffered(lines)| <= MAX_STATEMENT_LINES + 1
  {
    if lines != [] { BufferBounded(lines[..|lines| - 1]); }
  }

  lemma BufferedStep(lines: seq<Line>, i: nat)
    requires i < |lines|
    ensures Buffered(lines[..i + 1]) == NextBuffer(Buffered(lines[..i]), lines[i])
    ensures |Buffered(lines[..i + 1])| <= MAX_STATEMENT_LINES + 1
  {
    assert lines[..i + 1][..i] == lines[..i];
    BufferBounded(lines[..i + 1]);
  }

  lemma GroupStep(lines: seq<Line>, i: nat, statements: seq<string>, buffer: seq<string>)
    requires i < |lines|
    ensures statements + Group(lines[i..], buffer)
         == (statements + Emitted(buffer, lines[i])) + Group(lines[i + 1..], NextBuffer(buffer, lines[i]))
  {
    assert lines[i..][1..] == lines[i + 1..];
    Associate(statements, Emitted(buffer, lines[i]), Group(lines[i + 1..], NextBuffer(buffer, lines[i])));
  }

  /** The loop body for one line. */
  method TakeLine(statements: seq<string>, buffer: seq<string>, raw: string)
    returns (statements': seq<string>, buffer': seq<string>)
    ensures statements' == statements + Emitted(buffer, ReadLine(raw))
    ensures buffer' == NextBuffer(buffer, ReadLine(raw))
  {
    ghost var line' := ReadLine(raw);
    Associate(statements, if |buffer| > MAX_STATEMENT_LINES then [Spaced(buffer)] else [],
              if Completes(Flushed(buffer), line') then [Spaced(Longer(Flushed(buffer), line'))] else []);
    statements', buffer' := statements, buffer;
    if |buffer'| > MAX_STATEMENT_LINES {
      statements' := statements' + [Spaced(buffer')];
      buffer' := [];
    }
    var line := ReadLine(raw);
    if !line.skipped {
      if line.starts {
        buffer' := [line.text];
      } else if buffer' != [] {
        buffer' := buffer' + [line.text];
      }
      if buffer' != [] && line.ends {
        statements' := statements' + [Spaced(buffer')];
        buffer' := [];
      }
    }
  }

  method GroupStatements(raw: seq<string>) returns (statements: seq<string>)
    ensures statements == Group(ReadLines(raw), [])
  {
    ghost var lines := ReadLines(raw);
    statements := [];
    var buffer: seq<string> := [];
    for i := 0 to |raw|
      invariant buffer == Buffered(lines[..i])
      invariant |buffer| <= MAX_STATEMENT_LINES + 1
      invariant statements + Group(lines[i..], buffer) == Group(lines, [])
    {
      BufferedStep(lines, i);
      GroupStep(lines, i, statements, buffer);
      statements, buffer := TakeLine(statements, buffer, raw[i]);
    }
    if buffer != [] {
      statements := statements + [Spaced(buffer)];
    }
  }

  /** A statement on its lines, after lines that belong to no statement. */
  datatype Chunk = Chunk(noise: seq<Line>, statement: seq<Line>)

  predicate Idle(lines: seq<Line>) {
    forall i :: 0 <= i < |lines| ==> !lines[i].starts
  }

  /** INSERT INTO on the first line only, the semicolon at the end of the last line only; blank and
      comment lines may stand between. */
  predicate Whole(lines: seq<Line>) {
    && 0 < |lines| <= MAX_STATEMENT_LINES + 1
    && !lines[0].skipped && !lines[|lines| - 1].skipped
    && forall i :: 0 <= i < |lines| && !lines[i].skipped ==>
         (lines[i].starts <==> i == 0) && (lines[i].ends <==> i == |lines| - 1)
  }

  /** The texts of the lines that count. */
  function Texts(lines: seq<Line>): seq<string> {
    if lines == [] then []
    else if lines[0].skipped then Texts(lines[1..])
    else [lines[0].text] + Texts(lines[1..])
  }

  function DumpLines(chunks: seq<Chunk>): seq<Line> {
    if chunks == [] then [] else chunks[0].noise + (chunks[0].statement + DumpLines(chunks[1..]))
  }

  function DumpStatements(chunks: seq<Chunk>): seq<string> {
    if chunks == [] then [] else [Spaced(Texts(chunks[0].statement))] + DumpStatements(chunks[1..])
  }

  lemma {:induction false} GroupIdle(noise: seq<Line>, rest: seq<Line>)
    requires Idle(noise)
    ensures Group(noise + rest, []) == Group(rest, [])
  {
    if noise == [] {
      assert noise + rest == rest;
    } else {
      assert (noise + rest)[1..] == noise[1..] + rest;
      GroupIdle(noise[1..], rest);
    }
  }

  lemma GroupEnd(buffer: seq<string>, line: Line, rest: seq<Line>)
    requires !line.skipped && line.ends && (line.starts <==> buffer == []) && |buffer| <= MAX_STATEMENT_LINES
    ensures Group([line] + rest, buffer) == [Spaced(buffer + [line.text])] + Group(rest, [])
  {
    assert ([line] + rest)[1..] == rest && [] + [line.text] == [line.text];
  }

  /** The lines of a statement still to come, `buffer` being its texts so far. */
  lemma {:induction false} GroupWhole(buffer: seq<string>, lines: seq<Line>, i: nat, rest: seq<Line>)
    requires Whole(lines) && i < |lines| && |buffer| <= i && (i > 0 ==> buffer != [])
    ensures Group(lines[i..] + rest, buffer) == [Spaced(buffer + Texts(lines[i..]))] + Group(rest, [])
    decreases |lines| - i
  {
    var line := lines[i];
    assert (lines[i..] + rest)[1..] == lines[i + 1..] + rest && lines[i..][1..] == lines[i + 1..];
    if i == |lines| - 1 {
      assert lines[i..] == [line] && Texts([line]) == [line.text];
      GroupEnd(buffer, line, rest);
    } else if line.skipped {
      assert NextBuffer(buffer, line) == buffer && Emitted(buffer, line) == [];
      GroupWhole(buffer, lines, i + 1, rest);
      assert Group(lines[i..] + rest, buffer) == [] + Group(lines[i + 1..] + rest, buffer);
    } else {
      assert NextBuffer(buffer, line) == buffer + [line.text] && Emitted(buffer, line) == [];
      GroupWhole(buffer + [line.text], lines, i + 1, rest);
      Associate(buffer, [line.text], Texts(lines[i + 1..]));
    }
  }

  /** Grouping a dump of whole statements gives exactly those statements, each on one line. */
  lemma {:induction false} GroupDump(chunks: seq<Chunk>, trailer: seq<Line>)
    requires forall i :: 0 <= i < |chunks| ==> Idle(chunks[i].noise) && Whole(chunks[i].statement)
    requires Idle(trailer)
    ensures Group(DumpLines(chunks) + trailer, []) == DumpStatements(chunks)
  {
    if chunks == [] {
      assert DumpLines(chunks) + trailer == trailer + [];
      GroupIdle(trailer, []);
    } else {
      var c, rest := chunks[0], DumpLines(chunks[1..]);
      Associate(c.noise, c.statement + rest, trailer);
      Associate(c.statement, rest, trailer);
      GroupIdle(c.noise, c.statement + (rest + trailer));
      assert c.statement[0..] == c.statement;
      GroupWhole([], c.statement, 0, rest + trailer);
      assert [] + Texts(c.statement) == Texts(c.statement);
      GroupDump(chunks[1..], trailer);
    }
  }

  // ----- white space, and statements without their semicolon -----

  /** White space around the raw lines changes no statement. */
  lemma MarginsIgnored(left: seq<string>, lines: seq<string>, right: seq<string>, raw: seq<string>)
    requires |left| == |right| == |raw| == |lines|
    requires forall i :: 0 <= i < |lines| ==>
               Blank(left[i]) && Blank(right[i]) && raw[i] == left[i] + lines[i] + right[i]
    ensures Group(ReadLines(raw), []) == Group(ReadLines(lines), [])
  {
    forall i | 0 <= i < |lines| ensures ReadLine(raw[i]) == ReadLine(lines[i]) {
      StripIgnoresMargins(left[i], lines[i], right[i]);
    }
    assert ReadLines(raw) == ReadLines(lines);
  }

  lemma InsertNotSkipped(line: string)
    requires StartsInsert(line)
    ensures !Skipped(line)
  {
    var word := "INSERT INTO";
    assert word[0] == 'I' && UpperChar(line[0]) == word[0];
  }

  /** A whole statement on every line. */
  lemma {:induction false} GroupEach(lines: seq<Line>)
    requires forall i :: 0 <= i < |lines| ==> !lines[i].skipped && lines[i].starts && lines[i].ends
    ensures Group(lines, []) == seq(|lines|, i requires 0 <= i < |lines| => lines[i].text)
  {
    if lines != [] {
      assert Emitted([], lines[0]) == [lines[0].text] && NextBuffer([], lines[0]) == [];
      GroupEach(lines[1..]);
    }
  }

  lemma GroupStatementLines(statements: seq<string>)
    requires forall i :: 0 <= i < |statements| ==>
               Trimmed(statements[i]) && StartsInsert(statements[i]) && Terminated(statements[i])
    ensures Group(ReadLines(statements), []) == statements
  {
    forall i | 0 <= i < |statements| ensures ReadLine(statements[i]) == Line(statements[i], false, true, true) {
      StripFixed(statements[i]);
      InsertNotSkipped(statements[i]);
    }
    GroupEach(ReadLines(statements));
  }

  /** The lines of a statement that has not ended, blank and comment lines between them. */
  predicate Open(lines: seq<Line>) {
    && lines != [] && !lines[0].skipped && !lines[|lines| - 1].skipped
    && forall i :: 0 <= i < |lines| && !lines[i].skipped ==> (lines[i].starts <==> i == 0) && !lines[i].ends
  }

  lemma {:induction false} TextsLast(lines: seq<Line>)
    requires lines != [] && !lines[|lines| - 1].skipped
    ensures Texts(lines) != []
  {
    if |lines| > 1 { TextsLast(lines[1..]); }
  }

  lemma {:induction false} GroupOpen(buffer: seq<string>, lines: seq<Line>, i: nat, rest: seq<Line>)
    requires Open(lines) && i <= |lines| && (i > 0 <==> buffer != [])
    requires |buffer| + |Texts(lines[i..])| <= MAX_STATEMENT_LINES + 1
    ensures Group(lines[i..] + rest, buffer) == Group(rest, buffer + Texts(lines[i..]))
    decreases |lines| - i
  {
    if i == |lines| {
      assert lines[i..] + rest == rest && buffer + Texts(lines[i..]) == buffer;
    } else {
      var line := lines[i];
      assert (lines[i..] + rest)[1..] == lines[i + 1..] + rest && lines[i..][1..] == lines[i + 1..];
      TextsLast(lines[i..]);
      assert |buffer| <= MAX_STATEMENT_LINES && Emitted(buffer, line) == [];
      if line.skipped {
        GroupOpen(buffer, lines, i + 1, rest);
      } else {
        assert NextBuffer(buffer, line) == buffer + [line.text];
        GroupOpen(buffer + [line.text], lines, i + 1, rest);
        Associate(buffer, [line.text], Texts(lines[i + 1..]));
      }
    }
  }

  lemma OpenBuffered(lines: seq<Line>, rest: seq<Line>)
    requires Open(lines) && |Texts(lines)| <= MAX_STATEMENT_LINES + 1
    ensures Group(lines + rest, []) == Group(rest, Texts(lines)) && Texts(lines) != []
  {
    GroupOpen([], lines, 0, rest);
    TextsLast(lines);
    assert lines[0..] == lines && [] + Texts(lines) == Texts(lines);
  }

  /** A statement cut off by the end of the dump is kept. */
  lemma UnfinishedLast(lines: seq<Line>)
    requires Open(lines) && |Texts(lines)| <= MAX_STATEMENT_LINES + 1
    ensures Group(lines, []) == [Spaced(Texts(lines))]
  {
    OpenBuffered(lines, []);
    assert lines + [] == lines;
  }

  /** A statement cut off by the next INSERT INTO is dropped. */
  lemma UnfinishedDropped(lines: seq<Line>, rest: seq<Line>)
    requires Open(lines) && |Texts(lines)| <= MAX_STATEMENT_LINES
    requires rest != [] && rest[0].starts && !rest[0].skipped
    ensures Group(lines + rest, []) == Group(rest, [])
  {
    OpenBuffered(lines, rest);
  }

  /** A statement whose semicolon does not come is cut after MAX_STATEMENT_LINES + 1 lines, and reading
      goes on as if nothing had been read. */
  lemma OverlongCut(lines: seq<Line>, rest: seq<Line>)
    requires Open(lines) && |Texts(lines)| == MAX_STATEMENT_LINES + 1
    ensures Group(lines + rest, []) == [Spaced(Texts(lines))] + Group(rest, [])
  {
    OpenBuffered(lines, rest);
    var buffer := Texts(lines);
    if rest != [] {
      assert Emitted(buffer, rest[0]) == [Spaced(buffer)] + Emitted([], rest[0]);
      Associate([Spaced(buffer)], Emitted([], rest[0]), Group(rest[1..], NextBuffer([], rest[0])));
    }
  }
}
