/** An env file as text: writing the lines out, and reading them in again. */
module EnvText {
  import opened Support
  import opened TextLines
  import opened EnvFile
  import opened EnvUpdate

  ghost predicate AllLines(lines: seq<string>) {
    forall i :: 0 <= i < |lines| ==> OneLine(lines[i])
  }

  function SplitLines(text: string): seq<string> {
    LinesOf(text, IsBreak)
  }

  /** What `ensure_secrets_in_env_file` writes. */
  function TextOf(lines: seq<string>): string {
    StripRight(JoinWith(lines, "\n")) + "\n"
  }

  function ParseText(text: string): map<string, string> {
    Parse(SplitLines(text))
  }

  lemma SplitOneLine(text: string)
    ensures AllLines(SplitLines(text))
  {
    LinesAreFree(text, IsBreak);
  }

  // ----- parsing a text -----

  lemma ReadUnion(p: map<string, string>, q: map<string, string>, line: string)
    ensures Read(p + q, line) == p + Read(q, line)
  {
  }

  lemma {:induction false} ParseAppend(a: seq<string>, b: seq<string>)
    ensures Parse(a + b) == Parse(a) + Parse(b)
  {
    if b == [] {
      assert a + b == a;
    } else {
      var before, last := b[..|b| - 1], b[|b| - 1];
      ParseAppend(a, before);
      assert b == before + [last];
      Associate(a, before, [last]);
      ParseOneMore(a + before, last);
      ParseOneMore(before, last);
      ReadUnion(Parse(a), Parse(before), last);
    }
  }

  lemma ParseNextLine(a: string, rest: string)
    requires OneLine(a) && rest != "" && IsBreak(rest[0])
    ensures ParseText(a + rest) == Read(map[], a) + ParseText(AfterBreak(rest))
  {
    NextLine(a, rest, IsBreak);
    ParseAppend([a], SplitLines(AfterBreak(rest)));
    ParseOneMore([], a);
    assert [] + [a] == [a];
  }

  lemma BehindCarriageReturn(c: char, b: string)
    ensures AfterBreak([c] + b) == if c == '\r' && b != "" && b[0] == '\n' then b[1..] else b
  {
  }

  lemma SkipNewline(b: string)
    requires b != "" && b[0] == '\n'
    ensures ParseText(b) == ParseText(b[1..])
  {
    assert "" + b == b;
    ParseNextLine("", b);
    BlankLineParses();
  }

  /** Whether "\r\n" is one boundary or two makes no difference: between them the line is blank. */
  lemma ParseTextFirst(a: string, c: char, b: string)
    requires OneLine(a) && IsBreak(c)
    ensures ParseText(a + ([c] + b)) == Read(map[], a) + ParseText(b)
  {
    ParseNextLine(a, [c] + b);
    BehindCarriageReturn(c, b);
    if c == '\r' && b != "" && b[0] == '\n' {
      SkipNewline(b);
    }
  }

  lemma ParseTextLast(a: string)
    requires OneLine(a)
    ensures ParseText(a) == Read(map[], a)
  {
    LastLine(a, IsBreak);
    if a == "" {
      BlankLineParses();
    } else {
      ParseOneMore([], a);
      assert [] + [a] == [a];
    }
  }

  lemma MarginKeepsLine(a: string, m: string)
    requires Blank(m)
    ensures ParseLine(a + m) == ParseLine(a)
  {
    StripIgnoresMargins("", a, m);
    assert "" + a + m == a + m;
  }

  lemma BlankParts(a: string, b: string)
    requires Blank(a + b)
    ensures Blank(a) && Blank(b)
  {
    forall i | 0 <= i < |a| ensures IsSpace(a[i]) { assert (a + b)[i] == a[i]; }
    forall i | 0 <= i < |b| ensures IsSpace(b[i]) { assert (a + b)[|a| + i] == b[i]; }
  }

  /** The first line of a text, its break and what follows; None for the last line. */
  lemma FirstLine(text: string) returns (a: string, more: Option<(char, string)>)
    ensures OneLine(a)
    ensures match more
            case None => text == a
            case Some((c, b)) => IsBreak(c) && text == a + ([c] + b)
  {
    var rest;
    a, rest := CutAtBreak(text, IsBreak);
    if rest == "" {
      assert a + rest == a;
      more := None;
    } else {
      assert rest == [rest[0]] + rest[1..];
      more := Some((rest[0], rest[1..]));
    }
  }

  lemma {:induction false} BlankTextParses(m: string)
    requires Blank(m)
    ensures ParseText(m) == map[]
    decreases |m|
  {
    var a, more := FirstLine(m);
    match more
    case None =>
      ParseTextLast(a);
      BlankParses(a);
    case Some((c, b)) =>
      BlankParts(a, [c] + b);
      BlankParts([c], b);
      BlankTextParses(b);
      ParseTextFirst(a, c, b);
      BlankParses(a);
  }

  lemma BlankParses(a: string)
    requires Blank(a)
    ensures ParseLine(a) == None
  {
    BlankStrips(a);
  }

  lemma MarginOfLine(a: string, m: string)
    requires OneLine(a) && Blank(m)
    ensures ParseText(a + m) == Read(map[], a)
  {
    var m1, more := FirstLine(m);
    match more
    case None =>
      MarginKeepsLine(a, m);
      ParseTextLast(a + m);
    case Some((c, m2)) =>
      BlankParts(m1, [c] + m2);
      BlankParts([c], m2);
      BlankTextParses(m2);
      MarginKeepsLine(a, m1);
      Associate(a, m1, [c] + m2);
      ParseTextFirst(a + m1, c, m2);
  }

  /** Trailing whitespace, and whole blank lines, set nothing. */
  lemma {:induction false} MarginIgnored(t: string, m: string)
    requires Blank(m)
    ensures ParseText(t + m) == ParseText(t)
    decreases |t|
  {
    var a, more := FirstLine(t);
    match more
    case None =>
      ParseTextLast(a);
      MarginOfLine(a, m);
    case Some((c, b)) =>
      MarginIgnored(b, m);
      ParseTextFirst(a, c, b);
      ParseTextFirst(a, c, b + m);
      Associate(a, [c] + b, m);
      Associate([c], b, m);
  }

  lemma {:induction false} JoinParses(lines: seq<string>)
    requires AllLines(lines)
    ensures ParseText(JoinWith(lines, "\n")) == Parse(lines)
  {
    if |lines| == 1 {
      ParseTextLast(lines[0]);
      ParseOneMore([], lines[0]);
      assert [] + [lines[0]] == lines;
    } else if lines != [] {
      JoinParses(lines[1..]);
      var rest := JoinWith(lines[1..], "\n");
      ParseTextFirst(lines[0], '\n', rest);
      Associate(lines[0], "\n", rest);
      ParseAppend([lines[0]], lines[1..]);
      ParseOneMore([], lines[0]);
      assert [] + [lines[0]] == [lines[0]] && lines == [lines[0]] + lines[1..];
    }
  }

  /** Writing lines to a file and reading it sets the same variables. */
  lemma WrittenParses(lines: seq<string>)
    requires AllLines(lines)
    ensures ParseText(TextOf(lines)) == Parse(lines)
  {
    var text := JoinWith(lines, "\n");
    JoinParses(lines);
    var margin := RightMargin(text);
    MarginIgnored(StripRight(text), margin);
    MarginIgnored(StripRight(text), "\n");
  }

  // ----- one variable through the file -----

  /** What a file sets after one variable was written to it. */
  function WrittenTo(text: string, key: string, value: string): map<string, string> {
    ParseText(TextOf(Update(SplitLines(text), key, value)))
  }

  lemma UpdateAllLines(lines: seq<string>, key: string, value: string)
    requires AllLines(lines) && Key(key) && OneLine(value)
    ensures AllLines(Update(lines, key, value))
  {
    var line := Formatted(key, value);
    EscapedPerCharacter(value);
    PerCharacterShape(value);
    assert OneLine(Escaped(value)) by {
      forall i | 0 <= i < |Escaped(value)| ensures !IsBreak(Escaped(value)[i]) {
        assert Escaped(value)[i] in Escaped(value);
      }
    }
    assert OneLine(line);
    RewrittenAllLines(lines, key, line);
  }

  lemma {:induction false} RewrittenAllLines(lines: seq<string>, key: string, line: string)
    requires AllLines(lines) && OneLine(line)
    ensures AllLines(Rewritten(lines, key, line)) && AllLines(Appended(lines, line))
  {
    if lines != [] {
      RewrittenAllLines(lines[..|lines| - 1], key, line);
    }
  }

  /** Every other variable keeps its value, except the `export` spellings of the written one. */
  lemma FileKeepsOthers(text: string, key: string, value: string)
    requires Key(key) && OneLine(value)
    ensures WrittenTo(text, key, value) == Others(ParseText(text), key)[key := StripQuotes(Escaped(value))]
  {
    SplitOneLine(text);
    UpdateAllLines(SplitLines(text), key, value);
    WrittenParses(Update(SplitLines(text), key, value));
    ParseUpdated(SplitLines(text), key, value);
  }

  /** A value survives the file exactly when it has no special character, no quote at either end and no line break. */
  lemma FileRoundTripIff(text: string, key: string, value: string)
    requires Key(key)
    ensures var after := WrittenTo(text, key, value);
            key in after && after[key] == value <==> Survives(value) && OneLine(value)
  {
    if OneLine(value) {
      FileKeepsOthers(text, key, value);
      SurvivesIff(value);
    } else {
      var written := TextOf(Update(SplitLines(text), key, value));
      SplitOneLine(written);
      ParsedOneLine(SplitLines(written));
    }
  }

  lemma {:induction false} ParsedOneLine(lines: seq<string>)
    requires AllLines(lines)
    ensures forall n :: n in Parse(lines) ==> OneLine(Parse(lines)[n])
  {
    if lines != [] {
      ParsedOneLine(lines[..|lines| - 1]);
      var line := lines[|lines| - 1];
      if ParseLine(line).Some? {
        ValueOfLine(line);
      }
    }
  }

  lemma ValueOfLine(line: string)
    requires OneLine(line) && ParseLine(line).Some?
    ensures OneLine(ParseLine(line).value.1)
  {
    StripKeepsOneLine(line);
    var s := Strip(line);
    var raw := s[|Before(s)| + 1..];
    StripKeepsOneLine(raw);
    var v := StripQuotes(Strip(raw));
    forall i | 0 <= i < |v| ensures !IsBreak(v[i]) { assert v[i] in Strip(raw); }
  }

  lemma StripKeepsOneLine(s: string)
    requires OneLine(s)
    ensures OneLine(Strip(s))
  {
    var left := LeftMargin(s);
    var l := StripLeft(s);
    assert OneLine(l) by {
      forall i | 0 <= i < |l| ensures !IsBreak(l[i]) { assert l[i] == s[|left| + i]; }
    }
    var right := RightMargin(l);
    forall i | 0 <= i < |Strip(s)| ensures !IsBreak(Strip(s)[i]) { assert Strip(s)[i] == l[i]; }
  }
}
