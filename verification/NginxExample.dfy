/** The comment stripper and the brace check of scripts/validate_nginx_example.py. */
module NginxExample {
  import opened Support

  datatype Mode = Plain | Quoted(mark: char) | Comment

  /** The text with comments, and escapes inside quotes, blanked. */
  function Scrub(text: string, mode: Mode): (r: string)
    ensures |r| == |text|
    decreases |text|
  {
    if text == "" then ""
    else if mode.Quoted? && text[0] == '\\' then
      if |text| == 1 then " " else [' ', ' '] + Scrub(text[2..], mode)
    else if mode.Quoted? then
      [text[0]] + Scrub(text[1..], if text[0] == mode.mark then Plain else mode)
    else if mode.Comment? && text[0] != '\n' then [' '] + Scrub(text[1..], Comment)
    else if text[0] == '"' || text[0] == '\'' then [text[0]] + Scrub(text[1..], Quoted(text[0]))
    else if text[0] == '#' then [' '] + Scrub(text[1..], Comment)
    else [text[0]] + Scrub(text[1..], Plain)
  }

  /** What one turn of the scanner emits inside quotes, how far it moves, and the mode it leaves. */
  lemma QuotedTurn(out: string, text: string, i: nat, mark: char)
    requires i < |text|
    ensures var c := text[i];
            out + Scrub(text[i..], Quoted(mark)) ==
            if c != '\\' then (out + [c]) + Scrub(text[i + 1..], if c == mark then Plain else Quoted(mark))
            else if i + 1 == |text| then out + " "
            else (out + " " + " ") + Scrub(text[i + 2..], Quoted(mark))
  {
    var rest := text[i..];
    if text[i] != '\\' {
      assert rest[1..] == text[i + 1..];
      Associate(out, [text[i]], Scrub(rest[1..], if text[i] == mark then Plain else Quoted(mark)));
    } else if |rest| > 1 {
      assert rest[2..] == text[i + 2..];
      assert [' ', ' '] == " " + " " && out + " " + " " == out + (" " + " ");
      Associate(out, [' ', ' '], Scrub(rest[2..], Quoted(mark)));
    }
  }

  /** What one turn emits outside quotes. */
  lemma PlainTurn(out: string, text: string, i: nat)
    requires i < |text|
    ensures var c := text[i];
            out + Scrub(text[i..], Plain) ==
            if c == '#' then out + Scrub(text[i..], Comment)
            else (out + [c]) + Scrub(text[i + 1..], if c == '"' || c == '\'' then Quoted(c) else Plain)
  {
    var rest, c := text[i..], text[i];
    assert rest[1..] == text[i + 1..];
    if c != '#' {
      Associate(out, [c], Scrub(rest[1..], if c == '"' || c == '\'' then Quoted(c) else Plain));
    }
  }

  lemma CommentTurn(out: string, text: string, i: nat)
    requires i < |text| && text[i] != '\n'
    ensures out + Scrub(text[i..], Comment) == (out + " ") + Scrub(text[i + 1..], Comment)
  {
    var rest := text[i..];
    assert rest[1..] == text[i + 1..];
    Associate(out, " ", Scrub(rest[1..], Comment));
  }

  method StripComments(text: string) returns (out: string)
    ensures out == Scrub(text, Plain)
  {
    out := "";
    var quote: Option<char> := None;
    var index := 0;
    while index < |text|
      invariant 0 <= index <= |text|
      invariant out + Scrub(text[index..], if quote.Some? then Quoted(quote.value) else Plain) == Scrub(text, Plain)
    {
      var c := text[index];
      if quote.Some? {
        QuotedTurn(out, text, index, quote.value);
        if c == '\\' {
          out := out + " ";
          if index + 1 == |text| {
            break;
          }
          out, index := out + " ", index + 2;
          continue;
        }
        if c == quote.value {
          quote := None;
        }
        out, index := out + [c], index + 1;
        continue;
      }
      PlainTurn(out, text, index);
      if c == '"' || c == '\'' {
        quote, out, index := Some(c), out + [c], index + 1;
        continue;
      }
      if c == '#' {
        out, index := BlankComment(text, out, index);
        continue;
      }
      out, index := out + [c], index + 1;
    }
  }

  /** Blank the comment body but keep the newline. */
  method BlankComment(text: string, before: string, start: nat) returns (out: string, index: nat)
    requires start < |text| && text[start] == '#'
    ensures start < index <= |text|
    ensures out + Scrub(text[index..], Plain) == before + Scrub(text[start..], Comment)
  {
    out, index := before, start;
    while index < |text| && text[index] != '\n'
      invariant start <= index <= |text|
      invariant out + Scrub(text[index..], Comment) == before + Scrub(text[start..], Comment)
      decreases |text| - index
    {
      CommentTurn(out, text, index);
      out, index := out + " ", index + 1;
    }
    CommentEnds(text[index..]);
  }

  lemma CommentEnds(text: string)
    requires |text| == 0 || text[0] == '\n'
    ensures Scrub(text, Comment) == Scrub(text, Plain)
  {
  }

  // ----- what stripping achieves -----

  /** Where a reader of the text stands: one state a character, with an escaped position inside a quote. */
  datatype Position = Code | InQuote(mark: char) | Escaped(mark: char) | InComment

  function Next(p: Position, c: char): Position {
    match p
    case Escaped(mark) => InQuote(mark)
    case InQuote(mark) => if c == '\\' then Escaped(mark) else if c == mark then Code else p
    case InComment => if c == '\n' then Code else InComment
    case Code => if c == '#' then InComment else if c == '"' || c == '\'' then InQuote(c) else Code
  }

  /** The position in front of character `i`. */
  function PositionAt(text: string, i: nat): Position
    requires i <= |text|
  {
    if i == 0 then Code else Next(PositionAt(text, i - 1), text[i - 1])
  }

  /** Comment characters, and both characters of an escape inside quotes. */
  predicate Blanked(p: Position, c: char) {
    Next(p, c).InComment? || p.Escaped? || Next(p, c).Escaped?
  }

  function PositionOf(mode: Mode): Position {
    match mode case Plain => Code case Quoted(mark) => InQuote(mark) case Comment => InComment
  }

  /** Stripping blanks exactly those characters and keeps every other one in its place. */
  lemma StripBlanksExactly(text: string, i: nat)
    requires i < |text|
    ensures Scrub(text, Plain)[i] == if Blanked(PositionAt(text, i), text[i]) then ' ' else text[i]
  {
    ScrubBlanksFrom(text, 0, Plain, i);
    assert text[0..] == text;
  }

  lemma {:induction false} ScrubBlanksFrom(text: string, start: nat, mode: Mode, i: nat)
    requires start <= i < |text| && PositionAt(text, start) == PositionOf(mode)
    ensures Scrub(text[start..], mode)[i - start] == if Blanked(PositionAt(text, i), text[i]) then ' ' else text[i]
    decreases i - start
  {
    var rest := text[start..];
    assert rest[1..] == text[start + 1..];
    if mode.Quoted? && text[start] == '\\' {
      assert PositionAt(text, start + 1) == Escaped(mode.mark);
      if start + 1 < i {
        assert rest[2..] == text[start + 2..];
        assert PositionAt(text, start + 2) == PositionOf(mode);
        ScrubBlanksFrom(text, start + 2, mode, i);
      }
    } else if start < i {
      var next := if mode.Quoted? then if text[start] == mode.mark then Plain else mode
                  else if mode.Comment? && text[start] != '\n' then Comment
                  else if text[start] == '"' || text[start] == '\'' then Quoted(text[start])
                  else if text[start] == '#' then Comment else Plain;
      assert PositionAt(text, start + 1) == PositionOf(next);
      ScrubBlanksFrom(text, start + 1, next, i);
      assert Scrub(rest, mode)[1..] == Scrub(rest[1..], next);
    }
  }

  /** No "#" outside quotes and no backslash inside them. */
  predicate Stripped(text: string, mode: Mode)
    requires !mode.Comment?
    decreases |text|
  {
    text == "" ||
    if mode.Quoted? then text[0] != '\\' && Stripped(text[1..], if text[0] == mode.mark then Plain else mode)
    else text[0] != '#' && Stripped(text[1..], if text[0] == '"' || text[0] == '\'' then Quoted(text[0]) else Plain)
  }

  /** Stripping changes a text if and only if there is something to strip. */
  lemma {:induction false} ScrubFixedIff(text: string, mode: Mode)
    requires !mode.Comment? && (mode.Quoted? ==> mode.mark != ' ')
    ensures Scrub(text, mode) == text <==> Stripped(text, mode)
    decreases |text|
  {
    if text != "" {
      var next := if mode.Quoted? then if text[0] == mode.mark then Plain else mode
                  else if text[0] == '"' || text[0] == '\'' then Quoted(text[0]) else Plain;
      ScrubFixedIff(text[1..], next);
      assert text == [text[0]] + text[1..];
      if (if mode.Quoted? then text[0] != '\\' else text[0] != '#') {
        assert Scrub(text, mode)[1..] == Scrub(text[1..], next);
      } else {
        assert Scrub(text, mode)[0] == ' ';
      }
    }
  }

  /** A stripped text has nothing left to strip: quotes stay where they were. */
  lemma {:induction false} ScrubStrips(text: string, mode: Mode)
    requires mode.Quoted? ==> mode.mark != ' '
    ensures Stripped(Scrub(text, mode), if mode.Comment? then Plain else mode)
    decreases |text|
  {
    var r := Scrub(text, mode);
    if text == "" {
    } else if mode.Quoted? && text[0] == '\\' {
      if |text| > 1 {
        ScrubStrips(text[2..], mode);
        assert r[1..][1..] == Scrub(text[2..], mode);
      }
    } else if mode.Quoted? {
      var next := if text[0] == mode.mark then Plain else mode;
      ScrubStrips(text[1..], next);
      assert r[1..] == Scrub(text[1..], next);
    } else if mode.Comment? && text[0] != '\n' {
      ScrubStrips(text[1..], Comment);
      assert r[1..] == Scrub(text[1..], Comment);
    } else {
      var next := if text[0] == '"' || text[0] == '\'' then Quoted(text[0]) else if text[0] == '#' then Comment
          else Plain;
      ScrubStrips(text[1..], next);
      assert r[1..] == Scrub(text[1..], next);
    }
  }

  lemma StripIdempotent(text: string)
    ensures Scrub(Scrub(text, Plain), Plain) == Scrub(text, Plain)
  {
    ScrubStrips(text, Plain);
    ScrubFixedIff(Scrub(text, Plain), Plain);
  }

  // ----- braces -----

  function Count(text: string, c: char): nat {
    if text == "" then 0 else Count(text[..|text| - 1], c) + if text[|text| - 1] == c then 1 else 0
  }

  /** Some prefix closes more braces than it opens. */
  ghost predicate ClosesTooMuch(text: string, n: nat)
    requires n <= |text|
  {
    exists k :: 0 <= k <= n && Count(text[..k], '}') > Count(text[..k], '{')
  }

  datatype Braces = Balanced | ExtraClose | Unclosed(depth: int)

  /** Balanced exactly when no prefix closes more than it opens and the totals match. */
  method CheckBraces(code: string) returns (verdict: Braces)
    ensures verdict == ExtraClose <==> ClosesTooMuch(code, |code|)
    ensures !ClosesTooMuch(code, |code|) ==>
              var depth := Count(code, '{') - Count(code, '}');
              depth >= 0 && verdict == if depth == 0 then Balanced else Unclosed(depth)
  {
    var depth := 0;
    for i := 0 to |code|
      invariant depth == Count(code[..i], '{') - Count(code[..i], '}') >= 0
      invariant !ClosesTooMuch(code, i)
    {
      assert code[..i + 1][..i] == code[..i];
      if code[i] == '{' {
        depth := depth + 1;
      } else if code[i] == '}' {
        depth := depth - 1;
        if depth < 0 {
          assert Count(code[..i + 1], '}') > Count(code[..i + 1], '{');
          return ExtraClose;
        }
      }
    }
    assert code[..|code|] == code;
    verdict := if depth != 0 then Unclosed(depth) else Balanced;
  }
}
