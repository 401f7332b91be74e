/** Cutting a text into lines, as a file opened in text mode and as `str.splitlines` do it. */
module TextLines {
  import opened Support

  /** Where iterating over a text file ends a line. */
  predicate IsNewline(c: char) {
    c == '\n' || c == '\r'
  }

  /** Where Python's `str.splitlines` ends a line. */
  predicate IsBreak(c: char) {
    || '\n' <= c <= '\r' || '\U{1C}' <= c <= '\U{1E}' || c == '\U{85}' || c == '\U{2028}' || c == '\U{2029}'
  }

  predicate Free(s: string, breaks: char -> bool) {
    forall i :: 0 <= i < |s| ==> !breaks(s[i])
  }

  predicate OneLine(s: string) {
    Free(s, IsBreak)
  }

  function UpTo(text: string, breaks: char -> bool): (r: string)
    ensures |r| <= |text|
  {
    if text == "" || breaks(text[0]) then "" else [text[0]] + UpTo(text[1..], breaks)
  }

  /** "\r\n" is one boundary. */
  function AfterBreak(text: string): string
    requires text != ""
  {
    if |text| > 1 && text[0] == '\r' && text[1] == '\n' then text[2..] else text[1..]
  }

  function LinesOf(text: string, breaks: char -> bool): seq<string>
    decreases |text|
  {
    if text == "" then []
    else
      var line := UpTo(text, breaks);
      [line] + if |line| == |text| then [] else LinesOf(AfterBreak(text[|line|..]), breaks)
  }

  lemma {:induction false} BreakAt(a: string, rest: string, breaks: char -> bool)
    requires Free(a, breaks) && (rest != "" ==> breaks(rest[0]))
    ensures UpTo(a + rest, breaks) == a
  {
    if a == "" {
      assert a + rest == rest;
    } else {
      assert (a + rest)[1..] == a[1..] + rest;
      BreakAt(a[1..], rest, breaks);
    }
  }

  lemma {:induction false} CutAtBreak(text: string, breaks: char -> bool) returns (a: string, rest: string)
    ensures text == a + rest && Free(a, breaks) && a == UpTo(text, breaks) && (rest != "" ==> breaks(rest[0]))
  {
    if text == "" || breaks(text[0]) {
      a, rest := "", text;
    } else {
      var b;
      b, rest := CutAtBreak(text[1..], breaks);
      a := [text[0]] + b;
      Associate([text[0]], b, rest);
    }
  }

  lemma LastLine(a: string, breaks: char -> bool)
    requires Free(a, breaks)
    ensures LinesOf(a, breaks) == if a == "" then [] else [a]
  {
    BreakAt(a, "", breaks);
    assert a + "" == a;
  }

  lemma NextLine(a: string, rest: string, breaks: char -> bool)
    requires Free(a, breaks) && rest != "" && breaks(rest[0])
    ensures LinesOf(a + rest, breaks) == [a] + LinesOf(AfterBreak(rest), breaks)
  {
    BreakAt(a, rest, breaks);
    assert (a + rest)[|a|..] == rest;
  }

  /** No line holds a boundary. */
  lemma {:induction false} LinesAreFree(text: string, breaks: char -> bool)
    ensures forall i :: 0 <= i < |LinesOf(text, breaks)| ==> Free(LinesOf(text, breaks)[i], breaks)
    decreases |text|
  {
    if text != "" {
      var a, rest := CutAtBreak(text, breaks);
      if rest == "" {
        assert a + rest == a;
        LastLine(a, breaks);
      } else {
        NextLine(a, rest, breaks);
        LinesAreFree(AfterBreak(rest), breaks);
      }
    }
  }

  // ----- when both ways of cutting agree -----

  /** The only line boundaries in the text are newlines. */
  predicate OnlyNewlines(text: string) {
    forall i :: 0 <= i < |text| && IsBreak(text[i]) ==> IsNewline(text[i])
  }

  ghost predicate Holds(lines: seq<string>, c: char) {
    exists i :: 0 <= i < |lines| && c in lines[i]
  }

  lemma HoldsFirst(a: string, more: seq<string>, c: char)
    requires c in a || Holds(more, c)
    ensures Holds([a] + more, c)
  {
    if c in a {
      assert ([a] + more)[0] == a;
    } else {
      var i :| 0 <= i < |more| && c in more[i];
      assert ([a] + more)[i + 1] == more[i];
    }
  }

  lemma BehindBreak(rest: string, c: char)
    requires c in rest && !IsNewline(c) && IsNewline(rest[0])
    ensures c in AfterBreak(rest)
  {
    var k :| 0 <= k < |rest| && rest[k] == c;
    var more := AfterBreak(rest);
    assert more[k - (|rest| - |more|)] == c;
  }

  /** Cutting at newlines loses no other character. */
  lemma {:induction false} CharacterKept(text: string, c: char)
    requires c in text && !IsNewline(c)
    ensures Holds(LinesOf(text, IsNewline), c)
    decreases |text|
  {
    var a, rest := CutAtBreak(text, IsNewline);
    if rest == "" {
      assert a + rest == a;
      LastLine(a, IsNewline);
      assert [a] + [] == [a];
      HoldsFirst(a, [], c);
    } else {
      NextLine(a, rest, IsNewline);
      if c !in a {
        BehindBreak(rest, c);
        CharacterKept(AfterBreak(rest), c);
      }
      HoldsFirst(a, LinesOf(AfterBreak(rest), IsNewline), c);
    }
  }

  lemma {:induction false} NewlinesCutAlike(text: string)
    requires OnlyNewlines(text)
    ensures LinesOf(text, IsNewline) == LinesOf(text, IsBreak)
    decreases |text|
  {
    if text != "" {
      var a, rest := CutAtBreak(text, IsNewline);
      forall i | 0 <= i < |a| ensures !IsBreak(a[i]) { assert a[i] == text[i]; }
      if rest == "" {
        assert a + rest == a;
        LastLine(a, IsNewline);
        LastLine(a, IsBreak);
      } else {
        NextLine(a, rest, IsNewline);
        NextLine(a, rest, IsBreak);
        var more := AfterBreak(rest);
        forall i | 0 <= i < |more| && IsBreak(more[i]) ensures IsNewline(more[i]) {
          assert more[i] == text[|text| - |more| + i];
        }
        NewlinesCutAlike(more);
      }
    }
  }

  /** A file's lines are the `splitlines` of its text if and only if newlines are its only boundaries. */
  lemma LinesAgreeIff(text: string)
    ensures LinesOf(text, IsNewline) == LinesOf(text, IsBreak) <==> OnlyNewlines(text)
  {
    if OnlyNewlines(text) {
      NewlinesCutAlike(text);
    } else {
      var k :| 0 <= k < |text| && IsBreak(text[k]) && !IsNewline(text[k]);
      CharacterKept(text, text[k]);
      LinesAreFree(text, IsBreak);
      var lines := LinesOf(text, IsNewline);
      var i :| 0 <= i < |lines| && text[k] in lines[i];
      var j :| 0 <= j < |lines[i]| && lines[i][j] == text[k];
      assert !Free(lines[i], IsBreak);
    }
  }
}
