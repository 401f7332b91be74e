/** Writing one variable into an env file and reading it back: `update_env_lines` of scripts/ensure_env_secrets.py. */
module EnvUpdate {
  import opened Support
  import opened EnvFile

  // ----- escaping -----

  /** Python's `replace` of one character. */
  function Replace(s: string, c: char, with: string): string {
    if s == "" then "" else (if s[0] == c then with else [s[0]]) + Replace(s[1..], c, with)
  }

  function Escaped(value: string): string {
    Replace(Replace(Replace(Replace(value, '\\', ['\\', '\\']), '"', ['\\', '"']), '$', ['\\', '$']), '`', ['\\', '`'])
  }

  predicate Special(c: char) {
    c == '\\' || c == '"' || c == '$' || c == '`'
  }

  /** One backslash in front of every special character. */
  function PerCharacter(value: string): string {
    if value == "" then ""
    else (if Special(value[0]) then ['\\', value[0]] else [value[0]]) + PerCharacter(value[1..])
  }

  lemma {:induction false} ReplaceAppend(a: string, b: string, c: char, with: string)
    ensures Replace(a + b, c, with) == Replace(a, c, with) + Replace(b, c, with)
  {
    if a == "" {
      assert a + b == b;
    } else {
      assert (a + b)[1..] == a[1..] + b;
      ReplaceAppend(a[1..], b, c, with);
      Associate(if a[0] == c then with else [a[0]], Replace(a[1..], c, with), Replace(b, c, with));
    }
  }

  lemma ReplaceOne(x: char, c: char, with: string)
    ensures Replace([x], c, with) == if x == c then with else [x]
  {
  }

  lemma ReplaceTwo(x: char, y: char, c: char, with: string)
    requires x != c
    ensures Replace([x, y], c, with) == [x] + if y == c then with else [y]
  {
    assert [x, y] == [x] + [y];
    ReplaceAppend([x], [y], c, with);
    ReplaceOne(x, c, with);
    ReplaceOne(y, c, with);
  }

  lemma EscapedAppend(a: string, b: string)
    ensures Escaped(a + b) == Escaped(a) + Escaped(b)
  {
    var a1, b1 := Replace(a, '\\', ['\\', '\\']), Replace(b, '\\', ['\\', '\\']);
    var a2, b2 := Replace(a1, '"', ['\\', '"']), Replace(b1, '"', ['\\', '"']);
    var a3, b3 := Replace(a2, '$', ['\\', '$']), Replace(b2, '$', ['\\', '$']);
    ReplaceAppend(a, b, '\\', ['\\', '\\']);
    ReplaceAppend(a1, b1, '"', ['\\', '"']);
    ReplaceAppend(a2, b2, '$', ['\\', '$']);
    ReplaceAppend(a3, b3, '`', ['\\', '`']);
  }

  lemma EscapedOne(c: char)
    ensures Escaped([c]) == if Special(c) then ['\\', c] else [c]
  {
    ReplaceOne(c, '\\', ['\\', '\\']);
    ReplaceOne(c, '"', ['\\', '"']);
    ReplaceOne(c, '$', ['\\', '$']);
    ReplaceOne(c, '`', ['\\', '`']);
    ReplaceTwo('\\', c, '"', ['\\', '"']);
    ReplaceTwo('\\', c, '$', ['\\', '$']);
    ReplaceTwo('\\', c, '`', ['\\', '`']);
  }

  /** The four replacements in a row never touch what an earlier one wrote. */
  lemma {:induction false} EscapedPerCharacter(value: string)
    ensures Escaped(value) == PerCharacter(value)
  {
    if value != "" {
      assert value == [value[0]] + value[1..];
      EscapedAppend([value[0]], value[1..]);
      EscapedOne(value[0]);
      EscapedPerCharacter(value[1..]);
    }
  }

  /** What a POSIX shell makes of a text between double quotes; None when the quotes end early or
      something is expanded. */
  function ShellReads(s: string): Option<string>
    decreases |s|
  {
    if s == "" then Some("")
    else if s[0] == '\\' && |s| > 1 && Special(s[1]) then
      match ShellReads(s[2..]) case Some(r) => Some([s[1]] + r) case None => None
    else if s[0] == '"' || s[0] == '$' || s[0] == '`' || (s[0] == '\\' && (|s| == 1 || s[1] == '\n')) then None
    else match ShellReads(s[1..]) case Some(r) => Some([s[0]] + r) case None => None
  }

  /** Sourcing the file gives every value back, and expands nothing. */
  lemma {:induction false} ShellReadsEscaped(value: string)
    ensures ShellReads(Escaped(value)) == Some(value)
  {
    EscapedPerCharacter(value);
    ShellReadsPerCharacter(value);
  }

  lemma {:induction false} ShellReadsPerCharacter(value: string)
    ensures ShellReads(PerCharacter(value)) == Some(value)
  {
    if value != "" {
      ShellReadsPerCharacter(value[1..]);
      var rest := PerCharacter(value[1..]);
      if Special(value[0]) {
        assert PerCharacter(value)[2..] == rest;
      } else {
        assert PerCharacter(value)[1..] == rest;
      }
      assert value == [value[0]] + value[1..];
    }
  }

  predicate NoSpecials(value: string) {
    forall i :: 0 <= i < |value| ==> !Special(value[i])
  }

  lemma {:induction false} PerCharacterShape(value: string)
    ensures var e := PerCharacter(value);
            && |e| >= |value|
            && (if NoSpecials(value) then e == value else |e| > |value|)
            && (value != "" ==> e[|e| - 1] == value[|value| - 1] && (e[0] == value[0] || e[0] == '\\'))
            && forall c :: c in e ==> c in value || c == '\\'
  {
    if value != "" {
      PerCharacterShape(value[1..]);
      assert value == [value[0]] + value[1..];
    }
  }

  // ----- the line that is written -----

  function Formatted(key: string, value: string): string {
    key + (['='] + (['"'] + Escaped(value) + ['"']))
  }

  lemma {:induction false} StripLastQuote(s: string, q: char)
    requires IsQuote(q)
    ensures StripQuotes(s + [q]) == StripQuotes(s)
    decreases |s|
  {
    if s != "" && IsQuote(s[0]) {
      assert (s + [q])[1..] == s[1..] + [q];
      StripLastQuote(s[1..], q);
    } else if s != "" {
      assert (s + [q])[..|s|] == s;
    }
  }

  /** The parser takes the quotes off again but leaves the backslashes. */
  lemma FormattedParses(key: string, value: string)
    requires Name(key)
    ensures ParseLine(Formatted(key, value)) == Some((key, StripQuotes(Escaped(value))))
  {
    var e := Escaped(value);
    QuotedStrips(e);
    AssignmentParses(key, ['"'] + e + ['"']);
  }

  lemma AssignmentParses(key: string, text: string)
    requires Name(key) && Trimmed(text) && text != ""
    ensures ParseLine(key + (['='] + text)) == Some((key, StripQuotes(text)))
  {
    var line := key + (['='] + text);
    AssignmentTrimmed(key, text);
    StripFixed(key);
    StripFixed(text);
    BeforeOf(key, ['='] + text);
    Associate(key, ['='], text);
    Prefix(key + ['='], text);
  }

  lemma AssignmentTrimmed(key: string, text: string)
    requires Name(key) && Trimmed(text) && text != ""
    ensures var line := key + (['='] + text); Strip(line) == line && line[0] == key[0]
  {
    StripFixed(key + (['='] + text));
  }

  lemma QuotedStrips(s: string)
    ensures StripQuotes(['"'] + s + ['"']) == StripQuotes(s)
  {
    assert (['"'] + s + ['"'])[1..] == s + ['"'];
    StripLastQuote(s, '"');
  }

  /** The values that the parser reads back unchanged. */
  predicate Survives(value: string) {
    NoSpecials(value) && Bare(value)
  }

  lemma SurvivesIff(value: string)
    ensures StripQuotes(Escaped(value)) == value <==> Survives(value)
  {
    EscapedPerCharacter(value);
    PerCharacterShape(value);
  }

  // ----- updating the lines -----

  function Rewritten(lines: seq<string>, key: string, line: string): seq<string> {
    if lines == [] then []
    else Rewritten(lines[..|lines| - 1], key, line) + [if OwnedBy(lines[|lines| - 1], key) then line
        else lines[|lines| - 1]]
  }

  predicate Owns(lines: seq<string>, key: string) {
    exists i :: 0 <= i < |lines| && OwnedBy(lines[i], key)
  }

  /** A new line at the end, behind an empty one unless the file already ends blank. */
  function Appended(lines: seq<string>, line: string): seq<string> {
    (if lines != [] && Strip(lines[|lines| - 1]) != "" then lines + [""] else lines) + [line]
  }

  function Update(lines: seq<string>, key: string, value: string): seq<string> {
    if Owns(lines, key) then Rewritten(lines, key, Formatted(key, value)) else Appended(lines, Formatted(key, value))
  }

  lemma {:induction false} SettledRewritten(lines: seq<string>, key: string, line: string)
    requires forall i :: 0 <= i < |lines| && OwnedBy(lines[i], key) ==> lines[i] == line
    ensures Rewritten(lines, key, line) == lines
  {
    if lines != [] {
      var n := |lines| - 1;
      SettledRewritten(lines[..n], key, line);
      assert lines == lines[..n] + [lines[n]];
    }
  }

  lemma UnownedRewritten(lines: seq<string>, key: string, line: string)
    requires !Owns(lines, key)
    ensures Rewritten(lines, key, line) == lines
  {
    SettledRewritten(lines, key, line);
  }

  method UpdateEnvLines(lines: seq<string>, key: string, value: string) returns (newLines: seq<string>)
    ensures newLines == Update(lines, key, value)
  {
    var updated := false;
    newLines := [];
    var formatted := Formatted(key, value);
    for n := 0 to |lines|
      invariant newLines == Rewritten(lines[..n], key, formatted)
      invariant updated <==> exists i :: 0 <= i < n && OwnedBy(lines[i], key)
    {
      assert lines[..n + 1][..n] == lines[..n];
      if OwnedBy(lines[n], key) {
        newLines := newLines + [formatted];
        updated := true;
      } else {
        newLines := newLines + [lines[n]];
      }
    }
    assert lines[..|lines|] == lines;
    if !updated {
      UnownedRewritten(lines, key, formatted);
      if newLines != [] && Strip(newLines[|newLines| - 1]) != "" {
        newLines := newLines + [""];
      }
      newLines := newLines + [formatted];
    }
  }

  lemma {:induction false} RewrittenAt(lines: seq<string>, key: string, line: string, i: nat)
    requires i < |lines|
    ensures |Rewritten(lines, key, line)| == |lines|
    ensures Rewritten(lines, key, line)[i] == if OwnedBy(lines[i], key) then line else lines[i]
  {
    var n := |lines| - 1;
    if i < n {
      RewrittenAt(lines[..n], key, line, i);
    } else if n > 0 {
      RewrittenAt(lines[..n], key, line, n - 1);
    }
  }

  lemma RewriteTwice(lines: seq<string>, key: string, line: string)
    requires OwnedBy(line, key) && Owns(lines, key)
    ensures Owns(Rewritten(lines, key, line), key)
    ensures Rewritten(Rewritten(lines, key, line), key, line) == Rewritten(lines, key, line)
  {
    var once := Rewritten(lines, key, line);
    var i :| 0 <= i < |lines| && OwnedBy(lines[i], key);
    RewrittenAt(lines, key, line, i);
    assert OwnedBy(once[i], key);
    forall i | 0 <= i < |once| && OwnedBy(once[i], key) ensures once[i] == line {
      RewrittenAt(lines, key, line, i);
    }
    SettledRewritten(once, key, line);
  }

  lemma AppendTwice(lines: seq<string>, key: string, line: string)
    requires OwnedBy(line, key) && !Owns(lines, key) && !OwnedBy("", key)
    ensures Owns(Appended(lines, line), key)
    ensures Rewritten(Appended(lines, line), key, line) == Appended(lines, line)
  {
    var once := Appended(lines, line);
    assert OwnedBy(once[|once| - 1], key);
    SettledRewritten(once, key, line);
  }

  lemma EmptyUnowned(key: string)
    requires Name(key)
    ensures !OwnedBy("", key)
  {
  }

  /** Writing the same pair again changes nothing. */
  lemma UpdateTwice(lines: seq<string>, key: string, value: string)
    requires Name(key)
    ensures Update(Update(lines, key, value), key, value) == Update(lines, key, value)
  {
    ghost var line := Formatted(key, value);
    FormattedOwned(key, value);
    EmptyUnowned(key);
    if Owns(lines, key) {
      RewriteTwice(lines, key, line);
    } else {
      AppendTwice(lines, key, line);
    }
  }

  lemma FormattedOwned(key: string, value: string)
    requires Name(key)
    ensures OwnedBy(Formatted(key, value), key)
  {
    FormattedParses(key, value);
    OwnedIff(Formatted(key, value), key);
  }

  // ----- what the parser reads afterwards -----

  /** The variables other than `key` and its `export` spellings. */
  ghost function Others(vars: map<string, string>, key: string): map<string, string> {
    map n | n in vars && n != key && !Alias(n, key) :: vars[n]
  }

  function Read(vars: map<string, string>, line: string): map<string, string> {
    match ParseLine(line) case None => vars case Some((n, v)) => vars[n := v]
  }

  lemma ParseOneMore(lines: seq<string>, line: string)
    ensures Parse(lines + [line]) == Read(Parse(lines), line)
  {
    assert (lines + [line])[..|lines|] == lines;
  }

  /** What the rewritten lines set, when the lines before set `vars` and one of them was owned, or none. */
  ghost function Expected(vars: map<string, string>, key: string, value: string, owned: bool): map<string, string> {
    if owned then Others(vars, key)[key := value] else Others(vars, key)
  }

  lemma ExpectedOwned(vars: map<string, string>, key: string, value: string, owned: bool, n: string, v: string)
    requires n == key || Alias(n, key)
    ensures Expected(vars[n := v], key, value, true) == Expected(vars, key, value, owned)[key := value]
  {
  }

  lemma ExpectedOther(vars: map<string, string>, key: string, value: string, owned: bool, n: string, v: string)
    requires n != key && !Alias(n, key)
    ensures Expected(vars[n := v], key, value, owned) == Expected(vars, key, value, owned)[n := v]
  {
  }

  lemma ExpectedOneMore(vars: map<string, string>, key: string, line: string, value: string, owned: bool, last: string)
    requires Name(key) && ParseLine(line) == Some((key, value))
    ensures Expected(Read(vars, last), key, value, owned || OwnedBy(last, key)) ==
            Read(Expected(vars, key, value, owned), if OwnedBy(last, key) then line else last)
  {
    OwnedIff(last, key);
    match ParseLine(last)
    case None =>
    case Some((n, v)) =>
      if OwnedBy(last, key) {
        ExpectedOwned(vars, key, value, owned, n, v);
      } else {
        ExpectedOther(vars, key, value, owned, n, v);
      }
  }

  lemma {:induction false} ParseRewritten(lines: seq<string>, key: string, line: string, value: string)
    requires Name(key) && ParseLine(line) == Some((key, value))
    ensures Parse(Rewritten(lines, key, line)) == Expected(Parse(lines), key, value, Owns(lines, key))
  {
    if lines != [] {
      var n := |lines| - 1;
      var before, last := lines[..n], lines[n];
      ParseRewritten(before, key, line, value);
      OwnsOneMore(lines, key);
      ExpectedOneMore(Parse(before), key, line, value, Owns(before, key), last);
      ParseOneMore(Rewritten(before, key, line), if OwnedBy(last, key) then line else last);
      assert Parse(lines) == Read(Parse(before), last);
    }
  }

  lemma OwnsOneMore(lines: seq<string>, key: string)
    requires lines != []
    ensures Owns(lines, key) <==> Owns(lines[..|lines| - 1], key) || OwnedBy(lines[|lines| - 1], key)
  {
    var before := lines[..|lines| - 1];
    if i :| 0 <= i < |lines| && OwnedBy(lines[i], key) {
      assert i < |before| ==> OwnedBy(before[i], key);
    }
    if i :| 0 <= i < |before| && OwnedBy(before[i], key) { assert OwnedBy(lines[i], key); }
  }

  /** The parser reads the written variable, and every other one as before except an `export` spelling of it. */
  lemma ParseUpdated(lines: seq<string>, key: string, value: string)
    requires Name(key)
    ensures Parse(Update(lines, key, value)) == Others(Parse(lines), key)[key := StripQuotes(Escaped(value))]
  {
    var line := Formatted(key, value);
    FormattedParses(key, value);
    ParseRewritten(lines, key, line, StripQuotes(Escaped(value)));
    if !Owns(lines, key) {
      UnownedRewritten(lines, key, line);
      BlankLineParses();
      ParseOneMore(lines, "");
      ParseOneMore(if lines != [] && Strip(lines[|lines| - 1]) != "" then lines + [""] else lines, line);
    }
  }

  lemma BlankLineParses()
    ensures ParseLine("") == None
  {
  }

  /** The value comes back exactly when it holds no special character and no quote at either end. */
  lemma RoundTripIff(lines: seq<string>, key: string, value: string)
    requires Name(key)
    ensures var after := Parse(Update(lines, key, value));
            key in after && (after[key] == value <==> Survives(value))
  {
    ParseUpdated(lines, key, value);
    SurvivesIff(value);
  }
}
