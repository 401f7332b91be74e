/** Reading and rewriting KEY="value" lines: scripts/ensure_env_secrets.py. */
module EnvFile {
  import opened Support

  // ----- parsing -----

  predicate IsQuote(c: char) {
    c == '"' || c == '\''
  }

  predicate Bare(s: string) {
    s != "" ==> !IsQuote(s[0]) && !IsQuote(s[|s| - 1])
  }

  /** Python's `strip` of both quote characters. */
  function StripQuotes(s: string): (r: string)
    ensures Bare(r) && (Bare(s) ==> r == s)
    ensures forall c :: c in r ==> c in s
    decreases |s|
  {
    if s == "" then ""
    else if IsQuote(s[0]) then StripQuotes(s[1..])
    else if IsQuote(s[|s| - 1]) then StripQuotes(s[..|s| - 1])
    else s
  }

  /** What stands before the first "=". */
  function Before(s: string): (r: string)
    requires '=' in s
    ensures |r| < |s| && s[|r|] == '=' && r == s[..|r|] && '=' !in r
  {
    if s[0] == '=' then ""
    else
      assert s == [s[0]] + s[1..];
      var r := Before(s[1..]);
      assert s[..|r| + 1] == [s[0]] + s[1..][..|r|];
      [s[0]] + r
  }

  /** The variable a line sets; comments, blank lines and lines without "=" set none. */
  function ParseLine(line: string): Option<(string, string)> {
    var stripped := Strip(line);
    if stripped == "" || stripped[0] == '#' || '=' !in stripped then None
    else
      var before := Before(stripped);
      Some((Strip(before), StripQuotes(Strip(stripped[|before| + 1..]))))
  }

  function Parse(lines: seq<string>): map<string, string> {
    if lines == [] then map[]
    else
      var before := Parse(lines[..|lines| - 1]);
      match ParseLine(lines[|lines| - 1])
      case None => before
      case Some((name, value)) => before[name := value]
  }

  method ParseEnvFile(lines: seq<string>) returns (vars: map<string, string>)
    ensures vars == Parse(lines)
  {
    vars := map[];
    for n := 0 to |lines|
      invariant vars == Parse(lines[..n])
    {
      assert lines[..n + 1][..n] == lines[..n];
      var parsed := ParseLine(lines[n]);
      if parsed.Some? {
        vars := vars[parsed.value.0 := parsed.value.1];
      }
    }
    assert lines[..|lines|] == lines;
  }

  lemma LineName(line: string)
    ensures ParseLine(line).Some? ==>
              var n := ParseLine(line).value.0; Trimmed(n) && '=' !in n && (n != "" ==> n[0] != '#')
  {
    var stripped := Strip(line);
    if ParseLine(line).Some? {
      var before := Before(stripped);
      StripFixed(line);
      StripFixed(before);
      var left := LeftMargin(before);
      var right := RightMargin(StripLeft(before));
      assert before != "" ==> before[0] == stripped[0];
    }
  }

  /** Every variable that is read has a trimmed name without "=", and none is read from a comment. */
  lemma {:induction false} NamesRead(lines: seq<string>)
    ensures forall n :: n in Parse(lines) ==> Trimmed(n) && '=' !in n && (n != "" ==> n[0] != '#')
  {
    if lines != [] {
      NamesRead(lines[..|lines| - 1]);
      LineName(lines[|lines| - 1]);
    }
  }

  // ----- which lines a key owns -----

  const EXPORT: string := "export"

  /** What a variable name can be: trimmed, without "=", and not a comment. */
  predicate Name(n: string) {
    n != "" && Trimmed(n) && '=' !in n && n[0] != '#'
  }

  /** `n\s*=` at the start of a text. */
  predicate Assigns(s: string, n: string) {
    |n| <= |s| && s[..|n|] == n && var rest := StripLeft(s[|n|..]); rest != "" && rest[0] == '='
  }

  /** `^\s*(?:export\s+)?key\s*=` */
  predicate OwnedBy(line: string, key: string) {
    var s := StripLeft(line);
    || Assigns(s, key)
    || (|s| > |EXPORT| && s[..|EXPORT|] == EXPORT && IsSpace(s[|EXPORT|]) && Assigns(StripLeft(s[|EXPORT|..]), key))
  }

  /** `export key`, with any whitespace between: a different name to the parser. */
  ghost predicate Alias(name: string, key: string) {
    exists gap :: gap != "" && Blank(gap) && name == EXPORT + gap + key
  }

  lemma {:induction false} BeforeOf(a: string, b: string)
    requires '=' !in a && b != "" && b[0] == '='
    ensures '=' in a + b && Before(a + b) == a
  {
    if a == "" {
      assert a + b == b;
    } else {
      assert (a + b)[1..] == a[1..] + b;
      BeforeOf(a[1..], b);
    }
  }

  lemma BlankHasNoEquals(s: string)
    requires Blank(s)
    ensures '=' !in s
  {
  }

  lemma AssignsHead(s: string, n: string) returns (gap: string)
    requires '=' !in n && Assigns(s, n)
    ensures Blank(gap) && '=' in s && Before(s) == n + gap
  {
    var tail := s[|n|..];
    gap := LeftMargin(tail);
    var rest := StripLeft(tail);
    BlankHasNoEquals(gap);
    assert s == n + tail;
    Associate(n, gap, rest);
    BeforeOf(n + gap, rest);
  }

  lemma Prefix<T>(a: seq<T>, b: seq<T>)
    ensures (a + b)[..|a|] == a && (a + b)[|a|..] == b
  {
  }

  lemma HeadAssigns(n: string, gap: string, rest: string)
    requires Blank(gap) && rest != "" && rest[0] == '='
    ensures Assigns(n + (gap + rest), n)
  {
    Prefix(n, gap + rest);
    StripLeftSkips(gap, rest);
    EqualsStrips(rest);
  }

  lemma EqualsStrips(s: string)
    requires s != "" && s[0] == '='
    ensures StripLeft(s) == s
  {
  }

  lemma TrimmedHead(head: string, n: string) returns (gap: string)
    requires Name(n) && (head != "" ==> !IsSpace(head[0])) && Strip(head) == n
    ensures head == n + gap && Blank(gap)
  {
    gap := RightMargin(head);
  }

  lemma PaddedName(n: string, gap: string)
    requires Name(n) && Blank(gap)
    ensures Strip(n + gap) == n
  {
    StripRightSkips(n, gap);
  }

  lemma BeforeMargin(t: string, tail: string)
    requires Blank(tail)
    ensures '=' in t + tail <==> '=' in t
    ensures '=' in t ==> Before(t + tail) == Before(t)
  {
    BlankHasNoEquals(tail);
    if '=' in t {
      var b := Before(t);
      assert t + tail == b + (t[|b|..] + tail);
      BeforeOf(b, t[|b|..] + tail);
    }
  }

  /** The same for the stripped line `t` and the whitespace behind it. */
  lemma AssignsStripped(t: string, tail: string, n: string)
    requires Name(n) && Blank(tail) && (t != "" ==> !IsSpace(t[0]))
    ensures Assigns(t + tail, n) ==> '=' in t && t[0] != '#' && Strip(Before(t)) == n
  {
    BeforeMargin(t, tail);
    if Assigns(t + tail, n) {
      var gap := AssignsHead(t + tail, n);
      PaddedName(n, gap);
      assert t[0] == Before(t)[0] == n[0];
    }
  }

  lemma Regroup<T>(a: seq<T>, b: seq<T>, c: seq<T>, d: seq<T>)
    ensures ((a + b) + c) + d == a + (b + (c + d))
  {
  }

  lemma CutAtEquals(t: string) returns (rest: string)
    requires '=' in t
    ensures t == Before(t) + rest && rest != "" && rest[0] == '='
  {
    rest := t[|Before(t)|..];
  }

  lemma StrippedAssigns(t: string, tail: string, n: string)
    requires Name(n) && '=' in t && !IsSpace(t[0]) && Strip(Before(t)) == n
    ensures Assigns(t + tail, n)
  {
    var rest := CutAtEquals(t);
    var gap := TrimmedHead(Before(t), n);
    Regroup(n, gap, rest, tail);
    HeadAssigns(n, gap, rest + tail);
  }

  /** `strip` leaves a line's left margin off and keeps a part of the rest. */
  lemma StripParts(line: string) returns (tail: string)
    ensures StripLeft(line) == Strip(line) + tail && Blank(tail)
    ensures Strip(line) != "" ==> !IsSpace(Strip(line)[0])
  {
    var margin := LeftMargin(line);
    tail := RightMargin(StripLeft(line));
  }

  /** A line assigns to a name exactly when the parser reads that name. */
  lemma AssignsNameIff(line: string, n: string)
    requires Name(n)
    ensures Assigns(StripLeft(line), n) <==> ParseLine(line).Some? && ParseLine(line).value.0 == n
  {
    var tail := StripParts(line);
    AssignsStripped(Strip(line), tail, n);
    if ParseLine(line).Some? && ParseLine(line).value.0 == n {
      StrippedAssigns(Strip(line), tail, n);
    }
  }

  /** A variable name as the callers use them. */
  predicate Key(key: string) {
    Name(key) && forall i :: 0 <= i < |key| ==> !IsSpace(key[i])
  }

  lemma ExportIff(s: string, key: string)
    requires Name(key)
    ensures (|s| > |EXPORT| && s[..|EXPORT|] == EXPORT && IsSpace(s[|EXPORT|]) &&
             Assigns(StripLeft(s[|EXPORT|..]), key))
            <==> exists gap :: gap != "" && Blank(gap) && Assigns(s, EXPORT + gap + key)
  {
    if |s| > |EXPORT| && s[..|EXPORT|] == EXPORT && IsSpace(s[|EXPORT|]) && Assigns(StripLeft(s[|EXPORT|..]), key) {
      var u := s[|EXPORT|..];
      assert s == EXPORT + u;
      var gap := ExportAssigns(u, key);
    }
    if gap :| gap != "" && Blank(gap) && Assigns(s, EXPORT + gap + key) {
      AssignsExport(s, gap, key);
    }
  }

  lemma ExportAssigns(u: string, key: string) returns (gap: string)
    requires Name(key) && u != "" && IsSpace(u[0]) && Assigns(StripLeft(u), key)
    ensures gap != "" && Blank(gap) && Assigns(EXPORT + u, EXPORT + gap + key)
  {
    gap := LeftMargin(u);
    var v := StripLeft(u);
    var inner := AssignsHead(v, key);
    var rest := CutAtEquals(v);
    Associate(key, inner, rest);
    Regroup(EXPORT, gap, key, inner + rest);
    HeadAssigns(EXPORT + gap + key, inner, rest);
  }

  lemma AssignsExport(s: string, gap: string, key: string)
    requires Name(key) && gap != "" && Blank(gap) && Assigns(s, EXPORT + gap + key)
    ensures |s| > |EXPORT| && s[..|EXPORT|] == EXPORT && IsSpace(s[|EXPORT|]) && Assigns(StripLeft(s[|EXPORT|..]), key)
  {
    BlankHasNoEquals(gap);
    var inner := AssignsHead(s, EXPORT + gap + key);
    var rest := CutAtEquals(s);
    Associate(EXPORT + gap + key, inner, rest);
    Regroup(EXPORT, gap, key, inner + rest);
    Prefix(EXPORT, gap + (key + (inner + rest)));
    assert s == EXPORT + (gap + (key + (inner + rest)));
    assert s[|EXPORT|] == gap[0];
    StripLeftSkips(gap, key + (inner + rest));
    HeadAssigns(key, inner, rest);
  }

  /** The regular expression selects exactly the lines the parser reads as `key` or as `export key`. */
  lemma OwnedIff(line: string, key: string)
    requires Name(key)
    ensures OwnedBy(line, key) <==>
            ParseLine(line).Some? && (ParseLine(line).value.0 == key || Alias(ParseLine(line).value.0, key))
  {
    AssignsNameIff(line, key);
    ExportIff(StripLeft(line), key);
    forall gap | gap != "" && Blank(gap)
      ensures Assigns(StripLeft(line), EXPORT + gap + key) <==>
              ParseLine(line).Some? && ParseLine(line).value.0 == EXPORT + gap + key
    {
      BlankHasNoEquals(gap);
      AssignsNameIff(line, EXPORT + gap + key);
    }
  }
}
