/** Datatypes and text operations that several components share. */
module Support {
  datatype Option<+T> = None | Some(value: T)

  /** A witness for a non-empty set. */
  lemma Element<T(0)>(s: set<T>) returns (x: T)
    ensures s != {} ==> x in s
  {
    if e :| e in s {
      x := e;
    } else {
      assert s == {};
      x := *;
    }
  }

  function JoinWith(parts: seq<string>, separator: string): string {
    if parts == [] then ""
    else if |parts| == 1 then parts[0]
    else parts[0] + separator + JoinWith(parts[1..], separator)
  }

  lemma MoveHead<T>(a: seq<T>, s: seq<T>)
    requires s != []
    ensures a + [s[0]] + s[1..] == a + s
  {
  }

  lemma Associate<T>(a: seq<T>, b: seq<T>, c: seq<T>)
    ensures (a + b) + c == a + (b + c)
  {
  }

  /** Python's `str.isspace`, which `str.strip` and the pattern `\s` follow. */
  predicate IsSpace(c: char) {
    || c == ' ' || '\t' <= c <= '\r' || '\U{1C}' <= c <= '\U{1F}' || c == '\U{85}' || c == '\U{A0}'
    || c == '\U{1680}' || '\U{2000}' <= c <= '\U{200A}' || c == '\U{2028}' || c == '\U{2029}'
    || c == '\U{202F}' || c == '\U{205F}' || c == '\U{3000}'
  }

  /** Python's `lower()` on ASCII letters. */
  function LowerChar(c: char): char {
    if 'A' <= c <= 'Z' then c - 'A' + 'a' else c
  }

  predicate Blank(s: string) {
    forall i :: 0 <= i < |s| ==> IsSpace(s[i])
  }

  function StripLeft(s: string): string {
    if s != "" && IsSpace(s[0]) then StripLeft(s[1..]) else s
  }

  function StripRight(s: string): string {
    if s != "" && IsSpace(s[|s| - 1]) then StripRight(s[..|s| - 1]) else s
  }

  /** Python's `str.strip()`. */
  function Strip(s: string): string {
    StripRight(StripLeft(s))
  }

  /** What stripping takes off on the left is blank, and it takes off all of it. */
  lemma {:induction false} LeftMargin(s: string) returns (margin: string)
    ensures s == margin + StripLeft(s) && Blank(margin)
    ensures StripLeft(s) != "" ==> !IsSpace(StripLeft(s)[0])
  {
    margin := "";
    if s != "" && IsSpace(s[0]) {
      var rest := LeftMargin(s[1..]);
      margin := [s[0]] + rest;
      Associate([s[0]], rest, StripLeft(s));
    }
  }

  lemma {:induction false} RightMargin(s: string) returns (margin: string)
    ensures s == StripRight(s) + margin && Blank(margin)
    ensures StripRight(s) != "" ==> !IsSpace(StripRight(s)[|StripRight(s)| - 1])
  {
    margin := "";
    if s != "" && IsSpace(s[|s| - 1]) {
      var rest := RightMargin(s[..|s| - 1]);
      margin := rest + [s[|s| - 1]];
      Associate(StripRight(s), rest, [s[|s| - 1]]);
    }
  }

  lemma {:induction false} StripLeftSkips(margin: string, s: string)
    requires Blank(margin)
    ensures StripLeft(margin + s) == StripLeft(s)
  {
    if margin == "" {
      assert margin + s == s;
    } else {
      assert (margin + s)[1..] == margin[1..] + s;
      StripLeftSkips(margin[1..], s);
    }
  }

  lemma {:induction false} StripRightSkips(s: string, margin: string)
    requires Blank(margin)
    ensures StripRight(s + margin) == StripRight(s)
  {
    if margin == "" {
      assert s + margin == s;
    } else {
      var n := |margin| - 1;
      assert (s + margin)[..|s| + n] == s + margin[..n];
      StripRightSkips(s, margin[..n]);
    }
  }

  lemma {:induction false} StripLeftKeepsRight(s: string, margin: string)
    requires !Blank(s)
    ensures StripLeft(s + margin) == StripLeft(s) + margin
  {
    if IsSpace(s[0]) {
      assert (s + margin)[1..] == s[1..] + margin;
      StripLeftKeepsRight(s[1..], margin);
    }
  }

  lemma BlankStrips(s: string)
    requires Blank(s)
    ensures StripLeft(s) == "" && StripRight(s) == ""
  {
    StripLeftSkips(s, "");
    StripRightSkips("", s);
    assert s + "" == s && "" + s == s;
  }

  /** Blank margins around a text do not change what stripping leaves. */
  lemma StripIgnoresMargins(left: string, s: string, right: string)
    requires Blank(left) && Blank(right)
    ensures Strip(left + s + right) == Strip(s)
  {
    assert left + s + right == left + (s + right);
    StripLeftSkips(left, s + right);
    if Blank(s) {
      StripLeftSkips(s, right);
      BlankStrips(s);
      BlankStrips(right);
    } else {
      StripLeftKeepsRight(s, right);
      StripRightSkips(StripLeft(s), right);
    }
  }

  predicate Trimmed(s: string) {
    s != "" ==> !IsSpace(s[0]) && !IsSpace(s[|s| - 1])
  }

  /** Stripping removes nothing from exactly the trimmed texts. */
  lemma StripFixed(s: string)
    ensures Strip(s) == s <==> Trimmed(s)
    ensures Trimmed(Strip(s))
  {
    var left := LeftMargin(s);
    var right := RightMargin(StripLeft(s));
    if Strip(s) != "" { assert Strip(s)[0] == StripLeft(s)[0]; }
  }
}
