/**
 ISBN normalisation as the reconciliation run does it, and the two check-digit tests the auditor
 applies: ISO 2108 (weights 10 down to 1, modulo 11) and section 7.9 of the GS1 General
 Specifications (weights 1 and 3, modulo 10).
 */
module Isbn {
  import opened Support

  predicate IsDigit(c: char) {
    '0' <= c <= '9'
  }

  predicate AllDigits(s: string) {
    forall i :: 0 <= i < |s| ==> IsDigit(s[i])
  }

  predicate IsIsbnChar(c: char) {
    IsDigit(c) || c == 'X'
  }

  predicate Cleaned(s: string) {
    forall i :: 0 <= i < |s| ==> IsIsbnChar(s[i])
  }

  /** Upper-case, then keep digits and X. */
  function Clean(raw: string): (r: string)
    ensures Cleaned(r)
  {
    if raw == "" then ""
    else
      var c := if raw[0] == 'x' then 'X' else raw[0];
      (if IsIsbnChar(c) then [c] else []) + Clean(raw[1..])
  }

  lemma CleanFixed(s: string)
    requires Cleaned(s)
    ensures Clean(s) == s
  {
    if s != "" {
      assert s == [s[0]] + s[1..];
      CleanFixed(s[1..]);
    }
  }

  function DigitValue(c: char): nat
    requires IsIsbnChar(c)
  {
    if c == 'X' then 10 else (c - '0') as int
  }

  function Digit(n: nat): (c: char)
    requires n < 10
    ensures IsDigit(c) && DigitValue(c) == n
  {
    '0' + n as char
  }

  /** Sum of (10 - idx) * digit from position `i` on. */
  function Sum10(s: string, i: nat): int
    requires i <= |s| && Cleaned(s)
    decreases |s| - i
  {
    if i == |s| then 0 else (10 - i) * DigitValue(s[i]) + Sum10(s, i + 1)
  }

  function Weight13(i: nat): int {
    if i % 2 == 0 then 1 else 3
  }

  /** Sum of digits with alternating weights 1 and 3 from position `i` on. */
  function Sum13(s: string, i: nat): int
    requires i <= |s| && AllDigits(s)
    decreases |s| - i
  {
    if i == |s| then 0 else DigitValue(s[i]) * Weight13(i) + Sum13(s, i + 1)
  }

  function CheckDigit13(core: string): (d: nat)
    requires AllDigits(core)
    ensures d < 10
  {
    (10 - Sum13(core, 0) % 10) % 10
  }

  predicate Shape10(cleaned: string)
    requires Cleaned(cleaned)
  {
    |cleaned| == 10 && AllDigits(cleaned[..9])
  }

  function Isbn10To13(isbn10: string): Option<string> {
    var cleaned := Clean(isbn10);
    if !Shape10(cleaned) || Sum10(cleaned, 0) % 11 != 0 then None
    else
      var core := "978" + cleaned[..9];
      Some(core + [Digit(CheckDigit13(core))])
  }

  function Normalize(raw: string): Option<string> {
    var cleaned := Clean(raw);
    if |cleaned| == 10 then Isbn10To13(cleaned)
    else if |cleaned| == 13 && AllDigits(cleaned)
            && DigitValue(cleaned[12]) == CheckDigit13(cleaned[..12]) then Some(cleaned)
    else None
  }

  // ----- the auditor's tests -----

  predicate ValidIsbn10(isbn: string) {
    var cleaned := Clean(isbn);
    Shape10(cleaned) && Sum10(cleaned, 0) % 11 == 0
  }

  predicate ValidIsbn13(isbn: string) {
    var cleaned := Clean(isbn);
    |cleaned| == 13 && AllDigits(cleaned) && DigitValue(cleaned[12]) == CheckDigit13(cleaned[..12])
  }

  /** Normalisation succeeds on exactly the texts the auditor accepts, always yields a cleaned valid
      ISBN-13, and leaves its own results alone. */
  lemma NormalizeAgreesWithAuditor(raw: string)
    ensures Normalize(raw).Some? <==> ValidIsbn10(raw) || ValidIsbn13(raw)
    ensures Normalize(raw).Some? ==>
              var n := Normalize(raw).value;
              |n| == 13 && AllDigits(n) && Clean(n) == n && ValidIsbn13(n) && Normalize(n) == Some(n)
  {
    var cleaned := Clean(raw);
    CleanFixed(cleaned);
    if Normalize(raw).Some? {
      var n := Normalize(raw).value;
      CleanFixed(n);
      if |cleaned| == 10 {
        var core := "978" + cleaned[..9];
        assert forall i :: 3 <= i < 12 ==> core[i] == cleaned[..9][i - 3];
        assert n[..12] == core;
      }
    }
  }

  /** What the reconciliation groups by: the ISBN-13 when there is one, else the cleaned text. */
  function Key(raw: string): (r: string)
  {
    var n := Normalize(raw);
    if n.Some? then n.value else Clean(raw)
  }

  lemma KeyFixed(raw: string)
    ensures Key(Key(raw)) == Key(raw) && Clean(Key(raw)) == Key(raw)
    ensures !ValidIsbn10(Key(raw))
  {
    NormalizeAgreesWithAuditor(raw);
    CleanFixed(Clean(raw));
    NormalizeAgreesWithAuditor(Clean(raw));
    CleanFixed(Clean(Clean(raw)));
  }

  // ----- what the check digits are for -----

  lemma Sum10Change(s: string, k: nat, c: char, i: nat)
    requires k < |s| && i <= |s| && Cleaned(s) && IsIsbnChar(c)
    ensures Cleaned(s[k := c])
    ensures Sum10(s[k := c], i) - Sum10(s, i)
         == if i <= k then (10 - k) * (DigitValue(c) - DigitValue(s[k])) else 0
    decreases |s| - i
  {
    if i < |s| {
      Sum10Change(s, k, c, i + 1);
      if i == k {
        assert (10 - k) * (DigitValue(c) - DigitValue(s[k])) == (10 - k) * DigitValue(c) - (10 - k) * DigitValue(s[k]);
      }
    }
  }

  lemma Sum13Change(s: string, k: nat, c: char, i: nat)
    requires k < |s| && i <= |s| && AllDigits(s) && IsDigit(c)
    ensures AllDigits(s[k := c])
    ensures Sum13(s[k := c], i) - Sum13(s, i)
         == if i <= k then (DigitValue(c) - DigitValue(s[k])) * Weight13(k) else 0
    decreases |s| - i
  {
    if i < |s| {
      Sum13Change(s, k, c, i + 1);
    }
  }

  /** 11 is prime: a weight below it times a digit difference below it is no multiple of it. */
  lemma NoMultipleOf11(w: int, d: int)
    requires 1 <= w <= 10 && -10 <= d <= 10 && d != 0
    ensures (w * d) % 11 != 0
  {
    if w == 1 {} else if w == 2 {} else if w == 3 {} else if w == 4 {} else if w == 5 {}
    else if w == 6 {} else if w == 7 {} else if w == 8 {} else if w == 9 {} else {}
  }

  lemma WeightedChange(k: nat, c: char, d: char)
    requires k < 10 && IsIsbnChar(c) && IsIsbnChar(d) && c != d
    ensures ((10 - k) * (DigitValue(c) - DigitValue(d))) % 11 != 0
  {
    NoMultipleOf11(10 - k, DigitValue(c) - DigitValue(d));
  }

  lemma OffByNonMultiple(sum: int, change: int)
    requires sum % 11 == 0 && change % 11 != 0
    ensures (sum + change) % 11 != 0
  {
  }

  /** Mistyping one character of a valid ISBN-10 is always noticed. */
  lemma SingleErrorRejected10(isbn: string, k: nat, c: char)
    requires |isbn| == 10 && Cleaned(isbn) && ValidIsbn10(isbn)
    requires k < 10 && IsIsbnChar(c) && c != isbn[k]
    ensures Normalize(isbn[k := c]) == None
  {
    var changed := isbn[k := c];
    CleanFixed(isbn);
    CleanFixed(changed);
    Sum10Change(isbn, k, c, 0);
    WeightedChange(k, c, isbn[k]);
    OffByNonMultiple(Sum10(isbn, 0), Sum10(changed, 0) - Sum10(isbn, 0));
  }

  /** 1 and 3 are units modulo 10. */
  lemma UnitTimesDigit(w: int, d: int)
    requires (w == 1 || w == 3) && -10 < d < 10 && d != 0
    ensures (d * w) % 10 != 0
  {
    if w == 1 {} else {}
  }

  lemma ShiftMovesCheck(sum: int, e: int)
    requires e % 10 != 0
    ensures (10 - (sum + e) % 10) % 10 != (10 - sum % 10) % 10
  {
    var r := sum % 10;
    assert (sum + e) % 10 == (r + e % 10) % 10;
    var r' := (sum + e) % 10;
    assert r' != r;
  }

  /** One changed digit calls for another check digit. */
  lemma CheckDigitMoves(core: string, k: nat, c: char)
    requires AllDigits(core) && k < |core| && IsDigit(c) && c != core[k]
    ensures AllDigits(core[k := c]) && CheckDigit13(core[k := c]) != CheckDigit13(core)
  {
    var d := DigitValue(c) - DigitValue(core[k]);
    Sum13Change(core, k, c, 0);
    UnitTimesDigit(Weight13(k), d);
    ShiftMovesCheck(Sum13(core, 0), d * Weight13(k));
  }

  /** Mistyping one digit of a valid ISBN-13 is always noticed. */
  lemma SingleErrorRejected13(isbn: string, k: nat, c: char)
    requires |isbn| == 13 && ValidIsbn13(isbn) && Cleaned(isbn)
    requires k < 13 && IsDigit(c) && c != isbn[k]
    ensures Normalize(isbn[k := c]) == None
  {
    CleanFixed(isbn);
    var changed := isbn[k := c];
    CleanFixed(changed);
    if k < 12 {
      var core := isbn[..12];
      CheckDigitMoves(core, k, c);
      assert changed[..12] == core[k := c];
    } else {
      assert changed[..12] == isbn[..12];
    }
  }

  lemma Sum10Last(s: string, t: string, i: nat)
    requires |s| == 10 && |t| == 10 && Cleaned(s) && Cleaned(t) && s[..9] == t[..9] && i <= 9
    ensures Sum10(s, i) - DigitValue(s[9]) == Sum10(t, i) - DigitValue(t[9])
    decreases 9 - i
  {
    if i < 9 {
      assert s[i] == s[..9][i] && t[i] == t[..9][i];
      Sum10Last(s, t, i + 1);
    } else {
      assert Sum10(s, 10) == 0 && Sum10(t, 10) == 0;
    }
  }

  /** Different valid ISBN-10s become different ISBN-13s. */
  lemma ConversionInjective(a: string, b: string)
    requires ValidIsbn10(a) && ValidIsbn10(b) && Isbn10To13(a) == Isbn10To13(b)
    ensures Clean(a) == Clean(b)
  {
    var s, t := Clean(a), Clean(b);
    var n := Isbn10To13(a).value;
    assert n[3..12] == s[..9] && n[3..12] == t[..9];
    Sum10Last(s, t, 0);
    assert s[9] == t[9];
    assert s == s[..9] + [s[9]] && t == t[..9] + [t[9]];
  }

  // ----- the two standards' own equations -----

  /** Of one character cleaning keeps a digit or an X, and makes a small x large. */
  lemma CleanOne(c: char)
    ensures Clean([c]) == if IsDigit(c) then [c] else if c == 'x' || c == 'X' then "X" else ""
  {
    assert [c][1..] == "" && Clean("") == "";
  }

  /** Cleaning looks at one character at a time, so separators anywhere make no difference. */
  lemma {:induction false} CleanPerCharacter(a: string, b: string)
    ensures Clean(a + b) == Clean(a) + Clean(b)
  {
    if a == "" {
      assert a + b == b;
    } else {
      assert (a + b)[1..] == a[1..] + b;
      CleanPerCharacter(a[1..], b);
      var c := if a[0] == 'x' then 'X' else a[0];
      Associate(if IsIsbnChar(c) then [c] else [], Clean(a[1..]), Clean(b));
    }
  }

  lemma Weighted13(s: string, i: nat)
    requires AllDigits(s) && i + 1 < |s| && i % 2 == 0
    ensures Sum13(s, i) == DigitValue(s[i]) + 3 * DigitValue(s[i + 1]) + Sum13(s, i + 2)
  {
    assert Sum13(s, i + 1) == DigitValue(s[i + 1]) * 3 + Sum13(s, i + 2);
  }

  lemma {:induction false} Sum13Prefix(s: string, t: string, i: nat)
    requires AllDigits(s + t) && i <= |s|
    ensures AllDigits(s) && AllDigits(t)
    ensures Sum13(s + t, i) == Sum13(s, i) + Sum13(s + t, |s|)
    decreases |s| - i
  {
    assert forall k :: 0 <= k < |s| ==> s[k] == (s + t)[k];
    assert forall k :: 0 <= k < |t| ==> t[k] == (s + t)[k + |s|];
    if i < |s| { Sum13Prefix(s, t, i + 1); }
  }

  lemma CheckDigitCloses(sum: int, digit: nat)
    requires digit < 10
    ensures digit == (10 - sum % 10) % 10 <==> (sum + digit) % 10 == 0
  {
    var r := sum % 10;
    assert (sum + digit) % 10 == (r + digit) % 10;
  }

  lemma ValidIffMultiple(isbn: string)
    requires |isbn| == 13 && AllDigits(isbn)
    ensures ValidIsbn13(isbn) <==> Sum13(isbn, 0) % 10 == 0
  {
    CleanFixed(isbn);
    var core := isbn[..12];
    assert core + isbn[12..] == isbn;
    Sum13Prefix(core, isbn[12..], 0);
    assert Sum13(isbn, 13) == 0 && Sum13(isbn, 12) == DigitValue(isbn[12]);
    CheckDigitCloses(Sum13(core, 0), DigitValue(isbn[12]));
  }

  lemma Unrolled13(s: string)
    requires |s| == 13 && AllDigits(s)
    ensures Sum13(s, 6) == DigitValue(s[6]) + 3 * DigitValue(s[7]) + DigitValue(s[8]) + 3 * DigitValue(s[9])
                           + DigitValue(s[10]) + 3 * DigitValue(s[11]) + DigitValue(s[12])
  {
    Weighted13(s, 6);
    Weighted13(s, 8);
    Weighted13(s, 10);
    assert Sum13(s, 13) == 0;
  }

  /** The check equation of the GS1 General Specifications, over all thirteen digits. */
  lemma CheckEquation13(isbn: string)
    requires |isbn| == 13 && AllDigits(isbn)
    ensures ValidIsbn13(isbn) <==>
            (DigitValue(isbn[0]) + 3 * DigitValue(isbn[1]) + DigitValue(isbn[2]) + 3 * DigitValue(isbn[3])
             + DigitValue(isbn[4]) + 3 * DigitValue(isbn[5])
             + (DigitValue(isbn[6]) + 3 * DigitValue(isbn[7]) + DigitValue(isbn[8]) + 3 * DigitValue(isbn[9])
                + DigitValue(isbn[10]) + 3 * DigitValue(isbn[11]) + DigitValue(isbn[12]))) % 10 == 0
  {
    ValidIffMultiple(isbn);
    Unrolled13(isbn);
    Weighted13(isbn, 0);
    Weighted13(isbn, 2);
    Weighted13(isbn, 4);
  }

  lemma Weighted10(s: string, i: nat)
    requires |s| == 10 && Cleaned(s) && i < 9
    ensures Sum10(s, i) == (10 - i) * DigitValue(s[i]) + (9 - i) * DigitValue(s[i + 1]) + Sum10(s, i + 2)
  {
    assert Sum10(s, i + 1) == (9 - i) * DigitValue(s[i + 1]) + Sum10(s, i + 2);
  }

  /** The check equation of ISO 2108 for ten characters, the last of which may be X for ten. */
  lemma CheckEquation10(isbn: string)
    requires |isbn| == 10 && AllDigits(isbn[..9]) && IsIsbnChar(isbn[9])
    ensures Cleaned(isbn)
    ensures ValidIsbn10(isbn) <==>
            (10 * DigitValue(isbn[0]) + 9 * DigitValue(isbn[1]) + 8 * DigitValue(isbn[2]) + 7 * DigitValue(isbn[3])
            + 6 * DigitValue(isbn[4]) + 5 * DigitValue(isbn[5]) + 4 * DigitValue(isbn[6]) + 3 * DigitValue(isbn[7])
            + 2 * DigitValue(isbn[8]) + DigitValue(isbn[9])) % 11 == 0
  {
    forall i | 0 <= i < 10 ensures IsIsbnChar(isbn[i]) {
      assert i < 9 ==> isbn[..9][i] == isbn[i];
    }
    CleanFixed(isbn);
    Weighted10(isbn, 0);
    Weighted10(isbn, 2);
    Weighted10(isbn, 4);
    Weighted10(isbn, 6);
    Weighted10(isbn, 8);
  }

  /** A valid ISBN-10 becomes the valid ISBN-13 with prefix 978 and the same nine digits. */
  lemma ConversionKeepsDigits(raw: string)
    requires ValidIsbn10(raw)
    ensures var n := Normalize(raw);
            && n.Some? && |n.value| == 13 && ValidIsbn13(n.value)
            && n.value[..3] == "978" && n.value[3..12] == Clean(raw)[..9]
  {
    NormalizeAgreesWithAuditor(raw);
    CleanFixed(Clean(raw));
    var digits, core := Clean(raw)[..9], "978" + Clean(raw)[..9];
    var n := Normalize(raw).value;
    assert n == core + [n[12]] && core[..3] == "978" && core[3..] == digits;
    assert n[..3] == core[..3] && n[3..12] == core[3..];
  }
}
