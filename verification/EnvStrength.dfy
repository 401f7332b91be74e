/** How strong the secrets are that a run of scripts/ensure_env_secrets.py leaves, and which ones it keeps. */
module EnvStrength {
  import opened Support
  import opened EnvFile
  import opened EnvText
  import opened EnvSecrets

  /** `part` stands at position `i` of `s`, in whatever case. */
  predicate OccursAt(s: string, part: string, i: nat) {
    i + |part| <= |s| && forall j :: 0 <= j < |part| ==> LowerChar(s[i..][j]) == part[j]
  }

  /** The text holds a placeholder word. */
  ghost predicate Weak(s: string) {
    exists p, i: nat :: p in PLACEHOLDERS && OccursAt(s, p, i)
  }

  lemma {:induction false} BeginsIff(s: string, part: string)
    requires |part| <= |s|
    ensures Begins(s, part) <==> OccursAt(s, part, 0)
  {
    if part != "" {
      BeginsIff(s[1..], part[1..]);
      var rest := s[1..];
      if OccursAt(s, part, 0) {
        forall j | 0 <= j < |part| - 1 ensures LowerChar(rest[0..][j]) == part[1..][j] {
          assert LowerChar(s[0..][j + 1]) == part[j + 1];
        }
      }
      if Begins(s, part) {
        forall j | 0 <= j < |part| ensures LowerChar(s[0..][j]) == part[j] {
          assert j > 0 ==> LowerChar(rest[0..][j - 1]) == part[1..][j - 1];
        }
      }
    }
  }

  lemma {:induction false} ContainsIff(s: string, part: string)
    ensures Contains(s, part) <==> exists i: nat :: OccursAt(s, part, i)
  {
    if |part| <= |s| {
      BeginsIff(s, part);
      if s != "" {
        ContainsIff(s[1..], part);
        if i: nat :| OccursAt(s[1..], part, i) {
          assert s[1..][i..] == s[i + 1..];
          assert OccursAt(s, part, i + 1);
        }
        if i: nat :| OccursAt(s, part, i) && i > 0 {
          assert s[1..][i - 1..] == s[i..];
          assert OccursAt(s[1..], part, i - 1);
        }
      }
    }
  }

  lemma {:induction false} ContainsAnyIff(s: string, parts: seq<string>)
    ensures ContainsAny(s, parts) <==> exists p :: p in parts && Contains(s, p)
  {
    if parts != [] {
      ContainsAnyIff(s, parts[1..]);
      assert parts[0] in parts && forall p :: p in parts[1..] ==> p in parts;
      if p :| p in parts && Contains(s, p) {
        assert p == parts[0] || p in parts[1..];
      }
    }
  }

  lemma WeakIff(s: string)
    ensures ContainsAny(s, PLACEHOLDERS) <==> Weak(s)
  {
    ContainsAnyIff(s, PLACEHOLDERS);
    forall p ensures Contains(s, p) <==> exists i: nat :: OccursAt(s, p, i) {
      ContainsIff(s, p);
    }
  }

  /** Neither white space nor quotes at the ends. */
  predicate Plain(s: string) {
    s != "" && Trimmed(s) && Bare(s)
  }

  lemma {:induction false} QuotesStripped(s: string)
    ensures |StripQuotes(s)| <= |s|
  {
    if s != "" {
      if IsQuote(s[0]) { QuotesStripped(s[1..]); }
      else if IsQuote(s[|s| - 1]) { QuotesStripped(s[..|s| - 1]); }
    }
  }

  lemma CoreLength(s: string)
    ensures |StripQuotes(Strip(s))| <= |s|
    ensures Plain(s) ==> StripQuotes(Strip(s)) == s
  {
    var left := LeftMargin(s);
    var right := RightMargin(StripLeft(s));
    StripFixed(s);
    QuotesStripped(Strip(s));
  }

  /** A secret is good when it is long enough and holds no placeholder word. */
  lemma PlainAcceptedIff(value: string, least: nat)
    requires Plain(value)
    ensures !PlaceholderOrEmpty(Some(value), least) <==> |value| >= least && !Weak(value)
  {
    CoreLength(value);
    StripFixed(value);
    WeakIff(value);
  }

  lemma AcceptedIsStrong(value: string, least: nat)
    requires !PlaceholderOrEmpty(Some(value), least)
    ensures |value| >= least && !Weak(StripQuotes(Strip(value)))
  {
    CoreLength(value);
    WeakIff(StripQuotes(Strip(value)));
  }

  /** How long the script wants the secret key, the JWT key, the auth secret and the root password. */
  function Least(i: nat): nat {
    if i < 2 then 32 else if i == 2 then 24 else 16
  }

  /** After a run each of the four secrets is there, long enough and without a placeholder word. */
  lemma SecretsStrong(text: string, names: Names, supply: Supply, i: nat)
    requires Sound(names) && Adequate(supply) && AuthUsable(ParseText(text), names, supply)
    requires i < 5 && i != 3
    ensures var after := Get(ParseText(Run(text, names, supply)), KeyAt(names, i));
            after.Some? && |after.value| >= Least(i) && !Weak(StripQuotes(Strip(after.value)))
  {
    var after := Get(ParseText(Run(text, names, supply)), KeyAt(names, i));
    RunFills(text, names, supply);
    assert after == Kept(i, ParseText(text), names, supply);
    AcceptedIsStrong(after.value, Least(i));
  }

  /** Of the plain secrets exactly the good ones are kept; any other, and a missing one, is supplied. */
  lemma GoodSecretKept(text: string, names: Names, supply: Supply, i: nat)
    requires Sound(names) && Adequate(supply) && AuthUsable(ParseText(text), names, supply)
    requires i < 5 && i != 3
    ensures var before := Get(ParseText(text), KeyAt(names, i));
            var after := Get(ParseText(Run(text, names, supply)), KeyAt(names, i));
            before.None? || Plain(before.value) ==>
              after == if before.Some? && |before.value| >= Least(i) && !Weak(before.value) then before
                       else Some([supply.secretKey, supply.jwtKey, supply.authSecret, supply.user, supply.password][i])
  {
    var before := Get(ParseText(text), KeyAt(names, i));
    RunFills(text, names, supply);
    assert Get(ParseText(Run(text, names, supply)), KeyAt(names, i)) == Kept(i, ParseText(text), names, supply);
    if before.Some? && Plain(before.value) { PlainAcceptedIff(before.value, Least(i)); }
  }

  /** A user that is not blank is kept, and the stored credential is that of the stored user and password. */
  lemma CredentialMatches(text: string, names: Names, supply: Supply)
    requires Sound(names) && Adequate(supply) && AuthUsable(ParseText(text), names, supply)
    ensures var before, after := ParseText(text), ParseText(Run(text, names, supply));
            && names.rootUser in after && names.rootPassword in after && names.basicAuth in after
            && after[names.basicAuth] == supply.basic(after[names.rootUser], after[names.rootPassword])
            && after[names.rootUser] ==
               if names.rootUser in before && Strip(before[names.rootUser]) != "" then before[names.rootUser]
               else supply.user
  {
    RunFills(text, names, supply);
    var before, after := ParseText(text), ParseText(Run(text, names, supply));
    assert Get(after, KeyAt(names, 3)) == Kept(3, before, names, supply);
    assert Get(after, KeyAt(names, 4)) == Kept(4, before, names, supply);
  }
}
