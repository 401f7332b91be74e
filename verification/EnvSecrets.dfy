/** `ensure_secrets_in_env_file` of scripts/ensure_env_secrets.py: fill in what is missing, once. */
module EnvSecrets {
  import opened Support
  import opened TextLines
  import opened EnvFile
  import opened EnvUpdate
  import opened EnvText

  /** `part`, which is in lower case, occurs in `s.lower()`. */
  predicate Contains(s: string, part: string) {
    |part| <= |s| && (Begins(s, part) || Contains(s[1..], part))
  }

  predicate Begins(s: string, part: string)
    requires |part| <= |s|
  {
    part == "" || (LowerChar(s[0]) == part[0] && Begins(s[1..], part[1..]))
  }

  predicate ContainsAny(s: string, parts: seq<string>) {
    parts != [] && (Contains(s, parts[0]) || ContainsAny(s, parts[1..]))
  }

  const PLACEHOLDERS: seq<string> := ["changeme", "placeholder", "your_super_secret"]

  predicate PlaceholderOrEmpty(value: Option<string>, minLength: nat) {
    value.None? || Strip(value.value) == "" ||
    var cleaned := StripQuotes(Strip(value.value));
    |cleaned| < minLength || ContainsAny(cleaned, PLACEHOLDERS)
  }

  function Get(vars: map<string, string>, key: string): Option<string> {
    if key in vars then Some(vars[key]) else None
  }

  /** The six variables, in the order of the script. */
  datatype Names = Names(secretKey: string, jwtKey: string, authSecret: string, rootUser: string,
                         rootPassword: string, basicAuth: string)

  ghost predicate Sound(names: Names) {
    (forall i: nat :: i < 6 ==> Key(KeyAt(names, i))) &&
    forall i: nat, j: nat :: i < j < 6 ==> KeyAt(names, i) != KeyAt(names, j)
  }

  function KeyAt(names: Names, i: nat): string
    requires i < 6
  {
    if i == 0 then names.secretKey else if i == 1 then names.jwtKey else if i == 2 then names.authSecret
    else if i == 3 then names.rootUser else if i == 4 then names.rootPassword else names.basicAuth
  }

  /** Fresh random secrets, the fallback user, and `base64(user:password)`. */
  datatype Supply = Supply(secretKey: string, jwtKey: string, authSecret: string, user: string, password: string,
                           basic: (string, string) -> string)

  ghost predicate Storable(value: string) {
    Survives(value) && OneLine(value)
  }

  /** Supplied values come back from the file, and are not themselves placeholders. */
  ghost predicate Adequate(supply: Supply) {
    && Storable(supply.secretKey) && !PlaceholderOrEmpty(Some(supply.secretKey), 32)
    && Storable(supply.jwtKey) && !PlaceholderOrEmpty(Some(supply.jwtKey), 32)
    && Storable(supply.authSecret) && !PlaceholderOrEmpty(Some(supply.authSecret), 24)
    && Storable(supply.user) && Strip(supply.user) != ""
    && Storable(supply.password) && !PlaceholderOrEmpty(Some(supply.password), 16)
  }

  predicate NoUser(user: Option<string>) {
    user.None? || Strip(user.value) == ""
  }

  function OrEmpty(value: Option<string>): string {
    if value.Some? then value.value else ""
  }

  function BasicAuth(vars: map<string, string>, names: Names, supply: Supply): string {
    supply.basic(OrEmpty(Get(vars, names.rootUser)), OrEmpty(Get(vars, names.rootPassword)))
  }

  /** Variables that are neither among the six nor an `export` spelling of one. */
  ghost predicate Unrelated(name: string, names: Names) {
    forall i: nat :: i < 6 ==> name != KeyAt(names, i) && !Alias(name, KeyAt(names, i))
  }

  predicate StaleAuth(stored: Option<string>, expected: string) {
    PlaceholderOrEmpty(stored, 8) || stored != Some(expected)
  }

  /** The lines so far and the variables the script believes them to set. */
  datatype File = File(lines: seq<string>, current: map<string, string>, modified: bool)

  function Settle(f: File, key: string, missing: bool, value: string): File {
    if missing then File(Update(f.lines, key, value), f.current[key := value], true) else f
  }

  /** Whether the script replaces its `i`-th variable. */
  predicate Missing(i: nat, vars: map<string, string>, names: Names, supply: Supply)
    requires i < 6
  {
    var stored := Get(vars, KeyAt(names, i));
    if i < 2 then PlaceholderOrEmpty(stored, 32)
    else if i == 2 then PlaceholderOrEmpty(stored, 24)
    else if i == 3 then NoUser(stored)
    else if i == 4 then PlaceholderOrEmpty(stored, 16)
    else StaleAuth(stored, BasicAuth(vars, names, supply))
  }

  function Supplied(i: nat, vars: map<string, string>, names: Names, supply: Supply): string
    requires i < 6
  {
    if i == 0 then supply.secretKey else if i == 1 then supply.jwtKey else if i == 2 then supply.authSecret
    else if i == 3 then supply.user else if i == 4 then supply.password else BasicAuth(vars, names, supply)
  }

  // ----- what a caller gets -----

  /** An acceptable value stays, any other gives way to the supplied one. */
  function Kept(i: nat, vars: map<string, string>, names: Names, supply: Supply): Option<string>
    requires i < 5
  {
    if Missing(i, vars, names, supply) then Some(Supplied(i, vars, names, supply)) else Get(vars, KeyAt(names, i))
  }

  /** The credential of the user and the password that are kept. */
  function KeptAuth(vars: map<string, string>, names: Names, supply: Supply): string {
    supply.basic(OrEmpty(Kept(3, vars, names, supply)), OrEmpty(Kept(4, vars, names, supply)))
  }

  ghost predicate AuthUsable(vars: map<string, string>, names: Names, supply: Supply) {
    Storable(KeptAuth(vars, names, supply)) && !PlaceholderOrEmpty(Some(KeptAuth(vars, names, supply)), 8)
  }

  /** Acceptable secrets are kept, the credential matches user and password, and nothing else changes. */
  ghost predicate Filled(before: map<string, string>, after: map<string, string>, names: Names, supply: Supply) {
    && (forall i: nat :: i < 5 ==> Get(after, KeyAt(names, i)) == Kept(i, before, names, supply))
    && Get(after, names.basicAuth) == Some(KeptAuth(before, names, supply))
    && (forall name :: Unrelated(name, names) ==> Get(after, name) == Get(before, name))
  }

  ghost predicate Agree(vars: map<string, string>, other: map<string, string>, names: Names) {
    && (forall i: nat :: i < 6 ==> Get(vars, KeyAt(names, i)) == Get(other, KeyAt(names, i)))
    && (forall name :: Unrelated(name, names) ==> Get(vars, name) == Get(other, name))
  }

  // ----- the run -----

  /** The file after the first `n` variables. */
  function Stage(lines: seq<string>, names: Names, supply: Supply, n: nat): File
    requires n <= 6
  {
    if n == 0 then File(lines, Parse(lines), false)
    else
      var f := Stage(lines, names, supply, n - 1);
      Settle(f, KeyAt(names, n - 1), Missing(n - 1, f.current, names, supply),
             Supplied(n - 1, f.current, names, supply))
  }

  function Ensured(lines: seq<string>, names: Names, supply: Supply): File {
    Stage(lines, names, supply, 6)
  }

  /** The whole script on a file's text. */
  function Run(text: string, names: Names, supply: Supply): string {
    var f := Ensured(SplitLines(text), names, supply);
    if f.modified then TextOf(f.lines) else text
  }

  // ----- a second run has nothing to do -----

  /** Every variable is there and acceptable. */
  ghost predicate Complete(vars: map<string, string>, names: Names, supply: Supply) {
    forall i: nat :: i < 6 ==> !Missing(i, vars, names, supply)
  }

  /** The file is well-formed, and sets what the script believes it sets. */
  ghost predicate Faithful(f: File, names: Names) {
    AllLines(f.lines) && Agree(Parse(f.lines), f.current, names)
  }

  lemma KeyIsNoAlias(name: string, key: string)
    requires Key(name)
    ensures !Alias(name, key)
  {
    forall gap | gap != "" && Blank(gap) ensures name != EXPORT + gap + key {
      assert (EXPORT + gap + key)[|EXPORT|] == gap[0];
    }
  }

  lemma SettleKeepsFaithful(f: File, names: Names, i: nat, missing: bool, value: string)
    requires i < 6 && Sound(names) && Faithful(f, names) && (missing ==> Storable(value))
    ensures Faithful(Settle(f, KeyAt(names, i), missing, value), names)
  {
    if missing {
      var key := KeyAt(names, i);
      UpdateAllLines(f.lines, key, value);
      ParseUpdated(f.lines, key, value);
      SurvivesIff(value);
      forall j: nat | j < 6
        ensures Get(Parse(Update(f.lines, key, value)), KeyAt(names, j)) ==
            Get(f.current[key := value], KeyAt(names, j))
      {
        KeyIsNoAlias(KeyAt(names, j), key);
      }
    }
  }

  /** What the script believes after `n` variables, said of what it read at the start. */
  lemma {:induction false} StageFills(lines: seq<string>, names: Names, supply: Supply, n: nat)
    requires n <= 6 && Sound(names)
    ensures var before, now := Parse(lines), Stage(lines, names, supply, n).current;
            && (forall i: nat :: i < n && i < 5 ==> Get(now, KeyAt(names, i)) == Kept(i, before, names, supply))
            && (n == 6 ==> Get(now, names.basicAuth) == Some(KeptAuth(before, names, supply)))
            && (forall i: nat :: n <= i < 6 ==> Get(now, KeyAt(names, i)) == Get(before, KeyAt(names, i)))
            && (forall name :: Unrelated(name, names) ==> Get(now, name) == Get(before, name))
    ensures n == 5 ==>
              BasicAuth(Stage(lines, names, supply, n).current, names, supply) == KeptAuth(Parse(lines), names, supply)
  {
    if n > 0 {
      StageFills(lines, names, supply, n - 1);
      var before, last := Parse(lines), Stage(lines, names, supply, n - 1).current;
      if n <= 5 {
        MissingLocal(n - 1, before, last, names, supply);
        assert Supplied(n - 1, last, names, supply) == Supplied(n - 1, before, names, supply);
      }
      forall i: nat | i < 6 && i != n - 1
        ensures Get(Stage(lines, names, supply, n).current, KeyAt(names, i)) == Get(last, KeyAt(names, i))
      {
        assert KeyAt(names, i) != KeyAt(names, n - 1);
      }
      if n == 5 { assert KeyAt(names, 3) == names.rootUser && KeyAt(names, 4) == names.rootPassword; }
    }
  }

  lemma SuppliedStorable(lines: seq<string>, names: Names, supply: Supply, n: nat)
    requires n < 6 && Sound(names) && Adequate(supply) && AuthUsable(Parse(lines), names, supply)
    ensures Storable(Supplied(n, Stage(lines, names, supply, n).current, names, supply))
  {
    StageFills(lines, names, supply, n);
  }

  lemma {:induction false} StageFaithful(lines: seq<string>, names: Names, supply: Supply, n: nat)
    requires n <= 6 && Sound(names) && Adequate(supply) && AllLines(lines) && AuthUsable(Parse(lines), names, supply)
    ensures Faithful(Stage(lines, names, supply, n), names)
  {
    if n > 0 {
      StageFaithful(lines, names, supply, n - 1);
      var f := Stage(lines, names, supply, n - 1);
      SuppliedStorable(lines, names, supply, n - 1);
      SettleKeepsFaithful(f, names, n - 1, Missing(n - 1, f.current, names, supply),
                          Supplied(n - 1, f.current, names, supply));
    }
  }

  /** All but the last decision depend on the stored value alone. */
  lemma MissingLocal(i: nat, vars: map<string, string>, other: map<string, string>, names: Names, supply: Supply)
    requires i < 5 && Get(vars, KeyAt(names, i)) == Get(other, KeyAt(names, i))
    ensures Missing(i, vars, names, supply) == Missing(i, other, names, supply)
  {
  }

  lemma FillSettlesSecret(n: nat, vars: map<string, string>, names: Names, supply: Supply)
    requires n < 5 && Adequate(supply)
    ensures !Missing(n, vars[KeyAt(names, n) := Supplied(n, vars, names, supply)], names, supply)
  {
  }

  lemma FillSettlesAuth(vars: map<string, string>, names: Names, supply: Supply)
    requires Sound(names) && !PlaceholderOrEmpty(Some(BasicAuth(vars, names, supply)), 8)
    ensures !Missing(5, vars[KeyAt(names, 5) := BasicAuth(vars, names, supply)], names, supply)
  {
    assert KeyAt(names, 3) != KeyAt(names, 5) && KeyAt(names, 4) != KeyAt(names, 5);
  }

  /** Filling in a variable settles it. */
  lemma FillSettles(n: nat, vars: map<string, string>, names: Names, supply: Supply)
    requires n < 6 && Sound(names) && Adequate(supply)
    requires n == 5 ==> var auth := BasicAuth(vars, names, supply); Storable(auth) && !PlaceholderOrEmpty(Some(auth), 8)
    ensures !Missing(n, vars[KeyAt(names, n) := Supplied(n, vars, names, supply)], names, supply)
  {
    if n == 5 {
      FillSettlesAuth(vars, names, supply);
    } else {
      FillSettlesSecret(n, vars, names, supply);
    }
  }

  lemma {:induction false} StageComplete(lines: seq<string>, names: Names, supply: Supply, n: nat)
    requires n <= 6 && Sound(names) && Adequate(supply) && AuthUsable(Parse(lines), names, supply)
    ensures forall i: nat :: i < n ==> !Missing(i, Stage(lines, names, supply, n).current, names, supply)
  {
    if n > 0 {
      StageComplete(lines, names, supply, n - 1);
      StageFills(lines, names, supply, n - 1);
      var vars, after := Stage(lines, names, supply, n - 1).current, Stage(lines, names, supply, n).current;
      FillSettles(n - 1, vars, names, supply);
      forall i: nat | i < n - 1 ensures !Missing(i, after, names, supply) {
        assert KeyAt(names, i) != KeyAt(names, n - 1);
        MissingLocal(i, vars, after, names, supply);
      }
    }
  }

  lemma {:induction false} CompleteUntouched(lines: seq<string>, names: Names, supply: Supply, n: nat)
    requires n <= 6
    ensures !Stage(lines, names, supply, n).modified <==>
            forall i: nat :: i < n ==> !Missing(i, Parse(lines), names, supply)
    ensures !Stage(lines, names, supply, n).modified ==> Stage(lines, names, supply, n).current == Parse(lines)
  {
    if n > 0 {
      CompleteUntouched(lines, names, supply, n - 1);
    }
  }

  lemma CompleteAgrees(vars: map<string, string>, other: map<string, string>, names: Names, supply: Supply)
    requires Agree(vars, other, names) && Complete(other, names, supply)
    ensures Complete(vars, names, supply)
  {
    forall i: nat | i < 6 ensures !Missing(i, vars, names, supply) {
      assert !Missing(i, other, names, supply);
      assert Get(vars, KeyAt(names, i)) == Get(other, KeyAt(names, i));
      assert Get(vars, KeyAt(names, 3)) == Get(other, KeyAt(names, 3)) &&
          Get(vars, KeyAt(names, 4)) == Get(other, KeyAt(names, 4));
    }
  }

  lemma FilledAgrees(before: map<string, string>, now: map<string, string>, after: map<string, string>,
                     names: Names, supply: Supply)
    requires Filled(before, now, names, supply) && Agree(after, now, names)
    ensures Filled(before, after, names, supply)
  {
    assert Get(after, KeyAt(names, 5)) == Get(now, KeyAt(names, 5));
  }

  lemma EnsuredFills(lines: seq<string>, names: Names, supply: Supply)
    requires Sound(names)
    ensures Filled(Parse(lines), Ensured(lines, names, supply).current, names, supply)
  {
    StageFills(lines, names, supply, 6);
  }

  lemma WrittenAgrees(text: string, names: Names, supply: Supply)
    requires Sound(names) && Adequate(supply) && AuthUsable(ParseText(text), names, supply)
    ensures Agree(ParseText(Run(text, names, supply)), Ensured(SplitLines(text), names, supply).current, names)
  {
    var lines := SplitLines(text);
    if Ensured(lines, names, supply).modified {
      SplitOneLine(text);
      StageFaithful(lines, names, supply, 6);
      WrittenParses(Ensured(lines, names, supply).lines);
    } else {
      CompleteUntouched(lines, names, supply, 6);
    }
  }

  /** The file that is written sets what the script says, and fills in only what was missing. */
  lemma RunFills(text: string, names: Names, supply: Supply)
    requires Sound(names) && Adequate(supply) && AuthUsable(ParseText(text), names, supply)
    ensures var after := ParseText(Run(text, names, supply));
            && Filled(ParseText(text), after, names, supply)
            && Agree(after, Ensured(SplitLines(text), names, supply).current, names)
  {
    EnsuredFills(SplitLines(text), names, supply);
    WrittenAgrees(text, names, supply);
    FilledAgrees(ParseText(text), Ensured(SplitLines(text), names, supply).current,
                 ParseText(Run(text, names, supply)), names, supply);
  }

  lemma SameDecisions(vars: map<string, string>, names: Names, supply: Supply, other: Supply)
    requires other.basic == supply.basic
    ensures Complete(vars, names, supply) <==> Complete(vars, names, other)
  {
    forall i: nat | i < 6 ensures Missing(i, vars, names, supply) == Missing(i, vars, names, other) {}
  }

  /** Whatever the file held, one run completes it, and a second run changes nothing, with whatever fresh
      secrets it comes. */
  lemma SecondRunIdle(text: string, names: Names, supply: Supply, other: Supply)
    requires Sound(names) && Adequate(supply) && AuthUsable(ParseText(text), names, supply)
    requires other.basic == supply.basic
    ensures Complete(ParseText(Run(text, names, supply)), names, supply)
    ensures Run(Run(text, names, supply), names, other) == Run(text, names, supply)
  {
    var lines, after := SplitLines(text), ParseText(Run(text, names, supply));
    WrittenAgrees(text, names, supply);
    StageComplete(lines, names, supply, 6);
    CompleteAgrees(after, Ensured(lines, names, supply).current, names, supply);
    SameDecisions(after, names, supply, other);
    CompleteUntouched(SplitLines(Run(text, names, supply)), names, other, 6);
  }

  // ----- export spellings -----

  /** Whether the run writes the `i`-th variable, said of what it read. */
  predicate Replaced(i: nat, vars: map<string, string>, names: Names, supply: Supply)
    requires i < 6
  {
    if i < 5 then Missing(i, vars, names, supply)
    else StaleAuth(Get(vars, names.basicAuth), KeptAuth(vars, names, supply))
  }

  /** A name is an `export` spelling of one key only. */
  lemma OneSpelling(name: string, key: string, other: string)
    requires Key(key) && Key(other) && Alias(name, key) && Alias(name, other)
    ensures key == other
  {
    var g :| g != "" && Blank(g) && name == EXPORT + g + key;
    var h :| h != "" && Blank(h) && name == EXPORT + h + other;
    assert g + key == name[|EXPORT|..] == h + other;
    StripLeftSkips(g, key);
    StripLeftSkips(h, other);
  }

  lemma StageDecides(lines: seq<string>, names: Names, supply: Supply, n: nat)
    requires n < 6 && Sound(names)
    ensures Missing(n, Stage(lines, names, supply, n).current, names, supply) ==
        Replaced(n, Parse(lines), names, supply)
  {
    StageFills(lines, names, supply, n);
    if n < 5 {
      MissingLocal(n, Parse(lines), Stage(lines, names, supply, n).current, names, supply);
    }
  }

  lemma UpdateDropsSpelling(lines: seq<string>, key: string, value: string, owner: string, name: string)
    requires Key(key) && Key(owner) && Alias(name, owner)
    ensures Get(Parse(Update(lines, key, value)), name) == if key == owner then None else Get(Parse(lines), name)
  {
    ParseUpdated(lines, key, value);
    KeyIsNoAlias(key, owner);
    if Alias(name, key) {
      OneSpelling(name, owner, key);
    }
  }

  lemma {:induction false} StageDropsSpellings(lines: seq<string>, names: Names, supply: Supply, n: nat,
                                               i: nat, name: string)
    requires n <= 6 && i < 6 && Sound(names) && Alias(name, KeyAt(names, i))
    ensures Get(Parse(Stage(lines, names, supply, n).lines), name) ==
            if i < n && Replaced(i, Parse(lines), names, supply) then None else Get(Parse(lines), name)
  {
    if n > 0 {
      StageDropsSpellings(lines, names, supply, n - 1, i, name);
      StageDecides(lines, names, supply, n - 1);
      var f, key := Stage(lines, names, supply, n - 1), KeyAt(names, n - 1);
      UpdateDropsSpelling(f.lines, key, Supplied(n - 1, f.current, names, supply), KeyAt(names, i), name);
      assert i != n - 1 ==> key != KeyAt(names, i);
    }
  }

  /** An `export` spelling of a variable stays exactly when the run does not write that variable: a good
      value that is only spelled with `export` is lost to a fresh one. */
  lemma SpellingKeptIff(text: string, names: Names, supply: Supply, i: nat, name: string)
    requires Sound(names) && Adequate(supply) && AuthUsable(ParseText(text), names, supply)
    requires i < 6 && Alias(name, KeyAt(names, i))
    ensures Get(ParseText(Run(text, names, supply)), name) ==
            if Replaced(i, ParseText(text), names, supply) then None else Get(ParseText(text), name)
  {
    var lines := SplitLines(text);
    StageDropsSpellings(lines, names, supply, 6, i, name);
    SplitOneLine(text);
    StageFaithful(lines, names, supply, 6);
    var f := Ensured(lines, names, supply);
    if f.modified {
      WrittenParses(f.lines);
    } else {
      UnmodifiedLines(lines, names, supply, 6);
    }
  }

  lemma {:induction false} UnmodifiedLines(lines: seq<string>, names: Names, supply: Supply, n: nat)
    requires n <= 6 && !Stage(lines, names, supply, n).modified
    ensures Stage(lines, names, supply, n).lines == lines
  {
    if n > 0 {
      UnmodifiedLines(lines, names, supply, n - 1);
    }
  }

  // ----- the script -----

  method Fill(f: File, key: string, missing: bool, value: string) returns (g: File)
    ensures g == Settle(f, key, missing, value)
  {
    g := f;
    if missing {
      var lines := UpdateEnvLines(f.lines, key, value);
      g := File(lines, f.current[key := value], true);
    }
  }

  /** The six variables in turn. */
  method FillIn(lines: seq<string>, names: Names, supply: Supply) returns (f: File)
    ensures f == Ensured(lines, names, supply)
  {
    var vars := ParseEnvFile(lines);
    f := File(lines, vars, false);
    f := Fill(f, names.secretKey, PlaceholderOrEmpty(Get(f.current, names.secretKey), 32), supply.secretKey);
    assert f == Stage(lines, names, supply, 1);
    f := Fill(f, names.jwtKey, PlaceholderOrEmpty(Get(f.current, names.jwtKey), 32), supply.jwtKey);
    assert f == Stage(lines, names, supply, 2);
    f := Fill(f, names.authSecret, PlaceholderOrEmpty(Get(f.current, names.authSecret), 24), supply.authSecret);
    assert f == Stage(lines, names, supply, 3);
    f := Fill(f, names.rootUser, NoUser(Get(f.current, names.rootUser)), supply.user);
    assert f == Stage(lines, names, supply, 4);
    f := Fill(f, names.rootPassword, PlaceholderOrEmpty(Get(f.current, names.rootPassword), 16), supply.password);
    assert f == Stage(lines, names, supply, 5);
    var expected := BasicAuth(f.current, names, supply);
    f := Fill(f, names.basicAuth, StaleAuth(Get(f.current, names.basicAuth), expected), expected);
  }

  /** With supplies that can be stored and are no placeholders themselves, the written file keeps every
      acceptable secret and every unrelated variable, and sets what is returned. */
  method EnsureSecretsInEnvFile(text: string, names: Names, supply: Supply)
    returns (written: string, current: map<string, string>)
    ensures written == Run(text, names, supply)
    ensures Sound(names) && Adequate(supply) && AuthUsable(ParseText(text), names, supply) ==>
              Filled(ParseText(text), ParseText(written), names, supply) && Agree(ParseText(written), current, names)
  {
    var f := FillIn(SplitLines(text), names, supply);
    written := if f.modified then TextOf(f.lines) else text;
    current := f.current;
    if Sound(names) && Adequate(supply) && AuthUsable(ParseText(text), names, supply) {
      RunFills(text, names, supply);
    }
  }
}
