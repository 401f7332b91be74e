/**
 * The single-use codes that hand a browser its session token after an OAuth login (app/api/auth.py).
 *
 * Any number of issuing and exchanging requests interleave.  A request reads the clock first and
 * touches the table later, and an exchange holds the row it deleted until it commits or rolls back:
 * another transaction that wants the same row waits.
 */
module ExchangeCodes {
  const TTL_SECONDS: real := 60.0

  datatype Row = Row(user: nat, created: real, expires: real)

  /** One request; `at` is its clock reading. */
  datatype Request =
    | Issuing(user: nat, at: real)
    | Issued
    | Asking(code: nat, at: real)
    | Holding(code: nat, at: real)
    | Granted
    | Refused
    | Failed

  datatype Grant = Grant(code: nat, user: nat, at: real)

  datatype Action =
    | Tick(elapsed: real)
    | SetActive(user: nat, active: bool)
    | BeginIssue(id: nat, user: nat)
    | CommitIssue(id: nat, code: nat)
    | BeginExchange(id: nat, code: nat)
    | Claim(id: nat)
    | Complete(id: nat)
    | RollBack(id: nat)

  /** `issued`, `grants` and `burnt` are history: every row ever committed, the tokens handed out in
      order, and the codes consumed by an exchange that found the account inactive. */
  datatype State = State(
    now: real,
    active: set<nat>,
    table: map<nat, Row>,
    requests: map<nat, Request>,
    issued: map<nat, Row>,
    grants: seq<Grant>,
    burnt: set<nat>)

  function Start(now: real): State {
    State(now, {}, map[], map[], map[], [], {})
  }

  predicate Held(s: State, code: nat) {
    exists id :: id in s.requests && s.requests[id].Holding? && s.requests[id].code == code
  }

  /** `secrets.token_urlsafe(32)` never repeats, and a transaction waits for rows that another one holds. */
  predicate Enabled(s: State, a: Action) {
    match a
    case Tick(elapsed) => elapsed >= 0.0
    case SetActive(_, _) => true
    case BeginIssue(id, _) => id !in s.requests
    case CommitIssue(id, code) =>
      && id in s.requests && s.requests[id].Issuing? && code !in s.issued
      && forall c :: c in s.table && s.table[c].expires <= s.requests[id].at ==> !Held(s, c)
    case BeginExchange(id, _) => id !in s.requests
    case Claim(id) => id in s.requests && s.requests[id].Asking? && !Held(s, s.requests[id].code)
    case Complete(id) => id in s.requests && s.requests[id].Holding? && s.requests[id].code in s.table
    case RollBack(id) => id in s.requests && s.requests[id].Holding?
  }

  function Step(s: State, a: Action): State
    requires Enabled(s, a)
  {
    match a
    case Tick(elapsed) => s.(now := s.now + elapsed)
    case SetActive(user, active) => s.(active := if active then s.active + {user} else s.active - {user})
    case BeginIssue(id, user) => s.(requests := s.requests[id := Issuing(user, s.now)])
    case CommitIssue(id, code) =>
      var request := s.requests[id];
      var kept := map c | c in s.table && s.table[c].expires > request.at :: s.table[c];
      var row := Row(request.user, s.now, request.at + TTL_SECONDS);
      s.(table := kept[code := row], issued := s.issued[code := row], requests := s.requests[id := Issued])
    case BeginExchange(id, code) => s.(requests := s.requests[id := Asking(code, s.now)])
    case Claim(id) =>
      var request := s.requests[id];
      var found := request.code in s.table && s.table[request.code].expires > request.at;
      s.(requests := s.requests[id := if found then Holding(request.code, request.at) else Refused])
    case Complete(id) =>
      var request := s.requests[id];
      var user := s.table[request.code].user;
      var spent := s.(table := s.table - {request.code});
      if user in s.active
      then spent.(requests := s.requests[id := Granted], grants := s.grants + [Grant(request.code, user, request.at)])
      else spent.(requests := s.requests[id := Refused], burnt := s.burnt + {request.code})
    case RollBack(id) => s.(requests := s.requests[id := Failed])
  }

  ghost predicate Run(s: State, schedule: seq<Action>, s': State)
    decreases |schedule|
  {
    if schedule == [] then s == s'
    else Enabled(s, schedule[0]) && Run(Step(s, schedule[0]), schedule[1..], s')
  }

  // ----- what every step keeps -----

  predicate WasGranted(s: State, code: nat) {
    exists i :: 0 <= i < |s.grants| && s.grants[i].code == code
  }

  ghost predicate TableInv(s: State) {
    && (forall c :: c in s.table ==> c in s.issued && s.table[c] == s.issued[c])
    && (forall c :: c in s.issued && c !in s.table ==> WasGranted(s, c) || c in s.burnt || s.issued[c].expires <= s.now)
    && (forall c :: c in s.burnt ==> c in s.issued && c !in s.table)
    && (forall c :: c in s.issued ==> s.issued[c].expires <= s.issued[c].created + TTL_SECONDS)
  }

  ghost predicate RequestInv(s: State) {
    && (forall id :: id in s.requests && s.requests[id].Issuing? ==> s.requests[id].at <= s.now)
    && (forall id :: id in s.requests && s.requests[id].Holding? ==>
          s.requests[id].code in s.table && s.requests[id].at < s.table[s.requests[id].code].expires)
    && (forall id, other
          | id in s.requests && other in s.requests && s.requests[id].Holding? && s.requests[other].Holding? ::
          s.requests[id].code == s.requests[other].code ==> id == other)
  }

  ghost predicate GrantInv(s: State) {
    && (forall i :: 0 <= i < |s.grants| ==>
          var g := s.grants[i];
          g.code in s.issued && g.code !in s.table && g.code !in s.burnt
          && g.user == s.issued[g.code].user && g.at < s.issued[g.code].expires)
    && (forall i, j :: 0 <= i < j < |s.grants| ==> s.grants[i].code != s.grants[j].code)
  }

  ghost predicate Inv(s: State) {
    TableInv(s) && RequestInv(s) && GrantInv(s)
  }

  lemma StepKeepsTable(s: State, a: Action)
    requires Inv(s) && Enabled(s, a)
    ensures TableInv(Step(s, a))
  {
    var s' := Step(s, a);
    forall c | WasGranted(s, c) ensures WasGranted(s', c) {
      var i :| 0 <= i < |s.grants| && s.grants[i].code == c;
      assert s'.grants[i].code == c;
    }
    if a.Complete? {
      var code := s.requests[a.id].code;
      if s.table[code].user in s.active { assert s'.grants[|s.grants|].code == code; }
    }
  }

  lemma StepKeepsRequests(s: State, a: Action)
    requires Inv(s) && Enabled(s, a)
    ensures RequestInv(Step(s, a))
  {
  }

  lemma StepKeepsGrants(s: State, a: Action)
    requires Inv(s) && Enabled(s, a)
    ensures GrantInv(Step(s, a))
  {
  }

  lemma {:induction false} RunKeepsInv(s: State, schedule: seq<Action>, s': State)
    requires Inv(s) && Run(s, schedule, s')
    ensures Inv(s')
    decreases |schedule|
  {
    if schedule != [] {
      StepKeepsTable(s, schedule[0]);
      StepKeepsRequests(s, schedule[0]);
      StepKeepsGrants(s, schedule[0]);
      RunKeepsInv(Step(s, schedule[0]), schedule[1..], s');
    }
  }

  // ----- what an exchange guarantees -----

  ghost predicate Reachable(start: real, schedule: seq<Action>, s: State) {
    Run(Start(start), schedule, s)
  }

  lemma ReachableInv(start: real, schedule: seq<Action>, s: State)
    requires Reachable(start, schedule, s)
    ensures Inv(s)
  {
    RunKeepsInv(Start(start), schedule, s);
  }

  /** However requests interleave, a code yields at most one token, to the user it was issued to, and
      only in an exchange that began before the code expired, sixty seconds after it was stored at most. */
  lemma OneTokenPerCode(start: real, schedule: seq<Action>, s: State)
    requires Reachable(start, schedule, s)
    ensures forall i, j :: 0 <= i < j < |s.grants| ==> s.grants[i].code != s.grants[j].code
    ensures forall i :: 0 <= i < |s.grants| ==>
              var g := s.grants[i];
              g.code in s.issued && g.user == s.issued[g.code].user &&
              g.at < s.issued[g.code].expires <= s.issued[g.code].created + TTL_SECONDS
  {
    ReachableInv(start, schedule, s);
  }

  /** A code that is still worth a token. */
  ghost predicate Live(s: State, code: nat) {
    code in s.issued && s.now < s.issued[code].expires && !WasGranted(s, code) && code !in s.burnt
  }

  lemma LiveIffStored(s: State, code: nat)
    requires Inv(s)
    ensures Live(s, code) <==> code in s.table && s.now < s.table[code].expires
  {
    if code in s.table {
      forall i | 0 <= i < |s.grants| ensures s.grants[i].code != code {}
    }
  }

  /** An exchange that no other request interrupts. */
  function ExchangeAlone(s: State, id: nat, code: nat): State
    requires id !in s.requests && !Held(s, code)
  {
    var asked := Step(s, BeginExchange(id, code));
    assert !Held(asked, code);
    var claimed := Step(asked, Claim(id));
    if claimed.requests[id].Holding? then Step(claimed, Complete(id)) else claimed
  }

  lemma ExchangeAloneGrants(s: State, id: nat, code: nat)
    requires id !in s.requests && !Held(s, code)
    ensures ExchangeAlone(s, id, code).grants ==
            if code in s.table && s.now < s.table[code].expires && s.table[code].user in s.active
            then s.grants + [Grant(code, s.table[code].user, s.now)] else s.grants
  {
  }

  /** It hands out a token exactly for a live code of an active user: no code is lost before its time. */
  lemma LiveCodeRedeems(start: real, schedule: seq<Action>, s: State, id: nat, code: nat)
    requires Reachable(start, schedule, s) && id !in s.requests && !Held(s, code)
    ensures ExchangeAlone(s, id, code).grants ==
            if Live(s, code) && s.issued[code].user in s.active
            then s.grants + [Grant(code, s.issued[code].user, s.now)] else s.grants
  {
    ReachableInv(start, schedule, s);
    LiveIffStored(s, code);
    ExchangeAloneGrants(s, id, code);
  }
}
