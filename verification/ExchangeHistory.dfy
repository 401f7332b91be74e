/** Where the tokens of a run come from: which requests of the schedule asked for them, and when. */
module ExchangeHistory {
  import opened ExchangeCodes

  /** The clock after a schedule. */
  function Clock(start: real, schedule: seq<Action>): real {
    if schedule == [] then start
    else
      var last := schedule[|schedule| - 1];
      Clock(start, schedule[..|schedule| - 1]) + if last.Tick? then last.elapsed else 0.0
  }

  /** Whether the last word on an account was that it is active. */
  predicate ActiveAfter(schedule: seq<Action>, user: nat) {
    if schedule == [] then false
    else
      var last := schedule[|schedule| - 1];
      if last.SetActive? && last.user == user then last.active else ActiveAfter(schedule[..|schedule| - 1], user)
  }

  // ----- what a schedule says about a request, a code and a token -----

  ghost predicate IssueBegun(start: real, schedule: seq<Action>, i: nat, id: nat, user: nat, at: real) {
    i < |schedule| && schedule[i] == BeginIssue(id, user) && at == Clock(start, schedule[..i])
  }

  ghost predicate ExchangeBegun(start: real, schedule: seq<Action>, i: nat, id: nat, code: nat, at: real) {
    i < |schedule| && schedule[i] == BeginExchange(id, code) && at == Clock(start, schedule[..i])
  }

  /** Request `id`, for the row's user, stored the code at step `j`; it lives sixty seconds from the
      request's clock reading. */
  ghost predicate StoredAt(start: real, schedule: seq<Action>, i: nat, j: nat, id: nat, code: nat, row: Row) {
    && IssueBegun(start, schedule, i, id, row.user, row.expires - 60.0)
    && i < j < |schedule| && schedule[j] == CommitIssue(id, code) && row.created == Clock(start, schedule[..j])
  }

  /** Exchange `id` of the grant's code ended at step `l`, its user being active. */
  ghost predicate GrantedAt(start: real, schedule: seq<Action>, k: nat, l: nat, id: nat, g: Grant) {
    && ExchangeBegun(start, schedule, k, id, g.code, g.at)
    && k < l < |schedule| && schedule[l] == Complete(id) && ActiveAfter(schedule[..l], g.user)
  }

  ghost predicate RequestOrigin(start: real, schedule: seq<Action>, id: nat, r: Request) {
    match r
    case Issuing(user, at) => exists i: nat :: IssueBegun(start, schedule, i, id, user, at)
    case Asking(code, at) => exists i: nat :: ExchangeBegun(start, schedule, i, id, code, at)
    case Holding(code, at) => exists i: nat :: ExchangeBegun(start, schedule, i, id, code, at)
    case _ => true
  }

  ghost predicate CodeOrigin(start: real, schedule: seq<Action>, code: nat, row: Row) {
    exists i: nat, j: nat, id: nat :: StoredAt(start, schedule, i, j, id, code, row)
  }

  ghost predicate GrantOrigin(start: real, schedule: seq<Action>, g: Grant) {
    exists k: nat, l: nat, id: nat :: GrantedAt(start, schedule, k, l, id, g)
  }

  ghost predicate History(start: real, schedule: seq<Action>, s: State) {
    && s.now == Clock(start, schedule)
    && (forall u :: u in s.active <==> ActiveAfter(schedule, u))
    && (forall id :: id in s.requests ==> RequestOrigin(start, schedule, id, s.requests[id]))
    && (forall c :: c in s.issued ==> CodeOrigin(start, schedule, c, s.issued[c]))
    && (forall g :: g in s.grants ==> GrantOrigin(start, schedule, g))
  }

  // ----- what was so stays so -----

  lemma RequestStays(start: real, schedule: seq<Action>, a: Action, id: nat, r: Request)
    requires RequestOrigin(start, schedule, id, r)
    ensures RequestOrigin(start, schedule + [a], id, r)
  {
    if r.Issuing? {
      var i: nat :| IssueBegun(start, schedule, i, id, r.user, r.at);
      assert (schedule + [a])[..i] == schedule[..i];
      assert IssueBegun(start, schedule + [a], i, id, r.user, r.at);
    } else if r.Asking? || r.Holding? {
      var i: nat :| ExchangeBegun(start, schedule, i, id, r.code, r.at);
      assert (schedule + [a])[..i] == schedule[..i];
      assert ExchangeBegun(start, schedule + [a], i, id, r.code, r.at);
    }
  }

  lemma CodeStays(start: real, schedule: seq<Action>, a: Action, code: nat, row: Row)
    requires CodeOrigin(start, schedule, code, row)
    ensures CodeOrigin(start, schedule + [a], code, row)
  {
    var i: nat, j: nat, id: nat :| StoredAt(start, schedule, i, j, id, code, row);
    assert (schedule + [a])[..i] == schedule[..i] && (schedule + [a])[..j] == schedule[..j];
    assert StoredAt(start, schedule + [a], i, j, id, code, row);
  }

  lemma GrantStays(start: real, schedule: seq<Action>, a: Action, g: Grant)
    requires GrantOrigin(start, schedule, g)
    ensures GrantOrigin(start, schedule + [a], g)
  {
    var k: nat, l: nat, id: nat :| GrantedAt(start, schedule, k, l, id, g);
    assert (schedule + [a])[..k] == schedule[..k] && (schedule + [a])[..l] == schedule[..l];
    assert GrantedAt(start, schedule + [a], k, l, id, g);
  }

  // ----- one step -----

  lemma StepKeepsClock(start: real, schedule: seq<Action>, s: State, a: Action)
    requires History(start, schedule, s) && Enabled(s, a)
    ensures Step(s, a).now == Clock(start, schedule + [a])
    ensures forall u :: u in Step(s, a).active <==> ActiveAfter(schedule + [a], u)
  {
    assert (schedule + [a])[..|schedule|] == schedule;
  }

  lemma StepKeepsRequestOrigin(start: real, schedule: seq<Action>, s: State, a: Action, id: nat)
    requires History(start, schedule, s) && Enabled(s, a) && id in Step(s, a).requests
    ensures RequestOrigin(start, schedule + [a], id, Step(s, a).requests[id])
  {
    var r, n := Step(s, a).requests[id], |schedule|;
    assert (schedule + [a])[..n] == schedule && (schedule + [a])[n] == a;
    if id in s.requests {
      RequestStays(start, schedule, a, id, s.requests[id]);
    } else {
      assert a.BeginIssue? ==> IssueBegun(start, schedule + [a], n, id, a.user, s.now);
      assert a.BeginExchange? ==> ExchangeBegun(start, schedule + [a], n, id, a.code, s.now);
    }
  }

  lemma StepKeepsCodeOrigin(start: real, schedule: seq<Action>, s: State, a: Action, code: nat)
    requires History(start, schedule, s) && Enabled(s, a) && code in Step(s, a).issued
    ensures CodeOrigin(start, schedule + [a], code, Step(s, a).issued[code])
  {
    var row, n := Step(s, a).issued[code], |schedule|;
    if code in s.issued {
      CodeStays(start, schedule, a, code, row);
    } else {
      var request := s.requests[a.id];
      var i: nat :| IssueBegun(start, schedule, i, a.id, request.user, request.at);
      assert (schedule + [a])[..n] == schedule && (schedule + [a])[..i] == schedule[..i];
      assert StoredAt(start, schedule + [a], i, n, a.id, code, row);
    }
  }

  lemma StepKeepsGrantOrigin(start: real, schedule: seq<Action>, s: State, a: Action, g: Grant)
    requires History(start, schedule, s) && Enabled(s, a) && g in Step(s, a).grants
    ensures GrantOrigin(start, schedule + [a], g)
  {
    if g in s.grants {
      GrantStays(start, schedule, a, g);
    } else {
      var request, n := s.requests[a.id], |schedule|;
      var k: nat :| ExchangeBegun(start, schedule, k, a.id, request.code, request.at);
      assert (schedule + [a])[..n] == schedule && (schedule + [a])[..k] == schedule[..k];
      assert GrantedAt(start, schedule + [a], k, n, a.id, g);
    }
  }

  lemma StepKeepsHistory(start: real, schedule: seq<Action>, s: State, a: Action)
    requires History(start, schedule, s) && Enabled(s, a)
    ensures History(start, schedule + [a], Step(s, a))
  {
    var s' := Step(s, a);
    StepKeepsClock(start, schedule, s, a);
    forall id | id in s'.requests ensures RequestOrigin(start, schedule + [a], id, s'.requests[id]) {
      StepKeepsRequestOrigin(start, schedule, s, a, id);
    }
    forall c | c in s'.issued ensures CodeOrigin(start, schedule + [a], c, s'.issued[c]) {
      StepKeepsCodeOrigin(start, schedule, s, a, c);
    }
    forall g | g in s'.grants ensures GrantOrigin(start, schedule + [a], g) {
      StepKeepsGrantOrigin(start, schedule, s, a, g);
    }
  }

  // ----- all runs -----

  lemma {:induction false} RunKeepsHistory(start: real, done: seq<Action>, s: State, todo: seq<Action>, s': State)
    requires History(start, done, s) && Run(s, todo, s')
    ensures History(start, done + todo, s')
    decreases |todo|
  {
    if todo == [] {
      assert done + todo == done;
    } else {
      StepKeepsHistory(start, done, s, todo[0]);
      RunKeepsHistory(start, done + [todo[0]], Step(s, todo[0]), todo[1..], s');
      assert done + [todo[0]] + todo[1..] == done + todo;
    }
  }

  lemma ReachableHistory(start: real, schedule: seq<Action>, s: State)
    requires Reachable(start, schedule, s)
    ensures History(start, schedule, s)
  {
    RunKeepsHistory(start, [], Start(start), schedule, s);
    assert [] + schedule == schedule;
  }

  /** Every token goes to the user a request asked the code for, in an exchange of that code that began
      less than sixty seconds after that request did and ended while the account was active. */
  lemma TokenForRequester(start: real, schedule: seq<Action>, s: State, g: Grant)
    requires Reachable(start, schedule, s) && g in s.grants
    ensures exists i, j, id :: 0 <= i < j < |schedule|
              && schedule[i] == BeginIssue(id, g.user) && schedule[j] == CommitIssue(id, g.code)
              && g.at < Clock(start, schedule[..i]) + 60.0
    ensures exists k, l, id :: 0 <= k < l < |schedule|
              && schedule[k] == BeginExchange(id, g.code) && schedule[l] == Complete(id)
              && g.at == Clock(start, schedule[..k]) && ActiveAfter(schedule[..l], g.user)
  {
    ReachableInv(start, schedule, s);
    ReachableHistory(start, schedule, s);
    assert CodeOrigin(start, schedule, g.code, s.issued[g.code]);
    var i: nat, j: nat, id: nat :| StoredAt(start, schedule, i, j, id, g.code, s.issued[g.code]);
    assert schedule[i] == BeginIssue(id, g.user) && schedule[j] == CommitIssue(id, g.code);
    var k: nat, l: nat, other: nat :| GrantedAt(start, schedule, k, l, other, g);
    assert schedule[k] == BeginExchange(other, g.code) && schedule[l] == Complete(other);
  }

  /** A code expires exactly sixty seconds after the clock reading of the request that stored it. */
  lemma CodeLifetime(start: real, schedule: seq<Action>, s: State, code: nat)
    requires Reachable(start, schedule, s) && code in s.issued
    ensures exists i, j, id :: 0 <= i < j < |schedule|
              && schedule[i] == BeginIssue(id, s.issued[code].user) && schedule[j] == CommitIssue(id, code)
              && s.issued[code].expires == Clock(start, schedule[..i]) + 60.0
              && s.issued[code].created == Clock(start, schedule[..j])
  {
    ReachableHistory(start, schedule, s);
    var i: nat, j: nat, id: nat :| StoredAt(start, schedule, i, j, id, code, s.issued[code]);
    assert schedule[i] == BeginIssue(id, s.issued[code].user) && schedule[j] == CommitIssue(id, code);
  }

  lemma {:induction false} CommittedIsIssued(s: State, schedule: seq<Action>, s': State, j: nat)
    requires Run(s, schedule, s') && j < |schedule| && schedule[j].CommitIssue?
    ensures schedule[j].code !in s.issued
    ensures schedule[j].code in s'.issued
    decreases |schedule|
  {
    var next := Step(s, schedule[0]);
    IssuedStays(next, schedule[1..], s');
    if j > 0 { CommittedIsIssued(next, schedule[1..], s', j - 1); }
  }

  lemma {:induction false} IssuedStays(s: State, schedule: seq<Action>, s': State)
    requires Run(s, schedule, s')
    ensures s.issued.Keys <= s'.issued.Keys
    decreases |schedule|
  {
    if schedule != [] { IssuedStays(Step(s, schedule[0]), schedule[1..], s'); }
  }

  /** No two requests of a run store the same code, so a code has one requester. */
  lemma {:induction false} OneRequesterPerCode(s: State, schedule: seq<Action>, s': State, i: nat, j: nat)
    requires Run(s, schedule, s') && i < j < |schedule|
    requires schedule[i].CommitIssue? && schedule[j].CommitIssue?
    ensures schedule[i].code != schedule[j].code
    decreases |schedule|
  {
    var next := Step(s, schedule[0]);
    if i == 0 {
      CommittedIsIssued(next, schedule[1..], s', j - 1);
    } else {
      OneRequesterPerCode(next, schedule[1..], s', i - 1, j - 1);
    }
  }

  /** Storing a code purges exactly the codes that had expired when its request began. */
  lemma IssuePurges(start: real, schedule: seq<Action>, s: State, id: nat, code: nat)
    requires Reachable(start, schedule, s) && Enabled(s, CommitIssue(id, code))
    ensures exists i, user :: 0 <= i < |schedule| && schedule[i] == BeginIssue(id, user)
              && forall c :: c in Step(s, CommitIssue(id, code)).table <==>
                   c == code || (c in s.table && s.table[c].expires > Clock(start, schedule[..i]))
  {
    ReachableHistory(start, schedule, s);
    var request := s.requests[id];
    var i: nat :| IssueBegun(start, schedule, i, id, request.user, request.at);
    assert schedule[i] == BeginIssue(id, request.user);
  }

  lemma {:induction false} SpentStaysSpent(s: State, schedule: seq<Action>, s': State, code: nat)
    requires Inv(s) && Run(s, schedule, s') && code in s.issued && code !in s.table
    ensures code !in s'.table && (WasGranted(s', code) <==> WasGranted(s, code))
    decreases |schedule|
  {
    if schedule != [] {
      var a, next := schedule[0], Step(s, schedule[0]);
      StepKeepsTable(s, a);
      StepKeepsRequests(s, a);
      StepKeepsGrants(s, a);
      SpentGetsNoGrant(s, a, code);
      SpentStaysSpent(next, schedule[1..], s', code);
    }
  }

  lemma SpentGetsNoGrant(s: State, a: Action, code: nat)
    requires Inv(s) && Enabled(s, a) && code in s.issued && code !in s.table
    ensures var next := Step(s, a);
            code in next.issued && code !in next.table && (WasGranted(next, code) <==> WasGranted(s, code))
  {
    var next := Step(s, a);
    if i :| 0 <= i < |s.grants| && s.grants[i].code == code {
      assert next.grants[i].code == code;
    }
  }

  /** An exchange that ends uses its code up for good: for a token if the account is active then, and for
      nothing otherwise, whatever happens later. */
  lemma ExchangeUsesUp(start: real, schedule: seq<Action>, s: State, id: nat, later: seq<Action>, s': State)
    requires Reachable(start, schedule, s) && Enabled(s, Complete(id)) && Run(Step(s, Complete(id)), later, s')
    ensures var code := s.requests[id].code;
            && code in s.issued && code !in s'.table
            && (WasGranted(s', code) <==> s.issued[code].user in s.active)
  {
    ReachableInv(start, schedule, s);
    var code, next := s.requests[id].code, Step(s, Complete(id));
    StepKeepsTable(s, Complete(id));
    StepKeepsRequests(s, Complete(id));
    StepKeepsGrants(s, Complete(id));
    SpentStaysSpent(next, later, s', code);
    if s.issued[code].user in s.active {
      assert next.grants[|s.grants|].code == code;
    } else {
      assert forall i :: 0 <= i < |s.grants| ==> s.grants[i].code != code;
    }
  }
}
