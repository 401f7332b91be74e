/**
 * The deadline-bounded polling of scripts/provision_rum_token.py.  The endpoint and the clock
 * are parameters: a reply, a duration and a length of sleep for each request that is ever sent.
 */
module RumProvisioning {
  import opened Support

  /** What one request comes to: an HTTP answer, or an `OSError` or `HTTPException`. */
  datatype Reply = Answer(status: int, body: string) | Failure

  datatype World = World(reply: nat -> Reply, took: nat -> real, slept: nat -> real)

  /** No request takes negative time, and `time.sleep(1.0)` never returns early. */
  ghost predicate Physical(world: World) {
    forall i: nat :: world.took(i) >= 0.0 && world.slept(i) >= 1.0
  }

  /** How many requests were sent, how often the caller slept, and the monotonic clock. */
  datatype Moment = Moment(requests: nat, sleeps: nat, now: real)

  function Requested(world: World, at: Moment): Moment {
    at.(requests := at.requests + 1, now := at.now + world.took(at.requests))
  }

  function Rested(world: World, at: Moment): Moment {
    at.(sleeps := at.sleeps + 1, now := at.now + world.slept(at.sleeps))
  }

  /** One request, then a sleep and a request for as long as the clock stood before the deadline. */
  predicate Paced(from: Moment, to: Moment, deadline: real) {
    && from.sleeps <= to.sleeps
    && to.requests == from.requests + (to.sleeps - from.sleeps) + 1
    && from.now + (to.sleeps - from.sleeps) as real <= to.now
    && (from.sleeps < to.sleeps ==> from.now + (to.sleeps - from.sleeps - 1) as real < deadline)
  }

  predicate Ready(reply: Reply) {
    reply.Answer? && 200 <= reply.status < 500
  }

  method WaitUntilReady(world: World, from: Moment, deadline: real) returns (ready: bool, to: Moment)
    requires Physical(world)
    ensures Paced(from, to, deadline)
    ensures forall i :: from.requests <= i < to.requests - 1 ==> !Ready(world.reply(i))
    ensures ready <==> Ready(world.reply(to.requests - 1))
    ensures !ready ==> to.now >= deadline
  {
    to := from;
    while true
      invariant to == from || (Paced(from, to.(requests := to.requests + 1), deadline) && to.now > from.now)
      invariant from.requests <= to.requests
      invariant forall i :: from.requests <= i < to.requests ==> !Ready(world.reply(i))
      decreases deadline - to.now
    {
      var result := world.reply(to.requests);
      to := Requested(world, to);
      if result.Answer? && 200 <= result.status < 500 {
        return true, to;
      }
      if to.now >= deadline {
        return false, to;
      }
      to := Rested(world, to);
    }
  }

  /** How a fetch can end. */
  datatype Outcome =
    | Token(token: string)
    | NoToken
    | AuthenticationRejected
    | RouteAbsent
    | Redirected
    | GaveUp(last: Reply)

  /** Answers after which the fetch tries again while the budget lasts. */
  predicate Retried(reply: Reply) {
    reply.Failure? || reply.status < 200 || (reply.status >= 400 && reply.status !in {401, 403, 404})
  }

  method FetchRumToken(world: World, extract: string -> Option<string>, from: Moment, deadline: real)
    returns (outcome: Outcome, to: Moment)
    requires Physical(world)
    ensures Paced(from, to, deadline)
    ensures forall i :: from.requests <= i < to.requests - 1 ==> Retried(world.reply(i))
    ensures var last := world.reply(to.requests - 1);
            if Retried(last) then outcome == GaveUp(last) && to.now >= deadline
            else if last.status in {401, 403} then outcome == AuthenticationRejected
            else if last.status == 404 then outcome == RouteAbsent
            else if last.status >= 300 then outcome == Redirected
            else outcome == match extract(last.body) case Some(t) => Token(t) case None => NoToken
  {
    to := from;
    while true
      invariant to == from || (Paced(from, to.(requests := to.requests + 1), deadline) && to.now > from.now)
      invariant from.requests <= to.requests
      invariant forall i :: from.requests <= i < to.requests ==> Retried(world.reply(i))
      decreases deadline - to.now
    {
      var result := world.reply(to.requests);
      to := Requested(world, to);
      if result.Failure? {
        if to.now >= deadline {
          return GaveUp(result), to;
        }
        to := Rested(world, to);
        continue;
      }
      var status := result.status;
      if 200 <= status < 300 {
        match extract(result.body)
        case None => return NoToken, to;
        case Some(token) => return Token(token), to;
      }
      if status == 401 || status == 403 {
        return AuthenticationRejected, to;
      }
      if status == 404 {
        return RouteAbsent, to;
      }
      if 300 <= status < 400 {
        return Redirected, to;
      }
      if to.now >= deadline {
        return GaveUp(result), to;
      }
      to := Rested(world, to);
    }
  }

  /** Two paced stages under one deadline sleep at most `budget` times between them. */
  lemma SharedDeadline(started: Moment, ready: Moment, done: Moment, budget: nat)
    requires Paced(started, ready, started.now + budget as real) && Paced(ready, done, started.now + budget as real)
    ensures done.requests - started.requests <= budget + 2
    ensures ready.requests - started.requests <= budget + 1
  {
    var s1, s2 := ready.sleeps - started.sleeps, done.sleeps - ready.sleeps;
    if s2 > 0 {
      assert s1 as real + (s2 - 1) as real < budget as real;
    } else if s1 > 0 {
      assert (s1 - 1) as real < budget as real;
    }
  }

  /**
   * Readiness polling, then token calls, with the credential, under one budget: `probes` requests
   * went to the health route and `calls` to the token route.
   */
  method Provision(world: World, extract: string -> Option<string>, credential: bool, start: real, budget: nat)
    returns (outcome: Option<Outcome>, probes: nat, calls: nat)
    requires Physical(world)
    ensures probes + calls <= budget + 2
    ensures !credential ==> probes == 0
    ensures calls > 0 <==> probes > 0 && Ready(world.reply(probes - 1))
    ensures forall i :: 0 <= i < probes - 1 ==> !Ready(world.reply(i))
    ensures forall i :: probes <= i < probes + calls - 1 ==> Retried(world.reply(i))
    ensures outcome.Some? <==> calls > 0
    ensures outcome.Some? && outcome.value.Token? ==>
              var last := world.reply(probes + calls - 1);
              !Retried(last) && 200 <= last.status < 300 && extract(last.body) == Some(outcome.value.token)
  {
    if !credential {
      return None, 0, 0;
    }
    var started := Moment(0, 0, start);
    var deadline := start + budget as real;
    var ready, polled := WaitUntilReady(world, started, deadline);
    if !ready {
      SharedDeadline(started, polled, Moment(polled.requests + 1, polled.sleeps, polled.now), budget);
      return None, polled.requests, 0;
    }
    var fetched, done := FetchRumToken(world, extract, polled, deadline);
    SharedDeadline(started, polled, done, budget);
    return Some(fetched), polled.requests, done.requests - polled.requests;
  }
}
