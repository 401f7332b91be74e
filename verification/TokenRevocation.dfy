/**
 The revocation check and the logout, racing on one token.

 A cache fronts the authoritative block list.  A check reads the cache, then the
 table, then tells the cache what it found; a logout commits its row and then
 publishes it to the cache.  Every one of those accesses is one step here, any
 number of checks and logouts interleave, and the clock is a real number because
 the cache timeout truncates a fractional number of seconds.
 */
module TokenRevocation {
  import opened Support

  const MAX_TOKEN_CACHE_TTL: int := 7 * 24 * 60 * 60

  datatype Verdict = Revoked | Active

  datatype CacheEntry = Missing | Entry(verdict: Verdict, until: real)

  /** One in-flight check (first five forms) or logout (last four), named by the access it makes next.
      `ttl` is the timeout it computed and `revoked` its answer so far.  The rest is history: `asOf` is the
      instant of its first cache lookup, `late` says that a logout's publish had already returned when it
      started, `listed` that it found the row in the table, and `last` is its last cache access. */
  datatype Process =
    | Lookup(ttl: int, late: bool)
    | Query(ttl: int, late: bool, asOf: real)
    | Store(ttl: int, late: bool, asOf: real, revoked: bool, listed: bool)
    | Reread(late: bool, asOf: real, listed: bool)
    | Answered(late: bool, asOf: real, revoked: bool, listed: bool, last: Access)
    | Insert
    | Timeout
    | Publish(ttl: int)
    | LoggedOut

  /** When a cache access was made, whether it returned, and whether some logout's publish had by then. */
  datatype Access = Access(at: real, returned: bool, published: bool)

  /** How a cache write ends: it may raise, with or without having taken effect. */
  datatype Outcome = Returned | Raised(applied: bool)

  datatype Action =
    | Tick(elapsed: real)
    | StartCheck(id: nat)
    | CacheGet(id: nat, raised: bool)
    | DatabaseRead(id: nat)
    | CacheWrite(id: nat, outcome: Outcome)
    | CacheReread(id: nat, raised: bool)
    | StartLogout(id: nat)
    | CommitRow(id: nat)
    | ComputeTimeout(id: nat)
    | PublishRevoked(id: nat, outcome: Outcome)
    | PruneExpired

  /** `row` is the block list row; `everListed` and `published` are history: a row was once committed,
      and some logout's cache write returned without raising. */
  datatype State = State(
    exp: int,
    now: real,
    entry: CacheEntry,
    row: bool,
    everListed: bool,
    published: bool,
    procs: map<nat, Process>)

  /** Python's `int()` on a float: truncation toward zero. */
  function Truncate(x: real): int {
    if x >= 0.0 then x.Floor else -(-x).Floor
  }

  function CacheTimeout(exp: int, now: real): (ttl: int)
    ensures 1 <= ttl <= MAX_TOKEN_CACHE_TTL
    ensures ttl > 1 ==> now + ttl as real <= exp as real
  {
    var left := Truncate(exp as real - now);
    var capped := if left < MAX_TOKEN_CACHE_TTL then left else MAX_TOKEN_CACHE_TTL;
    if capped > 1 then capped else 1
  }

  /** What a lookup finds: an entry is gone once its timeout has passed. */
  function Find(s: State): Option<Verdict> {
    if s.entry.Entry? && s.now < s.entry.until then Some(s.entry.verdict) else None
  }

  function WithEntry(s: State, verdict: Verdict, ttl: int): State {
    s.(entry := Entry(verdict, s.now + ttl as real))
  }

  function WithProcess(s: State, id: nat, p: Process): State {
    s.(procs := s.procs[id := p])
  }

  function GetStep(s: State, id: nat, p: Process, raised: bool): State
    requires p.Lookup?
  {
    var access := Access(s.now, !raised, s.published);
    if !raised && Find(s) == Some(Revoked) then WithProcess(s, id, Answered(p.late, s.now, true, false, access))
    else if !raised && Find(s) == Some(Active) then WithProcess(s, id, Answered(p.late, s.now, false, false, access))
    else WithProcess(s, id, Query(p.ttl, p.late, s.now))
  }

  /** The write that ends a check: `set` for a positive answer, `add` for a negative one. */
  function WriteStep(s: State, id: nat, p: Process, outcome: Outcome): State
    requires p.Store?
  {
    var applied := outcome.Returned? || outcome.applied;
    var refused := !p.revoked && Find(s).Some?;
    var s' := if !applied || refused then s else WithEntry(s, if p.revoked then Revoked else Active, p.ttl);
    WithProcess(s', id,
      if outcome.Returned? && refused then Reread(p.late, p.asOf, p.listed)
      else Answered(p.late, p.asOf, p.revoked, p.listed, Access(s.now, outcome.Returned?, s.published)))
  }

  function RereadStep(s: State, id: nat, p: Process, raised: bool): State
    requires p.Reread?
  {
    WithProcess(s, id, Answered(p.late, p.asOf, !raised && Find(s) == Some(Revoked), p.listed,
                                Access(s.now, !raised, s.published)))
  }

  function PublishStep(s: State, id: nat, p: Process, outcome: Outcome): State
    requires p.Publish?
  {
    var s' := if outcome.Returned? || outcome.applied then WithEntry(s, Revoked, p.ttl) else s;
    WithProcess(s', id, LoggedOut).(published := s.published || outcome.Returned?)
  }

  predicate Enabled(s: State, a: Action) {
    match a
    case Tick(elapsed) => elapsed > 0.0
    case StartCheck(id) => id !in s.procs
    case CacheGet(id, _) => id in s.procs && s.procs[id].Lookup?
    case DatabaseRead(id) => id in s.procs && s.procs[id].Query?
    case CacheWrite(id, _) => id in s.procs && s.procs[id].Store?
    case CacheReread(id, _) => id in s.procs && s.procs[id].Reread?
    case StartLogout(id) => id !in s.procs
    case CommitRow(id) => id in s.procs && s.procs[id].Insert?
    case ComputeTimeout(id) => id in s.procs && s.procs[id].Timeout?
    case PublishRevoked(id, _) => id in s.procs && s.procs[id].Publish?
    case PruneExpired => s.exp as real < s.now
  }

  function Step(s: State, a: Action): State
    requires Enabled(s, a)
  {
    match a
    case Tick(elapsed) => s.(now := s.now + elapsed)
    case StartCheck(id) => WithProcess(s, id, Lookup(CacheTimeout(s.exp, s.now), s.published))
    case CacheGet(id, raised) => GetStep(s, id, s.procs[id], raised)
    case DatabaseRead(id) =>
      var p := s.procs[id];
      WithProcess(s, id, Store(p.ttl, p.late, p.asOf, s.row, s.row))
    case CacheWrite(id, outcome) => WriteStep(s, id, s.procs[id], outcome)
    case CacheReread(id, raised) => RereadStep(s, id, s.procs[id], raised)
    case StartLogout(id) => WithProcess(s, id, Insert)
    case CommitRow(id) => WithProcess(s, id, Timeout).(row := true, everListed := true)
    case ComputeTimeout(id) => WithProcess(s, id, Publish(CacheTimeout(s.exp, s.now)))
    case PublishRevoked(id, outcome) => PublishStep(s, id, s.procs[id], outcome)
    case PruneExpired => s.(row := false)
  }

  /** The state in which a token that expires at `exp` is minted at `start`. */
  function Minted(exp: int, start: real): State {
    State(exp, start, Missing, false, false, false, map[])
  }

  /** The state a schedule leads to, or None when one of its steps is not enabled. */
  function Run(s: State, schedule: seq<Action>): Option<State>
    decreases |schedule|
  {
    if schedule == [] then Some(s)
    else if Enabled(s, schedule[0]) then Run(Step(s, schedule[0]), schedule[1..])
    else None
  }

  /** The seven-day lifetime `generate_internal_jwt` gives a token: the timeout cap never bites. */
  predicate SevenDayToken(exp: int, start: real) {
    exp as real - MAX_TOKEN_CACHE_TTL as real <= start
  }

  // ----- what a run keeps -----

  predicate ProcessInv(s: State, p: Process, horizon: real) {
    match p
    case Lookup(ttl, late) => s.now + ttl as real > horizon && (late ==> s.published)
    case Query(ttl, late, asOf) => s.now + ttl as real > horizon && (late ==> s.published)
    case Store(ttl, late, asOf, revoked, listed) =>
      && s.now + ttl as real > horizon
      && (late ==> s.published)
      && (revoked ==> s.everListed)
      && (late && !revoked ==> s.now > s.exp as real)
      && (listed ==> revoked)
    case Reread(late, asOf, listed) => !listed && (late ==> s.now > s.exp as real)
    case Answered(late, asOf, revoked, listed, last) =>
      && (revoked ==> s.everListed)
      && (late && asOf <= horizon && !revoked ==> s.now > s.exp as real)
      && (listed ==> revoked)
      && (last.returned && last.published && last.at <= horizon ==> revoked)
    case Insert => true
    case Timeout => s.everListed
    case Publish(ttl) => s.everListed && s.now + ttl as real > horizon
    case LoggedOut => true
  }

  /** Until `horizon`, what a logout published stays the live cache entry. */
  predicate StoreInv(s: State, horizon: real) {
    && (s.published ==> s.everListed)
    && (s.everListed && s.now <= s.exp as real ==> s.row)
    && (s.row ==> s.everListed)
    && (s.entry.Entry? && s.entry.verdict == Revoked ==> s.everListed)
    && (s.published && s.now <= horizon ==> s.entry.Entry? && s.entry.verdict == Revoked && s.entry.until > horizon)
  }

  predicate Inv(s: State, horizon: real) {
    StoreInv(s, horizon) && forall id :: id in s.procs ==> ProcessInv(s, s.procs[id], horizon)
  }

  /** The process that takes a step, if the action has one. */
  predicate Actor(a: Action, id: nat) {
    !a.Tick? && !a.PruneExpired? && a.id == id
  }

  lemma StepKeepsStore(s: State, a: Action, horizon: real)
    requires StoreInv(s, horizon) && Enabled(s, a)
    requires s.now + CacheTimeout(s.exp, s.now) as real > horizon
    requires forall id :: Actor(a, id) && id in s.procs ==> ProcessInv(s, s.procs[id], horizon)
    ensures StoreInv(Step(s, a), horizon)
  {
    assert !a.Tick? && !a.PruneExpired? ==> Actor(a, a.id);
  }

  lemma StepKeepsActor(s: State, a: Action, horizon: real, id: nat)
    requires StoreInv(s, horizon) && Enabled(s, a) && Actor(a, id)
    requires s.now + CacheTimeout(s.exp, s.now) as real > horizon
    requires id in s.procs ==> ProcessInv(s, s.procs[id], horizon)
    ensures id in Step(s, a).procs && ProcessInv(Step(s, a), Step(s, a).procs[id], horizon)
  {
  }

  /** What the others rely on only grows: time, and what was ever listed or published. */
  lemma StepKeepsOther(s: State, a: Action, horizon: real, id: nat)
    requires Enabled(s, a) && !Actor(a, id) && id in s.procs && ProcessInv(s, s.procs[id], horizon)
    ensures id in Step(s, a).procs && ProcessInv(Step(s, a), Step(s, a).procs[id], horizon)
  {
    var s' := Step(s, a);
    assert s'.procs[id] == s.procs[id] && s'.exp == s.exp && s'.now >= s.now;
    assert (s.everListed ==> s'.everListed) && (s.published ==> s'.published);
  }

  lemma StepKeepsInv(s: State, a: Action, horizon: real)
    requires Inv(s, horizon) && Enabled(s, a)
    requires s.now + CacheTimeout(s.exp, s.now) as real > horizon
    ensures Inv(Step(s, a), horizon)
  {
    StepKeepsStore(s, a, horizon);
    var s' := Step(s, a);
    forall id | id in s'.procs
      ensures ProcessInv(s', s'.procs[id], horizon)
    {
      if Actor(a, id) {
        StepKeepsActor(s, a, horizon, id);
      } else {
        assert id in s.procs;
        StepKeepsOther(s, a, horizon, id);
      }
    }
  }

  predicate Whole(x: real) {
    x.Floor as real == x
  }

  lemma WholeSum(x: real, y: real)
    requires Whole(x) && Whole(y)
    ensures Whole(x + y)
  {
    assert x + y == (x.Floor + y.Floor) as real;
  }

  predicate WholeTicks(schedule: seq<Action>) {
    forall i :: 0 <= i < |schedule| && schedule[i].Tick? ==> Whole(schedule[i].elapsed)
  }

  /** How long a published entry lasts: truncation costs up to a second, unless time is whole seconds. */
  function Horizon(exp: int, whole: bool): real {
    exp as real - if whole then 0.5 else 1.0
  }

  lemma TimeoutReaches(exp: int, start: real, now: real, whole: bool)
    requires SevenDayToken(exp, start) && start <= now && (whole ==> Whole(now))
    ensures now + CacheTimeout(exp, now) as real > Horizon(exp, whole)
  {
    if whole {
      var n := now.Floor;
      assert exp as real - now == (exp - n) as real;
    }
  }

  lemma {:induction false} RunKeepsInv(s: State, schedule: seq<Action>, start: real, whole: bool)
    requires Inv(s, Horizon(s.exp, whole)) && SevenDayToken(s.exp, start) && start <= s.now
    requires whole ==> Whole(s.now) && WholeTicks(schedule)
    requires Run(s, schedule).Some?
    ensures var s' := Run(s, schedule).value;
            s'.exp == s.exp && Inv(s', Horizon(s.exp, whole))
    decreases |schedule|
  {
    if schedule != [] {
      TimeoutReaches(s.exp, start, s.now, whole);
      StepKeepsInv(s, schedule[0], Horizon(s.exp, whole));
      if whole && schedule[0].Tick? { WholeSum(s.now, schedule[0].elapsed); }
      RunKeepsInv(Step(s, schedule[0]), schedule[1..], start, whole);
    }
  }

  // ----- the guarantee -----

  predicate MissedBy(s: State, id: nat, instant: real) {
    id in s.procs && s.procs[id].Answered? && s.procs[id].late && s.procs[id].asOf == instant && !s.procs[id].revoked
  }

  /** A check that started after a publish had returned, and first looked the token up at `instant`,
      has answered "not revoked" although the token has not expired yet. */
  ghost predicate Missed(s: State, instant: real) {
    s.now <= s.exp as real && exists id :: MissedBy(s, id, instant)
  }

  /** Whatever the schedule, "revoked" is only ever said of a token whose row was committed, and while
      the token lives that row is still there. */
  lemma NoFalseRevocation(exp: int, start: real, schedule: seq<Action>, id: nat)
    requires SevenDayToken(exp, start)
    requires var r := Run(Minted(exp, start), schedule);
             r.Some? && id in r.value.procs && r.value.procs[id].Answered? && r.value.procs[id].revoked
    ensures var s := Run(Minted(exp, start), schedule).value;
            s.everListed && (s.now <= exp as real ==> s.row)
  {
    RunKeepsInv(Minted(exp, start), schedule, start, false);
    var s := Run(Minted(exp, start), schedule).value;
    assert ProcessInv(s, s.procs[id], exp as real - 1.0);
  }

  /** No schedule makes a check that looks the token up by `exp - 1` miss a published logout. */
  lemma PublishedLogoutHolds(exp: int, start: real, schedule: seq<Action>, instant: real)
    requires SevenDayToken(exp, start) && instant <= exp as real - 1.0
    requires Run(Minted(exp, start), schedule).Some?
    ensures !Missed(Run(Minted(exp, start), schedule).value, instant)
  {
    RunKeepsInv(Minted(exp, start), schedule, start, false);
    var s := Run(Minted(exp, start), schedule).value;
    forall id | MissedBy(s, id, instant)
      ensures s.now > exp as real
    {
      assert ProcessInv(s, s.procs[id], exp as real - 1.0);
    }
  }

  /** With a clock that only shows whole seconds, the guarantee lasts until the token expires. */
  lemma WholeSecondsLogoutHolds(exp: int, start: real, schedule: seq<Action>, instant: real)
    requires SevenDayToken(exp, start) && Whole(start) && WholeTicks(schedule)
    requires Whole(instant) && instant < exp as real
    requires Run(Minted(exp, start), schedule).Some?
    ensures !Missed(Run(Minted(exp, start), schedule).value, instant)
  {
    RunKeepsInv(Minted(exp, start), schedule, start, true);
    assert exp as real - instant == (exp - instant.Floor) as real;
    var s := Run(Minted(exp, start), schedule).value;
    forall id | MissedBy(s, id, instant)
      ensures s.now > exp as real
    {
      assert ProcessInv(s, s.procs[id], Horizon(exp, true));
    }
  }

  /** Nor does a check that was already under way miss it, once it reaches the cache: if its last access
      returned, after a publish had, and no later than `exp - 1`, it answers "revoked". */
  lemma LastAccessSeesLogout(exp: int, start: real, schedule: seq<Action>, id: nat, whole: bool)
    requires SevenDayToken(exp, start) && (whole ==> Whole(start) && WholeTicks(schedule))
    requires var r := Run(Minted(exp, start), schedule);
             r.Some? && id in r.value.procs && r.value.procs[id].Answered? &&
             var last := r.value.procs[id].last;
             last.returned && last.published && last.at <= Horizon(exp, whole)
    ensures Run(Minted(exp, start), schedule).value.procs[id].revoked
  {
    RunKeepsInv(Minted(exp, start), schedule, start, whole);
    var s := Run(Minted(exp, start), schedule).value;
    assert ProcessInv(s, s.procs[id], Horizon(exp, whole));
  }

  /** A check that finds the row in the table answers "revoked", whatever the cache does. */
  lemma ListedMeansRevoked(exp: int, start: real, schedule: seq<Action>, id: nat)
    requires SevenDayToken(exp, start)
    requires var r := Run(Minted(exp, start), schedule);
             r.Some? && id in r.value.procs && r.value.procs[id].Answered? && r.value.procs[id].listed
    ensures Run(Minted(exp, start), schedule).value.procs[id].revoked
  {
    RunKeepsInv(Minted(exp, start), schedule, start, false);
    var s := Run(Minted(exp, start), schedule).value;
    assert ProcessInv(s, s.procs[id], exp as real - 1.0);
  }

  /** A run can take one more step. */
  lemma {:induction false} Extend(s: State, schedule: seq<Action>, last: State, a: Action)
    returns (longer: seq<Action>, next: State)
    requires Run(s, schedule) == Some(last) && Enabled(last, a)
    ensures longer == schedule + [a] && next == Step(last, a) && Run(s, longer) == Some(next)
    decreases |schedule|
  {
    longer, next := schedule + [a], Step(last, a);
    if schedule == [] {
      assert longer[1..] == [];
    } else {
      assert longer[1..] == schedule[1..] + [a];
      var _, _ := Extend(Step(s, schedule[0]), schedule[1..], last, a);
    }
  }

  /** Check 0 reads the table before logout 1 commits its row. */
  lemma StaleReadRun(s: State, prefix: seq<Action>, mid: State) returns (schedule: seq<Action>, s': State)
    requires Run(s, prefix) == Some(mid) && mid == Minted(mid.exp, mid.now)
    ensures Run(s, schedule) == Some(s')
    ensures var ttl := CacheTimeout(mid.exp, mid.now);
            s' == mid.(row := true, everListed := true,
                       procs := map[0 := Store(ttl, false, mid.now, false, false), 1 := Timeout])
  {
    var q, t := Extend(s, prefix, mid, StartCheck(0));
    q, t := Extend(s, q, t, CacheGet(0, false));
    q, t := Extend(s, q, t, DatabaseRead(0));
    q, t := Extend(s, q, t, StartLogout(1));
    schedule, s' := Extend(s, q, t, CommitRow(1));
  }

  /** The logout computes its timeout at `instant - 1`, where one and a fraction of a second truncate
      to 1; check 0's `add` finds that entry gone at `instant`, and check 2 believes what it stored. */
  lemma StaleAddRun(s: State, prefix: seq<Action>, mid: State, ttl: int) returns (schedule: seq<Action>, s': State)
    requires Run(s, prefix) == Some(mid) && mid.entry == Missing && 1 <= ttl
    requires mid.exp as real - 1.0 < mid.now + 1.0 < mid.exp as real
    requires mid.procs == map[0 := Store(ttl, false, mid.now, false, false), 1 := Timeout]
    ensures Run(s, schedule) == Some(s') && Missed(s', mid.now + 1.0)
  {
    var q, t := Extend(s, prefix, mid, ComputeTimeout(1));
    assert t.procs[1] == Publish(1);
    q, t := Extend(s, q, t, PublishRevoked(1, Returned));
    q, t := Extend(s, q, t, Tick(1.0));
    q, t := Extend(s, q, t, CacheWrite(0, Returned));
    q, t := Extend(s, q, t, StartCheck(2));
    schedule, s' := Extend(s, q, t, CacheGet(2, false));
    assert MissedBy(s', 2, mid.now + 1.0);
  }

  /** In the last second a published logout can be missed. */
  lemma LastSecondMiss(exp: int, start: real, instant: real) returns (schedule: seq<Action>)
    requires start + 1.0 <= instant && exp as real - 1.0 < instant < exp as real
    ensures var r := Run(Minted(exp, start), schedule);
            r.Some? && Missed(r.value, instant)
  {
    var s := Minted(exp, start);
    var q, t := [], s;
    if start + 1.0 < instant {
      q, t := Extend(s, q, t, Tick(instant - 1.0 - start));
    }
    q, t := StaleReadRun(s, q, t);
    schedule, t := StaleAddRun(s, q, t, CacheTimeout(exp, instant - 1.0));
  }

  /** The exact reach of the guarantee: it holds at an instant of the token's life, in every run,
      if and only if that instant is not within the last second before expiry. */
  lemma GuaranteeExact(exp: int, start: real, instant: real)
    requires SevenDayToken(exp, start) && start + 1.0 <= instant < exp as real
    ensures (forall schedule {:trigger Run(Minted(exp, start), schedule)} ::
               var r := Run(Minted(exp, start), schedule);
               r.Some? ==> !Missed(r.value, instant))
            <==> instant <= exp as real - 1.0
  {
    if instant <= exp as real - 1.0 {
      forall schedule | Run(Minted(exp, start), schedule).Some?
        ensures !Missed(Run(Minted(exp, start), schedule).value, instant)
      {
        PublishedLogoutHolds(exp, start, schedule, instant);
      }
    } else {
      var schedule := LastSecondMiss(exp, start, instant);
    }
  }
}
