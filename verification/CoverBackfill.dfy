/** Keyset paging over a table that changes while it is paged: scripts/backfill_legacy_covers.py. */
module CoverBackfill {
  import opened Support

  const PAGE_SIZE: nat := 100

  /** What the backfill reads of a manifestation: its cover, `meta.cover_url` and `meta.cover_status == "ready"`. */
  datatype Manifestation = Manifestation(id: nat, cover: Option<string>, metaCover: Option<string>, ready: bool)

  /** How the cover pipeline leaves the row it was given: it returns, or it raises. */
  datatype Attempt = Returned(row: Manifestation) | Raised(row: Manifestation)

  /** The URL tests and the pipeline are parameters. */
  datatype Rules = Rules(
    external: string -> bool,
    local: string -> bool,
    allowed: string -> bool,
    pipeline: Manifestation -> Attempt)

  /** The pipeline works on its own row only. */
  ghost predicate Contained(rules: Rules) {
    forall m :: rules.pipeline(m).row.id == m.id
  }

  predicate Holds(test: string -> bool, url: Option<string>) {
    url.Some? && test(url.value)
  }

  /** The SQL filter. */
  predicate Candidate(rules: Rules, m: Manifestation) {
    Holds(rules.external, m.cover) || Holds(rules.external, m.metaCover)
  }

  predicate LocalReady(rules: Rules, m: Manifestation) {
    Holds(rules.local, m.cover) && m.ready
  }

  /** Some external source of the row has an allowlisted host. */
  predicate Supported(rules: Rules, m: Manifestation) {
    || (Holds(rules.external, m.cover) && rules.allowed(m.cover.value))
    || (Holds(rules.external, m.metaCover) && rules.allowed(m.metaCover.value))
  }

  predicate Eligible(rules: Rules, m: Manifestation) {
    !LocalReady(rules, m) && Supported(rules, m)
  }

  predicate Processed(rules: Rules, m: Manifestation) {
    rules.pipeline(m).Returned? && LocalReady(rules, rules.pipeline(m).row)
  }

  /** The two places a cover URL can stand. */
  function Urls(m: Manifestation): set<string> {
    (if m.cover.Some? then {m.cover.value} else {}) + (if m.metaCover.Some? then {m.metaCover.value} else {})
  }

  /** Either place makes a row a candidate, and a row is worked on exactly when some external URL of it
      has an allowlisted host and its own cover is not a ready local one. */
  lemma UrlsDecide(rules: Rules, m: Manifestation)
    ensures Candidate(rules, m) <==> exists url :: url in Urls(m) && rules.external(url)
    ensures Eligible(rules, m) <==>
            && (exists url :: url in Urls(m) && rules.external(url) && rules.allowed(url))
            && !(m.ready && m.cover.Some? && rules.local(m.cover.value))
    ensures Processed(rules, m) <==>
            exists row :: rules.pipeline(m) == Returned(row)
                          && row.ready && row.cover.Some? && rules.local(row.cover.value)
  {
    assert m.cover.Some? ==> m.cover.value in Urls(m);
    assert m.metaCover.Some? ==> m.metaCover.value in Urls(m);
    var attempt := rules.pipeline(m);
    assert attempt.Returned? ==> attempt == Returned(attempt.row);
  }

  datatype Counts = Counts(candidates: nat, eligible: nat, alreadyLocalReady: nat, unsupportedHost: nat,
          processed: nat, failed: nat)

  const NO_COUNTS := Counts(0, 0, 0, 0, 0, 0)

  /** The table in primary key order; keys start at one. */
  ghost predicate Ordered(rows: seq<Manifestation>) {
    (forall i :: 0 <= i < |rows| ==> rows[i].id > 0) &&
    forall i, j :: 0 <= i < j < |rows| ==> rows[i].id < rows[j].id
  }

  function Candidates(rules: Rules, rows: seq<Manifestation>): seq<Manifestation> {
    if rows == [] then []
    else (if Candidate(rules, rows[0]) then [rows[0]] else []) + Candidates(rules, rows[1..])
  }

  function FirstOf<T>(s: seq<T>, limit: Option<nat>): seq<T> {
    if limit.Some? && limit.value < |s| then s[..limit.value] else s
  }

  /** Rows that match at the start, each once, in increasing key order. */
  lemma {:induction false} CandidatesInOrder(rules: Rules, rows: seq<Manifestation>)
    requires Ordered(rows)
    ensures forall m :: m in Candidates(rules, rows) <==> m in rows && Candidate(rules, m)
    ensures Ordered(Candidates(rules, rows))
  {
    if rows != [] {
      CandidatesInOrder(rules, rows[1..]);
      assert forall m :: m in rows <==> m == rows[0] || m in rows[1..];
      forall m | m in rows[1..] ensures m.id > rows[0].id {
        var i :| 0 <= i < |rows[1..]| && rows[1..][i] == m;
        assert rows[i + 1] == m;
      }
    }
  }

  // ----- one page -----

  /** `WHERE id > last AND <candidate> ORDER BY id LIMIT n` */
  function Page(rules: Rules, rows: seq<Manifestation>, last: nat, n: nat): seq<Manifestation> {
    if rows == [] || n == 0 then []
    else if rows[0].id > last && Candidate(rules, rows[0]) then [rows[0]] + Page(rules, rows[1..], last, n - 1)
    else Page(rules, rows[1..], last, n)
  }

  lemma {:induction false} PageSkips(rules: Rules, rows: seq<Manifestation>, k: nat, last: nat, n: nat)
    requires k <= |rows| && forall i :: 0 <= i < k ==> rows[i].id <= last
    ensures Page(rules, rows, last, n) == Page(rules, rows[k..], last, n)
  {
    if k == 0 || n == 0 {
      assert rows[0..] == rows;
    } else {
      PageSkips(rules, rows[1..], k - 1, last, n);
      assert rows[1..][k - 1..] == rows[k..];
    }
  }

  lemma {:induction false} PageTakes(rules: Rules, rows: seq<Manifestation>, last: nat, n: nat)
    requires forall i :: 0 <= i < |rows| ==> rows[i].id > last
    ensures Page(rules, rows, last, n) == FirstOf(Candidates(rules, rows), Some(n))
    decreases |rows|
  {
    if rows != [] && n > 0 {
      PageTakes(rules, rows[1..], last, if Candidate(rules, rows[0]) then n - 1 else n);
    }
  }

  lemma {:induction false} CandidatesAppend(rules: Rules, a: seq<Manifestation>, b: seq<Manifestation>)
    ensures Candidates(rules, a + b) == Candidates(rules, a) + Candidates(rules, b)
  {
    if a == [] {
      assert a + b == b;
    } else {
      assert (a + b)[1..] == a[1..] + b;
      CandidatesAppend(rules, a[1..], b);
    }
  }

  /** The first candidate behind `k`: what lies before it, and what is left behind it. */
  lemma {:induction false} NextCandidate(rules: Rules, rows: seq<Manifestation>, k: nat) returns (i: nat)
    requires k <= |rows| && Candidates(rules, rows[k..]) != []
    ensures k <= i < |rows| && Candidate(rules, rows[i]) && forall j :: k <= j < i ==> !Candidate(rules, rows[j])
    ensures Candidates(rules, rows[k..]) == [rows[i]] + Candidates(rules, rows[i + 1..])
    ensures Candidates(rules, rows[..i + 1]) == Candidates(rules, rows[..k]) + [rows[i]]
    decreases |rows| - k
  {
    assert rows[k..][1..] == rows[k + 1..];
    assert rows[..k + 1] == rows[..k] + [rows[k]];
    CandidatesAppend(rules, rows[..k], [rows[k]]);
    if Candidate(rules, rows[k]) {
      i := k;
    } else {
      i := NextCandidate(rules, rows, k + 1);
    }
  }

  // ----- the run -----

  function After(rules: Rules, m: Manifestation, apply: bool): Manifestation {
    if apply && Eligible(rules, m) then rules.pipeline(m).row else m
  }

  function Counted(rules: Rules, c: Counts, m: Manifestation, apply: bool): Counts {
    var c := c.(candidates := c.candidates + 1);
    if LocalReady(rules, m) then c.(alreadyLocalReady := c.alreadyLocalReady + 1)
    else if !Supported(rules, m) then c.(unsupportedHost := c.unsupportedHost + 1)
    else
      var c := c.(eligible := c.eligible + 1);
      if !apply then c
      else if Processed(rules, m) then c.(processed := c.processed + 1)
      else c.(failed := c.failed + 1)
  }

  function Tally(rules: Rules, seen: seq<Manifestation>, apply: bool): Counts {
    if seen == [] then NO_COUNTS
    else Counted(rules, Tally(rules, seen[..|seen| - 1], apply), seen[|seen| - 1], apply)
  }

  function HowMany(test: Manifestation -> bool, seen: seq<Manifestation>): nat {
    if seen == [] then 0
    else HowMany(test, seen[..|seen| - 1]) + if test(seen[|seen| - 1]) then 1 else 0
  }

  /** The counters partition the candidates, and each counts what its name says. */
  lemma {:induction false} CountersPartition(rules: Rules, seen: seq<Manifestation>, apply: bool)
    ensures var c := Tally(rules, seen, apply);
            && c.candidates == |seen| == c.alreadyLocalReady + c.unsupportedHost + c.eligible
            && c.processed + c.failed == (if apply then c.eligible else 0)
            && c.eligible == HowMany(m => Eligible(rules, m), seen)
            && c.alreadyLocalReady == HowMany(m => LocalReady(rules, m), seen)
            && c.unsupportedHost == HowMany(m => !LocalReady(rules, m) && !Supported(rules, m), seen)
            && c.processed == (if apply then HowMany(m => Eligible(rules, m) && Processed(rules, m), seen) else 0)
            && c.failed == (if apply then HowMany(m => Eligible(rules, m) && !Processed(rules, m), seen) else 0)
  {
    if seen != [] {
      CountersPartition(rules, seen[..|seen| - 1], apply);
    }
  }

  /** The rows in front of `k` are done: `yielded` are the candidates among them, as they were. */
  ghost predicate Seen(rules: Rules, apply: bool, was: seq<Manifestation>, rows: seq<Manifestation>,
                       k: nat, last: nat, yielded: seq<Manifestation>, counts: Counts) {
    && |rows| == |was| && k <= |was|
    && (forall i :: 0 <= i < |was| ==>
          rows[i] == if i < k && Candidate(rules, was[i]) then After(rules, was[i], apply) else was[i])
    && (forall i :: 0 <= i < k ==> was[i].id <= last)
    && (forall i :: k <= i < |was| ==> last < was[i].id)
    && yielded == Candidates(rules, was[..k])
    && counts == Tally(rules, yielded, apply)
  }

  lemma SeenStep(rules: Rules, apply: bool, was: seq<Manifestation>, rows: seq<Manifestation>,
                 k: nat, last: nat, yielded: seq<Manifestation>, counts: Counts) returns (i: nat)
    requires Ordered(was) && Seen(rules, apply, was, rows, k, last, yielded, counts) &&
        Candidates(rules, was[k..]) != []
    ensures k <= i < |was| && rows[i] == was[i]
    ensures Candidates(rules, was[k..])[0] == was[i] &&
        Candidates(rules, was[k..])[1..] == Candidates(rules, was[i + 1..])
    ensures Seen(rules, apply, was, rows[i := After(rules, was[i], apply)], i + 1, was[i].id, yielded + [was[i]],
                 Counted(rules, counts, was[i], apply))
  {
    i := NextCandidate(rules, was, k);
  }

  lemma Ahead<T>(page: seq<T>, j: nat, left: seq<T>)
    requires j < |page| && page[j..] <= left
    ensures left != [] && page[j] == left[0] && page[j + 1..] <= left[1..]
  {
    assert page[j..][0] == page[j];
    assert page[j + 1..] == page[j..][1..];
  }

  /** A page holds the next candidates, as they were. */
  lemma PageIsNext(rules: Rules, apply: bool, was: seq<Manifestation>, rows: seq<Manifestation>,
                   k: nat, last: nat, yielded: seq<Manifestation>, counts: Counts, n: nat)
    requires Contained(rules) && Seen(rules, apply, was, rows, k, last, yielded, counts)
    ensures Page(rules, rows, last, n) == FirstOf(Candidates(rules, was[k..]), Some(n))
  {
    PageSkips(rules, rows, k, last, n);
    assert rows[k..] == was[k..];
    PageTakes(rules, was[k..], last, n);
  }

  lemma Finished(rules: Rules, apply: bool, was: seq<Manifestation>, rows: seq<Manifestation>,
                 k: nat, last: nat, yielded: seq<Manifestation>, counts: Counts, limit: Option<nat>)
    requires Ordered(was) && Seen(rules, apply, was, rows, k, last, yielded, counts)
    requires limit.Some? ==> |yielded| <= limit.value
    requires Candidates(rules, was[k..]) == [] || (limit.Some? && |yielded| == limit.value)
    ensures yielded == FirstOf(Candidates(rules, was), limit)
    ensures forall i :: 0 <= i < |rows| ==>
              rows[i] == if was[i] in yielded then After(rules, was[i], apply) else was[i]
  {
    assert was == was[..k] + was[k..];
    CandidatesAppend(rules, was[..k], was[k..]);
    CandidatesInOrder(rules, was[..k]);
    forall i | 0 <= i < |was| ensures was[i] in yielded <==> i < k && Candidate(rules, was[i]) {
      if i < k { assert was[i] == was[..k][i]; }
    }
  }

  /** Processing keeps the keys, so a key finds its row. */
  lemma OnlyOne(rules: Rules, apply: bool, was: seq<Manifestation>, rows: seq<Manifestation>, i: nat, j: nat)
    requires Ordered(was) && Contained(rules) && |rows| == |was| && i < |was| && j < |was| && rows[i].id == rows[j].id
    requires forall n :: 0 <= n < |was| ==> rows[n] == was[n] || rows[n] == After(rules, was[n], apply)
    ensures i == j
  {
    assert rows[i].id == was[i].id && rows[j].id == was[j].id;
  }

  class Table {
    var rows: seq<Manifestation>

    method Locate(id: nat) returns (i: nat)
      requires exists k :: 0 <= k < |rows| && rows[k].id == id
      ensures i < |rows| && rows[i].id == id
    {
      i := 0;
      while rows[i].id != id
        invariant i < |rows| && forall k :: 0 <= k < i ==> rows[k].id != id
        decreases |rows| - i
      {
        i := i + 1;
      }
    }

    /** The loop body of `run_backfill` for one candidate. */
    method Visit(rules: Rules, i: nat, apply: bool, before: Counts) returns (counts: Counts)
      requires i < |rows|
      modifies this
      ensures rows == old(rows)[i := After(rules, old(rows)[i], apply)]
      ensures counts == Counted(rules, before, old(rows)[i], apply)
    {
      var m := rows[i];
      counts := before.(candidates := before.candidates + 1);
      if Holds(rules.local, m.cover) && m.ready {
        counts := counts.(alreadyLocalReady := counts.alreadyLocalReady + 1);
        return;
      }
      if !Supported(rules, m) {
        counts := counts.(unsupportedHost := counts.unsupportedHost + 1);
        return;
      }
      counts := counts.(eligible := counts.eligible + 1);
      if !apply {
        return;
      }
      var attempt := rules.pipeline(m);
      rows := rows[i := attempt.row];
      if attempt.Returned? && LocalReady(rules, rows[i]) {
        counts := counts.(processed := counts.processed + 1);
      } else {
        counts := counts.(failed := counts.failed + 1);
      }
    }

    /** Yield the next candidate and process it; `was` is the table at the start of the run. */
    method VisitNext(rules: Rules, apply: bool, m: Manifestation, last0: nat, yielded0: seq<Manifestation>,
                     counts0: Counts, ghost was: seq<Manifestation>, ghost k0: nat)
      returns (last: nat, yielded: seq<Manifestation>, counts: Counts, ghost k: nat)
      requires Ordered(was) && Contained(rules) && Seen(rules, apply, was, rows, k0, last0, yielded0, counts0)
      requires Candidates(rules, was[k0..]) != [] && m == Candidates(rules, was[k0..])[0]
      modifies this
      ensures Seen(rules, apply, was, rows, k, last, yielded, counts)
      ensures yielded == yielded0 + [m] && k0 < k
      ensures Candidates(rules, was[k..]) == Candidates(rules, was[k0..])[1..]
    {
      ghost var i := SeenStep(rules, apply, was, rows, k0, last0, yielded0, counts0);
      last, yielded := m.id, yielded0 + [m];
      var here := Locate(last);
      OnlyOne(rules, apply, was, rows, here, i);
      counts := Visit(rules, here, apply, counts0);
      k := i + 1;
    }

    method VisitPage(rules: Rules, apply: bool, page: seq<Manifestation>, last0: nat, yielded0: seq<Manifestation>,
                     counts0: Counts, ghost was: seq<Manifestation>, ghost k0: nat)
      returns (last: nat, yielded: seq<Manifestation>, counts: Counts, ghost k: nat)
      requires Ordered(was) && Contained(rules) && Seen(rules, apply, was, rows, k0, last0, yielded0, counts0)
      requires page <= Candidates(rules, was[k0..])
      modifies this
      ensures Seen(rules, apply, was, rows, k, last, yielded, counts)
      ensures |yielded| == |yielded0| + |page| && k >= k0 && (page != [] ==> k > k0)
    {
      last, yielded, counts, k := last0, yielded0, counts0, k0;
      for j := 0 to |page|
        invariant Seen(rules, apply, was, rows, k, last, yielded, counts)
        invariant |yielded| == |yielded0| + j && k >= k0 && (j > 0 ==> k > k0)
        invariant page[j..] <= Candidates(rules, was[k..])
      {
        Ahead(page, j, Candidates(rules, was[k..]));
        last, yielded, counts, k := VisitNext(rules, apply, page[j], last, yielded, counts, was, k);
      }
    }

    /**
     * The candidates of the table as it was, up to the limit, whatever processing one of them does
     * to it; `yielded` lists them as they were when their turn came.
     */
    method VisitCandidates(rules: Rules, apply: bool, limit: Option<nat>)
      returns (counts: Counts, yielded: seq<Manifestation>)
      requires Ordered(rows) && Contained(rules) && (limit.Some? ==> limit.value > 0)
      modifies this
      ensures yielded == FirstOf(Candidates(rules, old(rows)), limit)
      ensures counts == Tally(rules, yielded, apply)
      ensures |rows| == |old(rows)|
      ensures forall i :: 0 <= i < |rows| ==>
                rows[i] == if old(rows)[i] in yielded then After(rules, old(rows)[i], apply) else old(rows)[i]
    {
      var last := 0;
      counts, yielded := NO_COUNTS, [];
      ghost var k := 0;
      while limit.None? || |yielded| < limit.value
        invariant Seen(rules, apply, old(rows), rows, k, last, yielded, counts)
        invariant limit.Some? ==> |yielded| <= limit.value
        decreases |rows| - k
      {
        var pageLimit := if limit.None? then PAGE_SIZE else Min(PAGE_SIZE, limit.value - |yielded|);
        var page := Page(rules, rows, last, pageLimit);
        PageIsNext(rules, apply, old(rows), rows, k, last, yielded, counts, pageLimit);
        if page == [] {
          break;
        }
        last, yielded, counts, k := VisitPage(rules, apply, page, last, yielded, counts, old(rows), k);
      }
      Finished(rules, apply, old(rows), rows, k, last, yielded, counts, limit);
    }

    /** `confirmed` says that `--confirm-target` names this database. */
    method RunBackfill(rules: Rules, apply: bool, confirmed: bool, limit: Option<int>) returns (result: Result)
      requires Ordered(rows) && Contained(rules)
      modifies this
      ensures result.BadLimit? <==> limit.Some? && limit.value <= 0
      ensures result.NotConfirmed? <==> !result.BadLimit? && apply && !confirmed
      ensures !apply || !result.Done? ==> rows == old(rows)
      ensures result.Done? ==>
                var cap := if limit.Some? then Some(limit.value as nat) else None;
                var seen := FirstOf(Candidates(rules, old(rows)), cap);
                && result.counts == Tally(rules, seen, apply)
                && |rows| == |old(rows)|
                && forall i :: 0 <= i < |rows| ==>
                     rows[i] == if old(rows)[i] in seen then After(rules, old(rows)[i], apply) else old(rows)[i]
    {
      if limit.Some? && limit.value <= 0 {
        return BadLimit;
      }
      if apply && !confirmed {
        return NotConfirmed;
      }
      var counts, _ := VisitCandidates(rules, apply, if limit.Some? then Some(limit.value) else None);
      return Done(counts);
    }
  }

  /** The two refusals raise `ValueError` before anything is read. */
  datatype Result = BadLimit | NotConfirmed | Done(counts: Counts)

  function Min(a: nat, b: nat): nat {
    if a <= b then a else b
  }
}
