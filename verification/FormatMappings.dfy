/** The bulk rewriting of `meta['format']` in scripts/fix_physical_kinds.py, one UPDATE at a time. */
module FormatMappings {
  import opened Support

  /** A manifestation, as far as the UPDATEs see it: its own format and its expression's content type. */
  datatype Row = Row(format: Option<string>, contentType: Option<string>)

  type Rows = map<nat, Row>

  /** What selects rows: a stored format, or no format and a content type. */
  datatype Key = Exact(raw: string) | Null(contentType: string)

  datatype Update = Update(key: Key, target: string)

  function KeyOf(row: Row): Option<Key> {
    match row.format
    case Some(raw) => Some(Exact(raw))
    case None => match row.contentType case Some(ct) => Some(Null(ct)) case None => None
  }

  predicate Matches(u: Update, row: Row) {
    KeyOf(row) == Some(u.key)
  }

  function Rewrite(u: Update, row: Row): Row {
    if Matches(u, row) then row.(format := Some(u.target)) else row
  }

  /** The UPDATEs one after the other. */
  function Sequential(us: seq<Update>, row: Row): Row {
    if us == [] then row else Sequential(us[1..], Rewrite(us[0], row))
  }

  /** One substitution: the mapping that selects the row as it was, and no other. */
  function Simultaneous(us: seq<Update>, row: Row): Row {
    if us == [] then row
    else if Matches(us[0], row) then Rewrite(us[0], row)
    else Simultaneous(us[1..], row)
  }

  ghost predicate Distinct(us: seq<Update>) {
    forall i, j :: 0 <= i < j < |us| ==> us[i].key != us[j].key
  }

  /** Some UPDATE changes what an earlier one wrote. */
  ghost predicate Chained(us: seq<Update>) {
    exists i, j :: 0 <= i < j < |us| && us[j].key == Exact(us[i].target) && us[j].target != us[i].target
  }

  lemma {:induction false} Settled(us: seq<Update>, row: Row)
    requires forall u :: u in us && Matches(u, row) ==> row.format == Some(u.target)
    ensures Sequential(us, row) == row
  {
    if us != [] {
      Settled(us[1..], row);
    }
  }

  lemma {:induction false} SimultaneousSelects(us: seq<Update>, row: Row)
    requires Distinct(us)
    ensures (forall u :: u in us ==> !Matches(u, row)) ==> Simultaneous(us, row) == row
    ensures forall u :: u in us && Matches(u, row) ==> Simultaneous(us, row) == row.(format := Some(u.target))
  {
    if us != [] {
      SimultaneousSelects(us[1..], row);
    }
  }

  lemma {:induction false} UnchainedAgrees(us: seq<Update>, row: Row)
    requires Distinct(us) && !Chained(us)
    ensures Sequential(us, row) == Simultaneous(us, row)
  {
    if us != [] {
      TailUnchained(us);
      if Matches(us[0], row) {
        Settled(us[1..], Rewrite(us[0], row));
      } else {
        UnchainedAgrees(us[1..], row);
      }
    }
  }

  lemma TailUnchained(us: seq<Update>)
    requires us != [] && !Chained(us)
    ensures !Chained(us[1..])
    ensures forall u :: u in us[1..] && u.key == Exact(us[0].target) ==> u.target == us[0].target
  {
    var tail := us[1..];
    forall i, j | 0 <= i < j < |tail| && tail[j].key == Exact(tail[i].target)
      ensures tail[j].target == tail[i].target
    {
      assert tail[i] == us[i + 1] && tail[j] == us[j + 1];
    }
    forall j | 0 <= j < |tail| && tail[j].key == Exact(us[0].target) ensures tail[j].target == us[0].target {
      assert tail[j] == us[j + 1];
    }
  }

  /** A row that an UPDATE selects. */
  function Sample(u: Update): (row: Row)
    ensures Matches(u, row)
  {
    match u.key case Exact(raw) => Row(Some(raw), None) case Null(ct) => Row(None, Some(ct))
  }

  /** The first UPDATE writes what a later one changes. */
  ghost predicate HeadChained(us: seq<Update>) {
    us != [] && exists u :: u in us[1..] && u.key == Exact(us[0].target) && u.target != us[0].target
  }

  lemma ChainedSplits(us: seq<Update>)
    requires Chained(us)
    ensures HeadChained(us) || Chained(us[1..])
  {
    var i, j :| 0 <= i < j < |us| && us[j].key == Exact(us[i].target) && us[j].target != us[i].target;
    var tail := us[1..];
    assert tail[j - 1] == us[j];
    if i > 0 {
      assert tail[i - 1] == us[i];
    }
  }

  lemma HeadDisagrees(us: seq<Update>)
    requires Distinct(us) && HeadChained(us) && !Chained(us[1..])
    ensures Sequential(us, Sample(us[0])) != Simultaneous(us, Sample(us[0]))
  {
    var next := Rewrite(us[0], Sample(us[0]));
    UnchainedAgrees(us[1..], next);
    SimultaneousSelects(us[1..], next);
  }

  lemma {:induction false} ChainedDisagrees(us: seq<Update>) returns (row: Row)
    requires Distinct(us) && Chained(us)
    ensures Sequential(us, row) != Simultaneous(us, row)
  {
    ChainedSplits(us);
    if Chained(us[1..]) {
      row := ChainedDisagrees(us[1..]);
      if Matches(us[0], row) {
        Settled(us[1..], row);
        SimultaneousSelects(us[1..], row);
      }
    } else {
      row := Sample(us[0]);
      HeadDisagrees(us);
    }
  }

  /** Sequential UPDATEs are one simultaneous substitution exactly when none changes what an earlier one wrote. */
  lemma SimultaneousIff(us: seq<Update>)
    requires Distinct(us)
    ensures (forall row :: Sequential(us, row) == Simultaneous(us, row)) <==> !Chained(us)
  {
    if Chained(us) {
      var row := ChainedDisagrees(us);
    } else {
      forall row ensures Sequential(us, row) == Simultaneous(us, row) { UnchainedAgrees(us, row); }
    }
  }

  /** Then the order of the mappings does not matter. */
  lemma OrderIrrelevant(us: seq<Update>, vs: seq<Update>, row: Row)
    requires Distinct(us) && Distinct(vs) && !Chained(us) && !Chained(vs)
    requires forall u :: u in us <==> u in vs
    ensures Sequential(us, row) == Sequential(vs, row)
  {
    UnchainedAgrees(us, row);
    UnchainedAgrees(vs, row);
    SimultaneousSelects(us, row);
    SimultaneousSelects(vs, row);
    if u :| u in us && Matches(u, row) {
      assert u in vs;
    }
  }

  // ----- the table -----

  function Selected(rows: Rows, u: Update): set<nat> {
    set id | id in rows && Matches(u, rows[id])
  }

  function Updated(rows: Rows, u: Update): Rows {
    map id | id in rows :: Rewrite(u, rows[id])
  }

  function Applied(rows: Rows, us: seq<Update>): Rows {
    if us == [] then rows else Applied(Updated(rows, us[0]), us[1..])
  }

  /** The row counts of the UPDATEs, added up. */
  function Total(rows: Rows, us: seq<Update>): nat {
    if us == [] then 0 else |Selected(rows, us[0])| + Total(Updated(rows, us[0]), us[1..])
  }

  lemma {:induction false} AppliedRow(rows: Rows, us: seq<Update>, id: nat)
    requires id in rows
    ensures id in Applied(rows, us) && Applied(rows, us)[id] == Sequential(us, rows[id])
  {
    if us != [] {
      AppliedRow(Updated(rows, us[0]), us[1..], id);
    }
  }

  function Changed(rows: Rows, us: seq<Update>): set<nat> {
    set id | id in rows && Sequential(us, rows[id]) != rows[id]
  }

  ghost predicate HasIdentity(us: seq<Update>) {
    exists u :: u in us && u.key == Exact(u.target)
  }

  /** Without identities and chains the reported total is the number of rows that changed. */
  lemma {:induction false} TotalCountsChanged(rows: Rows, us: seq<Update>)
    requires Distinct(us) && !HasIdentity(us) && !Chained(us)
    ensures Total(rows, us) == |Changed(rows, us)|
  {
    if us == [] {
      assert Changed(rows, us) == {};
    } else {
      TailUnchained(us);
      var rest := Updated(rows, us[0]);
      TotalCountsChanged(rest, us[1..]);
      forall id | id in rows
        ensures id in Changed(rows, us) <==> id in Selected(rows, us[0]) || id in Changed(rest, us[1..])
        ensures !(id in Selected(rows, us[0]) && id in Changed(rest, us[1..]))
      {
        HeadChanges(us, rows[id]);
      }
      var head, tail := Selected(rows, us[0]), Changed(rest, us[1..]);
      assert Changed(rows, us) == head + tail;
      assert head !! tail;
    }
  }

  lemma HeadChanges(us: seq<Update>, row: Row)
    requires us != [] && Distinct(us) && !HasIdentity(us) && !Chained(us)
    ensures Matches(us[0], row) ==>
              Sequential(us, row) != row && Sequential(us[1..], Rewrite(us[0], row)) == Rewrite(us[0], row)
  {
    TailUnchained(us);
    if Matches(us[0], row) {
      assert us[0] in us;
      Settled(us[1..], Rewrite(us[0], row));
    }
  }

  /** Any identity or chain makes the total wrong for some one-row table. */
  lemma {:induction false} TotalMiscounts(us: seq<Update>) returns (row: Row)
    requires Distinct(us) && (HasIdentity(us) || Chained(us))
    ensures Total(map[0 := row], us) != |Changed(map[0 := row], us)|
  {
    var tail := us[1..];
    if HasIdentity(tail) || Chained(tail) {
      row := TotalMiscounts(tail);
      OneRow(us, row);
      OneRow(tail, row);
      if Matches(us[0], row) {
        NoneMatch(tail, row);
      }
    } else {
      row := Sample(us[0]);
      HeadMiscounts(us);
    }
  }

  lemma HeadMiscounts(us: seq<Update>)
    requires Distinct(us) && (HasIdentity(us) || Chained(us)) && !HasIdentity(us[1..]) && !Chained(us[1..])
    ensures var rows := map[0 := Sample(us[0])]; Total(rows, us) != |Changed(rows, us)|
  {
    var row, tail := Sample(us[0]), us[1..];
    var next := Rewrite(us[0], row);
    OneRow(us, row);
    if us[0].key == Exact(us[0].target) {
      assert next == row;
      Settled(tail, row);
    } else {
      IdentityInTail(us);
      ChainedSplits(us);
      OneRow(tail, next);
      TotalCountsChanged(map[0 := next], tail);
      SimultaneousSelects(tail, next);
      UnchainedAgrees(tail, next);
    }
  }

  lemma IdentityInTail(us: seq<Update>)
    requires us != [] && us[0].key != Exact(us[0].target)
    ensures HasIdentity(us) ==> HasIdentity(us[1..])
  {
    forall u | u in us && u.key == Exact(u.target) ensures u in us[1..] {}
  }

  lemma {:induction false} NoneMatch(us: seq<Update>, row: Row)
    requires forall u :: u in us ==> !Matches(u, row)
    ensures Total(map[0 := row], us) == 0 && Sequential(us, row) == row
    ensures Changed(map[0 := row], us) == {}
  {
    if us != [] {
      NoneMatch(us[1..], row);
      OneRow(us, row);
    }
  }

  /** A table of one row. */
  lemma OneRow(us: seq<Update>, row: Row)
    ensures Changed(map[0 := row], us) == if Sequential(us, row) == row then {} else {0}
    ensures us != [] ==> Updated(map[0 := row], us[0]) == map[0 := Rewrite(us[0], row)]
    ensures us != [] ==> Selected(map[0 := row], us[0]) == if Matches(us[0], row) then {0} else {}
  {
  }

  /** The total counts the changed rows of every table exactly without identities and chains. */
  lemma TotalExactIff(us: seq<Update>)
    requires Distinct(us)
    ensures (forall rows :: Total(rows, us) == |Changed(rows, us)|) <==> !HasIdentity(us) && !Chained(us)
  {
    if HasIdentity(us) || Chained(us) {
      var row := TotalMiscounts(us);
    } else {
      forall rows ensures Total(rows, us) == |Changed(rows, us)| { TotalCountsChanged(rows, us); }
    }
  }

  /** Some UPDATE, earlier or later, changes what another writes. */
  ghost predicate Linked(us: seq<Update>) {
    exists u, v :: u in us && v in us && v.key == Exact(u.target) && v.target != u.target
  }

  lemma UnlinkedRepeats(us: seq<Update>, row: Row)
    requires Distinct(us) && !Chained(us) && !Linked(us)
    ensures Sequential(us, Sequential(us, row)) == Sequential(us, row)
  {
    UnchainedAgrees(us, row);
    SimultaneousSelects(us, row);
    Settled(us, Sequential(us, row));
  }

  // ----- a second apply -----

  /** UPDATE `j` comes later and takes up what `i` wrote. */
  predicate Follows(us: seq<Update>, i: nat, j: nat) {
    i < j < |us| && us[j].key == Exact(us[i].target)
  }

  /** The last UPDATE of the chain that starts with `i`. */
  ghost function EndOf(us: seq<Update>, i: nat): (e: nat)
    requires i < |us|
    ensures i <= e < |us| && forall j :: !Follows(us, e, j)
    decreases |us| - i
  {
    if exists j :: Follows(us, i, j) then
      var j :| Follows(us, i, j);
      EndOf(us, j)
    else i
  }

  lemma {:induction false} SkipTo(us: seq<Update>, i: nat, j: nat, row: Row)
    requires i <= j <= |us| && forall m :: i <= m < j ==> !Matches(us[m], row)
    ensures Sequential(us[i..], row) == Sequential(us[j..], row)
    decreases j - i
  {
    if i < j {
      assert us[i..][1..] == us[i + 1..];
      SkipTo(us, i + 1, j, row);
    }
  }

  /** A selected row ends up with the target of the chain's last UPDATE. */
  lemma {:induction false} ChainRuns(us: seq<Update>, i: nat, row: Row)
    requires Distinct(us) && i < |us| && Matches(us[i], row)
    ensures Sequential(us[i..], row) == row.(format := Some(us[EndOf(us, i)].target))
    decreases |us| - i
  {
    var next := Rewrite(us[i], row);
    assert us[i..][1..] == us[i + 1..];
    if exists j :: Follows(us, i, j) {
      var j :| Follows(us, i, j) && EndOf(us, i) == EndOf(us, j);
      SkipTo(us, i + 1, j, next);
      ChainRuns(us, j, next);
    } else {
      forall m | i + 1 <= m < |us| ensures !Matches(us[m], next) {
        assert !Follows(us, i, m);
      }
      SkipTo(us, i + 1, |us|, next);
    }
  }

  lemma SequentialEnds(us: seq<Update>, i: nat, row: Row)
    requires Distinct(us) && i < |us| && Matches(us[i], row)
    ensures Sequential(us, row) == row.(format := Some(us[EndOf(us, i)].target))
  {
    SkipTo(us, 0, i, row);
    assert us[0..] == us;
    ChainRuns(us, i, row);
  }

  /** What `k` writes stays to the end, but an earlier UPDATE selects it and leads somewhere else. */
  ghost predicate Reopens(us: seq<Update>, j: nat, k: nat) {
    && j < k < |us| && (forall m :: !Follows(us, k, m))
    && us[j].key == Exact(us[k].target) && us[EndOf(us, j)].target != us[k].target
  }

  lemma ReopenedChanges(us: seq<Update>, j: nat, k: nat)
    requires Distinct(us) && Reopens(us, j, k)
    ensures var once := Sequential(us, Sample(us[k])); Sequential(us, once) != once
  {
    SequentialEnds(us, k, Sample(us[k]));
    SequentialEnds(us, j, Sample(us[k]).(format := Some(us[k].target)));
  }

  lemma UnopenedRepeats(us: seq<Update>, row: Row)
    requires Distinct(us) && forall j: nat, k: nat :: !Reopens(us, j, k)
    ensures Sequential(us, Sequential(us, row)) == Sequential(us, row)
  {
    if i :| 0 <= i < |us| && Matches(us[i], row) {
      SequentialEnds(us, i, row);
      var k, once := EndOf(us, i), Sequential(us, row);
      if j :| 0 <= j < |us| && Matches(us[j], once) {
        SequentialEnds(us, j, once);
        assert !Follows(us, k, j) && !Reopens(us, j, k);
        assert j == k ==> EndOf(us, j) == j;
      } else {
        Settled(us, once);
      }
    } else {
      Settled(us, row);
    }
  }

  /** For every plan: a second apply changes nothing if and only if no UPDATE reopens what another leaves. */
  lemma SecondApplyIff(us: seq<Update>)
    requires Distinct(us)
    ensures (forall row :: Sequential(us, Sequential(us, row)) == Sequential(us, row))
       <==> forall j: nat, k: nat :: !Reopens(us, j, k)
  {
    if j: nat, k: nat :| Reopens(us, j, k) {
      ReopenedChanges(us, j, k);
    } else {
      forall row ensures Sequential(us, Sequential(us, row)) == Sequential(us, row) { UnopenedRepeats(us, row); }
    }
  }

  /** UPDATE `j` selects what `k`, the end of its chain, leaves. */
  ghost predicate Reselects(us: seq<Update>, j: nat, k: nat) {
    j < |us| && k < |us| && (forall m :: !Follows(us, k, m)) && us[j].key == Exact(us[k].target)
  }

  lemma {:induction false} ZeroTotalIff(rows: Rows, us: seq<Update>)
    ensures Total(rows, us) == 0 <==> forall id, u :: id in rows && u in us ==> !Matches(u, rows[id])
  {
    if us != [] {
      var selected := Selected(rows, us[0]);
      if |selected| == 0 {
        NoneSelected(rows, us[0]);
        forall id | id in rows ensures !Matches(us[0], rows[id]) { assert id !in selected; }
        ZeroTotalIff(rows, us[1..]);
        assert forall u :: u in us <==> u == us[0] || u in us[1..];
      } else {
        var id :| id in selected;
        assert us[0] in us && Matches(us[0], rows[id]);
      }
    }
  }

  lemma ReselectedCounts(us: seq<Update>, j: nat, k: nat)
    requires Distinct(us) && Reselects(us, j, k)
    ensures var rows := map[0 := Sample(us[k])]; Total(Applied(rows, us), us) != 0
  {
    var rows := map[0 := Sample(us[k])];
    AppliedRow(rows, us, 0);
    SequentialEnds(us, k, Sample(us[k]));
    ZeroTotalIff(Applied(rows, us), us);
    assert us[j] in us && Matches(us[j], Applied(rows, us)[0]);
  }

  lemma UnselectedStay(us: seq<Update>, row: Row, u: Update)
    requires Distinct(us) && u in us && forall j: nat, k: nat :: !Reselects(us, j, k)
    ensures !Matches(u, Sequential(us, row))
  {
    var j :| 0 <= j < |us| && us[j] == u;
    if i :| 0 <= i < |us| && Matches(us[i], row) {
      SequentialEnds(us, i, row);
      assert !Reselects(us, j, EndOf(us, i));
    } else {
      Settled(us, row);
    }
  }

  /** For every plan: the second total is zero on every table if and only if no UPDATE selects the target of
      one that ends a chain. */
  lemma SecondTotalZeroIff(us: seq<Update>)
    requires Distinct(us)
    ensures (forall rows :: Total(Applied(rows, us), us) == 0) <==> forall j: nat, k: nat :: !Reselects(us, j, k)
  {
    if j: nat, k: nat :| Reselects(us, j, k) {
      ReselectedCounts(us, j, k);
    } else {
      forall rows ensures Total(Applied(rows, us), us) == 0 {
        AppliedKeys(rows, us);
        forall id, u | id in Applied(rows, us) && u in us ensures !Matches(u, Applied(rows, us)[id]) {
          AppliedRow(rows, us, id);
          UnselectedStay(us, rows[id], u);
        }
        ZeroTotalIff(Applied(rows, us), us);
      }
    }
  }

  // ----- apply mode -----

  const NULL_KEY: string := "null"

  /** A value of the mappings file: a target, a nested mapping of content types, or anything else. */
  datatype Value = Text(target: string) | Nested(entries: seq<(string, Option<string>)>) | Other

  /** Dictionaries are their items in order; no key occurs twice. */
  ghost predicate UniqueKeys<V>(items: seq<(string, V)>) {
    forall i, j :: 0 <= i < j < |items| ==> items[i].0 != items[j].0
  }

  function Lookup<V>(items: seq<(string, V)>, key: string): (r: Option<V>)
    ensures r.Some? ==> (key, r.value) in items
    ensures r.None? ==> forall i :: 0 <= i < |items| ==> items[i].0 != key
  {
    if items == [] then None else if items[0].0 == key then Some(items[0].1) else Lookup(items[1..], key)
  }

  /** The exact mappings that are applied: string targets that are canonical formats. */
  function ExactPlan(norms: seq<(string, Value)>, canonical: set<string>): seq<Update> {
    if norms == [] then []
    else
      var (raw, value) := norms[|norms| - 1];
      var before := ExactPlan(norms[..|norms| - 1], canonical);
      if raw != NULL_KEY && value.Text? && value.target in canonical
      then before + [Update(Exact(raw), value.target)] else before
  }

  function NullPlan(entries: seq<(string, Option<string>)>, canonical: set<string>): seq<Update> {
    if entries == [] then []
    else
      var (contentType, target) := entries[|entries| - 1];
      var before := NullPlan(entries[..|entries| - 1], canonical);
      if target.Some? && target.value in canonical
      then before + [Update(Null(contentType), target.value)] else before
  }

  function NullEntries(norms: seq<(string, Value)>): seq<(string, Option<string>)> {
    var found := Lookup(norms, NULL_KEY);
    if found.Some? && found.value.Nested? then found.value.entries else []
  }

  function Plan(norms: seq<(string, Value)>, canonical: set<string>): seq<Update> {
    ExactPlan(norms, canonical) + NullPlan(NullEntries(norms), canonical)
  }

  lemma {:induction false} ExactPlanShape(norms: seq<(string, Value)>, canonical: set<string>)
    ensures forall u :: u in ExactPlan(norms, canonical) ==>
              u.target in canonical && u.key.Exact? && u.key.raw != NULL_KEY &&
              exists i :: 0 <= i < |norms| && norms[i].0 == u.key.raw
    ensures UniqueKeys(norms) ==> Distinct(ExactPlan(norms, canonical))
  {
    if norms != [] {
      var before := norms[..|norms| - 1];
      ExactPlanShape(before, canonical);
      forall u | u in ExactPlan(before, canonical)
        ensures exists i :: 0 <= i < |before| && norms[i].0 == u.key.raw
      {
        var i :| 0 <= i < |before| && before[i].0 == u.key.raw;
        assert norms[i].0 == u.key.raw;
      }
      assert norms[|norms| - 1].0 == norms[|norms| - 1].0;
    }
  }

  lemma {:induction false} NullPlanShape(entries: seq<(string, Option<string>)>, canonical: set<string>)
    ensures forall u :: u in NullPlan(entries, canonical) ==>
              u.target in canonical && u.key.Null? &&
              exists i :: 0 <= i < |entries| && entries[i].0 == u.key.contentType
    ensures UniqueKeys(entries) ==> Distinct(NullPlan(entries, canonical))
  {
    if entries != [] {
      var before := entries[..|entries| - 1];
      NullPlanShape(before, canonical);
      forall u | u in NullPlan(before, canonical)
        ensures exists i :: 0 <= i < |before| && entries[i].0 == u.key.contentType
      {
        var i :| 0 <= i < |before| && before[i].0 == u.key.contentType;
        assert entries[i].0 == u.key.contentType;
      }
      assert entries[|entries| - 1].0 == entries[|entries| - 1].0;
    }
  }

  /** The file sends rows with this format, or with none and this content type, to the canonical `target`. */
  ghost predicate MapsTo(norms: seq<(string, Value)>, canonical: set<string>, row: Row, target: string) {
    && target in canonical
    && match row.format
       case Some(raw) => raw != NULL_KEY && (raw, Text(target)) in norms
       case None =>
         row.contentType.Some? &&
         exists entries :: (NULL_KEY, Nested(entries)) in norms && (row.contentType.value, Some(target)) in entries
  }

  lemma InOrLast<T>(items: seq<T>, x: T)
    requires items != []
    ensures x in items <==> x in items[..|items| - 1] || x == items[|items| - 1]
  {
    var n := |items| - 1;
    assert items == items[..n] + [items[n]];
    assert x in items[..n] + [items[n]] <==> x in items[..n] || x in [items[n]];
  }

  lemma {:induction false} ExactPlanHolds(norms: seq<(string, Value)>, canonical: set<string>, raw: string,
                                          target: string)
    ensures Update(Exact(raw), target) in ExactPlan(norms, canonical)
       <==> target in canonical && raw != NULL_KEY && (raw, Text(target)) in norms
  {
    if norms != [] {
      var n := |norms| - 1;
      ExactPlanHolds(norms[..n], canonical, raw, target);
      InOrLast(norms, (raw, Text(target)));
      var (key, value) := norms[n];
      assert norms[n] == (key, value) && (value.Text? ==> value == Text(value.target));
    }
  }

  lemma {:induction false} NullPlanHolds(entries: seq<(string, Option<string>)>, canonical: set<string>,
                                         contentType: string, target: string)
    ensures Update(Null(contentType), target) in NullPlan(entries, canonical)
       <==> target in canonical && (contentType, Some(target)) in entries
  {
    if entries != [] {
      var n := |entries| - 1;
      NullPlanHolds(entries[..n], canonical, contentType, target);
      InOrLast(entries, (contentType, Some(target)));
      var (key, value) := entries[n];
      assert entries[n] == (key, value) && (value.Some? ==> value == Some(value.value));
    }
  }

  lemma UniqueValue<V>(items: seq<(string, V)>, key: string, value: V)
    requires UniqueKeys(items) && (key, value) in items
    ensures Lookup(items, key) == Some(value)
  {
    var i :| 0 <= i < |items| && items[i] == (key, value);
    var found := Lookup(items, key);
    if found.Some? {
      var j :| 0 <= j < |items| && items[j] == (key, found.value);
    }
  }

  lemma NullEntriesHold(norms: seq<(string, Value)>, entry: (string, Option<string>))
    requires UniqueKeys(norms)
    ensures entry in NullEntries(norms) <==> exists entries :: (NULL_KEY, Nested(entries)) in norms && entry in entries
  {
    if entries :| (NULL_KEY, Nested(entries)) in norms && entry in entries {
      UniqueValue(norms, NULL_KEY, Nested(entries));
    }
    if entry in NullEntries(norms) {
      var entries := NullEntries(norms);
      assert (NULL_KEY, Nested(entries)) in norms && entry in entries;
    }
  }

  /** The plan holds one UPDATE for every mapping of the file to a canonical format, and nothing else. */
  lemma PlanHolds(norms: seq<(string, Value)>, canonical: set<string>, u: Update)
    requires UniqueKeys(norms)
    ensures u in Plan(norms, canonical) <==> MapsTo(norms, canonical, Sample(u), u.target)
  {
    ExactPlanShape(norms, canonical);
    NullPlanShape(NullEntries(norms), canonical);
    match u.key
    case Exact(raw) =>
      ExactPlanHolds(norms, canonical, raw, u.target);
    case Null(contentType) =>
      NullPlanHolds(NullEntries(norms), canonical, contentType, u.target);
      NullEntriesHold(norms, (contentType, Some(u.target)));
  }

  /** No key of the mappings file is itself a canonical format. */
  ghost predicate KeysNotCanonical(norms: seq<(string, Value)>, canonical: set<string>) {
    forall i :: 0 <= i < |norms| && norms[i].0 != NULL_KEY ==> norms[i].0 !in canonical
  }

  lemma PlanIndependent(norms: seq<(string, Value)>, canonical: set<string>)
    requires UniqueKeys(norms) && UniqueKeys(NullEntries(norms)) && KeysNotCanonical(norms, canonical)
    ensures var us := Plan(norms, canonical); Distinct(us) && !HasIdentity(us) && !Chained(us) && !Linked(us)
  {
    ExactPlanShape(norms, canonical);
    NullPlanShape(NullEntries(norms), canonical);
    var us := Plan(norms, canonical);
    forall u | u in us ensures u.target in canonical && (u.key.Exact? ==> u.key.raw !in canonical) {}
    forall u, v | u in us && v in us ensures v.key != Exact(u.target) {}
    forall i, j | 0 <= i < j < |us| ensures us[j].key != Exact(us[i].target) {
      assert us[i] in us && us[j] in us;
    }
  }

  /**
   * With keys that are not canonical: the UPDATEs act as one substitution, the total is the number of
   * rows changed, and applying the file again selects and changes nothing.
   */
  lemma ApplyOnceIsEnough(rows: Rows, norms: seq<(string, Value)>, canonical: set<string>)
    requires UniqueKeys(norms) && UniqueKeys(NullEntries(norms)) && KeysNotCanonical(norms, canonical)
    ensures var us := Plan(norms, canonical);
            && (forall id :: id in rows ==>
                  id in Applied(rows, us) && Applied(rows, us)[id] == Simultaneous(us, rows[id]))
            && Total(rows, us) == |Changed(rows, us)|
            && Total(Applied(rows, us), us) == 0
  {
    var us := Plan(norms, canonical);
    PlanIndependent(norms, canonical);
    TotalCountsChanged(rows, us);
    var after := Applied(rows, us);
    TotalCountsChanged(after, us);
    AppliedKeys(rows, us);
    forall id | id in rows
      ensures after[id] == Simultaneous(us, rows[id]) && Sequential(us, after[id]) == after[id]
    {
      AppliedRow(rows, us, id);
      UnchainedAgrees(us, rows[id]);
      UnlinkedRepeats(us, rows[id]);
    }
    assert Changed(after, us) == {};
  }

  /** With keys that are not canonical: every row the file maps gets the format it is mapped to, and
      every other row stays. */
  lemma EveryMappingApplied(rows: Rows, norms: seq<(string, Value)>, canonical: set<string>, id: nat)
    requires UniqueKeys(norms) && UniqueKeys(NullEntries(norms)) && KeysNotCanonical(norms, canonical)
    requires id in rows
    ensures var row, after := rows[id], Applied(rows, Plan(norms, canonical));
            && id in after
            && (forall target :: MapsTo(norms, canonical, row, target) ==> after[id] == row.(format := Some(target)))
            && ((forall target :: !MapsTo(norms, canonical, row, target)) ==> after[id] == row)
  {
    var row, us := rows[id], Plan(norms, canonical);
    ApplyOnceIsEnough(rows, norms, canonical);
    PlanIndependent(norms, canonical);
    SimultaneousSelects(us, row);
    forall target | MapsTo(norms, canonical, row, target)
      ensures Simultaneous(us, row) == row.(format := Some(target))
    {
      var u := Update(KeyOf(row).value, target);
      SampleMaps(norms, canonical, u, row);
      PlanHolds(norms, canonical, u);
    }
    forall u | u in us && Matches(u, row) ensures MapsTo(norms, canonical, row, u.target) {
      PlanHolds(norms, canonical, u);
      SampleMaps(norms, canonical, u, row);
    }
  }

  lemma SampleMaps(norms: seq<(string, Value)>, canonical: set<string>, u: Update, row: Row)
    requires Matches(u, row)
    ensures MapsTo(norms, canonical, Sample(u), u.target) <==> MapsTo(norms, canonical, row, u.target)
  {
  }

  lemma {:induction false} AppliedKeys(rows: Rows, us: seq<Update>)
    ensures Applied(rows, us).Keys == rows.Keys
  {
    if us != [] {
      AppliedKeys(Updated(rows, us[0]), us[1..]);
    }
  }

  lemma {:induction false} OneMore(rows: Rows, us: seq<Update>, u: Update)
    ensures Applied(rows, us + [u]) == Updated(Applied(rows, us), u)
    ensures Total(rows, us + [u]) == Total(rows, us) + |Selected(Applied(rows, us), u)|
  {
    if us == [] {
      assert us + [u] == [u];
    } else {
      assert (us + [u])[1..] == us[1..] + [u];
      OneMore(Updated(rows, us[0]), us[1..], u);
    }
  }

  lemma NoneSelected(rows: Rows, u: Update)
    requires |Selected(rows, u)| == 0
    ensures Updated(rows, u) == rows
  {
    forall id | id in rows ensures !Matches(u, rows[id]) {
      assert id !in Selected(rows, u);
    }
  }

  class Manifestations {
    var rows: Rows

    /** One UPDATE and its row count. */
    method Execute(u: Update) returns (count: nat)
      modifies this
      ensures rows == Updated(old(rows), u) && count == |Selected(old(rows), u)|
    {
      var selected := Selected(rows, u);
      count := |selected|;
      rows := map id | id in rows :: if id in selected then rows[id].(format := Some(u.target)) else rows[id];
    }

    /** Count the matching rows, and update them unless this is a dry run or there are none. */
    method Consider(u: Update, dryRun: bool) returns (updated: nat)
      modifies this
      ensures rows == if dryRun then old(rows) else Updated(old(rows), u)
      ensures updated == if dryRun then 0 else |Selected(old(rows), u)|
    {
      var affected := |Selected(rows, u)|;
      updated := 0;
      if affected == 0 {
        NoneSelected(rows, u);
      } else if !dryRun {
        updated := Execute(u);
      }
    }

    method ApplyMode(norms: seq<(string, Value)>, canonical: set<string>, dryRun: bool) returns (total: nat)
      modifies this
      ensures rows == if dryRun then old(rows) else Applied(old(rows), Plan(norms, canonical))
      ensures total == if dryRun then 0 else Total(old(rows), Plan(norms, canonical))
    {
      total := 0;
      for i := 0 to |norms|
        invariant rows == if dryRun then old(rows) else Applied(old(rows), ExactPlan(norms[..i], canonical))
        invariant total == if dryRun then 0 else Total(old(rows), ExactPlan(norms[..i], canonical))
      {
        assert norms[..i + 1][..i] == norms[..i];
        var (raw, value) := norms[i];
        if raw != NULL_KEY && value.Text? && value.target in canonical {
          OneMore(old(rows), ExactPlan(norms[..i], canonical), Update(Exact(raw), value.target));
          var updated := Consider(Update(Exact(raw), value.target), dryRun);
          total := total + updated;
        }
      }
      assert norms[..|norms|] == norms;
      ghost var exact := ExactPlan(norms, canonical);
      var entries := NullEntries(norms);
      assert exact + NullPlan(entries[..0], canonical) == exact;
      for i := 0 to |entries|
        invariant rows == if dryRun then old(rows) else Applied(old(rows), exact + NullPlan(entries[..i], canonical))
        invariant total == if dryRun then 0 else Total(old(rows), exact + NullPlan(entries[..i], canonical))
      {
        assert entries[..i + 1][..i] == entries[..i];
        var (contentType, target) := entries[i];
        if target.Some? && target.value in canonical {
          ghost var u := Update(Null(contentType), target.value);
          OneMore(old(rows), exact + NullPlan(entries[..i], canonical), u);
          Associate(exact, NullPlan(entries[..i], canonical), [u]);
          var updated := Consider(Update(Null(contentType), target.value), dryRun);
          total := total + updated;
        }
      }
      assert entries[..|entries|] == entries;
    }
  }
}
