/**
 The four FRBR tables as values, the cluster keys of the reconciliation, and what merging a set of
 clusters does to the tables, stated at once rather than row by row.
 */
module Catalogue {
  import opened Support
  import opened Clusters
  import Isbn

  /** `authors` is the list under the "authors" metadata key, None when the key is absent;
      `meta` holds the other metadata, misplaced ISBNs included. */
  datatype Work = Work(title: string, authors: Option<seq<string>>, meta: map<string, string>)

  /** `isbn13` is "" when the column is NULL or empty. */
  datatype Manifestation = Manifestation(expression: int, isbn13: string, meta: map<string, string>)

  /** Expressions map to their work, items to their manifestation. */
  datatype Rows = Rows(
    works: map<int, Work>,
    expressions: map<int, int>,
    manifestations: map<int, Manifestation>,
    items: map<int, int>)

  // ----- cluster keys -----

  function Lower(s: string): (r: string)
    ensures |r| == |s| && forall i :: 0 <= i < |s| ==> r[i] == LowerChar(s[i])
  {
    seq(|s|, i requires 0 <= i < |s| => LowerChar(s[i]))
  }

  /** Lexicographic order on strings. */
  predicate AtMost(a: string, b: string) {
    a == "" || (b != "" && (a[0] < b[0] || (a[0] == b[0] && AtMost(a[1..], b[1..]))))
  }

  function InsertSorted(x: string, xs: seq<string>): seq<string> {
    if xs == [] || AtMost(x, xs[0]) then [x] + xs else [xs[0]] + InsertSorted(x, xs[1..])
  }

  /** The stripped, lower-cased, non-blank authors in sorted order. */
  function SortedAuthors(authors: seq<string>): seq<string> {
    if authors == [] then []
    else
      var name := Lower(Strip(authors[0]));
      var rest := SortedAuthors(authors[1..]);
      if name == "" then rest else InsertSorted(name, rest)
  }

  function AuthorsKey(authors: Option<seq<string>>): string {
    if authors.Some? then JoinWith(SortedAuthors(authors.value), "|") else ""
  }

  function WorkKey(w: Work): string {
    Lower(Strip(w.title)) + "||" + AuthorsKey(w.authors)
  }

  predicate OnlyPipes(key: string) {
    forall i :: 0 <= i < |key| ==> key[i] == '|'
  }

  function WorkClusters(works: map<int, Work>): map<int, string> {
    map id | id in works && !OnlyPipes(WorkKey(works[id])) :: WorkKey(works[id])
  }

  function ManifestationClusters(ms: map<int, Manifestation>): map<int, string> {
    map id | id in ms && ms[id].isbn13 != "" && Isbn.Key(ms[id].isbn13) != "" :: Isbn.Key(ms[id].isbn13)
  }

  function ChildrenOf(children: map<int, int>, parent: int): set<int> {
    set c | c in children && children[c] == parent
  }

  function ItemCounts(rows: Rows): map<int, nat> {
    map id | id in rows.manifestations :: |ChildrenOf(rows.items, id)|
  }

  // ----- merging clusters -----

  function ManifestationMetas(ms: map<int, Manifestation>): map<int, map<string, string>> {
    map id | id in ms :: ms[id].meta
  }

  function WorkMetas(works: map<int, Work>): map<int, map<string, string>> {
    map id | id in works :: works[id].meta
  }

  /** A leader takes its cluster key as ISBN and the whole cluster's metadata. */
  ghost function MergedManifestation(ms: map<int, Manifestation>, cl: map<int, string>, w: map<int, nat>,
                                     id: int): Manifestation
    requires id in ms
  {
    if id in cl then ms[id].(isbn13 := cl[id], meta := MergedMeta(ManifestationMetas(ms), Group(cl, cl[id]), w))
    else ms[id]
  }

  ghost function MergedManifestations(ms: map<int, Manifestation>, cl: map<int, string>,
                                      w: map<int, nat>): map<int, Manifestation> {
    map id | id in ms && Leads(cl, w, id) :: MergedManifestation(ms, cl, w, id)
  }

  ghost function Authored(works: map<int, Work>, group: set<int>): set<int> {
    set d | d in group && d in works && works[d].authors.Some?
  }

  ghost function MergedAuthors(works: map<int, Work>, group: set<int>): Option<seq<string>> {
    if Authored(works, group) == {} then None else works[Best(Authored(works, group), BY_AGE)].authors
  }

  ghost function MergedWork(works: map<int, Work>, cl: map<int, string>, id: int): Work
    requires id in works
  {
    if id in cl then
      var group := Group(cl, cl[id]);
      works[id].(authors := MergedAuthors(works, group), meta := MergedMeta(WorkMetas(works), group, BY_AGE))
    else works[id]
  }

  ghost function MergedWorks(works: map<int, Work>, cl: map<int, string>): map<int, Work> {
    map id | id in works && Leads(cl, BY_AGE, id) :: MergedWork(works, cl, id)
  }

  /** The tables after merging the manifestation clusters `cl`. */
  ghost function ManifestationsMerged(rows: Rows, cl: map<int, string>): Rows {
    var w := ItemCounts(rows);
    rows.(manifestations := MergedManifestations(rows.manifestations, cl, w), items := Reparented(rows.items, cl, w))
  }

  /** The tables after merging the work clusters `cl`. */
  ghost function WorksMerged(rows: Rows, cl: map<int, string>): Rows {
    rows.(works := MergedWorks(rows.works, cl), expressions := Reparented(rows.expressions, cl, BY_AGE))
  }

  // ----- one more row -----

  function WithParent(children: map<int, int>, from: int, to: int): map<int, int> {
    map c | c in children :: if children[c] == from then to else children[c]
  }

  lemma FirstManifestation(ms: map<int, Manifestation>, cl: map<int, string>, w: map<int, nat>, d: int, key: string)
    requires d in ms && d !in cl && Group(cl, key) == {} && cl.Keys <= ms.Keys
    ensures d in MergedManifestations(ms, cl, w) && MergedManifestations(ms, cl, w)[d] == ms[d]
    ensures MergedManifestations(ms, cl[d := key], w)
         == MergedManifestations(ms, cl, w)[d := ms[d].(isbn13 := key)]
  {
    AddFirst(cl, w, d, key);
    MetaOfOne(ManifestationMetas(ms), d, w);
    var cl' := cl[d := key];
    forall id | id in ms && Leads(cl', w, id) && id != d
      ensures MergedManifestation(ms, cl', w, id) == MergedManifestation(ms, cl, w, id)
    {
      if id in cl { assert id in Group(cl, cl[id]); }
    }
  }

  lemma NextManifestation(ms: map<int, Manifestation>, cl: map<int, string>, w: map<int, nat>, d: int, key: string)
    returns (c: int)
    requires d in ms && d !in cl && cl.Keys <= ms.Keys
    requires Group(cl, key) != {} && Outranked(Group(cl, key), w, d)
    ensures c == Best(Group(cl, key), w) && c != d
    ensures var before := MergedManifestations(ms, cl, w);
            && c in before && d in before && before[d] == ms[d]
            && MergedManifestations(ms, cl[d := key], w)
            == (before - {d})[c := before[c].(meta := ms[d].meta + before[c].meta)]
  {
    c := Best(Group(cl, key), w);
    var cl' := cl[d := key];
    AddNext(cl, w, d, key);
    MetaOfNext(ManifestationMetas(ms), Group(cl, key), d, w);
    var before := MergedManifestations(ms, cl, w);
    var after := (before - {d})[c := before[c].(meta := ms[d].meta + before[c].meta)];
    forall id | id in ms
      ensures id in MergedManifestations(ms, cl', w) <==> id in after
      ensures id in after ==> MergedManifestation(ms, cl', w, id) == after[id]
    {
      assert id != d ==> Leader(cl', w, id) == Leader(cl, w, id);
      if id in cl && cl[id] == key { assert Leader(cl, w, id) == c; }
    }
    assert MergedManifestations(ms, cl', w) == after;
  }

  lemma FirstWork(works: map<int, Work>, cl: map<int, string>, d: int, key: string)
    requires d in works && d !in cl && Group(cl, key) == {} && cl.Keys <= works.Keys
    ensures MergedWorks(works, cl[d := key]) == MergedWorks(works, cl)
  {
    AddFirst(cl, BY_AGE, d, key);
    MetaOfOne(WorkMetas(works), d, BY_AGE);
    assert Authored(works, {d}) == if works[d].authors.Some? then {d} else {};
    var cl' := cl[d := key];
    forall id | id in works && Leads(cl', BY_AGE, id)
      ensures MergedWork(works, cl', id) == MergedWork(works, cl, id)
    {
      if id in cl { assert id in Group(cl, cl[id]); }
    }
  }

  lemma NextWork(works: map<int, Work>, cl: map<int, string>, d: int, key: string) returns (c: int)
    requires d in works && d !in cl && cl.Keys <= works.Keys
    requires Group(cl, key) != {} && Outranked(Group(cl, key), BY_AGE, d)
    ensures c == Best(Group(cl, key), BY_AGE) && c != d
    ensures var before := MergedWorks(works, cl);
            && c in before && d in before && before[d] == works[d]
            && MergedWorks(works, cl[d := key])
            == (before - {d})[c := Work(before[c].title,
                                        if before[c].authors.Some? then before[c].authors else works[d].authors,
                                        works[d].meta + before[c].meta)]
  {
    var group := Group(cl, key);
    c := Best(group, BY_AGE);
    var cl' := cl[d := key];
    AddNext(cl, BY_AGE, d, key);
    MetaOfNext(WorkMetas(works), group, d, BY_AGE);
    AuthorsOfNext(works, group, d);
    var before := MergedWorks(works, cl);
    var after := (before - {d})[c := MergedWork(works, cl', c)];
    forall id | id in works
      ensures id in MergedWorks(works, cl') <==> id in after
      ensures id in after ==> MergedWork(works, cl', id) == after[id]
    {
      assert id != d ==> Leader(cl', BY_AGE, id) == Leader(cl, BY_AGE, id);
    }
    assert MergedWorks(works, cl') == after;
  }

  lemma AuthorsOfNext(works: map<int, Work>, group: set<int>, d: int)
    requires d in works && d !in group && Outranked(group, BY_AGE, d)
    ensures MergedAuthors(works, group + {d})
         == if MergedAuthors(works, group).Some? then MergedAuthors(works, group) else works[d].authors
  {
    var authored := Authored(works, group);
    assert Authored(works, group + {d}) == if works[d].authors.Some? then authored + {d} else authored;
    if authored != {} {
      var b := Best(authored, BY_AGE);
      assert b in works && works[b].authors.Some?;
      BestUnique(Authored(works, group + {d}), BY_AGE, b);
    }
  }

  /** A row outside the merged clusters has the children it started with. */
  lemma OutsiderKeepsChildren(children: map<int, int>, cl: map<int, string>, w: map<int, nat>, d: int)
    requires d !in cl
    ensures ChildrenOf(Reparented(children, cl, w), d) == ChildrenOf(children, d)
  {
    forall c | c in children
      ensures Reparented(children, cl, w)[c] == d <==> children[c] == d
    {
      assert Leader(cl, w, children[c]) == d <==> children[c] == d;
    }
  }

  lemma NextChildren(children: map<int, int>, cl: map<int, string>, w: map<int, nat>, d: int, key: string)
    requires d !in cl && Group(cl, key) != {} && Outranked(Group(cl, key), w, d)
    ensures Reparented(children, cl[d := key], w)
         == WithParent(Reparented(children, cl, w), d, Best(Group(cl, key), w))
    ensures ChildrenOf(Reparented(children, cl, w), d) == ChildrenOf(children, d)
  {
    AddNext(cl, w, d, key);
    OutsiderKeepsChildren(children, cl, w, d);
    var before := Reparented(children, cl, w);
    forall c | c in children
      ensures Leader(cl[d := key], w, children[c]) == if before[c] == d then Best(Group(cl, key), w) else before[c]
    {
    }
    assert Reparented(children, cl[d := key], w) == WithParent(before, d, Best(Group(cl, key), w));
  }

  // ----- what the counters count -----

  ghost function Moved(children: map<int, int>, cl: map<int, string>, w: map<int, nat>): set<int> {
    set c | c in children && Leader(cl, w, children[c]) != children[c]
  }

  ghost function Dropped(cl: map<int, string>, w: map<int, nat>): set<int> {
    set d | d in cl && !Leads(cl, w, d)
  }

  ghost function Rekeyed(ms: map<int, Manifestation>, cl: map<int, string>, w: map<int, nat>): set<int> {
    set d | d in cl && d in ms && Leads(cl, w, d) && ms[d].isbn13 != cl[d]
  }

  lemma MovedFirst(children: map<int, int>, cl: map<int, string>, w: map<int, nat>, d: int, key: string)
    requires d !in cl && Group(cl, key) == {}
    ensures Moved(children, cl[d := key], w) == Moved(children, cl, w)
    ensures Dropped(cl[d := key], w) == Dropped(cl, w)
  {
    AddFirst(cl, w, d, key);
    assert forall x :: Leads(cl[d := key], w, x) == Leads(cl, w, x);
  }

  lemma RekeyedFirst(ms: map<int, Manifestation>, cl: map<int, string>, w: map<int, nat>, d: int, key: string)
    requires d in ms && d !in cl && Group(cl, key) == {}
    ensures |Rekeyed(ms, cl[d := key], w)| == |Rekeyed(ms, cl, w)| + if ms[d].isbn13 != key then 1 else 0
  {
    AddFirst(cl, w, d, key);
    var before, after := Rekeyed(ms, cl, w), Rekeyed(ms, cl[d := key], w);
    forall x ensures x in after <==> x in before || (x == d && ms[d].isbn13 != key) {
      assert Leads(cl[d := key], w, x) == Leads(cl, w, x);
      assert x == d ==> Leads(cl, w, d);
    }
    assert after == if ms[d].isbn13 != key then before + {d} else before;
  }

  lemma MovedNext(children: map<int, int>, cl: map<int, string>, w: map<int, nat>, d: int, key: string)
    requires d !in cl && Group(cl, key) != {} && Outranked(Group(cl, key), w, d)
    ensures |Moved(children, cl[d := key], w)| == |Moved(children, cl, w)| + |ChildrenOf(children, d)|
  {
    AddNext(cl, w, d, key);
    var moved, added := Moved(children, cl, w), ChildrenOf(children, d);
    assert Leader(cl, w, d) == d;
    assert moved !! added;
    assert Moved(children, cl[d := key], w) == moved + added;
  }

  lemma DroppedNext(ms: map<int, Manifestation>, cl: map<int, string>, w: map<int, nat>, d: int, key: string)
    requires d !in cl && Group(cl, key) != {} && Outranked(Group(cl, key), w, d)
    ensures |Dropped(cl[d := key], w)| == |Dropped(cl, w)| + 1
    ensures Rekeyed(ms, cl[d := key], w) == Rekeyed(ms, cl, w)
  {
    AddNext(cl, w, d, key);
    var cl' := cl[d := key];
    assert Leader(cl', w, d) == Best(Group(cl, key), w) != d;
    forall x | x != d
      ensures Leads(cl', w, x) == Leads(cl, w, x)
    {
      assert Leader(cl', w, x) == Leader(cl, w, x);
    }
    assert Dropped(cl', w) == Dropped(cl, w) + {d};
  }

  /** One duplicate manifestation merged into `c`. */
  function ManifestationAbsorbed(rows: Rows, d: int, c: int): Rows
    requires c in rows.manifestations && d in rows.manifestations
  {
    var ms := rows.manifestations;
    rows.(manifestations := (ms - {d})[c := ms[c].(meta := ms[d].meta + ms[c].meta)],
          items := WithParent(rows.items, d, c))
  }

  /** One duplicate work merged into `c`. */
  function WorkAbsorbed(rows: Rows, d: int, c: int): Rows
    requires c in rows.works && d in rows.works
  {
    var works := rows.works;
    var authors := if works[c].authors.Some? then works[c].authors else works[d].authors;
    rows.(works := (works - {d})[c := Work(works[c].title, authors, works[d].meta + works[c].meta)],
          expressions := WithParent(rows.expressions, d, c))
  }

  /** A row that opens its cluster: only its own ISBN changes. */
  lemma FirstManifestationStep(pre: Rows, cl: map<int, string>, d: int, key: string)
    requires d in pre.manifestations && d !in cl && Group(cl, key) == {} && cl.Keys <= pre.manifestations.Keys
    ensures var before, w := ManifestationsMerged(pre, cl), ItemCounts(pre);
            && d in before.manifestations && before.manifestations[d] == pre.manifestations[d]
            && ManifestationsMerged(pre, cl[d := key])
            == before.(manifestations := before.manifestations[d := pre.manifestations[d].(isbn13 := key)])
            && |Moved(pre.items, cl[d := key], w)| == |Moved(pre.items, cl, w)|
            && |Dropped(cl[d := key], w)| == |Dropped(cl, w)|
            && |Rekeyed(pre.manifestations, cl[d := key], w)|
            == |Rekeyed(pre.manifestations, cl, w)| + if pre.manifestations[d].isbn13 != key then 1 else 0
  {
    var w := ItemCounts(pre);
    FirstManifestation(pre.manifestations, cl, w, d, key);
    MovedFirst(pre.items, cl, w, d, key);
    RekeyedFirst(pre.manifestations, cl, w, d, key);
    AddFirst(cl, w, d, key);
    assert Reparented(pre.items, cl[d := key], w) == Reparented(pre.items, cl, w);
  }

  /** A row ranked below its cluster: its children and metadata go to the leader. */
  lemma NextManifestationStep(pre: Rows, cl: map<int, string>, d: int, key: string, c: int)
    requires d in pre.manifestations && d !in cl && cl.Keys <= pre.manifestations.Keys
    requires IsBest(Group(cl, key), ItemCounts(pre), c)
    requires Outranked(Group(cl, key), ItemCounts(pre), d)
    ensures var before, w := ManifestationsMerged(pre, cl), ItemCounts(pre);
            && c in before.manifestations && d in before.manifestations && c != d
            && ManifestationsMerged(pre, cl[d := key]) == ManifestationAbsorbed(before, d, c)
            && |Moved(pre.items, cl[d := key], w)| == |Moved(pre.items, cl, w)| + |ChildrenOf(before.items, d)|
            && |Dropped(cl[d := key], w)| == |Dropped(cl, w)| + 1
            && Rekeyed(pre.manifestations, cl[d := key], w) == Rekeyed(pre.manifestations, cl, w)
  {
    var w := ItemCounts(pre);
    BestUnique(Group(cl, key), w, c);
    var c' := NextManifestation(pre.manifestations, cl, w, d, key);
    NextChildren(pre.items, cl, w, d, key);
    MovedNext(pre.items, cl, w, d, key);
    DroppedNext(pre.manifestations, cl, w, d, key);
  }

  lemma NextWorkStep(pre: Rows, cl: map<int, string>, d: int, key: string, c: int)
    requires d in pre.works && d !in cl && cl.Keys <= pre.works.Keys
    requires IsBest(Group(cl, key), BY_AGE, c) && Outranked(Group(cl, key), BY_AGE, d)
    ensures var before := WorksMerged(pre, cl);
            && c in before.works && d in before.works && c != d
            && WorksMerged(pre, cl[d := key]) == WorkAbsorbed(before, d, c)
            && |Moved(pre.expressions, cl[d := key], BY_AGE)| ==
                |Moved(pre.expressions, cl, BY_AGE)| + |ChildrenOf(before.expressions, d)|
            && |Dropped(cl[d := key], BY_AGE)| == |Dropped(cl, BY_AGE)| + 1
  {
    BestUnique(Group(cl, key), BY_AGE, c);
    var c' := NextWork(pre.works, cl, d, key);
    NextChildren(pre.expressions, cl, BY_AGE, d, key);
    MovedNext(pre.expressions, cl, BY_AGE, d, key);
    DroppedNext(map[], cl, BY_AGE, d, key);
  }

  /** A single work is its own merged cluster. */
  lemma FirstWorkStep(pre: Rows, cl: map<int, string>, d: int, key: string)
    requires d in pre.works && d !in cl && Group(cl, key) == {} && cl.Keys <= pre.works.Keys
    ensures WorksMerged(pre, cl[d := key]) == WorksMerged(pre, cl)
    ensures Moved(pre.expressions, cl[d := key], BY_AGE) == Moved(pre.expressions, cl, BY_AGE)
    ensures Dropped(cl[d := key], BY_AGE) == Dropped(cl, BY_AGE)
  {
    FirstWork(pre.works, cl, d, key);
    MovedFirst(pre.expressions, cl, BY_AGE, d, key);
    AddFirst(cl, BY_AGE, d, key);
    assert Reparented(pre.expressions, cl[d := key], BY_AGE) == Reparented(pre.expressions, cl, BY_AGE);
  }

  lemma NothingMerged(rows: Rows, w: map<int, nat>)
    ensures ManifestationsMerged(rows, map[]) == rows && WorksMerged(rows, map[]) == rows
    ensures Moved(rows.items, map[], w) == Moved(rows.expressions, map[], w) == {}
    ensures Dropped(map[], w) == {} && Rekeyed(rows.manifestations, map[], w) == {}
  {
    DistinctKeysLead(map[], w);
    DistinctKeysLead(map[], ItemCounts(rows));
    DistinctKeysLead(map[], BY_AGE);
    assert MergedManifestations(rows.manifestations, map[], ItemCounts(rows)) == rows.manifestations;
    assert Reparented(rows.items, map[], ItemCounts(rows)) == rows.items;
    assert MergedWorks(rows.works, map[]) == rows.works;
    assert Reparented(rows.expressions, map[], BY_AGE) == rows.expressions;
  }
}
