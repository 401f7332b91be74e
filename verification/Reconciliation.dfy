/** The reconciliation run of scripts/etl_frbr_strict.py, updating the catalogue in place. */
module Reconciliation {
  import opened Support
  import opened Clusters
  import opened Catalogue
  import opened Relocation
  import opened EtlRun
  import Isbn

  /** Rows in descending rank, as the scripts' sorts leave them. */
  method Ranked(group: set<int>, w: map<int, nat>) returns (order: seq<int>)
    ensures Elements(order) == group && (group != {} ==> order != [])
    ensures RankedBy(w, order)
  {
    order := [];
    var rest := group;
    while rest != {}
      invariant Elements(order) + rest == group
      invariant RankedBy(w, order)
      invariant forall x, y :: x in Elements(order) && y in rest ==> Beats(w, x, y)
      decreases rest
    {
      BestExists(rest, w);
      var best :| best in rest && IsBest(rest, w, best);
      assert Elements(order + [best]) == Elements(order) + {best};
      order, rest := order + [best], rest - {best};
    }
  }

  /** Point every child of `from` at `to`. */
  method Reparent(children: map<int, int>, from: int, to: int) returns (moved: map<int, int>, count: nat)
    ensures moved == WithParent(children, from, to)
    ensures count == |ChildrenOf(children, from)|
  {
    moved, count := children, 0;
    var pending := ChildrenOf(children, from);
    while pending != {}
      invariant pending <= ChildrenOf(children, from) && moved.Keys == children.Keys
      invariant forall c :: c in children ==>
                  moved[c] == if children[c] == from && c !in pending then to else children[c]
      invariant count == |ChildrenOf(children, from)| - |pending|
      decreases pending
    {
      ghost var e := Element(pending);
      var child :| child in pending;
      moved, pending, count := moved[child := to], pending - {child}, count + 1;
    }
    assert forall c :: c in children ==> moved[c] == WithParent(children, from, to)[c];
  }

  /** Copy the metadata keys the canonical row does not have. */
  method MergeMeta(dup: map<string, string>, canonical: map<string, string>) returns (merged: map<string, string>)
    ensures merged == dup + canonical
  {
    merged := canonical;
    var pending := dup.Keys;
    while pending != {}
      invariant pending <= dup.Keys && merged == (dup - pending) + canonical
      decreases pending
    {
      ghost var e := Element(pending);
      var k :| k in pending;
      pending := pending - {k};
      if k !in merged {
        merged := merged[k := dup[k]];
      }
    }
  }

  predicate RankedBy(w: map<int, nat>, order: seq<int>) {
    forall i, j :: 0 <= i < j < |order| ==> Beats(w, order[i], order[j])
  }

  ghost function Elements(s: seq<int>): set<int> {
    set x | x in s
  }

  /** The first `i` of a ranking: its head is their best and the next row ranks below them all. */
  lemma RankedPrefix(ranked: seq<int>, w: map<int, nat>, i: nat)
    requires 1 <= i < |ranked|
    requires RankedBy(w, ranked)
    ensures IsBest(Elements(ranked[..i]), w, ranked[0])
    ensures Outranked(Elements(ranked[..i]), w, ranked[i])
    ensures ranked[i] !in Elements(ranked[..i])
  {
    assert ranked[0] in ranked[..i];
    forall g | g in Elements(ranked[..i])
      ensures g == ranked[0] || Beats(w, ranked[0], g)
      ensures Beats(w, g, ranked[i])
    {
      var j :| 0 <= j < i && ranked[j] == g;
    }
  }

  ghost function WithGroup(cl: map<int, string>, group: set<int>, key: string): map<int, string> {
    cl + map d | d in group :: key
  }

  /** A cluster that is new to `cl` and has the members `s` so far, and one member more. */
  lemma WithGroupGrows(cl: map<int, string>, s: set<int>, d: int, key: string)
    requires s !! cl.Keys && Group(cl, key) == {} && d !in s && d !in cl
    ensures Group(WithGroup(cl, s, key), key) == s
    ensures WithGroup(cl, s + {d}, key) == WithGroup(cl, s, key)[d := key]
    ensures WithGroup(cl, {}, key) == cl && d !in WithGroup(cl, s, key)
  {
  }

  lemma ElementsGrow(s: seq<int>, i: nat)
    requires i < |s|
    ensures Elements(s[..i + 1]) == Elements(s[..i]) + {s[i]}
    ensures Elements(s[..0]) == {} && Elements(s[..|s|]) == Elements(s)
  {
    assert s[..i + 1] == s[..i] + [s[i]];
    assert s[..|s|] == s;
  }

  /** The clusters `cl` and the first `i` rows of one more. */
  ghost function WithPrefix(cl: map<int, string>, ranked: seq<int>, i: nat, key: string): map<int, string>
    requires i <= |ranked|
  {
    WithGroup(cl, Elements(ranked[..i]), key)
  }

  ghost predicate NewCluster(cl: map<int, string>, ranked: seq<int>, w: map<int, nat>, key: string) {
    RankedBy(w, ranked) && Elements(ranked) !! cl.Keys && Group(cl, key) == {}
  }

  lemma PrefixEnds(cl: map<int, string>, ranked: seq<int>, w: map<int, nat>, key: string)
    requires NewCluster(cl, ranked, w, key) && ranked != []
    ensures WithPrefix(cl, ranked, 1, key) == cl[ranked[0] := key] && ranked[0] in Elements(ranked)
    ensures WithPrefix(cl, ranked, |ranked|, key) == WithGroup(cl, Elements(ranked), key)
  {
    ElementsGrow(ranked, 0);
    WithGroupGrows(cl, {}, ranked[0], key);
    assert ranked[0] in Elements(ranked);
  }

  /** One more row of a ranked cluster: it ranks below the rows so far, whose best is the head. */
  lemma PrefixGrows(cl: map<int, string>, ranked: seq<int>, w: map<int, nat>, i: nat, key: string)
    requires NewCluster(cl, ranked, w, key) && 1 <= i < |ranked|
    ensures var cl0 := WithPrefix(cl, ranked, i, key);
            && WithPrefix(cl, ranked, i + 1, key) == cl0[ranked[i] := key]
            && ranked[i] !in cl0 && ranked[i] in Elements(ranked)
            && IsBest(Group(cl0, key), w, ranked[0]) && Outranked(Group(cl0, key), w, ranked[i])
  {
    RankedPrefix(ranked, w, i);
    ElementsGrow(ranked, i);
    assert ranked[i] in Elements(ranked);
    forall x | x in Elements(ranked[..i])
      ensures x in Elements(ranked)
    {
    }
    WithGroupGrows(cl, Elements(ranked[..i]), ranked[i], key);
  }

  /** The clusters whose keys are no longer pending. */
  ghost function Finished(keys: map<int, string>, pending: set<string>): map<int, string> {
    map id | id in keys && keys[id] !in pending :: keys[id]
  }

  lemma FinishedEnds(keys: map<int, string>, all: set<string>)
    requires forall id :: id in keys ==> keys[id] in all
    ensures Finished(keys, all) == map[] && Finished(keys, {}) == keys
  {
    assert forall id :: id !in Finished(keys, all);
  }

  lemma FinishedGrows(keys: map<int, string>, pending: set<string>, key: string)
    requires key in pending
    ensures Finished(keys, pending - {key}) == WithGroup(Finished(keys, pending), Group(keys, key), key)
    ensures Group(Finished(keys, pending), key) == {} && Group(keys, key) !! Finished(keys, pending).Keys
  {
  }

  lemma WorkGroupKept(works: map<int, Work>, key: string)
    requires !OnlyPipes(key)
    ensures Group(WorkClusters(works), key) == Group(map id | id in works :: WorkKey(works[id]), key)
  {
  }

  lemma BlankGroupSkipped(works: map<int, Work>, pending: set<string>, key: string)
    requires OnlyPipes(key)
    ensures Finished(WorkClusters(works), pending - {key}) == Finished(WorkClusters(works), pending)
  {
  }

  class Database {
    var works: map<int, Work>
    var expressions: map<int, int>
    var manifestations: map<int, Manifestation>
    var items: map<int, int>
    var stats: Stats

    constructor (rows: Rows)
      ensures Tables() == rows
    {
      works, expressions, manifestations, items := rows.works, rows.expressions, rows.manifestations, rows.items;
      stats := NO_STATS;
    }

    function Tables(): Rows
      reads this
    {
      Rows(works, expressions, manifestations, items)
    }

    // ----- Step 1: misplaced ISBNs -----

    /** The first manifestation under a work that has no ISBN. */
    method FindBlankManifestation(work: int) returns (found: Option<int>)
      ensures found.Some? ==>
                found.value in ManifestationsOf(Tables(), work) && manifestations[found.value].isbn13 == ""
      ensures found.None? ==> forall m :: m in ManifestationsOf(Tables(), work) ==> manifestations[m].isbn13 != ""
    {
      var pending := ChildrenOf(expressions, work);
      while pending != {}
        invariant pending <= ChildrenOf(expressions, work)
        invariant forall m :: m in ManifestationsOf(Tables(), work) && manifestations[m].expression !in pending ==>
                    manifestations[m].isbn13 != ""
        decreases pending
      {
        ghost var e := Element(pending);
        var expression :| expression in pending;
        var blank :=
          set m | m in manifestations && manifestations[m].expression == expression && manifestations[m].isbn13 == "";
        ghost var b := Element(blank);
        if blank != {} {
          var m :| m in blank;
          return Some(m);
        }
        forall m | m in ManifestationsOf(Tables(), work) && manifestations[m].expression == expression
          ensures manifestations[m].isbn13 != ""
        {
          assert m !in blank;
        }
        pending := pending - {expression};
      }
      return None;
    }

    /** Delete every ISBN key that holds anything; the last value counts. */
    static method TakeIsbns(meta: map<string, string>) returns (rest: map<string, string>, misplaced: string)
      ensures rest == WithoutIsbns(meta, |ISBN_KEYS|)
      ensures misplaced == LastIsbn(meta, |ISBN_KEYS|)
    {
      rest, misplaced := meta, "";
      assert ISBN_KEYS[..0] == [] && rest == WithoutIsbns(meta, 0);
      for i := 0 to |ISBN_KEYS|
        invariant rest == WithoutIsbns(meta, i)
        invariant misplaced == LastIsbn(meta, i)
      {
        TakeOne(meta, i);
        if HoldsIsbn(rest, ISBN_KEYS[i]) {
          misplaced := Strip(rest[ISBN_KEYS[i]]);
          rest := rest - {ISBN_KEYS[i]};
        }
      }
    }

    method RelocateWorkIsbn(work: int, ghost pre: Rows, ghost done: set<int>)
      requires work in pre.works && work !in done && Relocating(pre, Tables(), done)
      modifies this
      ensures Relocating(pre, Tables(), done + {work})
      ensures stats == old(stats).(relocatedWorkIsbns := old(stats).relocatedWorkIsbns
                                                         + if Misplaced(pre.works[work]) != "" then 1 else 0)
    {
      var rest, misplaced := TakeIsbns(works[work].meta);
      if misplaced != "" {
        var normalized := Isbn.Normalize(misplaced);
        stats := stats.(relocatedWorkIsbns := stats.relocatedWorkIsbns + 1);
        if normalized.Some? && forall m :: m in manifestations ==> manifestations[m].isbn13 != normalized.value {
          SameTree(pre, Tables(), done, work);
          var blank := FindBlankManifestation(work);
          if blank.Some? {
            var m := blank.value;
            AssignKeepsRelocating(pre, Tables(), done, m, work);
            manifestations := manifestations[m := manifestations[m].(isbn13 := normalized.value)];
          }
        }
        RelieveKeepsRelocating(pre, Tables(), done, work);
        works := works[work := works[work].(meta := rest)];
      } else {
        NothingToPlace(pre, manifestations, work);
        RelieveKeepsRelocating(pre, Tables(), done, work);
      }
    }

    method RelocateWorkIsbns()
      requires stats.relocatedWorkIsbns == 0
      modifies this
      ensures Relocating(old(Tables()), Tables(), old(works).Keys)
      ensures stats == old(stats).(relocatedWorkIsbns := |WorksWithIsbn(old(works))|)
    {
      ghost var pre := Tables();
      var pending := works.Keys;
      NothingRelocated(pre);
      while pending != {}
        invariant pending <= pre.works.Keys
        invariant Relocating(pre, Tables(), pre.works.Keys - pending)
        invariant stats == old(stats).(relocatedWorkIsbns := |WorksWithIsbn(pre.works) - pending|)
        decreases pending
      {
        ghost var e := Element(pending);
        var work :| work in pending;
        CountOneWork(pre.works, pending, work);
        RelocateWorkIsbn(work, pre, pre.works.Keys - pending);
        pending := pending - {work};
      }
    }

    // ----- Step 2 and 3: manifestations -----

    ghost predicate OtherWorkStats(before: Stats)
      reads this
    {
      && stats.reconciledWorks == before.reconciledWorks
      && stats.reparentedExpressions == before.reparentedExpressions
      && stats.relocatedWorkIsbns == before.relocatedWorkIsbns
    }

    /** Give the leader of a cluster its normalised ISBN. */
    method NormalizeLeader(canonical: int, isbn: string, ghost pre: Rows, ghost cl: map<int, string>)
      requires ManifestationPhase(pre, cl, Tables(), stats)
      requires canonical in pre.manifestations && canonical !in cl && Group(cl, isbn) == {}
      modifies this
      ensures ManifestationPhase(pre, cl[canonical := isbn], Tables(), stats) && OtherWorkStats(old(stats))
    {
      FirstManifestationStep(pre, cl, canonical, isbn);
      if manifestations[canonical].isbn13 != isbn {
        manifestations := manifestations[canonical := manifestations[canonical].(isbn13 := isbn)];
        stats := stats.(normalizedIsbns := stats.normalizedIsbns + 1);
      }
    }

    /** Merge one duplicate manifestation into another. */
    method AbsorbManifestation(dup: int, canonical: int)
      requires dup in manifestations && canonical in manifestations && dup != canonical
      modifies this
      ensures Tables() == ManifestationAbsorbed(old(Tables()), dup, canonical)
      ensures stats == CountManifestation(old(stats), |ChildrenOf(old(items), dup)|)
    {
      var moved, count := Reparent(items, dup, canonical);
      items := moved;
      var meta := MergeMeta(manifestations[dup].meta, manifestations[canonical].meta);
      manifestations := manifestations[canonical := manifestations[canonical].(meta := meta)] - {dup};
      stats := stats.(reparentedItems := stats.reparentedItems + count,
                      reconciledManifestations := stats.reconciledManifestations + 1);
    }

    /** Merge the manifestations of one ISBN into the one with most items, the oldest breaking ties. */
    method MergeManifestationGroup(isbn: string, group: set<int>, ghost pre: Rows, ghost cl: map<int, string>)
      requires group != {} && group <= pre.manifestations.Keys && group !! cl.Keys && Group(cl, isbn) == {}
      requires ManifestationPhase(pre, cl, Tables(), stats)
      modifies this
      ensures ManifestationPhase(pre, WithGroup(cl, group, isbn), Tables(), stats) && OtherWorkStats(old(stats))
    {
      var ranked := RankByItems(group, pre, cl);
      PrefixEnds(cl, ranked, ItemCounts(pre), isbn);
      NormalizeLeader(ranked[0], isbn, pre, cl);
      for i := 1 to |ranked|
        invariant ManifestationPhase(pre, WithPrefix(cl, ranked, i, isbn), Tables(), stats) &&
            OtherWorkStats(old(stats))
      {
        PrefixGrows(cl, ranked, ItemCounts(pre), i, isbn);
        AbsorbKeepsPhase(pre, WithPrefix(cl, ranked, i, isbn), ranked[i], ranked[0], isbn, Tables(), stats);
        AbsorbManifestation(ranked[i], ranked[0]);
      }
    }

    /** Most items first, then oldest first.  Rows not merged yet still have the items they started with. */
    method RankByItems(group: set<int>, ghost pre: Rows, ghost cl: map<int, string>) returns (ranked: seq<int>)
      requires group != {} && group <= pre.manifestations.Keys && group !! cl.Keys
      requires ManifestationPhase(pre, cl, Tables(), stats)
      ensures Elements(ranked) == group && ranked != []
      ensures RankedBy(ItemCounts(pre), ranked)
    {
      ghost var w := ItemCounts(pre);
      forall m | m in group
        ensures ChildrenOf(items, m) == ChildrenOf(pre.items, m)
      {
        OutsiderKeepsChildren(pre.items, cl, w, m);
      }
      var counts := map m | m in group :: |ChildrenOf(items, m)|;
      ranked := Ranked(group, counts);
      forall i, j | 0 <= i < j < |ranked|
        ensures Beats(w, ranked[i], ranked[j])
      {
        assert Beats(counts, ranked[i], ranked[j]);
        assert ranked[i] in Elements(ranked) && ranked[j] in Elements(ranked);
      }
    }

    method MergeManifestations()
      requires stats.reconciledManifestations == stats.reparentedItems == stats.normalizedIsbns == 0
      modifies this
      ensures ManifestationPhase(old(Tables()), ManifestationClusters(old(manifestations)), Tables(), stats) &&
          OtherWorkStats(old(stats))
    {
      ghost var pre := Tables();
      var keys := ManifestationClusters(manifestations);
      var groups := GroupByKey(keys);
      var pending := groups.Keys;
      NothingMerged(pre, ItemCounts(pre));
      FinishedEnds(keys, pending);
      while pending != {}
        invariant pending <= groups.Keys
        invariant ManifestationPhase(pre, Finished(keys, pending), Tables(), stats) && OtherWorkStats(old(stats))
        decreases pending
      {
        ghost var e := Element(pending);
        var isbn :| isbn in pending;
        FinishedGrows(keys, pending, isbn);
        MergeManifestationGroup(isbn, groups[isbn], pre, Finished(keys, pending));
        pending := pending - {isbn};
      }
    }

    // ----- Step 4: works -----

    ghost predicate OtherManifestationStats(before: Stats)
      reads this
    {
      && stats.reconciledManifestations == before.reconciledManifestations
      && stats.reparentedItems == before.reparentedItems
      && stats.normalizedIsbns == before.normalizedIsbns
      && stats.relocatedWorkIsbns == before.relocatedWorkIsbns
    }

    /** Merge one duplicate work into another. */
    method AbsorbWork(dup: int, canonical: int)
      requires dup in works && canonical in works && dup != canonical
      modifies this
      ensures Tables() == WorkAbsorbed(old(Tables()), dup, canonical)
      ensures stats == CountWork(old(stats), |ChildrenOf(old(expressions), dup)|)
    {
      var moved, count := Reparent(expressions, dup, canonical);
      expressions := moved;
      var meta := MergeMeta(works[dup].meta, works[canonical].meta);
      var authors := if works[canonical].authors.Some? then works[canonical].authors else works[dup].authors;
      works := works[canonical := Work(works[canonical].title, authors, meta)] - {dup};
      stats := stats.(reparentedExpressions := stats.reparentedExpressions + count,
                      reconciledWorks := stats.reconciledWorks + 1);
    }

    method MergeWorkGroup(key: string, group: set<int>, ghost pre: Rows, ghost cl: map<int, string>)
      requires group != {} && group <= pre.works.Keys && group !! cl.Keys && Group(cl, key) == {}
      requires WorkPhase(pre, cl, Tables(), stats)
      modifies this
      ensures WorkPhase(pre, WithGroup(cl, group, key), Tables(), stats) && OtherManifestationStats(old(stats))
    {
      var ranked := Ranked(group, BY_AGE);
      PrefixEnds(cl, ranked, BY_AGE, key);
      FirstWorkStep(pre, cl, ranked[0], key);
      for i := 1 to |ranked|
        invariant WorkPhase(pre, WithPrefix(cl, ranked, i, key), Tables(), stats) && OtherManifestationStats(old(stats))
      {
        PrefixGrows(cl, ranked, BY_AGE, i, key);
        AbsorbKeepsWorkPhase(pre, WithPrefix(cl, ranked, i, key), ranked[i], ranked[0], key, Tables(), stats);
        AbsorbWork(ranked[i], ranked[0]);
      }
    }

    method MergeWorks()
      requires stats.reconciledWorks == stats.reparentedExpressions == 0
      modifies this
      ensures WorkPhase(old(Tables()), WorkClusters(old(works)), Tables(), stats) && OtherManifestationStats(old(stats))
    {
      ghost var pre := Tables();
      var groups := GroupByKey(map id | id in works :: WorkKey(works[id]));
      ghost var cl := WorkClusters(works);
      var pending := groups.Keys;
      NothingMerged(pre, BY_AGE);
      FinishedEnds(cl, pending);
      while pending != {}
        invariant pending <= groups.Keys
        invariant WorkPhase(pre, Finished(cl, pending), Tables(), stats) && OtherManifestationStats(old(stats))
        decreases pending
      {
        ghost var e := Element(pending);
        var key :| key in pending;
        if OnlyPipes(key) {
          BlankGroupSkipped(pre.works, pending, key);
        } else {
          WorkGroupKept(pre.works, key);
          FinishedGrows(cl, pending, key);
          MergeWorkGroup(key, groups[key], pre, Finished(cl, pending));
        }
        pending := pending - {key};
      }
    }

    /** The whole run.  A dry run rolls the tables back and still reports its statistics. */
    method RunPipeline(dryRun: bool) returns (result: Stats)
      modifies this
      ensures exists mid, post ::
                Reconciles(old(Tables()), mid, post, result) && Tables() == if dryRun then old(Tables()) else post
    {
      var before := Tables();
      stats := NO_STATS;
      RelocateWorkIsbns();
      ghost var mid := Tables();
      MergeManifestations();
      MergeWorks();
      result := stats;
      assert Reconciles(before, mid, Tables(), result);
      if dryRun {
        works, expressions, manifestations, items :=
          before.works, before.expressions, before.manifestations, before.items;
      }
    }
  }
}
