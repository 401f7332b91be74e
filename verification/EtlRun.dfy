/** What one reconciliation run amounts to, and what holds of every run. */
module EtlRun {
  import opened Support
  import opened Clusters
  import opened Catalogue
  import opened Relocation
  import Isbn

  datatype Stats = Stats(
    reconciledWorks: nat,
    reconciledManifestations: nat,
    reparentedItems: nat,
    reparentedExpressions: nat,
    normalizedIsbns: nat,
    relocatedWorkIsbns: nat)

  const NO_STATS: Stats := Stats(0, 0, 0, 0, 0, 0)

  /** The phase started from `pre` and has merged the cluster members `cl`. */
  ghost predicate ManifestationPhase(pre: Rows, cl: map<int, string>, tables: Rows, stats: Stats) {
    var w := ItemCounts(pre);
    && cl.Keys <= pre.manifestations.Keys
    && tables == ManifestationsMerged(pre, cl)
    && stats.reparentedItems == |Moved(pre.items, cl, w)|
    && stats.reconciledManifestations == |Dropped(cl, w)|
    && stats.normalizedIsbns == |Rekeyed(pre.manifestations, cl, w)|
  }

  function CountManifestation(stats: Stats, moved: nat): Stats {
    stats.(reparentedItems := stats.reparentedItems + moved,
           reconciledManifestations := stats.reconciledManifestations + 1)
  }

  lemma AbsorbKeepsPhase(pre: Rows, cl: map<int, string>, d: int, c: int, isbn: string, tables: Rows, stats: Stats)
    requires d in pre.manifestations && d !in cl
    requires IsBest(Group(cl, isbn), ItemCounts(pre), c) && Outranked(Group(cl, isbn), ItemCounts(pre), d)
    requires ManifestationPhase(pre, cl, tables, stats)
    ensures && c in tables.manifestations && d in tables.manifestations && c != d
            && ManifestationPhase(pre, cl[d := isbn], ManifestationAbsorbed(tables, d, c),
                                  CountManifestation(stats, |ChildrenOf(tables.items, d)|))
  {
    NextManifestationStep(pre, cl, d, isbn, c);
  }

  ghost predicate WorkPhase(pre: Rows, cl: map<int, string>, tables: Rows, stats: Stats) {
    && cl.Keys <= pre.works.Keys
    && tables == WorksMerged(pre, cl)
    && stats.reparentedExpressions == |Moved(pre.expressions, cl, BY_AGE)|
    && stats.reconciledWorks == |Dropped(cl, BY_AGE)|
  }

  function CountWork(stats: Stats, moved: nat): Stats {
    stats.(reparentedExpressions := stats.reparentedExpressions + moved,
           reconciledWorks := stats.reconciledWorks + 1)
  }

  lemma AbsorbKeepsWorkPhase(pre: Rows, cl: map<int, string>, d: int, c: int, key: string, tables: Rows, stats: Stats)
    requires d in pre.works && d !in cl
    requires IsBest(Group(cl, key), BY_AGE, c) && Outranked(Group(cl, key), BY_AGE, d)
    requires WorkPhase(pre, cl, tables, stats)
    ensures && c in tables.works && d in tables.works && c != d
            && WorkPhase(pre, cl[d := key], WorkAbsorbed(tables, d, c),
                         CountWork(stats, |ChildrenOf(tables.expressions, d)|))
  {
    NextWorkStep(pre, cl, d, key, c);
  }

  /** One run: relocation leads from `pre` to `mid`, the two merge phases from there to `post`. */
  ghost predicate Reconciles(pre: Rows, mid: Rows, post: Rows, stats: Stats) {
    var cl := ManifestationClusters(mid.manifestations);
    var merged := ManifestationsMerged(mid, cl);
    && Relocating(pre, mid, pre.works.Keys)
    && ManifestationPhase(mid, cl, merged, stats)
    && WorkPhase(merged, WorkClusters(mid.works), post, stats)
    && stats.relocatedWorkIsbns == |WorksWithIsbn(pre.works)|
  }

  // ----- tables a run leaves alone -----

  ghost predicate Distinct(cl: map<int, string>) {
    forall a, b :: a in cl && b in cl && cl[a] == cl[b] ==> a == b
  }

  /** No misplaced ISBN, every ISBN normalised and unique, every work key unique. */
  ghost predicate Tidy(rows: Rows) {
    var cl := ManifestationClusters(rows.manifestations);
    && WorksWithIsbn(rows.works) == {}
    && Distinct(cl)
    && (forall m :: m in cl ==> rows.manifestations[m].isbn13 == cl[m])
    && Distinct(WorkClusters(rows.works))
  }

  lemma NoIsbnNoRelocation(pre: Rows, mid: Rows)
    requires Relocating(pre, mid, pre.works.Keys) && WorksWithIsbn(pre.works) == {}
    ensures mid == pre
  {
    forall w | w in pre.works
      ensures Misplaced(pre.works[w]) == "" && mid.works[w] == pre.works[w]
    {
      assert w !in WorksWithIsbn(pre.works);
    }
    assert Isbn.Normalize("") == None by {
      assert Isbn.Clean("") == "";
    }
    forall m | m in pre.manifestations
      ensures mid.manifestations[m] == pre.manifestations[m]
    {
      assert !Received(pre, mid.manifestations, m);
    }
    assert mid.works == pre.works && mid.manifestations == pre.manifestations;
  }

  lemma NobodyMoved(children: map<int, int>, cl: map<int, string>, w: map<int, nat>)
    requires Distinct(cl)
    ensures Reparented(children, cl, w) == children && Moved(children, cl, w) == {}
  {
    DistinctKeysLead(cl, w);
  }

  lemma DistinctIsbnsMergeNothing(rows: Rows, cl: map<int, string>)
    requires cl.Keys <= rows.manifestations.Keys && Distinct(cl)
    requires forall m :: m in cl ==> rows.manifestations[m].isbn13 == cl[m]
    ensures ManifestationsMerged(rows, cl) == rows
  {
    var w := ItemCounts(rows);
    DistinctKeysLead(cl, w);
    forall m | m in cl
      ensures MergedManifestation(rows.manifestations, cl, w, m) == rows.manifestations[m]
    {
      assert Group(cl, cl[m]) == {m};
      MetaOfOne(ManifestationMetas(rows.manifestations), m, w);
    }
    assert MergedManifestations(rows.manifestations, cl, w) == rows.manifestations;
    NobodyMoved(rows.items, cl, w);
  }

  lemma DistinctWorksMergeNothing(rows: Rows, cl: map<int, string>)
    requires cl.Keys <= rows.works.Keys && Distinct(cl)
    ensures WorksMerged(rows, cl) == rows
  {
    DistinctKeysLead(cl, BY_AGE);
    forall d | d in cl
      ensures MergedWork(rows.works, cl, d) == rows.works[d]
    {
      assert Group(cl, cl[d]) == {d};
      MetaOfOne(WorkMetas(rows.works), d, BY_AGE);
      assert Authored(rows.works, {d}) == if rows.works[d].authors.Some? then {d} else {};
    }
    assert MergedWorks(rows.works, cl) == rows.works;
    NobodyMoved(rows.expressions, cl, BY_AGE);
  }

  /** Clusters whose rows all lead have one row each. */
  lemma NobodyDropped(cl: map<int, string>, w: map<int, nat>)
    ensures Dropped(cl, w) == {} <==> Distinct(cl)
  {
    if Dropped(cl, w) == {} {
      forall a, b | a in cl && b in cl && cl[a] == cl[b]
        ensures a == b
      {
        assert a !in Dropped(cl, w) && b !in Dropped(cl, w);
        LeadersDistinct(cl, w, a, b);
      }
    } else {
      var d := Element(Dropped(cl, w));
      assert Leader(cl, w, d) != d;
    }
  }

  /** The counters of a run are all zero if and only if the tables were tidy, and then nothing changes. */
  lemma ZeroStatsIffTidy(pre: Rows, mid: Rows, post: Rows, stats: Stats)
    requires Reconciles(pre, mid, post, stats)
    ensures stats == NO_STATS <==> Tidy(pre)
    ensures Tidy(pre) ==> post == pre
  {
    var cl := ManifestationClusters(mid.manifestations);
    var w := ItemCounts(mid);
    if stats == NO_STATS || Tidy(pre) {
      NoIsbnNoRelocation(pre, mid);
      NobodyDropped(cl, w);
      NobodyDropped(WorkClusters(mid.works), BY_AGE);
    }
    if stats == NO_STATS {
      forall m | m in cl
        ensures mid.manifestations[m].isbn13 == cl[m]
      {
        DistinctKeysLead(cl, w);
        assert m !in Rekeyed(mid.manifestations, cl, w);
      }
      DistinctIsbnsMergeNothing(pre, cl);
    }
    if Tidy(pre) {
      DistinctIsbnsMergeNothing(pre, cl);
      DistinctWorksMergeNothing(pre, WorkClusters(pre.works));
      NobodyMoved(pre.items, cl, w);
      NobodyMoved(pre.expressions, WorkClusters(pre.works), BY_AGE);
      assert Rekeyed(pre.manifestations, cl, w) == {};
    }
  }
}
