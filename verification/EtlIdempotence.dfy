/**
 Exactly which works a reconciliation settles in one run, said of the works before it.

 Two things can go wrong.  A leader without authors takes over a duplicate's, and so arrives at the
 key of another cluster.  And relocation leaves the ISBN keys of a work alone when the last one it
 holds is blank, so that merging can bring one of them up.
 */
module EtlIdempotence {
  import opened Support
  import opened Clusters
  import opened Catalogue
  import opened Relocation
  import opened EtlRun
  import opened Auditor
  import opened EtlGuarantees

  // ----- the conditions -----

  /** The works that merge with `w`; a work whose key is only pipes stays alone. */
  ghost function ClusterOf(works: map<int, Work>, w: int): set<int> {
    var cl := WorkClusters(works);
    if w in cl then Group(cl, cl[w]) else {w}
  }

  ghost predicate LeadsCluster(works: map<int, Work>, c: int) {
    c in WorkClusters(works) && Leads(WorkClusters(works), BY_AGE, c)
  }

  /** The leader's title with the oldest authors of its cluster. */
  ghost function LeaderKey(works: map<int, Work>, c: int): string
    requires c in works
  {
    Lower(Strip(works[c].title)) + "||" + AuthorsKey(MergedAuthors(works, ClusterOf(works, c)))
  }

  /** A leader without authors takes over authors that count. */
  ghost predicate Adopts(works: map<int, Work>, c: int) {
    LeadsCluster(works, c) && works[c].authors.None? && AuthorsKey(MergedAuthors(works, ClusterOf(works, c))) != ""
  }

  /** By taking over authors a leader arrives at the key of another one. */
  ghost predicate AdoptionCollides(works: map<int, Work>) {
    exists a, b :: Adopts(works, a) && LeadsCluster(works, b) && a != b && LeaderKey(works, a) == LeaderKey(works, b)
  }

  /** Relocation leaves this ISBN key on the work. */
  predicate Keeps(w: Work, key: string) {
    key in w.meta && (Misplaced(w) == "" || w.meta[key] == "")
  }

  /** Of the works in `group` that relocation leaves `key` on, `d` is the oldest, and holds an ISBN there. */
  ghost predicate SurfacesIn(works: map<int, Work>, group: set<int>, key: string, d: int) {
    && d in group && d in works && Keeps(works[d], key) && works[d].meta[key] != ""
    && forall e :: e in group && e in works && e < d ==> !Keeps(works[e], key)
  }

  ghost predicate Surfaces(works: map<int, Work>, w: int, key: string) {
    exists d :: SurfacesIn(works, ClusterOf(works, w), key, d)
  }

  /** The last ISBN key that surfaces in the cluster of `w` is not blank. */
  ghost predicate SurfacesLast(works: map<int, Work>, w: int) {
    exists i, d :: 0 <= i < |ISBN_KEYS| && SurfacesIn(works, ClusterOf(works, w), ISBN_KEYS[i], d)
                   && Strip(works[d].meta[ISBN_KEYS[i]]) != ""
                   && forall j :: i < j < |ISBN_KEYS| ==> !Surfaces(works, w, ISBN_KEYS[j])
  }

  // ----- keys after the merge -----

  lemma ClusterOfLeader(works: map<int, Work>, w: int) returns (c: int)
    requires w in works
    ensures c in works && ClusterOf(works, c) == ClusterOf(works, w) && Leads(WorkClusters(works), BY_AGE, c)
  {
    var cl := WorkClusters(works);
    c := Leader(cl, BY_AGE, w);
    if w in cl { LeadersDistinct(cl, BY_AGE, w, w); }
  }

  lemma OwnKey(works: map<int, Work>, c: int)
    requires LeadsCluster(works, c) && !Adopts(works, c)
    ensures LeaderKey(works, c) == WorkClusters(works)[c]
  {
    LeaderKeyKept(works, WorkClusters(works), c);
  }

  lemma LeaderKeyCounts(works: map<int, Work>, c: int)
    requires LeadsCluster(works, c)
    ensures !OnlyPipes(LeaderKey(works, c))
  {
    if Adopts(works, c) {
      var title := Lower(Strip(works[c].title));
      var i :| 0 <= i < |WorkKey(works[c])| && WorkKey(works[c])[i] != '|';
      assert i < |title| && LeaderKey(works, c)[i] == title[i];
    } else {
      OwnKey(works, c);
    }
  }

  lemma MergedKey(works: map<int, Work>, c: int)
    requires c in works && Leads(WorkClusters(works), BY_AGE, c)
    ensures var merged := MergedWorks(works, WorkClusters(works));
            c in merged && WorkKey(merged[c]) == if LeadsCluster(works, c) then LeaderKey(works, c)
                else WorkKey(works[c])
    ensures !LeadsCluster(works, c) ==> OnlyPipes(WorkKey(works[c]))
  {
  }

  ghost predicate KeysDiffer(works: map<int, Work>) {
    forall a, b :: a in works && b in works && a != b && !OnlyPipes(WorkKey(works[a])) ==>
        WorkKey(works[a]) != WorkKey(works[b])
  }

  /** Merged works have different keys if and only if no adoption collides. */
  lemma MergedKeysDifferIff(works: map<int, Work>)
    ensures KeysDiffer(MergedWorks(works, WorkClusters(works))) <==> !AdoptionCollides(works)
  {
    var merged := MergedWorks(works, WorkClusters(works));
    if a, b :| Adopts(works, a) && LeadsCluster(works, b) && a != b && LeaderKey(works, a) == LeaderKey(works, b) {
      MergedKey(works, a);
      MergedKey(works, b);
      LeaderKeyCounts(works, a);
    } else {
      forall a, b | a in merged && b in merged && a != b && !OnlyPipes(WorkKey(merged[a]))
        ensures WorkKey(merged[a]) != WorkKey(merged[b])
      {
        MergedKey(works, a);
        MergedKey(works, b);
        UnadoptedDiffer(works, a, b);
      }
    }
  }

  lemma UnadoptedDiffer(works: map<int, Work>, a: int, b: int)
    requires a != b
    ensures LeadsCluster(works, a) && LeadsCluster(works, b) && LeaderKey(works, a) == LeaderKey(works, b) ==>
              Adopts(works, a) || Adopts(works, b)
  {
    if LeadsCluster(works, a) && LeadsCluster(works, b) && !Adopts(works, a) && !Adopts(works, b) {
      OwnKey(works, a);
      OwnKey(works, b);
      if WorkClusters(works)[a] == WorkClusters(works)[b] {
        LeadersDistinct(WorkClusters(works), BY_AGE, a, b);
      }
    }
  }

  // ----- ISBNs after the merge -----

  ghost function Relocated(works: map<int, Work>): map<int, Work> {
    map w | w in works :: RelocatedWork(works[w])
  }

  lemma RelocatedKeeps(w: Work, i: nat)
    requires i < |ISBN_KEYS|
    ensures ISBN_KEYS[i] in RelocatedWork(w).meta <==> Keeps(w, ISBN_KEYS[i])
    ensures Keeps(w, ISBN_KEYS[i]) ==> RelocatedWork(w).meta[ISBN_KEYS[i]] == w.meta[ISBN_KEYS[i]]
  {
    assert ISBN_KEYS[i] in ISBN_KEYS[..|ISBN_KEYS|];
  }

  /** The merged metadata of a group hold an ISBN exactly when one surfaces, and then that one. */
  lemma MergedIsbn(works: map<int, Work>, group: set<int>, i: nat)
    requires i < |ISBN_KEYS|
    ensures var meta := MergedMeta(WorkMetas(Relocated(works)), group, BY_AGE);
            && (HoldsIsbn(meta, ISBN_KEYS[i]) <==> exists d :: SurfacesIn(works, group, ISBN_KEYS[i], d))
            && forall d :: SurfacesIn(works, group, ISBN_KEYS[i], d) ==>
                 HoldsIsbn(meta, ISBN_KEYS[i]) && meta[ISBN_KEYS[i]] == works[d].meta[ISBN_KEYS[i]]
  {
    var key, metas := ISBN_KEYS[i], WorkMetas(Relocated(works));
    var meta := MergedMeta(metas, group, BY_AGE);
    var holders := Holders(metas, group, key);
    forall d | d in works
      ensures key in metas[d] <==> Keeps(works[d], key)
      ensures Keeps(works[d], key) ==> metas[d][key] == works[d].meta[key]
    {
      RelocatedKeeps(works[d], i);
    }
    MetaAtKey(metas, group, key);
    if holders != {} {
      var best := Best(holders, BY_AGE);
      forall d ensures SurfacesIn(works, group, key, d) <==> d == best && works[best].meta[key] != "" {
        OldestKeeper(works, group, key, holders, best, d);
      }
      assert meta[key] == works[best].meta[key];
      assert SurfacesIn(works, group, key, best) <==> HoldsIsbn(meta, key);
    } else {
      forall d ensures !SurfacesIn(works, group, key, d) {
        assert d !in holders;
      }
    }
  }

  lemma MetaAtKey<V>(metas: map<int, map<string, V>>, group: set<int>, key: string)
    ensures var holders := Holders(metas, group, key); var meta := MergedMeta(metas, group, BY_AGE);
            && (key in meta <==> holders != {})
            && (holders != {} ==> Best(holders, BY_AGE) in metas && key in metas[Best(holders, BY_AGE)]
                                  && meta[key] == metas[Best(holders, BY_AGE)][key])
  {
    var holders := Holders(metas, group, key);
    if holders != {} {
      assert Best(holders, BY_AGE) in holders;
    } else {
      forall d | d in group && d in metas ensures key !in metas[d] { assert d !in holders; }
    }
  }

  lemma OldestKeeper(works: map<int, Work>, group: set<int>, key: string, holders: set<int>, best: int, d: int)
    requires IsBest(holders, BY_AGE, best)
    requires forall e :: e in holders <==> e in group && e in works && Keeps(works[e], key)
    ensures best in works && Keeps(works[best], key)
    ensures SurfacesIn(works, group, key, d) <==> d == best && works[best].meta[key] != ""
  {
    assert best in holders;
    if SurfacesIn(works, group, key, d) {
      assert d in holders;
      assert d == best || Beats(BY_AGE, best, d);
    }
    if d == best {
      forall e | e in group && e in works && e < d ensures !Keeps(works[e], key) {
        assert e in holders ==> Beats(BY_AGE, best, e);
      }
    }
  }

  /** The works one run leaves; the conditions above say what can be wrong with them. */
  ghost function WorksAfter(works: map<int, Work>): map<int, Work> {
    MergedWorks(Relocated(works), WorkClusters(Relocated(works)))
  }

  lemma RelocatedClusters(works: map<int, Work>)
    ensures WorkClusters(Relocated(works)) == WorkClusters(works)
    ensures forall group :: MergedAuthors(Relocated(works), group) == MergedAuthors(works, group)
  {
    SameKeysSameClusters(works, Relocated(works));
    forall group ensures MergedAuthors(Relocated(works), group) == MergedAuthors(works, group) {
      SameMergedAuthors(works, Relocated(works), group);
    }
  }

  lemma MetaAfter(works: map<int, Work>, c: int)
    requires c in WorksAfter(works)
    ensures WorksAfter(works)[c].meta == MergedMeta(WorkMetas(Relocated(works)), ClusterOf(works, c), BY_AGE)
  {
    RelocatedClusters(works);
    if c !in WorkClusters(works) {
      MetaOfOne(WorkMetas(Relocated(works)), c, BY_AGE);
    }
  }

  lemma IsbnAfterIff(works: map<int, Work>, c: int, i: nat)
    requires c in WorksAfter(works) && i < |ISBN_KEYS|
    ensures HoldsIsbn(WorksAfter(works)[c].meta, ISBN_KEYS[i]) <==> Surfaces(works, c, ISBN_KEYS[i])
    ensures forall d :: SurfacesIn(works, ClusterOf(works, c), ISBN_KEYS[i], d) ==>
              HoldsIsbn(WorksAfter(works)[c].meta, ISBN_KEYS[i]) &&
                  WorksAfter(works)[c].meta[ISBN_KEYS[i]] == works[d].meta[ISBN_KEYS[i]]
  {
    MetaAfter(works, c);
    MergedIsbn(works, ClusterOf(works, c), i);
  }

  /** The `i`-th ISBN key is the last one that holds anything, and not blank. */
  predicate LastHeld(meta: map<string, string>, n: nat, i: nat)
    requires n <= |ISBN_KEYS|
  {
    && i < n && HoldsIsbn(meta, ISBN_KEYS[i]) && Strip(meta[ISBN_KEYS[i]]) != ""
    && forall j :: i < j < n ==> !HoldsIsbn(meta, ISBN_KEYS[j])
  }

  lemma {:induction false} LastIsbnIff(meta: map<string, string>, n: nat)
    requires n <= |ISBN_KEYS|
    ensures LastIsbn(meta, n) != "" <==> exists i: nat :: LastHeld(meta, n, i)
  {
    if n > 0 {
      LastIsbnIff(meta, n - 1);
      if HoldsIsbn(meta, ISBN_KEYS[n - 1]) {
        forall i: nat | LastHeld(meta, n, i) ensures i == n - 1 {}
        assert LastIsbn(meta, n) != "" ==> LastHeld(meta, n, n - 1);
      } else {
        var m: nat := n - 1;
        if i: nat :| LastHeld(meta, m, i) { assert LastHeld(meta, n, i); }
        if i: nat :| LastHeld(meta, n, i) { assert LastHeld(meta, m, i); }
      }
    }
  }

  lemma MisplacedAfterIff(works: map<int, Work>, c: int)
    requires c in WorksAfter(works)
    ensures Misplaced(WorksAfter(works)[c]) != "" <==> SurfacesLast(works, c)
  {
    var meta := WorksAfter(works)[c].meta;
    LastIsbnIff(meta, |ISBN_KEYS|);
    forall i | 0 <= i < |ISBN_KEYS| { IsbnAfterIff(works, c, i); }
    if SurfacesLast(works, c) {
      var i, d :| 0 <= i < |ISBN_KEYS| && SurfacesIn(works, ClusterOf(works, c), ISBN_KEYS[i], d)
                  && Strip(works[d].meta[ISBN_KEYS[i]]) != ""
                  && forall j :: i < j < |ISBN_KEYS| ==> !Surfaces(works, c, ISBN_KEYS[j]);
      assert LastHeld(meta, |ISBN_KEYS|, i);
    }
    if i: nat :| LastHeld(meta, |ISBN_KEYS|, i) {
      var d :| SurfacesIn(works, ClusterOf(works, c), ISBN_KEYS[i], d);
      assert Strip(works[d].meta[ISBN_KEYS[i]]) != "";
    }
  }

  // ----- idempotence, exactly -----

  lemma WorksOfRun(pre: Rows, mid: Rows, post: Rows, stats: Stats)
    requires Reconciles(pre, mid, post, stats)
    ensures post.works == WorksAfter(pre.works)
  {
    assert mid.works == Relocated(pre.works);
  }

  lemma ClustersDistinctIff(works: map<int, Work>)
    ensures Distinct(WorkClusters(works)) <==> KeysDiffer(works)
  {
    var cl := WorkClusters(works);
    forall w | w in works
      ensures w in cl <==> !OnlyPipes(WorkKey(works[w]))
      ensures w in cl ==> cl[w] == WorkKey(works[w])
    {
    }
  }

  lemma SameNamesCollide(works: map<int, Work>)
    ensures AdoptionCollides(Relocated(works)) <==> AdoptionCollides(works)
  {
    RelocatedClusters(works);
    var r := Relocated(works);
    forall w | w in works
      ensures ClusterOf(r, w) == ClusterOf(works, w) && LeaderKey(r, w) == LeaderKey(works, w)
      ensures Adopts(r, w) <==> Adopts(works, w)
      ensures LeadsCluster(r, w) <==> LeadsCluster(works, w)
    {
    }
  }

  lemma DistinctAfterIff(works: map<int, Work>)
    ensures Distinct(WorkClusters(WorksAfter(works))) <==> !AdoptionCollides(works)
  {
    ClustersDistinctIff(WorksAfter(works));
    MergedKeysDifferIff(Relocated(works));
    SameNamesCollide(works);
  }

  lemma NoIsbnAfterIff(works: map<int, Work>)
    ensures WorksWithIsbn(WorksAfter(works)) == {} <==> forall w :: w in works ==> !SurfacesLast(works, w)
  {
    var after := WorksAfter(works);
    var held := WorksWithIsbn(after);
    RelocatedClusters(works);
    if held == {} {
      forall w | w in works ensures !SurfacesLast(works, w) {
        var c := ClusterOfLeader(works, w);
        MisplacedAfterIff(works, c);
        assert c !in held;
      }
    } else {
      var c := Element(held);
      MisplacedAfterIff(works, c);
    }
  }

  /**
   The exact reach of idempotence: a second run changes no row and reports six zeros if and only if no
   adoption collides and no cluster's last surfacing ISBN key is more than blank.
   */
  lemma SecondRunIdleIff(pre: Rows, mid: Rows, post: Rows, stats: Stats, mid': Rows, post': Rows, stats': Stats)
    requires Reconciles(pre, mid, post, stats) && Reconciles(post, mid', post', stats')
    ensures post' == post && stats' == NO_STATS
       <==> !AdoptionCollides(pre.works) && forall w :: w in pre.works ==> !SurfacesLast(pre.works, w)
    ensures stats' == NO_STATS ==> post' == post
  {
    MergedIsbns(mid);
    WorksOfRun(pre, mid, post, stats);
    DistinctAfterIff(pre.works);
    NoIsbnAfterIff(pre.works);
    ZeroStatsIffTidy(post, mid', post', stats');
  }

  // ----- the auditor's verdict on works, exactly -----

  lemma DuplicateMeansNotDistinct(cl: map<int, string>, a: int, b: int)
    requires a in cl && b in cl && a != b && cl[a] == cl[b]
    ensures IsDuplicate(cl, cl[a])
  {
    assert {a, b} <= Group(cl, cl[a]);
    SubsetSize({a, b}, Group(cl, cl[a]));
  }

  lemma {:induction false} SubsetSize(a: set<int>, b: set<int>)
    requires a <= b
    ensures |a| <= |b|
    decreases a
  {
    ghost var x := Element(a);
    if a != {} {
      SubsetSize(a - {x}, b - {x});
    }
  }

  /** After a run the auditor finds no duplicate works if and only if no adoption collided. */
  lemma AuditorAcceptsWorksIff(pre: Rows, mid: Rows, post: Rows, stats: Stats)
    requires Reconciles(pre, mid, post, stats)
    ensures (forall key :: !IsDuplicate(WorkClusters(post.works), key)) <==> !AdoptionCollides(pre.works)
  {
    WorksOfRun(pre, mid, post, stats);
    DistinctAfterIff(pre.works);
    var cl := WorkClusters(post.works);
    if Distinct(cl) {
      forall key ensures !IsDuplicate(cl, key) { DistinctMeansNoDuplicate(cl, key); }
    } else {
      var a, b :| a in cl && b in cl && cl[a] == cl[b] && a != b;
      DuplicateMeansNotDistinct(cl, a, b);
    }
  }

  /** It reports an ISBN key of a remaining work if and only if that key surfaces in the work's cluster. */
  lemma WorkLevelIsbnIff(pre: Rows, mid: Rows, post: Rows, stats: Stats, c: int, i: nat)
    requires Reconciles(pre, mid, post, stats) && i < |ISBN_KEYS|
    ensures Violates(post, WorkLevelIsbn(c, ISBN_KEYS[i])) <==>
            c in pre.works && Leads(WorkClusters(pre.works), BY_AGE, c) && Surfaces(pre.works, c, ISBN_KEYS[i])
  {
    WorksOfRun(pre, mid, post, stats);
    RelocatedClusters(pre.works);
    if c in post.works { IsbnAfterIff(pre.works, c, i); }
  }

  /** It reports no ISBN on any work if and only if no ISBN key surfaces anywhere. */
  lemma NoWorkLevelIsbnIff(pre: Rows, mid: Rows, post: Rows, stats: Stats)
    requires Reconciles(pre, mid, post, stats)
    ensures (forall c, key :: !Violates(post, WorkLevelIsbn(c, key))) <==> !SomeIsbnSurfaces(pre.works)
  {
    if SomeIsbnSurfaces(pre.works) {
      var w, i :| SurfacesAt(pre.works, w, i);
      var c := ClusterOfLeader(pre.works, w);
      WorkLevelIsbnIff(pre, mid, post, stats, c, i);
    } else {
      forall c, key ensures !Violates(post, WorkLevelIsbn(c, key)) {
        if i :| 0 <= i < |ISBN_KEYS| && ISBN_KEYS[i] == key {
          WorkLevelIsbnIff(pre, mid, post, stats, c, i);
          assert !SurfacesAt(pre.works, c, i);
        }
      }
    }
  }

  ghost predicate SurfacesAt(works: map<int, Work>, w: int, i: int) {
    w in works && 0 <= i < |ISBN_KEYS| && Surfaces(works, w, ISBN_KEYS[i])
  }

  ghost predicate SomeIsbnSurfaces(works: map<int, Work>) {
    exists w, i :: SurfacesAt(works, w, i)
  }
}
