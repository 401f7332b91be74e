/** What a run does to single rows and what its counters count, said of the tables before and after it. */
module EtlRows {
  import opened Support
  import opened Clusters
  import opened Catalogue
  import opened Relocation
  import opened EtlRun
  import opened EtlGuarantees

  // ----- counters -----

  function ChangedParents(before: map<int, int>, after: map<int, int>): set<int> {
    set c | c in before && c in after && after[c] != before[c]
  }

  function ChangedIsbns(before: map<int, Manifestation>, after: map<int, Manifestation>): set<int> {
    set m | m in before && m in after && after[m].isbn13 != before[m].isbn13
  }

  function ChangedWorks(before: map<int, Work>, after: map<int, Work>): set<int> {
    set w | w in before && w in after && after[w] != before[w]
  }

  /** Relocation changes a work exactly when the work has an ISBN that counts. */
  lemma RelocatedChangesIff(w: Work)
    ensures RelocatedWork(w) != w <==> Misplaced(w) != ""
  {
    if Misplaced(w) != "" {
      SomeIsbnHeld(w.meta, |ISBN_KEYS|);
      var i :| 0 <= i < |ISBN_KEYS| && HoldsIsbn(w.meta, ISBN_KEYS[i]);
      assert ISBN_KEYS[i] in ISBN_KEYS[..|ISBN_KEYS|];
      assert ISBN_KEYS[i] !in WithoutIsbns(w.meta, |ISBN_KEYS|);
    }
  }

  lemma {:induction false} SomeIsbnHeld(meta: map<string, string>, n: nat)
    requires n <= |ISBN_KEYS| && LastIsbn(meta, n) != ""
    ensures exists i :: 0 <= i < n && HoldsIsbn(meta, ISBN_KEYS[i])
  {
    if !HoldsIsbn(meta, ISBN_KEYS[n - 1]) {
      SomeIsbnHeld(meta, n - 1);
    }
  }

  /** Relocation takes the ISBN keys that hold something, if the last of them is not blank, and no other. */
  lemma RelocatedKeys(pre: Rows, mid: Rows, w: int, k: string)
    requires Relocating(pre, mid, pre.works.Keys) && w in pre.works
    ensures w in mid.works && mid.works[w].title == pre.works[w].title && mid.works[w].authors == pre.works[w].authors
    ensures var before, after := pre.works[w].meta, mid.works[w].meta;
            && (k in after <==> k in before && (k !in ISBN_KEYS || before[k] == "" || Misplaced(pre.works[w]) == ""))
            && (k in after ==> after[k] == before[k])
  {
    assert mid.works[w] == RelocatedWork(pre.works[w]);
    assert ISBN_KEYS[..|ISBN_KEYS|] == ISBN_KEYS;
  }

  lemma MovedAreChanged(children: map<int, int>, cl: map<int, string>, w: map<int, nat>)
    ensures Moved(children, cl, w) == ChangedParents(children, Reparented(children, cl, w))
  {
  }

  lemma RekeyedAreChanged(ms: map<int, Manifestation>, cl: map<int, string>, w: map<int, nat>)
    requires cl.Keys <= ms.Keys
    ensures Rekeyed(ms, cl, w) == ChangedIsbns(ms, MergedManifestations(ms, cl, w))
  {
    var after := MergedManifestations(ms, cl, w);
    forall m ensures m in Rekeyed(ms, cl, w) <==> m in ChangedIsbns(ms, after) {
      if m in after && m !in cl { assert after[m] == ms[m]; }
    }
  }

  lemma RelocatedAreChanged(works: map<int, Work>, after: map<int, Work>)
    requires after == map w | w in works :: RelocatedWork(works[w])
    ensures WorksWithIsbn(works) == ChangedWorks(works, after)
  {
    forall w ensures w in WorksWithIsbn(works) <==> w in ChangedWorks(works, after) {
      if w in works { RelocatedChangesIff(works[w]); }
    }
  }

  /** The other four counters are the rows that changed: items and expressions with a new parent, remaining
      manifestations with a new ISBN, works relieved of one. */
  lemma CountersMatchChanges(pre: Rows, mid: Rows, post: Rows, stats: Stats)
    requires Reconciles(pre, mid, post, stats)
    ensures stats.reparentedItems == |ChangedParents(pre.items, post.items)|
    ensures stats.reparentedExpressions == |ChangedParents(pre.expressions, post.expressions)|
    ensures stats.normalizedIsbns == |ChangedIsbns(mid.manifestations, post.manifestations)|
    ensures stats.relocatedWorkIsbns == |ChangedWorks(pre.works, mid.works)|
  {
    var cl, w := ManifestationClusters(mid.manifestations), ItemCounts(mid);
    MovedAreChanged(mid.items, cl, w);
    MovedAreChanged(mid.expressions, WorkClusters(mid.works), BY_AGE);
    RekeyedAreChanged(mid.manifestations, cl, w);
    assert mid.works == map w | w in pre.works :: RelocatedWork(pre.works[w]);
    RelocatedAreChanged(pre.works, mid.works);
  }

  // ----- who remains -----

  lemma LeaderRank(cl: map<int, string>, w: map<int, nat>, a: int, b: int)
    requires a in cl && b in cl && cl[a] == cl[b] && Leads(cl, w, a)
    ensures Weight(w, a) > Weight(w, b) || (Weight(w, a) == Weight(w, b) && a <= b)
  {
    assert b in Group(cl, cl[a]);
  }

  /** Of the manifestations with one ISBN key the one with most items remains, the oldest of several. */
  lemma RemainingManifestation(pre: Rows, mid: Rows, post: Rows, stats: Stats, m: int, other: int)
    requires Reconciles(pre, mid, post, stats) && m in post.manifestations && other in pre.manifestations
    requires IsbnKey(mid.manifestations[m]) == IsbnKey(mid.manifestations[other]) != ""
    ensures var mine, its := |ChildrenOf(pre.items, m)|, |ChildrenOf(pre.items, other)|;
            mine > its || (mine == its && m <= other)
  {
    LeaderRank(ManifestationClusters(mid.manifestations), ItemCounts(mid), m, other);
  }

  /** Of the works with one key the oldest remains. */
  lemma RemainingWork(pre: Rows, mid: Rows, post: Rows, stats: Stats, w: int, other: int)
    requires Reconciles(pre, mid, post, stats) && w in post.works && other in pre.works
    requires WorkKey(pre.works[w]) == WorkKey(pre.works[other]) && !OnlyPipes(WorkKey(pre.works[w]))
    ensures w <= other
  {
    SameWorkClusters(pre, mid);
    LeaderRank(WorkClusters(pre.works), BY_AGE, w, other);
  }

  // ----- what remaining rows hold -----

  /** A leader keeps its metadata, gets every key of its group, and no value that nobody had. */
  lemma MergedMetaHolds(metas: map<int, map<string, string>>, group: set<int>, w: map<int, nat>, leader: int)
    requires IsBest(group, w, leader) && leader in metas
    ensures var merged := MergedMeta(metas, group, w);
            && (forall k :: k in metas[leader] ==> k in merged && merged[k] == metas[leader][k])
            && (forall d, k :: d in group && d in metas && k in metas[d] ==> k in merged)
            && (forall k :: k in merged ==>
                  exists d :: d in group && d in metas && k in metas[d] && merged[k] == metas[d][k])
  {
    var merged := MergedMeta(metas, group, w);
    forall k | k in metas[leader] ensures k in merged && merged[k] == metas[leader][k] {
      var holders := Holders(metas, group, k);
      assert leader in holders;
      BestUnique(holders, w, leader);
    }
    forall k | k in merged
      ensures exists d :: d in group && d in metas && k in metas[d] && merged[k] == metas[d][k]
    {
      var d :| d in group && d in metas && k in metas[d];
      assert d in Holders(metas, group, k);
      assert Best(Holders(metas, group, k), w) in Holders(metas, group, k);
    }
  }

  /** A remaining manifestation keeps its expression and its metadata, and holds every metadata key of the
      manifestations that had its ISBN key. */
  lemma ManifestationMetadataKept(pre: Rows, mid: Rows, post: Rows, stats: Stats, m: int, other: int)
    requires Reconciles(pre, mid, post, stats) && m in post.manifestations && other in pre.manifestations
    requires IsbnKey(mid.manifestations[m]) == IsbnKey(mid.manifestations[other]) != ""
    ensures post.manifestations[m].expression == pre.manifestations[m].expression
    ensures forall k :: k in pre.manifestations[m].meta ==>
              k in post.manifestations[m].meta && post.manifestations[m].meta[k] == pre.manifestations[m].meta[k]
    ensures forall k :: k in pre.manifestations[other].meta ==> k in post.manifestations[m].meta
  {
    var ms, cl, w := mid.manifestations, ManifestationClusters(mid.manifestations), ItemCounts(mid);
    assert m in Group(cl, cl[m]) && other in Group(cl, cl[m]);
    assert IsBest(Group(cl, cl[m]), w, m);
    MergedMetaHolds(ManifestationMetas(ms), Group(cl, cl[m]), w, m);
    assert ms[m].meta == pre.manifestations[m].meta && ms[other].meta == pre.manifestations[other].meta;
  }

  lemma OtherMetaStays(w: Work, k: string)
    requires k !in ISBN_KEYS
    ensures k in RelocatedWork(w).meta <==> k in w.meta
    ensures k in w.meta ==> RelocatedWork(w).meta[k] == w.meta[k]
  {
  }

  lemma MergedWorkAuthors(works: map<int, Work>, w: int)
    requires w in works && w in WorkClusters(works) && Leads(WorkClusters(works), BY_AGE, w)
    ensures var merged := MergedWork(works, WorkClusters(works), w);
            && merged.title == works[w].title
            && (works[w].authors.Some? ==> merged.authors == works[w].authors)
  {
    var cl := WorkClusters(works);
    var group := Group(cl, cl[w]);
    assert w in group && IsBest(group, BY_AGE, w);
    if works[w].authors.Some? {
      BestUnique(Authored(works, group), BY_AGE, w);
    }
  }

  lemma MergedWorkMeta(works: map<int, Work>, w: int, other: int)
    requires w in works && other in works && WorkKey(works[w]) == WorkKey(works[other])
    requires w in WorkClusters(works) && Leads(WorkClusters(works), BY_AGE, w)
    ensures var merged := MergedWork(works, WorkClusters(works), w);
            && (forall k :: k in works[w].meta ==> k in merged.meta && merged.meta[k] == works[w].meta[k])
            && (forall k :: k in works[other].meta ==> k in merged.meta)
  {
    var cl, metas := WorkClusters(works), WorkMetas(works);
    var group := Group(cl, cl[w]);
    assert w in group && other in group && IsBest(group, BY_AGE, w);
    MergedMetaHolds(metas, group, BY_AGE, w);
    assert metas[w] == works[w].meta && metas[other] == works[other].meta;
  }

  /** A remaining work keeps its title, its authors if it has any, and its metadata other than ISBNs, and
      holds every other metadata key of the works that had its key. */
  lemma WorkMetadataKept(pre: Rows, mid: Rows, post: Rows, stats: Stats, w: int, other: int, k: string)
    requires Reconciles(pre, mid, post, stats) && w in post.works && other in pre.works && k !in ISBN_KEYS
    requires WorkKey(pre.works[w]) == WorkKey(pre.works[other]) && !OnlyPipes(WorkKey(pre.works[w]))
    ensures post.works[w].title == pre.works[w].title
    ensures pre.works[w].authors.Some? ==> post.works[w].authors == pre.works[w].authors
    ensures k in pre.works[w].meta ==> k in post.works[w].meta && post.works[w].meta[k] == pre.works[w].meta[k]
    ensures k in pre.works[other].meta ==> k in post.works[w].meta
  {
    assert mid.works[w] == RelocatedWork(pre.works[w]) && mid.works[other] == RelocatedWork(pre.works[other]);
    OtherMetaStays(pre.works[w], k);
    OtherMetaStays(pre.works[other], k);
    assert post.works[w] == MergedWork(mid.works, WorkClusters(mid.works), w);
    MergedWorkAuthors(mid.works, w);
    MergedWorkMeta(mid.works, w, other);
  }

  lemma BestHolderWins(metas: map<int, map<string, string>>, group: set<int>, w: map<int, nat>, k: string, d: int)
    requires d in group && d in metas && k in metas[d]
    requires forall o :: o in group && o in metas && k in metas[o] ==> d == o || Beats(w, d, o)
    ensures k in MergedMeta(metas, group, w) && MergedMeta(metas, group, w)[k] == metas[d][k]
  {
    assert IsBest(Holders(metas, group, k), w, d);
    BestUnique(Holders(metas, group, k), w, d);
  }

  /** Where merged manifestations disagree on a metadata value, the one with most items wins, the oldest
      of several. */
  lemma ManifestationMetadataWinner(pre: Rows, mid: Rows, post: Rows, stats: Stats, m: int, d: int, k: string)
    requires Reconciles(pre, mid, post, stats) && m in post.manifestations && d in pre.manifestations
    requires IsbnKey(mid.manifestations[m]) == IsbnKey(mid.manifestations[d]) != "" && k in pre.manifestations[d].meta
    requires forall o ::
               o in pre.manifestations && IsbnKey(mid.manifestations[o]) == IsbnKey(mid.manifestations[d])
               && k in pre.manifestations[o].meta ==>
                 var its, other := |ChildrenOf(pre.items, d)|, |ChildrenOf(pre.items, o)|;
                 its > other || (its == other && d <= o)
    ensures k in post.manifestations[m].meta
    ensures post.manifestations[m].meta[k] == pre.manifestations[d].meta[k]
  {
    var ms, cl, w := mid.manifestations, ManifestationClusters(mid.manifestations), ItemCounts(mid);
    var group, metas := Group(cl, cl[m]), ManifestationMetas(ms);
    assert m in group && d in group;
    forall o | o in group && o in metas && k in metas[o] ensures d == o || Beats(w, d, o) {
      assert metas[o] == pre.manifestations[o].meta;
    }
    BestHolderWins(metas, group, w, k, d);
  }

  ghost predicate OldestHolder(works: map<int, Work>, d: int, k: string) {
    && d in works && k in works[d].meta
    && forall o :: o in works && WorkKey(works[o]) == WorkKey(works[d]) && k in works[o].meta ==> d <= o
  }

  lemma OldestHolderStays(pre: map<int, Work>, mid: map<int, Work>, d: int, k: string)
    requires mid == (map w | w in pre :: RelocatedWork(pre[w])) && k !in ISBN_KEYS && OldestHolder(pre, d, k)
    ensures OldestHolder(mid, d, k) && mid[d].meta[k] == pre[d].meta[k]
  {
    OtherMetaStays(pre[d], k);
    forall o | o in mid && WorkKey(mid[o]) == WorkKey(mid[d]) && k in mid[o].meta ensures d <= o {
      OtherMetaStays(pre[o], k);
    }
  }

  lemma MergedWorkWinner(works: map<int, Work>, w: int, d: int, k: string)
    requires w in WorkClusters(works) && OldestHolder(works, d, k) && WorkKey(works[w]) == WorkKey(works[d])
    ensures var meta := MergedWork(works, WorkClusters(works), w).meta; k in meta && meta[k] == works[d].meta[k]
  {
    var cl := WorkClusters(works);
    var group := Group(cl, cl[w]);
    assert d in group;
    BestHolderWins(WorkMetas(works), group, BY_AGE, k, d);
  }

  /** Of the works merged into one the oldest that holds a metadata key, ISBNs apart, gives its value. */
  lemma WorkMetadataWinner(pre: Rows, mid: Rows, post: Rows, stats: Stats, w: int, d: int, k: string)
    requires Reconciles(pre, mid, post, stats) && w in post.works && d in pre.works && k !in ISBN_KEYS
    requires WorkKey(pre.works[w]) == WorkKey(pre.works[d]) && !OnlyPipes(WorkKey(pre.works[w]))
    requires OldestHolder(pre.works, d, k)
    ensures k in post.works[w].meta && post.works[w].meta[k] == pre.works[d].meta[k]
  {
    OldestHolderStays(pre.works, mid.works, d, k);
    MergedWorkWinner(mid.works, w, d, k);
    assert post.works[w] == MergedWork(mid.works, WorkClusters(mid.works), w);
  }
}
