/** What every reconciliation run conserves, what it leaves behind, and when a second run is idle. */
module EtlGuarantees {
  import opened Support
  import opened Clusters
  import opened Catalogue
  import opened Relocation
  import opened EtlRun
  import opened Auditor
  import Isbn

  // ----- manifestations after the merge -----

  /** The grouping key of one manifestation, "" when it has none. */
  function IsbnKey(m: Manifestation): string {
    if m.isbn13 == "" then "" else Isbn.Key(m.isbn13)
  }

  /** Merging leaves each row's key where it was and each key on one normalised row. */
  lemma MergedIsbns(rows: Rows)
    ensures var cl := ManifestationClusters(rows.manifestations);
            var ms := MergedManifestations(rows.manifestations, cl, ItemCounts(rows));
            && (forall m :: m in rows.manifestations ==>
                  var leader := Leader(cl, ItemCounts(rows), m);
                  leader in ms && IsbnKey(ms[leader]) == IsbnKey(rows.manifestations[m]))
            && Distinct(ManifestationClusters(ms))
            && (forall m :: m in ManifestationClusters(ms) ==> ms[m].isbn13 == ManifestationClusters(ms)[m])
  {
    var cl, w := ManifestationClusters(rows.manifestations), ItemCounts(rows);
    var ms := MergedManifestations(rows.manifestations, cl, w);
    forall m | m in rows.manifestations
      ensures var leader := Leader(cl, w, m);
              leader in ms && IsbnKey(ms[leader]) == IsbnKey(rows.manifestations[m])
    {
      if m in cl {
        LeadersDistinct(cl, w, m, m);
        Isbn.KeyFixed(rows.manifestations[m].isbn13);
      }
    }
    forall m | m in ManifestationClusters(ms)
      ensures m in cl && ms[m].isbn13 == cl[m] == ManifestationClusters(ms)[m]
    {
      if m in cl { Isbn.KeyFixed(rows.manifestations[m].isbn13); }
    }
    forall a, b | a in cl && b in cl && a in ms && b in ms && cl[a] == cl[b]
      ensures a == b
    {
      LeadersDistinct(cl, w, a, b);
    }
  }

  // ----- works after the merge -----

  /** No cluster's leader, itself without authors, would take over authors that change its key. */
  ghost predicate AuthorsAgree(works: map<int, Work>) {
    var cl := WorkClusters(works);
    forall c :: c in cl && Leads(cl, BY_AGE, c) && works[c].authors.None? ==>
      AuthorsKey(MergedAuthors(works, Group(cl, cl[c]))) == ""
  }

  /** A leader keeps its key if and only if it has authors or takes over none that count. */
  lemma LeaderKeyKept(works: map<int, Work>, cl: map<int, string>, c: int)
    requires c in works && c in cl && Leads(cl, BY_AGE, c)
    ensures WorkKey(MergedWork(works, cl, c)) == WorkKey(works[c])
        <==> works[c].authors.Some? || AuthorsKey(MergedAuthors(works, Group(cl, cl[c]))) == ""
  {
    var group := Group(cl, cl[c]);
    var title := Lower(Strip(works[c].title)) + "||";
    assert WorkKey(MergedWork(works, cl, c)) == title + AuthorsKey(MergedAuthors(works, group));
    assert WorkKey(works[c]) == title + AuthorsKey(works[c].authors);
    if works[c].authors.Some? {
      var authored := Authored(works, group);
      assert c in authored && IsBest(authored, BY_AGE, c);
      BestUnique(authored, BY_AGE, c);
    } else {
      assert AuthorsKey(works[c].authors) == "" && title + "" == title;
    }
  }

  /** Every work's key survives the merge, on its leader, if and only if the authors agree. */
  lemma WorkKeysKept(works: map<int, Work>)
    ensures AuthorsAgree(works) <==>
            forall w :: w in works ==>
              var leader := Leader(WorkClusters(works), BY_AGE, w);
              var merged := MergedWorks(works, WorkClusters(works));
              leader in merged && WorkKey(merged[leader]) == WorkKey(works[w])
  {
    var cl := WorkClusters(works);
    var merged := MergedWorks(works, cl);
    forall w | w in works
      ensures Leader(cl, BY_AGE, w) in merged
      ensures w !in cl ==> merged[Leader(cl, BY_AGE, w)] == works[w]
      ensures w in cl ==> var leader := Leader(cl, BY_AGE, w);
              Leads(cl, BY_AGE, leader) && leader in cl && WorkKey(works[leader]) == WorkKey(works[w])
    {
      if w in cl { LeadersDistinct(cl, BY_AGE, w, w); }
    }
    forall c | c in cl && Leads(cl, BY_AGE, c)
      ensures WorkKey(merged[c]) == WorkKey(works[c])
          <==> works[c].authors.Some? || AuthorsKey(MergedAuthors(works, Group(cl, cl[c]))) == ""
    {
      LeaderKeyKept(works, cl, c);
    }
  }

  lemma MergedWorkKeysDistinct(works: map<int, Work>)
    requires AuthorsAgree(works)
    ensures Distinct(WorkClusters(MergedWorks(works, WorkClusters(works))))
  {
    var cl := WorkClusters(works);
    var merged := MergedWorks(works, cl);
    WorkKeysKept(works);
    forall a, b | a in WorkClusters(merged) && b in WorkClusters(merged) && WorkKey(merged[a]) == WorkKey(merged[b])
      ensures a == b
    {
      assert Leader(cl, BY_AGE, a) == a && Leader(cl, BY_AGE, b) == b;
      assert WorkKey(works[a]) == WorkKey(works[b]);
      LeadersDistinct(cl, BY_AGE, a, b);
    }
  }

  // ----- ISBNs on works -----

  /** The last ISBN key of every work that holds anything is not just white space. */
  predicate LastIsbnsNonBlank(works: map<int, Work>) {
    forall w :: w in works && HasWorkIsbn(works[w]) ==> Misplaced(works[w]) != ""
  }

  lemma {:induction false} NoIsbnNothingMisplaced(meta: map<string, string>, n: nat)
    requires n <= |ISBN_KEYS| && forall i :: 0 <= i < n ==> !HoldsIsbn(meta, ISBN_KEYS[i])
    ensures LastIsbn(meta, n) == ""
  {
    if n > 0 { NoIsbnNothingMisplaced(meta, n - 1); }
  }

  /** Relocation leaves an ISBN on a work if and only if the last one there is blank. */
  lemma RelocationLeavesIsbnIff(w: Work)
    ensures HasWorkIsbn(RelocatedWork(w)) <==> HasWorkIsbn(w) && Misplaced(w) == ""
  {
    if Misplaced(w) != "" {
      forall i | 0 <= i < |ISBN_KEYS|
        ensures !HoldsIsbn(WithoutIsbns(w.meta, |ISBN_KEYS|), ISBN_KEYS[i])
      {
        assert ISBN_KEYS[i] in ISBN_KEYS[..|ISBN_KEYS|];
      }
    }
  }

  /** Merged metadata holds an ISBN only where some merged work did. */
  lemma MergedWorksHaveNoIsbn(works: map<int, Work>)
    requires forall w :: w in works ==> !HasWorkIsbn(works[w])
    ensures var merged := MergedWorks(works, WorkClusters(works));
            forall w :: w in merged ==> !HasWorkIsbn(merged[w]) && Misplaced(merged[w]) == ""
  {
    var cl := WorkClusters(works);
    var merged := MergedWorks(works, cl);
    forall w | w in merged
      ensures !HasWorkIsbn(merged[w]) && Misplaced(merged[w]) == ""
    {
      forall i | 0 <= i < |ISBN_KEYS|
        ensures !HoldsIsbn(merged[w].meta, ISBN_KEYS[i])
      {
        var key := ISBN_KEYS[i];
        if w in cl && key in merged[w].meta {
          var holders := Holders(WorkMetas(works), Group(cl, cl[w]), key);
          var d :| d in Group(cl, cl[w]) && d in WorkMetas(works) && key in WorkMetas(works)[d];
          assert d in holders;
          var best := Best(holders, BY_AGE);
          assert merged[w].meta[key] == works[best].meta[key];
          assert !HasWorkIsbn(works[best]) && !HoldsIsbn(works[best].meta, ISBN_KEYS[i]);
        } else {
          assert !HasWorkIsbn(works[w]);
        }
      }
      NoIsbnNothingMisplaced(merged[w].meta, |ISBN_KEYS|);
    }
  }

  // ----- every run -----

  lemma SameMergedAuthors(a: map<int, Work>, b: map<int, Work>, group: set<int>)
    requires a.Keys == b.Keys && forall w :: w in a ==> a[w].authors == b[w].authors
    ensures MergedAuthors(a, group) == MergedAuthors(b, group)
  {
    forall d | d in group
      ensures d in Authored(a, group) <==> d in Authored(b, group)
    {
      assert d in a.Keys <==> d in b.Keys;
    }
    assert Authored(a, group) == Authored(b, group);
    if Authored(a, group) != {} {
      assert Best(Authored(a, group), BY_AGE) in Authored(a, group);
    }
  }

  lemma SameKeysSameClusters(a: map<int, Work>, b: map<int, Work>)
    requires a.Keys == b.Keys
    requires forall w :: w in a ==> b[w].title == a[w].title && b[w].authors == a[w].authors
    ensures WorkClusters(b) == WorkClusters(a) && (AuthorsAgree(b) <==> AuthorsAgree(a))
  {
    forall w
      ensures w in WorkClusters(b) <==> w in WorkClusters(a)
      ensures w in WorkClusters(a) ==> WorkClusters(b)[w] == WorkClusters(a)[w]
    {
      assert w in a.Keys <==> w in b.Keys;
    }
    var cl := WorkClusters(a);
    assert WorkClusters(b) == cl;
    forall c | c in cl
      ensures MergedAuthors(b, Group(cl, cl[c])) == MergedAuthors(a, Group(cl, cl[c]))
    {
      SameMergedAuthors(a, b, Group(cl, cl[c]));
    }
  }

  /** Relocation changes no work's title or authors, so no cluster of works. */
  lemma SameWorkClusters(pre: Rows, mid: Rows)
    requires Relocating(pre, mid, pre.works.Keys)
    ensures WorkClusters(mid.works) == WorkClusters(pre.works)
    ensures AuthorsAgree(mid.works) <==> AuthorsAgree(pre.works)
  {
    forall w | w in pre.works
      ensures mid.works[w].title == pre.works[w].title && mid.works[w].authors == pre.works[w].authors
    {
    }
    SameKeysSameClusters(pre.works, mid.works);
  }

  /** A run leaves tidy tables whenever no ISBN on a work is blank and the authors agree. */
  lemma RunLeavesTidy(pre: Rows, mid: Rows, post: Rows, stats: Stats)
    requires Reconciles(pre, mid, post, stats)
    requires LastIsbnsNonBlank(pre.works) && AuthorsAgree(pre.works)
    ensures Tidy(post) && forall w :: w in post.works ==> !HasWorkIsbn(post.works[w])
  {
    SameWorkClusters(pre, mid);
    MergedIsbns(mid);
    forall w | w in mid.works
      ensures !HasWorkIsbn(mid.works[w])
    {
      RelocationLeavesIsbnIff(pre.works[w]);
    }
    MergedWorksHaveNoIsbn(mid.works);
    MergedWorkKeysDistinct(mid.works);
  }

  /** Idempotence: a second run changes no row and reports six zeros. */
  lemma SecondRunIdle(pre: Rows, mid: Rows, post: Rows, stats: Stats, mid': Rows, post': Rows, stats': Stats)
    requires Reconciles(pre, mid, post, stats) && Reconciles(post, mid', post', stats')
    requires LastIsbnsNonBlank(pre.works) && AuthorsAgree(pre.works)
    ensures post' == post && stats' == NO_STATS
  {
    RunLeavesTidy(pre, mid, post, stats);
    ZeroStatsIffTidy(post, mid', post', stats');
  }

  lemma ItemsKept(pre: Rows, mid: Rows, post: Rows, stats: Stats, i: int)
    requires Reconciles(pre, mid, post, stats) && i in pre.items && pre.items[i] in pre.manifestations
    ensures i in post.items && post.items[i] in post.manifestations
    ensures IsbnKey(post.manifestations[post.items[i]]) == IsbnKey(mid.manifestations[pre.items[i]])
  {
    MergedIsbns(mid);
    assert pre.items[i] in mid.manifestations;
  }

  lemma ExpressionsKept(pre: Rows, mid: Rows, post: Rows, stats: Stats, e: int)
    requires Reconciles(pre, mid, post, stats) && e in pre.expressions && pre.expressions[e] in pre.works
    ensures e in post.expressions && post.expressions[e] in post.works
    ensures AuthorsAgree(pre.works) ==>
        WorkKey(post.works[post.expressions[e]]) == WorkKey(pre.works[pre.expressions[e]])
  {
    SameWorkClusters(pre, mid);
    WorkKeysKept(mid.works);
    var cl, w := WorkClusters(mid.works), pre.expressions[e];
    if w in cl { LeadersDistinct(cl, BY_AGE, w, w); }
    assert mid.works[w].title == pre.works[w].title && mid.works[w].authors == pre.works[w].authors;
  }

  /** The merge phases lose no item and no expression; each keeps its manifestation's ISBN key, and
      its work's key when the authors agree. */
  lemma RunConserves(pre: Rows, mid: Rows, post: Rows, stats: Stats)
    requires Reconciles(pre, mid, post, stats)
    ensures post.items.Keys == pre.items.Keys && post.expressions.Keys == pre.expressions.Keys
    ensures forall i :: i in pre.items && pre.items[i] in pre.manifestations ==>
              && post.items[i] in post.manifestations
              && IsbnKey(post.manifestations[post.items[i]]) == IsbnKey(mid.manifestations[pre.items[i]])
    ensures forall e :: e in pre.expressions && pre.expressions[e] in pre.works ==>
              && post.expressions[e] in post.works
              && (AuthorsAgree(pre.works) ==>
                    WorkKey(post.works[post.expressions[e]]) == WorkKey(pre.works[pre.expressions[e]]))
  {
    forall i | i in pre.items && pre.items[i] in pre.manifestations
      ensures i in post.items && post.items[i] in post.manifestations
      ensures IsbnKey(post.manifestations[post.items[i]]) == IsbnKey(mid.manifestations[pre.items[i]])
    {
      ItemsKept(pre, mid, post, stats, i);
    }
    forall e | e in pre.expressions && pre.expressions[e] in pre.works
      ensures e in post.expressions && post.expressions[e] in post.works
      ensures AuthorsAgree(pre.works) ==>
          WorkKey(post.works[post.expressions[e]]) == WorkKey(pre.works[pre.expressions[e]])
    {
      ExpressionsKept(pre, mid, post, stats, e);
    }
  }

  ghost predicate NoOrphans(rows: Rows) {
    && (forall e :: e in rows.expressions ==> rows.expressions[e] in rows.works)
    && (forall m :: m in rows.manifestations ==> rows.manifestations[m].expression in rows.expressions)
    && (forall i :: i in rows.items ==> rows.items[i] in rows.manifestations)
  }

  lemma NoOrphansFound(rows: Rows)
    ensures NoOrphans(rows) <==> FindOrphans(rows) == Orphans({}, {}, {})
  {
    var found := FindOrphans(rows);
    if found == Orphans({}, {}, {}) {
      forall e | e in rows.expressions ensures rows.expressions[e] in rows.works { assert e !in found.expressions; }
      forall m | m in rows.manifestations ensures rows.manifestations[m].expression in rows.expressions {
        assert m !in found.manifestations;
      }
      forall i | i in rows.items ensures rows.items[i] in rows.manifestations { assert i !in found.items; }
    }
    if NoOrphans(rows) {
      assert forall x :: x !in found.expressions && x !in found.manifestations && x !in found.items;
    }
  }

  /** The auditor finds no orphans after a run that started without any. */
  lemma RunMakesNoOrphans(pre: Rows, mid: Rows, post: Rows, stats: Stats)
    requires Reconciles(pre, mid, post, stats) && FindOrphans(pre) == Orphans({}, {}, {})
    ensures FindOrphans(post) == Orphans({}, {}, {})
  {
    NoOrphansFound(pre);
    RunConserves(pre, mid, post, stats);
    forall m | m in post.manifestations
      ensures post.manifestations[m].expression in post.expressions
    {
      assert post.manifestations[m].expression == pre.manifestations[m].expression;
    }
    assert NoOrphans(post);
    NoOrphansFound(post);
  }

  lemma SameKeysSameSize<R>(a: map<int, R>, b: map<int, R>)
    requires a.Keys == b.Keys
    ensures |a| == |b|
  {
    assert |a| == |a.Keys| && |b| == |b.Keys|;
  }

  lemma DroppedRows<R>(before: map<int, R>, after: map<int, R>, cl: map<int, string>, w: map<int, nat>)
    requires cl.Keys <= before.Keys && after.Keys == set d | d in before && Leads(cl, w, d)
    ensures |Dropped(cl, w)| == |before| - |after|
  {
    assert before.Keys == after.Keys + Dropped(cl, w);
    assert after.Keys !! Dropped(cl, w);
    assert |before| == |before.Keys| && |after| == |after.Keys|;
  }

  /** The reconciled counters are exactly the rows that are gone. */
  lemma CountersMatchRows(pre: Rows, mid: Rows, post: Rows, stats: Stats)
    requires Reconciles(pre, mid, post, stats)
    ensures stats.reconciledManifestations == |pre.manifestations| - |post.manifestations|
    ensures stats.reconciledWorks == |pre.works| - |post.works|
  {
    var cl, w := ManifestationClusters(mid.manifestations), ItemCounts(mid);
    DroppedRows(mid.manifestations, post.manifestations, cl, w);
    DroppedRows(mid.works, post.works, WorkClusters(mid.works), BY_AGE);
    SameKeysSameSize(mid.manifestations, pre.manifestations);
    SameKeysSameSize(mid.works, pre.works);
  }

  // ----- the auditor's verdict -----

  lemma DistinctMeansNoDuplicate(cl: map<int, string>, key: string)
    requires Distinct(cl)
    ensures !IsDuplicate(cl, key)
  {
    var group := Group(cl, key);
    if group != {} {
      var d := Element(group);
      forall x | x in group
        ensures x == d
      {
      }
      assert group == {d};
    }
  }

  /** Every ISBN is in normal form, and no two manifestations have the same. */
  ghost predicate NormalIsbns(ms: map<int, Manifestation>) {
    var cl := ManifestationClusters(ms);
    Distinct(cl) && forall m :: m in cl ==> ms[m].isbn13 == cl[m]
  }

  /** Then the auditor, which groups by the cleaned text, finds no duplicates and no ISBN-10 to convert. */
  lemma AuditorAcceptsNormal(ms: map<int, Manifestation>, key: string, m: int)
    requires NormalIsbns(ms)
    ensures !IsDuplicate(CleanedIsbns(ms), key)
    ensures m in ms ==> ManifestationViolation(m, ms[m].isbn13) != Some(Isbn10Unnormalized(m))
  {
    var cl, cleaned := ManifestationClusters(ms), CleanedIsbns(ms);
    forall m | m in cleaned
      ensures m in cl && cleaned[m] == cl[m]
    {
      Isbn.NormalizeAgreesWithAuditor(ms[m].isbn13);
      Isbn.KeyFixed(ms[m].isbn13);
    }
    DistinctMeansNoDuplicate(cleaned, key);
    if m in ms {
      Isbn.NormalizeAgreesWithAuditor(ms[m].isbn13);
      if m in cleaned { Isbn.KeyFixed(ms[m].isbn13); }
    }
  }

  lemma HeldKeyIsIsbn(w: Work, key: string)
    ensures key in ISBN_KEYS && HoldsIsbn(w.meta, key) ==> HasWorkIsbn(w)
  {
    if key in ISBN_KEYS && HoldsIsbn(w.meta, key) {
      var i :| 0 <= i < |ISBN_KEYS| && ISBN_KEYS[i] == key;
      assert HoldsIsbn(w.meta, ISBN_KEYS[i]);
    }
  }

  /** After any run the auditor finds no duplicate manifestations and no valid ISBN-10 left unconverted. */
  lemma AuditorAcceptsManifestations(pre: Rows, mid: Rows, post: Rows, stats: Stats, key: string, v: Violation)
    requires Reconciles(pre, mid, post, stats)
    ensures !IsDuplicate(CleanedIsbns(post.manifestations), key)
    ensures Violates(post, v) ==> !v.Isbn10Unnormalized?
  {
    MergedIsbns(mid);
    assert NormalIsbns(post.manifestations);
    AuditorAcceptsNormal(post.manifestations, key, v.id);
  }

  /** After a run on sound works the auditor reports no duplicates, no unconverted ISBN-10 and no ISBN on a work. */
  lemma AuditorAcceptsRun(pre: Rows, mid: Rows, post: Rows, stats: Stats, key: string, v: Violation)
    requires Reconciles(pre, mid, post, stats)
    requires LastIsbnsNonBlank(pre.works) && AuthorsAgree(pre.works)
    ensures !IsDuplicate(WorkClusters(post.works), key) && !IsDuplicate(CleanedIsbns(post.manifestations), key)
    ensures Violates(post, v) ==> !v.Isbn10Unnormalized? && !v.WorkLevelIsbn?
  {
    RunLeavesTidy(pre, mid, post, stats);
    AuditorAcceptsManifestations(pre, mid, post, stats, key, v);
    DistinctMeansNoDuplicate(WorkClusters(post.works), key);
    forall w | w in post.works && v.WorkLevelIsbn?
      ensures !(v.key in ISBN_KEYS && HoldsIsbn(post.works[w].meta, v.key))
    {
      HeldKeyIsIsbn(post.works[w], v.key);
    }
  }

  // ----- when authors agree -----

  predicate HasPipe(s: string) {
    exists i :: 0 <= i < |s| && s[i] == '|'
  }

  predicate PipeFree(names: seq<string>) {
    forall i :: 0 <= i < |names| ==> !HasPipe(names[i])
  }

  predicate PipeFreeAuthors(works: map<int, Work>) {
    forall w :: w in works && works[w].authors.Some? ==> PipeFree(works[w].authors.value)
  }

  lemma PartsPipeFree(a: string, b: string)
    requires !HasPipe(a + b)
    ensures !HasPipe(a) && !HasPipe(b)
  {
    forall i | 0 <= i < |a| ensures a[i] != '|' { assert (a + b)[i] == a[i]; }
    forall i | 0 <= i < |b| ensures b[i] != '|' { assert (a + b)[|a| + i] == b[i]; }
  }

  lemma LowerPipeFree(s: string)
    requires !HasPipe(s)
    ensures !HasPipe(Lower(s))
  {
    forall i | 0 <= i < |s| ensures LowerChar(s[i]) != '|' {}
  }

  lemma StripKeepsPipeFree(s: string)
    requires !HasPipe(s)
    ensures !HasPipe(Lower(Strip(s)))
  {
    var left := LeftMargin(s);
    var right := RightMargin(StripLeft(s));
    PartsPipeFree(left, StripLeft(s));
    PartsPipeFree(Strip(s), right);
    LowerPipeFree(Strip(s));
  }

  lemma {:induction false} InsertKeeps(x: string, xs: seq<string>)
    requires x != "" && !HasPipe(x) && PipeFree(xs) && "" !in xs
    ensures PipeFree(InsertSorted(x, xs)) && "" !in InsertSorted(x, xs) && InsertSorted(x, xs) != []
  {
    if xs != [] && !AtMost(x, xs[0]) {
      InsertKeeps(x, xs[1..]);
    }
  }

  lemma {:induction false} SortedKeepsPipeFree(authors: seq<string>)
    requires PipeFree(authors)
    ensures PipeFree(SortedAuthors(authors)) && "" !in SortedAuthors(authors)
  {
    if authors != [] {
      SortedKeepsPipeFree(authors[1..]);
      StripKeepsPipeFree(authors[0]);
      var name := Lower(Strip(authors[0]));
      if name != "" { InsertKeeps(name, SortedAuthors(authors[1..])); }
    }
  }

  /** Joined names end like the last name: not with the separator. */
  lemma {:induction false} JoinedEnd(parts: seq<string>)
    requires parts != [] && "" !in parts && PipeFree(parts)
    ensures var joined := JoinWith(parts, "|"); joined != "" && joined[|joined| - 1] != '|'
  {
    if |parts| > 1 {
      JoinedEnd(parts[1..]);
      var rest := JoinWith(parts[1..], "|");
      assert JoinWith(parts, "|") == (parts[0] + "|") + rest;
    }
  }

  /** With pipe-free authors, a work key tells by its last character whether authors contributed. */
  lemma KeyEnd(w: Work)
    requires w.authors.Some? ==> PipeFree(w.authors.value)
    ensures WorkKey(w) != "" && (WorkKey(w)[|WorkKey(w)| - 1] == '|' <==> AuthorsKey(w.authors) == "")
  {
    if w.authors.Some? {
      SortedKeepsPipeFree(w.authors.value);
      if SortedAuthors(w.authors.value) != [] { JoinedEnd(SortedAuthors(w.authors.value)); }
    }
  }

  /** Where no author's name has a "|", works of one cluster agree on their authors. */
  lemma PipeFreeAgree(works: map<int, Work>)
    requires PipeFreeAuthors(works)
    ensures AuthorsAgree(works)
  {
    var cl := WorkClusters(works);
    forall c | c in cl && Leads(cl, BY_AGE, c) && works[c].authors.None?
      ensures AuthorsKey(MergedAuthors(works, Group(cl, cl[c]))) == ""
    {
      var authored := Authored(works, Group(cl, cl[c]));
      if authored != {} {
        var b := Best(authored, BY_AGE);
        assert b in authored && WorkKey(works[b]) == WorkKey(works[c]);
        KeyEnd(works[b]);
        KeyEnd(works[c]);
      }
    }
  }
}
