/** Works that one reconciliation does not settle: each breaks one of the two conditions. */
module EtlCounterexamples {
  import opened Support
  import opened Clusters
  import opened Catalogue
  import opened Relocation
  import opened EtlRun
  import opened EtlGuarantees
  import opened EtlIdempotence

  // ----- a name with the separator in it -----

  predicate PlainText(s: string) {
    Trimmed(s) && forall i :: 0 <= i < |s| ==> LowerChar(s[i]) == s[i]
  }

  lemma NormalText(s: string)
    requires PlainText(s)
    ensures Lower(Strip(s)) == s
  {
    StripFixed(s);
  }

  lemma OneAuthor(name: string)
    requires PlainText(name) && name != ""
    ensures AuthorsKey(Some([name])) == name
  {
    NormalText(name);
    assert [name][1..] == [];
    assert SortedAuthors([name]) == [name];
  }

  /** Two works of one cluster, the first without authors, and a third work that has the first one's
      title and the second one's authors. */
  ghost predicate Disagreeing(works: map<int, Work>, key: string, other: string) {
    && 1 in works && 2 in works && 3 in works && (forall w :: w in works ==> 1 <= w <= 3)
    && works[1].authors == None && works[2].authors.Some?
    && works[3].authors == works[2].authors && works[3].title == works[1].title
    && WorkKey(works[1]) == WorkKey(works[2]) == key && WorkKey(works[3]) == other && key != other
    && !OnlyPipes(key) && !OnlyPipes(other)
  }

  /** There are such works: "a|" without authors, "a" by "|", and "a|" by "|". */
  lemma DisagreeingExist(works: map<int, Work>, title: string, piped: string, name: string)
    requires title == "a" && piped == "a|" && name == "|"
    requires 1 in works && 2 in works && 3 in works && (forall w :: w in works ==> 1 <= w <= 3)
    requires works[1].title == piped && works[1].authors == None
    requires works[2].title == title && works[2].authors == Some([name])
    requires works[3].title == piped && works[3].authors == Some([name])
    ensures Disagreeing(works, WorkKey(works[1]), WorkKey(works[3]))
  {
    DisagreeingKeys(works[1], works[2], works[3], title, piped, name);
  }

  lemma DisagreeingKeys(plain: Work, single: Work, both: Work, title: string, piped: string, name: string)
    requires title == "a" && piped == "a|" && name == "|"
    requires plain.title == piped && plain.authors == None
    requires single.title == title && single.authors == Some([name])
    requires both.title == piped && both.authors == Some([name])
    ensures WorkKey(plain) == WorkKey(single) != WorkKey(both)
    ensures !OnlyPipes(WorkKey(plain)) && !OnlyPipes(WorkKey(both))
  {
    PipeTexts(title, piped, name);
    OneAuthor(name);
    PlainKey(plain, piped, "");
    PlainKey(single, title, name);
    PlainKey(both, piped, name);
  }

  lemma PipeTexts(title: string, piped: string, name: string)
    requires title == "a" && piped == "a|" && name == "|"
    ensures piped + "||" + "" == title + "||" + name == "a|||"
    ensures piped + "||" + name == "a||||"
    ensures "a||||" != "a|||" && !OnlyPipes("a|||") && !OnlyPipes("a||||")
    ensures PlainText(title) && PlainText(piped) && PlainText(name)
  {
    assert |"a|||"| == 4 && |"a||||"| == 5 && "a|||"[0] == 'a' && "a||||"[0] == 'a';
  }

  lemma PlainKey(w: Work, title: string, authors: string)
    requires w.title == title && PlainText(title)
    requires AuthorsKey(w.authors) == authors
    ensures WorkKey(w) == title + "||" + authors
  {
    NormalText(title);
  }

  lemma ClustersWithin(works: map<int, Work>, n: int)
    requires forall w :: w in works ==> 1 <= w <= n
    ensures forall w :: w in WorkClusters(works) ==> 1 <= w <= n
  {
  }

  lemma TwoClusters(cl: map<int, string>, key: string, other: string)
    requires 1 in cl && 2 in cl && 3 in cl && forall x :: x in cl ==> 1 <= x <= 3
    requires cl[1] == cl[2] == key && cl[3] == other && key != other
    ensures Group(cl, key) == {1, 2} && Group(cl, other) == {3}
    ensures Leads(cl, BY_AGE, 1) && Leads(cl, BY_AGE, 3)
  {
    var one, two := Group(cl, key), Group(cl, other);
    forall x
      ensures x in one <==> x == 1 || x == 2
      ensures x in two <==> x == 3
    {
    }
    assert one == {1, 2} && two == {3};
    BestUnique(one, BY_AGE, 1);
    BestUnique(two, BY_AGE, 3);
  }

  lemma OldestAuthors(works: map<int, Work>, group: set<int>, d: int)
    requires forall x :: x in group && x in works && works[x].authors.Some? <==> x == d
    ensures MergedAuthors(works, group) == works[d].authors
  {
    var authored := Authored(works, group);
    forall x ensures x in authored <==> x == d {}
    assert authored == {d};
  }

  lemma DisagreementAdopts(works: map<int, Work>, key: string, other: string)
    requires Disagreeing(works, key, other)
    ensures AdoptionCollides(works)
  {
    ClustersWithin(works, 3);
    TwoClusters(WorkClusters(works), key, other);
    OldestAuthors(works, {1, 2}, 2);
    OldestAuthors(works, {3}, 3);
    TakesAuthors(works[1], works[2], works[3]);
    assert ClusterOf(works, 1) == {1, 2} && ClusterOf(works, 3) == {3};
    assert Adopts(works, 1) && LeadsCluster(works, 3);
    assert LeaderKey(works, 1) == LeaderKey(works, 3);
  }

  /** Works of different keys but one title differ in authors that count. */
  lemma TakesAuthors(plain: Work, single: Work, both: Work)
    requires plain.authors == None && both.authors == single.authors && both.title == plain.title
    requires WorkKey(plain) != WorkKey(both)
    ensures AuthorsKey(single.authors) != ""
  {
  }

  /** Such works need a second run: merging the second into the first gives the first the third one's key. */
  lemma DisagreementBreaksIdempotence(pre: Rows, mid: Rows, post: Rows, stats: Stats,
                                      mid': Rows, post': Rows, stats': Stats, key: string, other: string)
    requires Disagreeing(pre.works, key, other)
    requires Reconciles(pre, mid, post, stats) && Reconciles(post, mid', post', stats')
    ensures stats' != NO_STATS
  {
    DisagreementAdopts(pre.works, key, other);
    SecondRunIdleIff(pre, mid, post, stats, mid', post', stats');
  }

  // ----- a blank ISBN -----

  /** The second work's last ISBN key is blank, so relocation leaves its first one alone; the first
      work has that last key too, but empty. */
  ghost predicate BlankIsbnWorks(works: map<int, Work>) {
    && 1 in works && 2 in works && (forall w :: w in works ==> 1 <= w <= 2)
    && !HasWorkIsbn(works[1]) && ISBN_KEYS[3] in works[1].meta && ISBN_KEYS[0] !in works[1].meta
    && HoldsIsbn(works[2].meta, ISBN_KEYS[3]) && Blank(works[2].meta[ISBN_KEYS[3]])
    && HoldsIsbn(works[2].meta, ISBN_KEYS[0]) && Trimmed(works[2].meta[ISBN_KEYS[0]])
    && ISBN_KEYS[1] !in works[2].meta && ISBN_KEYS[2] !in works[2].meta
    && WorkKey(works[1]) == WorkKey(works[2]) && !OnlyPipes(WorkKey(works[1]))
  }

  /** There are such works: with "isbn" and a blank "ISBN13" on the second one. */
  lemma BlankIsbnWorksExist(works: map<int, Work>, title: string, isbn: string, space: string)
    requires title == "a" && isbn == "0306406152" && space == " "
    requires 1 in works && 2 in works && forall w :: w in works ==> 1 <= w <= 2
    requires works[1] == Work(title, None, map[ISBN_KEYS[3] := ""])
    requires works[2] == Work(title, None, map[ISBN_KEYS[0] := isbn, ISBN_KEYS[3] := space])
    ensures BlankIsbnWorks(works)
  {
    forall i: nat, j: nat | i < j < |ISBN_KEYS| ensures ISBN_KEYS[i] != ISBN_KEYS[j] {
      IsbnKeysDistinct(i, j);
    }
    assert isbn[0] == '0' && isbn[|isbn| - 1] == '2';
    NormalText(title);
    assert WorkKey(works[1])[0] == 'a';
  }

  lemma BlankIsbnSurfaces(works: map<int, Work>)
    requires BlankIsbnWorks(works)
    ensures SurfacesLast(works, 1)
  {
    ClustersWithin(works, 2);
    var group := ClusterOf(works, 1);
    forall x ensures x in group <==> x == 1 || x == 2 {}
    assert Misplaced(works[2]) == "" by { BlankStrips(works[2].meta[ISBN_KEYS[3]]); }
    StripFixed(works[2].meta[ISBN_KEYS[0]]);
    assert SurfacesIn(works, group, ISBN_KEYS[0], 2);
    forall j | 0 < j < |ISBN_KEYS| ensures !Surfaces(works, 1, ISBN_KEYS[j]) {
      OthersStay(works, group, j);
    }
  }

  /** The empty "ISBN13" of the first work hides the blank one of the second. */
  lemma OthersStay(works: map<int, Work>, group: set<int>, j: nat)
    requires BlankIsbnWorks(works) && 0 < j < |ISBN_KEYS| && forall x :: x in group <==> x == 1 || x == 2
    ensures forall d :: !SurfacesIn(works, group, ISBN_KEYS[j], d)
  {
    assert !HoldsIsbn(works[1].meta, ISBN_KEYS[j]);
    assert j == 3 ==> Keeps(works[1], ISBN_KEYS[3]);
  }

  /** They need a second run: merging brings up the "isbn" that relocation had left alone. */
  lemma BlankIsbnBreaksIdempotence(pre: Rows, mid: Rows, post: Rows, stats: Stats, mid': Rows, post': Rows,
                                   stats': Stats)
    requires BlankIsbnWorks(pre.works)
    requires Reconciles(pre, mid, post, stats) && Reconciles(post, mid', post', stats')
    ensures stats' != NO_STATS
  {
    BlankIsbnSurfaces(pre.works);
    SecondRunIdleIff(pre, mid, post, stats, mid', post', stats');
  }
}
