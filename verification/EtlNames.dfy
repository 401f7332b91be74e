/** Which works the reconciliation takes for one: equal titles and, in any order, equal authors. */
module EtlNames {
  import opened Support
  import opened Clusters
  import opened Catalogue
  import opened Relocation
  import opened EtlRun
  import opened Auditor
  import opened EtlGuarantees
  import opened EtlIdempotence

  // ----- names without order -----

  function TitleOf(w: Work): string {
    Lower(Strip(w.title))
  }

  /** The stripped, lower-cased, non-blank names, with how often each occurs. */
  function Bag(authors: seq<string>): multiset<string> {
    if authors == [] then multiset{}
    else
      var name := Lower(Strip(authors[0]));
      Bag(authors[1..]) + if name == "" then multiset{} else multiset{name}
  }

  function NamesOf(w: Work): multiset<string> {
    if w.authors.Some? then Bag(w.authors.value) else multiset{}
  }

  predicate SameTitleAndNames(a: Work, b: Work) {
    TitleOf(a) == TitleOf(b) && NamesOf(a) == NamesOf(b)
  }

  // ----- sorting forgets the order -----

  lemma {:induction false} AtMostTotal(a: string, b: string)
    ensures AtMost(a, b) || AtMost(b, a)
    ensures AtMost(a, b) && AtMost(b, a) ==> a == b
    decreases |a|
  {
    if a != "" && b != "" && a[0] == b[0] {
      AtMostTotal(a[1..], b[1..]);
      assert a == [a[0]] + a[1..] && b == [b[0]] + b[1..];
    }
  }

  lemma {:induction false} AtMostTransitive(a: string, b: string, c: string)
    requires AtMost(a, b) && AtMost(b, c)
    ensures AtMost(a, c)
    decreases |a|
  {
    if a != "" && a[0] == b[0] == c[0] {
      AtMostTransitive(a[1..], b[1..], c[1..]);
    }
  }

  predicate Ascending(xs: seq<string>) {
    forall i :: 0 <= i < |xs| - 1 ==> AtMost(xs[i], xs[i + 1])
  }

  lemma HeadAndTail(xs: seq<string>)
    requires xs != []
    ensures multiset(xs) == multiset{xs[0]} + multiset(xs[1..])
    ensures Ascending(xs) ==> Ascending(xs[1..])
  {
    assert xs == [xs[0]] + xs[1..];
    if Ascending(xs) {
      forall i | 0 <= i < |xs[1..]| - 1 ensures AtMost(xs[1..][i], xs[1..][i + 1]) {
        assert AtMost(xs[i + 1], xs[(i + 1) + 1]);
      }
    }
  }

  lemma {:induction false} InsertedBag(x: string, xs: seq<string>)
    ensures multiset(InsertSorted(x, xs)) == multiset(xs) + multiset{x}
  {
    if xs != [] && !AtMost(x, xs[0]) {
      InsertedBag(x, xs[1..]);
      HeadAndTail(xs);
    }
  }

  lemma {:induction false} InsertedInOrder(x: string, xs: seq<string>)
    requires Ascending(xs)
    ensures Ascending(InsertSorted(x, xs)) && InsertSorted(x, xs) != []
    ensures InsertSorted(x, xs)[0] == x || (xs != [] && InsertSorted(x, xs)[0] == xs[0])
  {
    if xs != [] && !AtMost(x, xs[0]) {
      AtMostTotal(x, xs[0]);
      HeadAndTail(xs);
      InsertedInOrder(x, xs[1..]);
      var rest := InsertSorted(x, xs[1..]);
      AscendingCons(xs[0], rest);
    } else if xs != [] {
      AscendingCons(x, xs);
    }
  }

  lemma AscendingCons(x: string, xs: seq<string>)
    requires Ascending(xs) && (xs != [] ==> AtMost(x, xs[0]))
    ensures Ascending([x] + xs)
  {
    forall i | 0 <= i < |xs| ensures AtMost(([x] + xs)[i], ([x] + xs)[i + 1]) {
      if i > 0 { assert AtMost(xs[i - 1], xs[i]); }
    }
  }

  lemma {:induction false} SortedAuthorsAscend(authors: seq<string>)
    ensures Ascending(SortedAuthors(authors)) && multiset(SortedAuthors(authors)) == Bag(authors)
  {
    if authors != [] {
      SortedAuthorsAscend(authors[1..]);
      InsertedInOrder(Lower(Strip(authors[0])), SortedAuthors(authors[1..]));
      InsertedBag(Lower(Strip(authors[0])), SortedAuthors(authors[1..]));
    }
  }

  lemma {:induction false} FirstIsLeast(xs: seq<string>, y: string)
    requires Ascending(xs) && y in xs
    ensures AtMost(xs[0], y)
  {
    if y == xs[0] {
      AtMostTotal(y, y);
    } else {
      assert xs == [xs[0]] + xs[1..];
      HeadAndTail(xs);
      FirstIsLeast(xs[1..], y);
      AtMostTransitive(xs[0], xs[1], y);
    }
  }

  lemma SameFirst(xs: seq<string>, ys: seq<string>)
    requires xs != [] && ys != [] && Ascending(xs) && Ascending(ys) && multiset(xs) == multiset(ys)
    ensures xs[0] == ys[0]
  {
    assert xs[0] in multiset(ys) && ys[0] in multiset(xs);
    FirstIsLeast(xs, ys[0]);
    FirstIsLeast(ys, xs[0]);
    AtMostTotal(xs[0], ys[0]);
  }

  /** An ascending list is determined by what it holds. */
  lemma {:induction false} AscendingUnique(xs: seq<string>, ys: seq<string>)
    requires Ascending(xs) && Ascending(ys) && multiset(xs) == multiset(ys)
    ensures xs == ys
    decreases |xs|
  {
    if xs == [] {
      assert |multiset(ys)| == 0;
    } else {
      assert xs[0] in multiset(ys);
      SameFirst(xs, ys);
      HeadAndTail(xs);
      HeadAndTail(ys);
      SameRest(multiset(xs[1..]), multiset(ys[1..]), xs[0]);
      AscendingUnique(xs[1..], ys[1..]);
      assert xs == [xs[0]] + xs[1..] && ys == [ys[0]] + ys[1..];
    }
  }

  lemma SameRest(m: multiset<string>, n: multiset<string>, x: string)
    requires multiset{x} + m == multiset{x} + n
    ensures m == n
  {
    assert m == (multiset{x} + m) - multiset{x};
    assert n == (multiset{x} + n) - multiset{x};
  }

  lemma EqualBagsSortAlike(a: seq<string>, b: seq<string>)
    ensures SortedAuthors(a) == SortedAuthors(b) <==> Bag(a) == Bag(b)
  {
    SortedAuthorsAscend(a);
    SortedAuthorsAscend(b);
    if Bag(a) == Bag(b) {
      AscendingUnique(SortedAuthors(a), SortedAuthors(b));
    }
  }

  function NameList(w: Work): seq<string> {
    if w.authors.Some? then SortedAuthors(w.authors.value) else []
  }

  lemma NameListIff(a: Work, b: Work)
    ensures NameList(a) == NameList(b) <==> NamesOf(a) == NamesOf(b)
    ensures AuthorsKey(a.authors) == JoinWith(NameList(a), "|")
  {
    assert SortedAuthors([]) == [] && Bag([]) == multiset{};
    EqualBagsSortAlike(if a.authors.Some? then a.authors.value else [],
                       if b.authors.Some? then b.authors.value else []);
  }

  /** The same letter of ASCII, once small and once capital. */
  predicate OtherCase(c: char, d: char) {
    ('a' <= c <= 'z' && d == c - 'a' + 'A') || ('a' <= d <= 'z' && c == d - 'a' + 'A')
  }

  /** Lower-casing forgets the case of letters and nothing else. */
  lemma LowerForgetsCase(a: string, b: string)
    ensures Lower(a) == Lower(b) <==>
            |a| == |b| && forall i :: 0 <= i < |a| ==> a[i] == b[i] || OtherCase(a[i], b[i])
  {
    if Lower(a) == Lower(b) {
      forall i | 0 <= i < |a| ensures a[i] == b[i] || OtherCase(a[i], b[i]) {
        assert LowerChar(a[i]) == Lower(a)[i] == LowerChar(b[i]);
      }
    }
    if |a| == |b| && forall i :: 0 <= i < |a| ==> a[i] == b[i] || OtherCase(a[i], b[i]) {
      forall i | 0 <= i < |a| ensures LowerChar(a[i]) == LowerChar(b[i]) {}
    }
  }

  /** Neither the order, case and margins of the authors nor case and margins of the title matter. */
  lemma SameNamesSameKey(a: Work, b: Work)
    requires SameTitleAndNames(a, b)
    ensures WorkKey(a) == WorkKey(b)
  {
    NameListIff(a, b);
    NameListIff(b, a);
  }

  // ----- and nothing else is forgotten -----

  lemma NotBefore(a: string, r: string, b: string, s: string)
    requires !HasPipe(b) && a + ("|" + r) == b + ("|" + s)
    ensures |a| >= |b|
  {
    var x := b + ("|" + s);
    assert (a + ("|" + r))[|a|] == '|';
    forall i | 0 <= i < |b| ensures x[i] != '|' { assert x[i] == b[i]; }
  }

  lemma CutAtPipe(a: string, r: string, b: string, s: string)
    requires !HasPipe(a) && !HasPipe(b) && a + ("|" + r) == b + ("|" + s)
    ensures a == b && r == s
  {
    var x := a + ("|" + r);
    NotBefore(a, r, b, s);
    NotBefore(b, s, a, r);
    assert a == x[..|a|] && b == x[..|b|] && "|" + r == x[|a|..] && "|" + s == x[|b|..];
    assert r == ("|" + r)[1..] && s == ("|" + s)[1..];
  }

  lemma JoinMore(parts: seq<string>)
    requires |parts| > 1
    ensures JoinWith(parts, "|") == parts[0] + ("|" + JoinWith(parts[1..], "|"))
  {
    Associate(parts[0], "|", JoinWith(parts[1..], "|"));
  }

  lemma JoinHasPipeIff(parts: seq<string>)
    requires PipeFree(parts)
    ensures HasPipe(JoinWith(parts, "|")) <==> |parts| > 1
  {
    if |parts| > 1 {
      JoinMore(parts);
      assert JoinWith(parts, "|")[|parts[0]|] == '|';
    }
  }

  /** Joined names can be told apart again. */
  lemma {:induction false} JoinInjective(p: seq<string>, q: seq<string>)
    requires PipeFree(p) && PipeFree(q) && "" !in p && "" !in q && JoinWith(p, "|") == JoinWith(q, "|")
    ensures p == q
    decreases |p|
  {
    JoinHasPipeIff(p);
    JoinHasPipeIff(q);
    if |p| > 1 {
      JoinMore(p);
      JoinMore(q);
      CutAtPipe(p[0], JoinWith(p[1..], "|"), q[0], JoinWith(q[1..], "|"));
      JoinInjective(p[1..], q[1..]);
      assert p == [p[0]] + p[1..] && q == [q[0]] + q[1..];
    } else {
      assert |p| == 1 ==> p[0] != "";
      assert |q| == 1 ==> q[0] != "";
    }
  }

  predicate Plain(w: Work) {
    !HasPipe(w.title) && (w.authors.Some? ==> PipeFree(w.authors.value))
  }

  lemma KeyParts(w: Work)
    ensures WorkKey(w) == TitleOf(w) + ("|" + ("|" + AuthorsKey(w.authors)))
  {
    assert "||" == "|" + "|";
    Associate(TitleOf(w), "||", AuthorsKey(w.authors));
    Associate("|", "|", AuthorsKey(w.authors));
  }

  /** Without the separator in titles and names, keys are equal exactly for equal titles and equal names. */
  lemma PlainKeysIff(a: Work, b: Work)
    requires Plain(a) && Plain(b)
    ensures WorkKey(a) == WorkKey(b) <==> SameTitleAndNames(a, b)
  {
    if SameTitleAndNames(a, b) {
      SameNamesSameKey(a, b);
    } else if WorkKey(a) == WorkKey(b) {
      StripKeepsPipeFree(a.title);
      StripKeepsPipeFree(b.title);
      KeyParts(a);
      KeyParts(b);
      CutAtPipe(TitleOf(a), "|" + AuthorsKey(a.authors), TitleOf(b), "|" + AuthorsKey(b.authors));
      PlainNames(a);
      PlainNames(b);
      NameListIff(a, b);
      NameListIff(b, a);
      CutAtPipe("", AuthorsKey(a.authors), "", AuthorsKey(b.authors));
      JoinInjective(NameList(a), NameList(b));
    }
  }

  lemma PlainNames(w: Work)
    requires Plain(w)
    ensures PipeFree(NameList(w)) && "" !in NameList(w)
  {
    if w.authors.Some? { SortedKeepsPipeFree(w.authors.value); }
  }

  // ----- what a run and the audit make of them -----

  lemma OneLeaderIff(works: map<int, Work>, a: int, b: int)
    requires a in works && b in works
    ensures var cl := WorkClusters(works);
            Leader(cl, BY_AGE, a) == Leader(cl, BY_AGE, b) <==>
            a == b || (WorkKey(works[a]) == WorkKey(works[b]) && !OnlyPipes(WorkKey(works[a])))
  {
    var cl := WorkClusters(works);
    if a in cl && b in cl && cl[a] == cl[b] {
      LeadersDistinct(cl, BY_AGE, a, b);
    }
  }

  /** After any run, expressions of works with the same title and names, in whatever order, share one work. */
  lemma SameWorksMerged(pre: Rows, mid: Rows, post: Rows, stats: Stats, e: int, e': int)
    requires Reconciles(pre, mid, post, stats) && e in pre.expressions && e' in pre.expressions
    requires pre.expressions[e] in pre.works && pre.expressions[e'] in pre.works
    requires SameTitleAndNames(pre.works[pre.expressions[e]], pre.works[pre.expressions[e']])
    requires !OnlyPipes(WorkKey(pre.works[pre.expressions[e]]))
    ensures post.expressions[e] == post.expressions[e']
  {
    SameNamesSameKey(pre.works[pre.expressions[e]], pre.works[pre.expressions[e']]);
    SameWorkClusters(pre, mid);
    OneLeaderIff(pre.works, pre.expressions[e], pre.expressions[e']);
  }

  /** And where titles and names do not hold the separator, no other works are taken for one. */
  lemma OnlySameWorksMerged(pre: Rows, mid: Rows, post: Rows, stats: Stats, e: int, e': int)
    requires Reconciles(pre, mid, post, stats) && e in pre.expressions && e' in pre.expressions
    requires pre.expressions[e] in pre.works && pre.expressions[e'] in pre.works
    requires Plain(pre.works[pre.expressions[e]]) && Plain(pre.works[pre.expressions[e']])
    ensures post.expressions[e] == post.expressions[e'] ==>
              pre.expressions[e] == pre.expressions[e'] ||
              SameTitleAndNames(pre.works[pre.expressions[e]], pre.works[pre.expressions[e']])
  {
    PlainKeysIff(pre.works[pre.expressions[e]], pre.works[pre.expressions[e']]);
    SameWorkClusters(pre, mid);
    OneLeaderIff(pre.works, pre.expressions[e], pre.expressions[e']);
  }

  /** The auditor lists two works with the same title and names as duplicates. */
  lemma AuditorSeesSameWorks(works: map<int, Work>, a: int, b: int)
    requires a in works && b in works && a != b && SameTitleAndNames(works[a], works[b])
    requires !OnlyPipes(WorkKey(works[a]))
    ensures IsDuplicate(WorkClusters(works), WorkKey(works[a]))
  {
    SameNamesSameKey(works[a], works[b]);
    DuplicateMeansNotDistinct(WorkClusters(works), a, b);
  }
}
