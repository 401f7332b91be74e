/** Where a misplaced work-level ISBN goes: what the first phase of the reconciliation may do. */
module Relocation {
  import opened Support
  import opened Catalogue
  import Isbn

  const ISBN_KEYS: seq<string> := ["isbn", "isbn13", "ISBN", "ISBN13"]

  predicate HoldsIsbn(meta: map<string, string>, key: string) {
    key in meta && meta[key] != ""
  }

  /** The stripped value of the last of the first `n` ISBN keys that holds anything. */
  function LastIsbn(meta: map<string, string>, n: nat): string
    requires n <= |ISBN_KEYS|
  {
    if n == 0 then ""
    else if HoldsIsbn(meta, ISBN_KEYS[n - 1]) then Strip(meta[ISBN_KEYS[n - 1]])
    else LastIsbn(meta, n - 1)
  }

  function Misplaced(w: Work): string {
    LastIsbn(w.meta, |ISBN_KEYS|)
  }

  /** The metadata without the first `n` ISBN keys, where they hold anything. */
  function WithoutIsbns(meta: map<string, string>, n: nat): map<string, string>
    requires n <= |ISBN_KEYS|
  {
    map k | k in meta && (k in ISBN_KEYS[..n] ==> meta[k] == "") :: meta[k]
  }

  function RelocatedWork(w: Work): Work {
    if Misplaced(w) != "" then w.(meta := WithoutIsbns(w.meta, |ISBN_KEYS|)) else w
  }

  predicate HasWorkIsbn(w: Work) {
    exists i :: 0 <= i < |ISBN_KEYS| && HoldsIsbn(w.meta, ISBN_KEYS[i])
  }

  function ManifestationsOf(rows: Rows, work: int): set<int> {
    set m | m in rows.manifestations
            && rows.manifestations[m].expression in rows.expressions
            && rows.expressions[rows.manifestations[m].expression] == work
  }

  function WorksWithIsbn(works: map<int, Work>): set<int> {
    set w | w in works && Misplaced(works[w]) != ""
  }

  /** Finishing one pending work counts it when it had an ISBN. */
  lemma CountOneWork(works: map<int, Work>, pending: set<int>, w: int)
    requires w in pending && pending <= works.Keys
    ensures |WorksWithIsbn(works) - (pending - {w})|
         == |WorksWithIsbn(works) - pending| + if Misplaced(works[w]) != "" then 1 else 0
    ensures works.Keys - (pending - {w}) == (works.Keys - pending) + {w}
    ensures WorksWithIsbn(works) - works.Keys == {} && WorksWithIsbn(works) - {} == WorksWithIsbn(works)
  {
    var before := WorksWithIsbn(works) - pending;
    assert WorksWithIsbn(works) - (pending - {w}) == if Misplaced(works[w]) != "" then before + {w} else before;
  }

  /** Manifestation `m` got the ISBN misplaced on its own work, and is the only one that has it. */
  ghost predicate Received(pre: Rows, ms: map<int, Manifestation>, m: int)
    requires m in pre.manifestations && m in ms
  {
    && pre.manifestations[m].isbn13 == ""
    && ms[m] == pre.manifestations[m].(isbn13 := ms[m].isbn13)
    && (exists w :: w in pre.works && m in ManifestationsOf(pre, w)
                    && Isbn.Normalize(Misplaced(pre.works[w])) == Some(ms[m].isbn13))
    && (forall m' :: m' in ms && ms[m'].isbn13 == ms[m].isbn13 ==> m' == m)
  }

  /** Work `w`'s misplaced ISBN is worthless, or on record, or finds no manifestation without one. */
  ghost predicate Placed(pre: Rows, ms: map<int, Manifestation>, w: int)
    requires w in pre.works
  {
    var n := Isbn.Normalize(Misplaced(pre.works[w]));
    || n.None?
    || (exists m :: m in ms && ms[m].isbn13 == n.value)
    || (forall m :: m in ManifestationsOf(pre, w) && m in ms ==> ms[m].isbn13 != "")
  }

  /** The works in `done` have been relieved of their ISBNs, nothing else but a blank ISBN changed. */
  ghost predicate Relocating(pre: Rows, post: Rows, done: set<int>) {
    && post.works == (map w | w in pre.works :: if w in done then RelocatedWork(pre.works[w]) else pre.works[w])
    && post.expressions == pre.expressions
    && post.items == pre.items
    && post.manifestations.Keys == pre.manifestations.Keys
    && (forall m :: m in pre.manifestations ==>
          post.manifestations[m] == pre.manifestations[m] || Received(pre, post.manifestations, m))
    && (forall w :: w in done && w in pre.works ==> Placed(pre, post.manifestations, w))
  }

  lemma IsbnKeysDistinct(i: nat, j: nat)
    requires i < j < |ISBN_KEYS|
    ensures ISBN_KEYS[i] != ISBN_KEYS[j]
  {
    assert |ISBN_KEYS[0]| == |ISBN_KEYS[2]| == 4 && |ISBN_KEYS[1]| == |ISBN_KEYS[3]| == 6;
    assert ISBN_KEYS[0][0] == ISBN_KEYS[1][0] == 'i' && ISBN_KEYS[2][0] == ISBN_KEYS[3][0] == 'I';
  }

  /** Deleting one more key. */
  lemma TakeOne(meta: map<string, string>, i: nat)
    requires i < |ISBN_KEYS|
    ensures var rest, key := WithoutIsbns(meta, i), ISBN_KEYS[i];
            && HoldsIsbn(rest, key) == HoldsIsbn(meta, key)
            && (HoldsIsbn(rest, key) ==> rest[key] == meta[key])
            && WithoutIsbns(meta, i + 1) == if HoldsIsbn(rest, key) then rest - {key} else rest
  {
    var rest, key := WithoutIsbns(meta, i), ISBN_KEYS[i];
    if key in ISBN_KEYS[..i] {
      var j :| 0 <= j < i && ISBN_KEYS[j] == key;
      IsbnKeysDistinct(j, i);
    }
    forall k
      ensures k in ISBN_KEYS[..i + 1] <==> k in ISBN_KEYS[..i] || k == key
    {
      assert ISBN_KEYS[..i + 1] == ISBN_KEYS[..i] + [key];
    }
  }

  /** Relocation never moves a manifestation to another work. */
  lemma SameTree(pre: Rows, post: Rows, done: set<int>, w: int)
    requires Relocating(pre, post, done)
    ensures ManifestationsOf(post, w) == ManifestationsOf(pre, w)
  {
    forall m | m in pre.manifestations
      ensures post.manifestations[m].expression == pre.manifestations[m].expression
    {
    }
  }

  lemma NothingRelocated(rows: Rows)
    ensures Relocating(rows, rows, {})
  {
  }

  /** With its ISBN placed, the work itself is relieved. */
  lemma RelieveKeepsRelocating(pre: Rows, post: Rows, done: set<int>, w: int)
    requires Relocating(pre, post, done) && w in pre.works && w !in done && Placed(pre, post.manifestations, w)
    ensures post.works[w] == pre.works[w]
    ensures Relocating(pre, post.(works := post.works[w := RelocatedWork(pre.works[w])]), done + {w})
  {
  }

  /** A work without misplaced ISBN has nothing to normalise. */
  lemma NothingToPlace(pre: Rows, ms: map<int, Manifestation>, w: int)
    requires w in pre.works && Misplaced(pre.works[w]) == ""
    ensures Placed(pre, ms, w) && RelocatedWork(pre.works[w]) == pre.works[w]
  {
    assert Isbn.Clean("") == "";
  }

  /** Assigning a new ISBN keeps what was placed placed. */
  lemma AssignKeepsRelocating(pre: Rows, post: Rows, done: set<int>, m: int, w: int)
    requires Relocating(pre, post, done) && w in pre.works && m in ManifestationsOf(pre, w)
    requires post.manifestations[m].isbn13 == ""
    requires Isbn.Normalize(Misplaced(pre.works[w])).Some?
    requires forall m' :: m' in post.manifestations ==>
               post.manifestations[m'].isbn13 != Isbn.Normalize(Misplaced(pre.works[w])).value
    ensures var n := Isbn.Normalize(Misplaced(pre.works[w])).value;
            var ms := post.manifestations[m := post.manifestations[m].(isbn13 := n)];
            Relocating(pre, post.(manifestations := ms), done) && Placed(pre, ms, w)
  {
    var n := Isbn.Normalize(Misplaced(pre.works[w])).value;
    Isbn.NormalizeAgreesWithAuditor(Misplaced(pre.works[w]));
    var ms := post.manifestations[m := post.manifestations[m].(isbn13 := n)];
    assert ms[m].isbn13 == n;
    forall m' | m' in pre.manifestations
      ensures ms[m'] == pre.manifestations[m'] || Received(pre, ms, m')
    {
      if m' != m && post.manifestations[m'] != pre.manifestations[m'] {
        assert Received(pre, post.manifestations, m');
      }
    }
    forall w' | w' in done && w' in pre.works
      ensures Placed(pre, ms, w')
    {
      var n' := Isbn.Normalize(Misplaced(pre.works[w']));
      if x :| x in post.manifestations && n'.Some? && post.manifestations[x].isbn13 == n'.value {
        Isbn.NormalizeAgreesWithAuditor(Misplaced(pre.works[w']));
        assert ms[x].isbn13 == n'.value;
      }
    }
  }
}
