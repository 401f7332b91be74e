/** What each request does to the ancestor chains, and when a parent is accepted in a forest. */
module CollectionChains {
  import opened Support
  import opened Ancestry
  import opened CollectionForest

  /** A rename stores the name and leaves every chain of every row as it was. */
  lemma RenameKeepsChains(t: Table, owner: int, id: int, name: string, seen: set<int>, a: int, n: nat)
    ensures var t' := After(t, Update(owner, id, Some(name), None));
            && Up(t', seen, a, n) == Up(t, seen, a, n)
            && (id in OwnedBy(t, owner) ==> id in t' && t'[id].name == name)
  {
    SameParentsSameChain(t, After(t, Update(owner, id, Some(name), None)), seen, a, n);
  }

  lemma {:induction false} UntouchedChain(t: Table, t': Table, seen: set<int>, id: int, a: int, n: nat)
    requires t'.Keys == t.Keys && forall x :: x in t && x != id ==> t'[x] == t[x]
    requires forall j: nat :: j < n ==> Up(t, seen, a, j) != Some(id)
    ensures Up(t', seen, a, n) == Up(t, seen, a, n)
    decreases n
  {
    assert a in t' <==> a in t.Keys;
    assert a in seen && a in t ==> Up(t, seen, a, 0) == Some(a);
    if n > 0 && a in seen && a in t && t[a].parent.Some? {
      forall j: nat | j < n - 1 ensures Up(t, seen, t[a].parent.value, j) != Some(id) {
        assert Up(t, seen, a, j + 1) == Up(t, seen, t[a].parent.value, j);
      }
      UntouchedChain(t, t', seen, id, t[a].parent.value, n - 1);
    }
  }

  /** After a move the collection's ancestors are the new parent and that one's old ancestors; a row
      that the collection is not above keeps its chain. */
  lemma MoveChains(t: Table, owner: int, id: int, newName: Option<string>, p: int, a: int, n: nat)
    requires Accepted(t, Update(owner, id, newName, Some(p)))
    ensures var t', owned := After(t, Update(owner, id, newName, Some(p))), OwnedBy(t, owner);
            && Up(t', owned, id, n + 1) == Up(t, owned, p, n)
            && (!Reaches(t, owned, a, id) ==> Up(t', owned, a, n) == Up(t, owned, a, n))
  {
    var t', owned := After(t, Update(owner, id, newName, Some(p))), OwnedBy(t, owner);
    UntouchedChain(t, t', owned, id, p, n);
    if !Reaches(t, owned, a, id) { UntouchedChain(t, t', owned, id, a, n); }
  }

  lemma WayStays(t: Table, t': Table, seen: set<int>, id: int, a: int, k: nat)
    requires t'.Keys == t.Keys && forall x :: x in t && x != id ==> t'[x] == t[x]
    requires forall j: nat :: j < k ==> Up(t, seen, a, j) != Some(id)
    ensures forall j: nat :: j <= k ==> Up(t', seen, a, j) == Up(t, seen, a, j)
  {
    forall j: nat | j <= k ensures Up(t', seen, a, j) == Up(t, seen, a, j) {
      UntouchedChain(t, t', seen, id, a, j);
    }
  }

  /** Whatever hung under a moved collection moves along: the way up to it stays, and then the new
      parent's chain follows. */
  lemma DescendantsMoveAlong(t: Table, owner: int, id: int, newName: Option<string>, p: int, a: int, k: nat, n: nat)
    requires Accepted(t, Update(owner, id, newName, Some(p)))
    requires Up(t, OwnedBy(t, owner), a, k) == Some(id)
    requires forall j: nat :: j < k ==> Up(t, OwnedBy(t, owner), a, j) != Some(id)
    ensures var t', owned := After(t, Update(owner, id, newName, Some(p))), OwnedBy(t, owner);
            && (forall j: nat :: j <= k ==> Up(t', owned, a, j) == Up(t, owned, a, j))
            && Up(t', owned, a, k + (n + 1)) == Up(t, owned, p, n)
  {
    var t', owned := After(t, Update(owner, id, newName, Some(p))), OwnedBy(t, owner);
    WayStays(t, t', owned, id, a, k);
    MovedBelow(t, t', owned, id, p, a, k, n);
  }

  lemma MovedBelow(t: Table, t': Table, seen: set<int>, id: int, p: int, a: int, k: nat, n: nat)
    requires t'.Keys == t.Keys && (forall x :: x in t && x != id ==> t'[x] == t[x])
    requires id in seen && id in t && t'[id].parent == Some(p) && !Reaches(t, seen, p, id)
    requires Up(t', seen, a, k) == Some(id)
    ensures Up(t', seen, a, k + (n + 1)) == Up(t, seen, p, n)
  {
    UpThenUp(t', seen, a, k, id, n + 1);
    UntouchedChain(t, t', seen, id, p, n);
  }

  /** A new collection goes on top of its parent's chain, and no other chain changes. */
  lemma CreateChains(t: Table, owner: int, id: int, name: string, parent: Option<int>, a: int, n: nat)
    requires OwnerConsistent(t) && Accepted(t, Create(owner, id, name, parent))
    ensures var t' := After(t, Create(owner, id, name, parent));
            && (a in t ==> Up(t', t'.Keys, a, n) == Up(t, t.Keys, a, n))
            && Up(t', t'.Keys, id, n + 1) == if parent.None? then None else Up(t, t.Keys, parent.value, n)
  {
    var t' := After(t, Create(owner, id, name, parent));
    if a in t { SameChains(t, t', a, n); }
    if parent.Some? { SameChains(t, t', parent.value, n); }
  }

  /** No chain of a row that is left changes when a collection is deleted. */
  lemma DeleteKeepsChains(t: Table, owner: int, id: int, a: int, n: nat)
    requires Forest(t) && a in After(t, Delete(owner, id))
    ensures var t' := After(t, Delete(owner, id)); Up(t', t'.Keys, a, n) == Up(t, t.Keys, a, n)
  {
    if Accepted(t, Delete(owner, id)) {
      DeleteKeepsForest(t, owner, id);
      SameChains(t - {id}, t, a, n);
    }
  }

  /** Deleting what was just created is accepted and restores the table. */
  lemma CreateThenDelete(t: Table, owner: int, id: int, name: string, parent: Option<int>)
    requires OwnerConsistent(t) && Accepted(t, Create(owner, id, name, parent))
    ensures var t' := After(t, Create(owner, id, name, parent));
            Accepted(t', Delete(owner, id)) && After(t', Delete(owner, id)) == t
  {
    var t' := After(t, Create(owner, id, name, parent));
    assert t' - {id} == t;
  }

  // ----- the depth cap -----

  /** The rows met in the first `n` steps up. */
  ghost function Chain(t: Table, seen: set<int>, a: int, n: nat): set<int>
    decreases n
  {
    if a !in seen || a !in t then {}
    else if n == 0 || t[a].parent.None? then {a}
    else {a} + Chain(t, seen, t[a].parent.value, n - 1)
  }

  lemma {:induction false} ChainHolds(t: Table, seen: set<int>, a: int, n: nat, k: nat)
    requires k <= n && Up(t, seen, a, k).Some?
    ensures Up(t, seen, a, k).value in Chain(t, seen, a, n)
    decreases n
  {
    if k > 0 { ChainHolds(t, seen, t[a].parent.value, n - 1, k - 1); }
  }

  lemma {:induction false} ChainReached(t: Table, seen: set<int>, a: int, n: nat, x: int) returns (k: nat)
    requires x in Chain(t, seen, a, n)
    ensures k <= n && Up(t, seen, a, k) == Some(x)
    decreases n
  {
    k := 0;
    if x != a {
      k := ChainReached(t, seen, t[a].parent.value, n - 1, x);
      k := k + 1;
    }
  }

  lemma MetAgain(t: Table, seen: set<int>, a: int, n: nat)
    requires a in seen && a in t && t[a].parent.Some? && a in Chain(t, seen, t[a].parent.value, n)
    ensures OnCycle(t, seen, a)
  {
    var k := ChainReached(t, seen, t[a].parent.value, n, a);
    assert Up(t, seen, a, k + 1) == Some(a);
  }

  /** Without cycles the rows on the way are all different. */
  lemma {:induction false} ChainSize(t: Table, seen: set<int>, a: int, n: nat)
    requires forall x :: x in t ==> !OnCycle(t, seen, x)
    ensures |Chain(t, seen, a, n)| <= n + 1
    ensures Up(t, seen, a, n).Some? ==> |Chain(t, seen, a, n)| == n + 1
    decreases n
  {
    if a in seen && a in t && n > 0 && t[a].parent.Some? {
      var q := t[a].parent.value;
      ChainSize(t, seen, q, n - 1);
      if a in Chain(t, seen, q, n - 1) { MetAgain(t, seen, a, n - 1); }
    }
  }

  lemma {:induction false} UpStops(t: Table, seen: set<int>, a: int, n: nat, m: nat)
    requires Up(t, seen, a, n) == None && n <= m
    ensures Up(t, seen, a, m) == None
    decreases n
  {
    if n > 0 && a in seen && a in t && t[a].parent.Some? { UpStops(t, seen, t[a].parent.value, n - 1, m - 1); }
  }

  lemma OwnedAcyclic(t: Table, owner: int)
    requires Forest(t)
    ensures forall x :: x in t ==> !OnCycle(t, OwnedBy(t, owner), x)
  {
    var owned := OwnedBy(t, owner);
    forall x | x in t ensures !OnCycle(t, owned, x) {
      if n: nat :| n > 0 && Up(t, owned, x, n) == Some(x) {
        OwnerSeesChain(t, owner, x, n);
        assert OnCycle(t, t.Keys, x);
      }
    }
  }

  /** In a forest a parent is accepted exactly when it is another own collection, not below the moved
      one, with at most MAX_HIERARCHY_DEPTH ancestors. */
  lemma ParentAcceptedIff(t: Table, owner: int, c: int, p: int)
    requires Forest(t)
    ensures ParentAccepted(t, owner, c, p) <==>
            && p in OwnedBy(t, owner) && p != c && !Reaches(t, OwnedBy(t, owner), p, c)
            && Up(t, OwnedBy(t, owner), p, MAX_HIERARCHY_DEPTH + 1) == None
  {
    var owned, cap := OwnedBy(t, owner), MAX_HIERARCHY_DEPTH;
    OwnedAcyclic(t, owner);
    if p in owned && Up(t, owned, p, cap + 1) == None {
      ShortChain(t, owned, p, cap);
    }
    if p in owned && Up(t, owned, p, cap + 1) != None {
      LongChain(t, owned, p, cap + 1);
    }
  }

  lemma ShortChain(t: Table, seen: set<int>, p: int, n: nat)
    requires Up(t, seen, p, n + 1) == None && forall x :: x in t ==> !OnCycle(t, seen, x)
    ensures forall ids: set<int> :: (forall x :: x in ids <==> Reaches(t, seen, p, x)) ==> |ids| <= n + 1
  {
    ChainSize(t, seen, p, n);
    forall ids: set<int> | forall x :: x in ids <==> Reaches(t, seen, p, x)
      ensures |ids| <= n + 1
    {
      forall x | x in ids ensures x in Chain(t, seen, p, n) {
        var k: nat :| Up(t, seen, p, k) == Some(x);
        if k > n { UpStops(t, seen, p, n + 1, k); }
        ChainHolds(t, seen, p, n, k);
      }
      Smaller(ids, Chain(t, seen, p, n));
    }
  }

  lemma LongChain(t: Table, seen: set<int>, p: int, n: nat)
    requires Up(t, seen, p, n).Some? && forall x :: x in t ==> !OnCycle(t, seen, x)
    ensures exists ids: set<int> :: |ids| > n && forall x :: x in ids <==> Reaches(t, seen, p, x)
  {
    ChainSize(t, seen, p, n);
    var ids := set x | x in t.Keys && Reaches(t, seen, p, x);
    forall x | Reaches(t, seen, p, x) ensures x in ids {
      var k: nat :| Up(t, seen, p, k) == Some(x);
      UpSeen(t, seen, p, k);
    }
    forall x | x in Chain(t, seen, p, n) ensures x in ids {
      var k := ChainReached(t, seen, p, n, x);
    }
    Smaller(Chain(t, seen, p, n), ids);
  }

  lemma Smaller(a: set<int>, b: set<int>)
    requires a <= b
    ensures |a| <= |b|
  {
    assert b == a + (b - a);
  }
}
