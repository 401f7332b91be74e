/**
 Creating, moving and deleting collections, one request at a time.

 The guard of a move only looks at the owner's rows.  That is enough for tables whose parent links
 never cross owners, which every run from an empty table keeps; `MoveAddsCycleIff` says exactly when
 an accepted move closes a cycle in any table at all.
 */
module CollectionForest {
  import opened Support
  import opened Ancestry

  // ----- what a move does to parent chains -----

  ghost function Moved(t: Table, c: int, p: int): Table
    requires c in t
  {
    t[c := t[c].(parent := Some(p))]
  }

  /** A chain of the moved table that does not meet `c` is a chain of the old one. */
  lemma {:induction false} ChainAvoidsOrMeets(t: Table, seen: set<int>, c: int, p: int, a: int, n: nat) returns (k: nat)
    requires c in t && Up(Moved(t, c, p), seen, a, n).Some?
    ensures k <= n
    ensures k == n ==> Up(t, seen, a, n) == Up(Moved(t, c, p), seen, a, n)
    ensures k < n ==> Up(t, seen, a, k) == Up(Moved(t, c, p), seen, a, k) == Some(c)
    decreases n
  {
    if n == 0 {
      k := 0;
    } else if a == c {
      k := 0;
    } else {
      k := ChainAvoidsOrMeets(t, seen, c, p, t[a].parent.value, n - 1);
      k := k + 1;
    }
  }

  /** Hanging `c` under a row that does not reach it closes no cycle, whatever cycles there were. */
  lemma MoveAddsNoCycle(t: Table, seen: set<int>, c: int, p: int, x: int)
    requires c in t && !Reaches(t, seen, p, c) && OnCycle(Moved(t, c, p), seen, x)
    ensures OnCycle(t, seen, x)
  {
    var t' := Moved(t, c, p);
    var n: nat :| n > 0 && Up(t', seen, x, n) == Some(x);
    var k := ChainAvoidsOrMeets(t, seen, c, p, x, n);
    if k < n {
      UpThenUp(t', seen, x, k, c, n - k);
      UpThenUp(t', seen, c, n - k, x, k);
      assert Up(t', seen, p, n - 1) == Some(c);
      var j := ChainAvoidsOrMeets(t, seen, c, p, p, n - 1);
      assert Reaches(t, seen, p, c);
    }
  }

  lemma {:induction false} ChainKept(t: Table, seen: set<int>, c: int, p: int, a: int, n: nat)
    requires c in t && c in seen && Up(t, seen, a, n) == Some(c)
    ensures Reaches(Moved(t, c, p), seen, a, c)
    decreases n
  {
    var t' := Moved(t, c, p);
    if a == c {
      assert Up(t', seen, a, 0) == Some(c);
    } else {
      var q := t[a].parent.value;
      ChainKept(t, seen, c, p, q, n - 1);
      var m: nat :| Up(t', seen, q, m) == Some(c);
      assert Up(t', seen, a, m + 1) == Some(c);
    }
  }

  /** The move puts `c` itself on a cycle if and only if its new parent reaches it. */
  lemma MoveAddsCycleIff(t: Table, seen: set<int>, c: int, p: int)
    requires c in t && c in seen && !OnCycle(t, seen, c)
    ensures OnCycle(Moved(t, c, p), seen, c) <==> Reaches(t, seen, p, c)
  {
    var t' := Moved(t, c, p);
    if Reaches(t, seen, p, c) {
      var n: nat :| Up(t, seen, p, n) == Some(c);
      ChainKept(t, seen, c, p, p, n);
      var m: nat :| Up(t', seen, p, m) == Some(c);
      assert Up(t', seen, c, m + 1) == Some(c);
    } else if OnCycle(t', seen, c) {
      MoveAddsNoCycle(t, seen, c, p, c);
      assert false;
    }
  }

  // ----- requests -----

  datatype Request =
    | Create(owner: int, id: int, name: string, parent: Option<int>)
    | Update(owner: int, id: int, newName: Option<string>, newParent: Option<int>)
    | Delete(owner: int, id: int)

  /** What `_validate_parent_hierarchy` lets through. */
  ghost predicate ParentAccepted(t: Table, owner: int, c: int, p: int) {
    var owned := OwnedBy(t, owner);
    && p != c
    && p in owned
    && !OnCycle(t, owned, p)
    && !Reaches(t, owned, p, c)
    && (forall ids: set<int> :: (forall x :: x in ids <==> Reaches(t, owned, p, x)) ==>
          |ids| <= MAX_HIERARCHY_DEPTH + 1)
  }

  /** Whether a request is carried out; a created id is one the database has not given out. */
  ghost predicate Accepted(t: Table, r: Request) {
    match r
    case Create(owner, id, _, parent) => id !in t && (parent.Some? ==> parent.value in OwnedBy(t, owner))
    case Update(owner, id, _, newParent) =>
      id in OwnedBy(t, owner) && (newParent.Some? ==> ParentAccepted(t, owner, id, newParent.value))
    case Delete(owner, id) =>
      id in OwnedBy(t, owner) && forall x :: x in OwnedBy(t, owner) ==> t[x].parent != Some(id)
  }

  /** The table after a request; a rejected one changes nothing. */
  ghost function After(t: Table, r: Request): Table {
    if !Accepted(t, r) then t
    else
      match r
      case Create(owner, id, name, parent) => t[id := Collection(owner, name, parent)]
      case Update(_, id, newName, newParent) =>
        t[id := Collection(t[id].owner, if newName.Some? then newName.value else t[id].name,
                           if newParent.Some? then newParent else t[id].parent)]
      case Delete(_, id) => t - {id}
  }

  // ----- the invariant of every run -----

  /** Parents exist and belong to the same owner. */
  ghost predicate OwnerConsistent(t: Table) {
    forall x :: x in t && t[x].parent.Some? ==> t[x].parent.value in t && t[t[x].parent.value].owner == t[x].owner
  }

  ghost predicate Forest(t: Table) {
    OwnerConsistent(t) && forall x :: x in t ==> !OnCycle(t, t.Keys, x)
  }

  /** Where links do not cross owners, looking at the owner's rows misses nothing. */
  lemma {:induction false} OwnerSeesChain(t: Table, owner: int, a: int, n: nat)
    requires OwnerConsistent(t) && a in OwnedBy(t, owner)
    ensures Up(t, OwnedBy(t, owner), a, n) == Up(t, t.Keys, a, n)
    decreases n
  {
    if n > 0 && t[a].parent.Some? { OwnerSeesChain(t, owner, t[a].parent.value, n - 1); }
  }

  lemma OwnerSeesReach(t: Table, owner: int, a: int, b: int)
    requires OwnerConsistent(t) && a in OwnedBy(t, owner) && Reaches(t, t.Keys, a, b)
    ensures Reaches(t, OwnedBy(t, owner), a, b)
  {
    var n: nat :| Up(t, t.Keys, a, n) == Some(b);
    OwnerSeesChain(t, owner, a, n);
  }

  /** Chains are the same in two tables with the same parents on the rows that chains can visit. */
  lemma {:induction false} SameChains(t: Table, t': Table, a: int, n: nat)
    requires OwnerConsistent(t) && a in t
    requires forall x :: x in t ==> x in t' && t'[x].parent == t[x].parent
    ensures Up(t', t'.Keys, a, n) == Up(t, t.Keys, a, n)
    decreases n
  {
    if n > 0 && t[a].parent.Some? { SameChains(t, t', t[a].parent.value, n - 1); }
  }

  lemma CreateKeepsForest(t: Table, id: int, row: Collection)
    requires Forest(t) && id !in t
    requires row.parent.Some? ==> row.parent.value in t && t[row.parent.value].owner == row.owner
    ensures Forest(t[id := row])
  {
    var t' := t[id := row];
    forall x | x in t'
      ensures !OnCycle(t', t'.Keys, x)
    {
      if n: nat :| n > 0 && Up(t', t'.Keys, x, n) == Some(x) {
        if x in t {
          SameChains(t, t', x, n);
          assert OnCycle(t, t.Keys, x);
        } else {
          var p := row.parent.value;
          SameChains(t, t', p, n - 1);
          UpSeen(t, t.Keys, p, n - 1);
        }
      }
    }
  }

  lemma MoveKeepsForest(t: Table, owner: int, c: int, p: int)
    requires Forest(t) && c in OwnedBy(t, owner) && ParentAccepted(t, owner, c, p)
    ensures Forest(Moved(t, c, p))
  {
    if Reaches(t, t.Keys, p, c) {
      OwnerSeesReach(t, owner, p, c);
    }
    var t' := Moved(t, c, p);
    assert t'.Keys == t.Keys;
    forall x | x in t'
      ensures !OnCycle(t', t'.Keys, x)
    {
      if OnCycle(t', t'.Keys, x) { MoveAddsNoCycle(t, t.Keys, c, p, x); }
    }
  }

  lemma DeleteKeepsForest(t: Table, owner: int, id: int)
    requires Forest(t) && Accepted(t, Delete(owner, id))
    ensures Forest(t - {id})
  {
    var t' := t - {id};
    forall x | x in t' && t'[x].parent.Some?
      ensures t'[x].parent.value in t' && t'[t'[x].parent.value].owner == t'[x].owner
    {
      assert t[x].owner == owner ==> x in OwnedBy(t, owner);
    }
    forall x | x in t'
      ensures !OnCycle(t', t'.Keys, x)
    {
      if n: nat :| n > 0 && Up(t', t'.Keys, x, n) == Some(x) {
        SameChains(t', t, x, n);
        assert OnCycle(t, t.Keys, x);
      }
    }
  }

  /** Every request, accepted or not, keeps an owner-consistent forest without dangling parents. */
  lemma RequestKeepsForest(t: Table, r: Request)
    requires Forest(t)
    ensures Forest(After(t, r))
  {
    if Accepted(t, r) {
      match r
      case Create(owner, id, name, parent) =>
        CreateKeepsForest(t, id, Collection(owner, name, parent));
      case Update(owner, id, newName, newParent) =>
        var moved := if newParent.Some? then Moved(t, id, newParent.value) else t;
        if newParent.Some? { MoveKeepsForest(t, owner, id, newParent.value); }
        RenameKeepsForest(moved, After(t, r));
      case Delete(owner, id) =>
        DeleteKeepsForest(t, owner, id);
    }
  }

  lemma RenameKeepsForest(t: Table, t': Table)
    requires Forest(t) && t'.Keys == t.Keys
    requires forall x :: x in t ==> t'[x].owner == t[x].owner && t'[x].parent == t[x].parent
    ensures Forest(t')
  {
    forall x | x in t' && t'[x].parent.Some?
      ensures t'[x].parent.value in t' && t'[t'[x].parent.value].owner == t'[x].owner
    {
      assert x in t.Keys;
      var q := t[x].parent.value;
      assert q in t && q in t'.Keys && t'[q].owner == t[q].owner;
    }
    forall x | x in t'
      ensures !OnCycle(t', t'.Keys, x)
    {
      if n: nat :| n > 0 && Up(t', t'.Keys, x, n) == Some(x) {
        SameChains(t, t', x, n);
        assert OnCycle(t, t.Keys, x);
      }
    }
  }

  ghost function Run(t: Table, requests: seq<Request>): Table
    decreases |requests|
  {
    if requests == [] then t else Run(After(t, requests[0]), requests[1..])
  }

  /** Every run from a forest, the empty table for one, ends in a forest. */
  lemma {:induction false} RunKeepsForest(t: Table, requests: seq<Request>)
    requires Forest(t)
    ensures Forest(Run(t, requests))
    decreases |requests|
  {
    if requests != [] {
      RequestKeepsForest(t, requests[0]);
      RunKeepsForest(After(t, requests[0]), requests[1..]);
    }
  }

  /** From any stored data, cycles included, no request adds a cycle among its owner's rows. */
  lemma RequestAddsNoCycle(t: Table, r: Request, x: int)
    requires r.Update? && x in OwnedBy(t, r.owner) && OnCycle(After(t, r), OwnedBy(After(t, r), r.owner), x)
    ensures OnCycle(t, OwnedBy(t, r.owner), x)
  {
    var owned := OwnedBy(t, r.owner);
    if Accepted(t, r) {
      var t' := After(t, r);
      assert OwnedBy(t', r.owner) == owned;
      var moved := if r.newParent.Some? then Moved(t, r.id, r.newParent.value) else t;
      var n: nat :| n > 0 && Up(t', owned, x, n) == Some(x);
      SameParentsSameChain(moved, t', owned, x, n);
      if r.newParent.Some? { MoveAddsNoCycle(t, owned, r.id, r.newParent.value, x); }
    }
  }

  lemma {:induction false} SameParentsSameChain(t: Table, t': Table, seen: set<int>, a: int, n: nat)
    requires t'.Keys == t.Keys && forall x :: x in t ==> t'[x].parent == t[x].parent
    ensures Up(t', seen, a, n) == Up(t, seen, a, n)
    decreases n
  {
    assert a in t' <==> a in t.Keys;
    if n > 0 && a in t && t[a].parent.Some? { SameParentsSameChain(t, t', seen, t[a].parent.value, n - 1); }
  }

  /** Data that crosses owners defeats the guard: collection 3's new parent 1 reaches it through
      another owner's collection 2. */
  lemma CrossOwnerMoveClosesCycle(t: Table, name: string)
    requires t == map[1 := Collection(7, name, Some(2)),
                      2 := Collection(8, name, Some(3)),
                      3 := Collection(7, name, None)]
    ensures Accepted(t, Update(7, 3, None, Some(1)))
    ensures !OnCycle(t, t.Keys, 3) && OnCycle(After(t, Update(7, 3, None, Some(1))), t.Keys, 3)
  {
    var owned := OwnedBy(t, 7);
    assert forall x :: x in owned <==> x == 1 || x == 3;
    forall n: nat | n > 0
      ensures Up(t, owned, 1, n) == None
    {
      assert Up(t, owned, 2, n - 1) == None;
    }
    assert Up(t, owned, 1, 0) == Some(1);
    forall ids: set<int> | forall x :: x in ids <==> Reaches(t, owned, 1, x)
      ensures |ids| <= 1
    {
      forall x
        ensures x in ids <==> x == 1
      {
        assert x in ids <==> Reaches(t, owned, 1, x);
      }
      assert ids == {1};
    }
    forall n: nat | n > 0
      ensures Up(t, t.Keys, 3, n) != Some(3)
    {
    }
    assert Up(t, t.Keys, 3, 0) == Some(3);
    assert Up(t, t.Keys, 2, 1) == Some(3);
    assert Up(t, t.Keys, 1, 2) == Some(3);
    MoveAddsCycleIff(t, t.Keys, 3, 1);
    assert After(t, Update(7, 3, None, Some(1))) == Moved(t, 3, 1);
  }

  // ----- the endpoints -----

  datatype Reply = Done | NotFound | Rejected

  /** The stored collections, updated in place by the three endpoints. */
  class Store {
    var rows: Table
    var nextId: int

    ghost predicate Valid()
      reads this
    {
      forall id :: id in rows ==> id < nextId
    }

    constructor ()
      ensures Valid() && rows == map[] && Forest(rows)
    {
      rows, nextId := map[], 1;
    }

    method CreateCollection(owner: int, name: string, parent: Option<int>) returns (reply: Reply, id: int)
      requires Valid()
      modifies this
      ensures Valid() && old(nextId) <= nextId
      ensures rows == After(old(rows), Create(owner, id, name, parent))
      ensures reply == if Accepted(old(rows), Create(owner, id, name, parent)) then Done else Rejected
      ensures reply == Done ==> id !in old(rows) && rows == old(rows)[id := Collection(owner, name, parent)]
      ensures reply != Done ==> rows == old(rows)
      ensures old(Forest(rows)) ==> Forest(rows)
    {
      id := nextId;
      ghost var request := Create(owner, id, name, parent);
      if old(Forest(rows)) { RequestKeepsForest(rows, request); }
      if parent.Some? && parent.value !in OwnedBy(rows, owner) {
        return Rejected, id;
      }
      rows := rows[id := Collection(owner, name, parent)];
      nextId := nextId + 1;
      reply := Done;
    }

    /** None when the parent is acceptable. */
    method ValidateParent(id: int, parent: int, owner: int) returns (accepted: bool)
      ensures accepted <==> ParentAccepted(rows, owner, id, parent)
    {
      if parent == id {
        return false;
      }
      var h := GetHierarchyIds(rows, parent, owner);
      if h.Circular? || h.TooDeep? {
        return false;
      }
      if h.ids == {} {
        return false;
      }
      SameReached(rows, owner, parent, h.ids);
      return id !in h.ids;
    }

    method UpdateCollection(owner: int, id: int, newName: Option<string>, newParent: Option<int>) returns (reply: Reply)
      requires Valid()
      modifies this
      ensures Valid()
      ensures rows == After(old(rows), Update(owner, id, newName, newParent))
      ensures reply == if id !in OwnedBy(old(rows), owner) then NotFound
                       else if Accepted(old(rows), Update(owner, id, newName, newParent)) then Done else Rejected
      ensures reply != Done ==> rows == old(rows)
      ensures reply == Done ==> rows.Keys == old(rows).Keys
      ensures reply == Done ==> forall x :: x in rows && x != id ==> rows[x] == old(rows)[x]
      ensures reply == Done ==> rows[id].owner == old(rows)[id].owner == owner
      ensures reply == Done ==> rows[id].name == if newName.Some? then newName.value else old(rows)[id].name
      ensures reply == Done ==> rows[id].parent == if newParent.Some? then newParent else old(rows)[id].parent
      ensures old(Forest(rows)) ==> Forest(rows)
    {
      if old(Forest(rows)) { RequestKeepsForest(rows, Update(owner, id, newName, newParent)); }
      if id !in OwnedBy(rows, owner) {
        return NotFound;
      }
      var row := rows[id];
      if newName.Some? {
        row := row.(name := newName.value);
      }
      if newParent.Some? {
        var accepted := ValidateParent(id, newParent.value, owner);
        if !accepted {
          return Rejected;
        }
        row := row.(parent := newParent);
      }
      rows := rows[id := row];
      return Done;
    }

    method DeleteCollection(owner: int, id: int) returns (reply: Reply)
      requires Valid()
      modifies this
      ensures Valid()
      ensures rows == After(old(rows), Delete(owner, id))
      ensures reply == if id !in OwnedBy(old(rows), owner) then NotFound
                       else if Accepted(old(rows), Delete(owner, id)) then Done else Rejected
      ensures rows == if reply == Done then old(rows) - {id} else old(rows)
      ensures old(Forest(rows)) ==> Forest(rows)
    {
      if old(Forest(rows)) { RequestKeepsForest(rows, Delete(owner, id)); }
      if id !in OwnedBy(rows, owner) {
        return NotFound;
      }
      if exists x :: x in OwnedBy(rows, owner) && rows[x].parent == Some(id) {
        return Rejected;
      }
      rows := rows - {id};
      return Done;
    }
  }

  lemma SameReached(t: Table, owner: int, p: int, ids: set<int>)
    requires forall x :: x in ids <==> Reaches(t, OwnedBy(t, owner), p, x)
    ensures forall ids': set<int> :: (forall x :: x in ids' <==> Reaches(t, OwnedBy(t, owner), p, x)) ==>
        |ids'| == |ids|
  {
    forall ids': set<int> | forall x :: x in ids' <==> Reaches(t, OwnedBy(t, owner), p, x)
      ensures |ids'| == |ids|
    {
      forall x
        ensures x in ids' <==> x in ids
      {
        assert x in ids' <==> Reaches(t, OwnedBy(t, owner), p, x);
      }
      assert ids' == ids;
    }
  }
}
