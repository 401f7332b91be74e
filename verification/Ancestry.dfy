/** Parent chains in a table of collections, and the ancestor query of app/api/collections.py. */
module Ancestry {
  import opened Support

  datatype Collection = Collection(owner: int, name: string, parent: Option<int>)

  type Table = map<int, Collection>

  function OwnedBy(t: Table, owner: int): set<int> {
    set id | id in t && t[id].owner == owner
  }

  /** The `n`-th ancestor of `id`, as far as the rows in `seen` lead. */
  ghost function Up(t: Table, seen: set<int>, id: int, n: nat): Option<int>
    decreases n
  {
    if id !in seen || id !in t then None
    else if n == 0 then Some(id)
    else if t[id].parent.None? then None
    else Up(t, seen, t[id].parent.value, n - 1)
  }

  ghost predicate Reaches(t: Table, seen: set<int>, a: int, b: int) {
    exists n: nat :: Up(t, seen, a, n) == Some(b)
  }

  ghost predicate OnCycle(t: Table, seen: set<int>, id: int) {
    exists n: nat :: n > 0 && Up(t, seen, id, n) == Some(id)
  }

  lemma {:induction false} UpThenUp(t: Table, seen: set<int>, a: int, n: nat, b: int, m: nat)
    requires Up(t, seen, a, n) == Some(b)
    ensures Up(t, seen, a, n + m) == Up(t, seen, b, m)
    decreases n
  {
    if n > 0 { UpThenUp(t, seen, t[a].parent.value, n - 1, b, m); }
  }

  lemma {:induction false} UpSeen(t: Table, seen: set<int>, a: int, n: nat)
    ensures Up(t, seen, a, n).Some? ==> Up(t, seen, a, n).value in seen && Up(t, seen, a, n).value in t
    decreases n
  {
    if n > 0 && a in seen && a in t && t[a].parent.Some? { UpSeen(t, seen, t[a].parent.value, n - 1); }
  }

  /** A set that holds `a` and the seen parents of its members holds everything `a` reaches. */
  lemma {:induction false} ClosedHoldsReached(t: Table, seen: set<int>, closed: set<int>, a: int, n: nat)
    requires a in seen && a in t ==> a in closed
    requires forall x | x in closed && x in t && t[x].parent.Some? ::
               t[x].parent.value in seen && t[x].parent.value in t ==> t[x].parent.value in closed
    ensures Up(t, seen, a, n).Some? ==> Up(t, seen, a, n).value in closed
    decreases n
  {
    if n > 0 && a in seen && a in t && t[a].parent.Some? {
      ClosedHoldsReached(t, seen, closed, t[a].parent.value, n - 1);
    }
  }

  // ----- the recursive query -----

  const MAX_HIERARCHY_DEPTH := 50

  datatype Hierarchy = Ids(ids: set<int>) | Circular | TooDeep

  function SeenParents(t: Table, seen: set<int>, rows: set<int>): set<int> {
    set x | x in rows && x in t && t[x].parent.Some? && t[x].parent.value in seen :: t[x].parent.value
  }

  /** UNION drops rows already found, so the working set dries up even on cyclic data.  The rows found
      are exactly those the start reaches among its owner's. */
  method WalkUp(t: Table, id: int, owner: int) returns (visited: set<int>)
    ensures forall x :: x in visited <==> Reaches(t, OwnedBy(t, owner), id, x)
    ensures visited != {} <==> id in OwnedBy(t, owner)
  {
    var owned := OwnedBy(t, owner);
    visited := if id in owned then {id} else {};
    var working := visited;
    assert id in owned ==> Up(t, owned, id, 0) == Some(id);
    while working != {}
      invariant working <= visited <= owned && (id in visited <==> id in owned) && (visited != {} ==> id in owned)
      invariant forall x :: x in visited ==> Reaches(t, owned, id, x)
      invariant SeenParents(t, owned, visited - working) <= visited
      decreases owned - visited, working
    {
      var next := SeenParents(t, owned, working) - visited;
      forall p | p in next
        ensures Reaches(t, owned, id, p)
      {
        var x :| x in working && x in t && t[x].parent == Some(p);
        var n: nat :| Up(t, owned, id, n) == Some(x);
        UpThenUp(t, owned, id, n, x, 1);
        assert Up(t, owned, p, 0) == Some(p);
      }
      assert SeenParents(t, owned, visited) ==
          SeenParents(t, owned, visited - working) + SeenParents(t, owned, working);
      visited := visited + next;
      working := next;
    }
    forall x | Reaches(t, owned, id, x)
      ensures x in visited
    {
      var n: nat :| Up(t, owned, id, n) == Some(x);
      ClosedHoldsReached(t, owned, visited, id, n);
    }
  }

  /** A circular reference is reported exactly when the start lies on a cycle. */
  method GetHierarchyIds(t: Table, id: int, owner: int) returns (h: Hierarchy)
    ensures h == Circular <==> OnCycle(t, OwnedBy(t, owner), id)
    ensures h.Ids? ==> forall x :: x in h.ids <==> Reaches(t, OwnedBy(t, owner), id, x)
    ensures h.Ids? ==> (h.ids != {} <==> id in OwnedBy(t, owner)) && |h.ids| <= MAX_HIERARCHY_DEPTH + 1
    ensures h == TooDeep ==> exists ids: set<int> ::
              |ids| > MAX_HIERARCHY_DEPTH + 1 && forall x :: x in ids <==> Reaches(t, OwnedBy(t, owner), id, x)
  {
    var visited := WalkUp(t, id, owner);
    CircularIff(t, OwnedBy(t, owner), id, visited);
    if exists x :: x in visited && x in t && t[x].parent == Some(id) {
      return Circular;
    }
    if |visited| - 1 > MAX_HIERARCHY_DEPTH {
      return TooDeep;
    }
    return Ids(visited);
  }

  /** A reached row names the start as its parent if and only if the start lies on a cycle. */
  lemma CircularIff(t: Table, seen: set<int>, id: int, visited: set<int>)
    requires forall x :: x in visited <==> Reaches(t, seen, id, x)
    ensures (exists x :: x in visited && x in t && t[x].parent == Some(id)) <==> OnCycle(t, seen, id)
  {
    if x :| x in visited && x in t && t[x].parent == Some(id) {
      var n: nat :| Up(t, seen, id, n) == Some(x);
      UpSeen(t, seen, id, n);
      UpThenUp(t, seen, id, n, x, 1);
      assert Up(t, seen, x, 1) == Up(t, seen, id, 0);
      assert Up(t, seen, id, n + 1) == Some(id);
    }
    if n: nat :| n > 0 && Up(t, seen, id, n) == Some(id) {
      LastStep(t, seen, id, n);
    }
  }

  lemma {:induction false} LastStep(t: Table, seen: set<int>, a: int, n: nat)
    requires n > 0 && Up(t, seen, a, n).Some?
    ensures exists x :: Reaches(t, seen, a, x) && x in t && t[x].parent == Up(t, seen, a, n)
    decreases n
  {
    if n == 1 {
      assert Up(t, seen, a, 0) == Some(a);
    } else {
      var p := t[a].parent.value;
      LastStep(t, seen, p, n - 1);
      var x :| Reaches(t, seen, p, x) && x in t && t[x].parent == Up(t, seen, p, n - 1);
      var m: nat :| Up(t, seen, p, m) == Some(x);
      assert Up(t, seen, a, m + 1) == Some(x);
    }
  }
}
