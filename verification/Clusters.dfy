/**
 Merging duplicate rows, stated all at once.

 `cl` says which cluster key a row id belongs to.  In each cluster one row leads: the one with
 the greatest weight, the smallest id breaking ties.  Merging keeps the leaders, points children at
 them, and gives each metadata key the value of the best-ranked row that has it.  The scripts do this
 one duplicate at a time; `AddFirst` and `AddNext` say what one more row does to the whole.
 */
module Clusters {
  import opened Support

  /** No weights: the smallest id leads. */
  const BY_AGE: map<int, nat> := map[]

  function Weight(w: map<int, nat>, id: int): nat {
    if id in w then w[id] else 0
  }

  predicate Beats(w: map<int, nat>, a: int, b: int) {
    Weight(w, a) > Weight(w, b) || (Weight(w, a) == Weight(w, b) && a < b)
  }

  predicate IsBest(s: set<int>, w: map<int, nat>, best: int) {
    best in s && forall d :: d in s ==> d == best || Beats(w, best, d)
  }

  /** Every member of `s` outranks `d`. */
  ghost predicate Outranked(s: set<int>, w: map<int, nat>, d: int) {
    forall g :: g in s ==> Beats(w, g, d)
  }

  lemma {:induction false} BestExists(s: set<int>, w: map<int, nat>)
    requires s != {}
    ensures exists b :: IsBest(s, w, b)
    decreases |s|
  {
    var x := Element(s);
    if s == {x} {
      assert IsBest(s, w, x);
    } else {
      BestExists(s - {x}, w);
      var b :| IsBest(s - {x}, w, b);
      var best := if Beats(w, x, b) then x else b;
      forall d | d in s
        ensures d == best || Beats(w, best, d)
      {
        if d != x { assert d in s - {x}; }
      }
      assert IsBest(s, w, best);
    }
  }

  ghost function Best(s: set<int>, w: map<int, nat>): (b: int)
    requires s != {}
    ensures IsBest(s, w, b)
  {
    BestExists(s, w);
    var b :| IsBest(s, w, b);
    b
  }

  lemma BestUnique(s: set<int>, w: map<int, nat>, b: int)
    requires IsBest(s, w, b)
    ensures Best(s, w) == b
  {
  }

  ghost function Group(cl: map<int, string>, key: string): set<int> {
    set d | d in cl && cl[d] == key
  }

  ghost function Leader(cl: map<int, string>, w: map<int, nat>, id: int): (leader: int)
    ensures id in cl ==> leader in cl && cl[leader] == cl[id]
  {
    if id in cl then
      assert id in Group(cl, cl[id]);
      Best(Group(cl, cl[id]), w)
    else id
  }

  ghost function Reparented(children: map<int, int>, cl: map<int, string>, w: map<int, nat>): map<int, int> {
    map c | c in children :: Leader(cl, w, children[c])
  }

  ghost predicate Leads(cl: map<int, string>, w: map<int, nat>, id: int) {
    Leader(cl, w, id) == id
  }

  ghost function Holders<V>(metas: map<int, map<string, V>>, group: set<int>, k: string): set<int> {
    set d | d in group && d in metas && k in metas[d]
  }

  /** Every key some member has, with the best-ranked holder's value. */
  ghost function MergedMeta<V>(metas: map<int, map<string, V>>, group: set<int>, w: map<int, nat>): map<string, V> {
    map k | k in (set d, k' | d in group && d in metas && k' in metas[d] :: k') ::
      assert Holders(metas, group, k) != {} by {
        var d :| d in group && d in metas && k in metas[d];
        assert d in Holders(metas, group, k);
      }
      metas[Best(Holders(metas, group, k), w)][k]
  }

  lemma MetaOfOne<V>(metas: map<int, map<string, V>>, d: int, w: map<int, nat>)
    requires d in metas
    ensures MergedMeta(metas, {d}, w) == metas[d]
  {
    forall k | k in metas[d]
      ensures Holders(metas, {d}, k) == {d}
    {
    }
  }

  /** A lower-ranked row contributes exactly the keys nobody had yet. */
  lemma MetaOfNext<V>(metas: map<int, map<string, V>>, group: set<int>, d: int, w: map<int, nat>)
    requires d in metas && d !in group && Outranked(group, w, d)
    ensures MergedMeta(metas, group + {d}, w) == metas[d] + MergedMeta(metas, group, w)
  {
    var more := MergedMeta(metas, group + {d}, w);
    forall k | k in more
      ensures k in metas[d] + MergedMeta(metas, group, w)
      ensures more[k] == (metas[d] + MergedMeta(metas, group, w))[k]
    {
      var holders := Holders(metas, group, k);
      assert Holders(metas, group + {d}, k) == if k in metas[d] then holders + {d} else holders;
      if holders != {} {
        var best := Best(holders, w);
        assert best in group && k in MergedMeta(metas, group, w);
      }
    }
    forall k | k in metas[d] || k in MergedMeta(metas, group, w)
      ensures k in more
    {
      if k in metas[d] { assert d in group + {d}; }
      else {
        var g :| g in group && g in metas && k in metas[g];
        assert g in group + {d};
      }
    }
  }

  /** A row that opens a new cluster leads it and moves nobody. */
  lemma AddFirst(cl: map<int, string>, w: map<int, nat>, d: int, key: string)
    requires d !in cl && Group(cl, key) == {}
    ensures Group(cl[d := key], key) == {d}
    ensures forall k :: k != key ==> Group(cl[d := key], k) == Group(cl, k)
    ensures forall x :: Leader(cl[d := key], w, x) == Leader(cl, w, x)
  {
    var cl' := cl[d := key];
    forall x ensures x in Group(cl', key) <==> x == d {
      assert x !in Group(cl, key);
    }
    assert Group(cl', key) == {d};
    assert forall k :: k != key ==> Group(cl', k) == Group(cl, k);
    forall x
      ensures Leader(cl', w, x) == Leader(cl, w, x)
    {
      if x == d {
        assert IsBest({d}, w, d);
        BestUnique({d}, w, d);
      } else if x in cl {
        assert x in Group(cl, cl[x]);
      }
    }
  }

  /** A row ranked below its cluster only changes where it leads itself: to the cluster's leader. */
  lemma AddNext(cl: map<int, string>, w: map<int, nat>, d: int, key: string)
    requires d !in cl && Group(cl, key) != {}
    requires Outranked(Group(cl, key), w, d)
    ensures Group(cl[d := key], key) == Group(cl, key) + {d}
    ensures forall k :: k != key ==> Group(cl[d := key], k) == Group(cl, k)
    ensures forall x :: Leader(cl[d := key], w, x) == if x == d then Best(Group(cl, key), w) else Leader(cl, w, x)
  {
    var cl' := cl[d := key];
    assert Group(cl', key) == Group(cl, key) + {d};
    assert forall k :: k != key ==> Group(cl', k) == Group(cl, k);
    var best := Best(Group(cl, key), w);
    forall x
      ensures Leader(cl', w, x) == if x == d then best else Leader(cl, w, x)
    {
      if x in cl' && cl'[x] == key {
        assert IsBest(Group(cl', key), w, best);
        BestUnique(Group(cl', key), w, best);
      }
    }
  }

  /** Where no two rows share a cluster, every row leads itself. */
  lemma DistinctKeysLead(cl: map<int, string>, w: map<int, nat>)
    requires forall a, b :: a in cl && b in cl && cl[a] == cl[b] ==> a == b
    ensures forall x :: Leader(cl, w, x) == x
  {
  }

  /** Two rows of one cluster have the same leader, and leaders of one cluster are one row. */
  lemma LeadersDistinct(cl: map<int, string>, w: map<int, nat>, a: int, b: int)
    requires a in cl && b in cl && cl[a] == cl[b]
    ensures Leader(cl, w, a) == Leader(cl, w, b)
    ensures Leads(cl, w, Leader(cl, w, a))
  {
  }

  /** Rows by cluster key, as the scripts' grouping loops collect them. */
  method GroupByKey(keys: map<int, string>) returns (groups: map<string, set<int>>)
    ensures forall k :: k in groups ==> groups[k] == Group(keys, k) && groups[k] != {}
    ensures forall id :: id in keys ==> keys[id] in groups
  {
    groups := map[];
    var pending := keys.Keys;
    ghost var done: map<int, string> := map[];
    while pending != {}
      invariant pending <= keys.Keys && done == keys - pending
      invariant forall k :: k in groups <==> Group(done, k) != {}
      invariant forall k :: k in groups ==> groups[k] == Group(done, k)
      decreases pending
    {
      ghost var e := Element(pending);
      var id :| id in pending;
      pending := pending - {id};
      var key := keys[id];
      ghost var before := done;
      done := keys - pending;
      assert done == before[id := key];
      assert forall k :: Group(done, k) == if k == key then Group(before, k) + {id} else Group(before, k);
      groups := groups[key := (if key in groups then groups[key] else {}) + {id}];
    }
    assert done == keys;
    forall id | id in keys
      ensures keys[id] in groups
    {
      assert id in Group(keys, keys[id]);
    }
  }
}
