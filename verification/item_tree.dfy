/** Indexing a decoded tree into the flat cache
    (`InitializeItemTree` in src/Data/Mappings/AbstractMapping.cs): every
    node is cached in preorder, its children list names its decoded
    children, and each child's parent is its holder. The main result is
    that a freshly loaded mapping satisfies the tree invariant. */
module ItemTree {
  import opened Types
  import opened Seqs
  import opened Tree

  /** The cached node built from a decoded item held by `parent`. */
  function NodeOf(d: Decoded, parent: Id): Node
  {
    Node(d.id, d.name, d.templateId, parent, Ids(d.children), d.fields)
  }

  /** The ids of a decoded list, in order. */
  function Ids(ds: seq<Decoded>): (r: seq<Id>)
    ensures |r| == |ds| && forall i :: 0 <= i < |ds| ==> r[i] == ds[i].id
  {
    if ds == [] then [] else [ds[0].id] + Ids(ds[1..])
  }

  /** Every id of a decoded forest, in preorder. */
  function AllIds(ds: seq<Decoded>): seq<Id>
    decreases ds
  {
    if ds == [] then [] else [ds[0].id] + AllIds(ds[0].children) + AllIds(ds[1..])
  }

  /** `InitializeItemTree`: caches `d` and then, in order, its children's
      subtrees. The cache is searched first-match, so an id already cached
      keeps its first node. */
  function IndexTree(cache: map<Id, Node>, d: Decoded, parent: Id): (r: map<Id, Node>)
    ensures forall x :: x in r <==> x in cache || x == d.id || x in AllIds(d.children)
    ensures forall x :: x in cache ==> r[x] == cache[x]
    decreases d
  {
    var own := if d.id in cache then cache else cache[d.id := NodeOf(d, parent)];
    IndexForest(own, d.children, d.id)
  }

  /** Indexes each tree of `ds`, left to right, under `parent`. */
  function IndexForest(cache: map<Id, Node>, ds: seq<Decoded>, parent: Id): (r: map<Id, Node>)
    ensures forall x :: x in r <==> x in cache || x in AllIds(ds)
    ensures forall x :: x in cache ==> r[x] == cache[x]
    decreases ds
  {
    if ds == [] then cache
    else
      var r := IndexForest(IndexTree(cache, ds[0], parent), ds[1..], parent);
      assert AllIds(ds) == [ds[0].id] + AllIds(ds[0].children) + AllIds(ds[1..]);
      r
  }

  /** A mapping loaded from the decoded top-level list `ds`, held by the
      top marker `t`. */
  function Load(ds: seq<Decoded>, t: Id): (r: State)
    ensures r.top == Ids(ds)
    ensures forall x :: x in r.cache <==> x in AllIds(ds)
  {
    State(IndexForest(map[], ds, t), Ids(ds))
  }

  /** `n` is one of the nodes the load of `ds` under `p` builds. */
  ghost predicate Placed(ds: seq<Decoded>, p: Id, n: Node)
    decreases ds
  {
    && ds != []
    && (|| n == NodeOf(ds[0], p)
        || Placed(ds[0].children, ds[0].id, n)
        || Placed(ds[1..], p, n))
  }

  lemma IdsInAll(ds: seq<Decoded>)
    ensures forall x :: x in Ids(ds) ==> x in AllIds(ds)
  {
    forall x | x in Ids(ds)
      ensures x in AllIds(ds)
    {
      var i :| 0 <= i < |ds| && ds[i].id == x;
      IdInAll(ds, i);
    }
  }

  lemma {:induction false} IdInAll(ds: seq<Decoded>, i: nat)
    requires i < |ds|
    ensures ds[i].id in AllIds(ds)
  {
    if i > 0 {
      IdInAll(ds[1..], i - 1);
    }
  }

  /** A duplicate-free preorder splits into duplicate-free, disjoint parts. */
  lemma SplitAll(ds: seq<Decoded>)
    requires ds != [] && NoDup(AllIds(ds))
    ensures NoDup(AllIds(ds[0].children)) && NoDup(AllIds(ds[1..]))
    ensures ds[0].id !in AllIds(ds[0].children) && ds[0].id !in AllIds(ds[1..])
    ensures forall x :: x in AllIds(ds[0].children) ==> x !in AllIds(ds[1..])
  {
    NoDupParts(ds[0].id, AllIds(ds[0].children), AllIds(ds[1..]));
  }

  /** The top-level ids of a duplicate-free load are duplicate-free. */
  lemma {:induction false} NoDupIds(ds: seq<Decoded>)
    requires NoDup(AllIds(ds))
    ensures NoDup(Ids(ds))
    decreases ds
  {
    if ds != [] {
      SplitAll(ds);
      NoDupIds(ds[1..]);
      IdsInAll(ds[1..]);
      PrependNoDup(ds[0].id, Ids(ds[1..]));
      assert Ids(ds) == [ds[0].id] + Ids(ds[1..]);
    }
  }

  /** Each top-level item is placed with the top marker as parent. */
  lemma {:induction false} PlacedTop(ds: seq<Decoded>, p: Id, i: nat)
    requires i < |ds|
    ensures Placed(ds, p, NodeOf(ds[i], p))
  {
    if i > 0 {
      PlacedTop(ds[1..], p, i - 1);
    }
  }

  lemma {:induction false} PlacedIn(ds: seq<Decoded>, p: Id, n: Node)
    requires Placed(ds, p, n)
    ensures n.id in AllIds(ds)
    decreases ds
  {
    if n != NodeOf(ds[0], p) {
      if Placed(ds[0].children, ds[0].id, n) {
        PlacedIn(ds[0].children, ds[0].id, n);
      } else {
        PlacedIn(ds[1..], p, n);
      }
    }
  }

  /** Every loaded id has a placed node. */
  ghost function PlacedNode(ds: seq<Decoded>, p: Id, x: Id): (n: Node)
    requires x in AllIds(ds)
    ensures Placed(ds, p, n) && n.id == x
    decreases ds
  {
    if ds[0].id == x then NodeOf(ds[0], p)
    else if x in AllIds(ds[0].children) then PlacedNode(ds[0].children, ds[0].id, x)
    else PlacedNode(ds[1..], p, x)
  }

  /** On a duplicate-free load into a cache that holds none of its ids,
      each placed node ends up cached under its own id. */
  lemma {:induction false} IndexFinds(c: map<Id, Node>, ds: seq<Decoded>, p: Id, n: Node)
    requires NoDup(AllIds(ds))
    requires forall x :: x in AllIds(ds) ==> x !in c
    requires Placed(ds, p, n)
    ensures n.id in IndexForest(c, ds, p) && IndexForest(c, ds, p)[n.id] == n
    decreases ds
  {
    SplitAll(ds);
    PlacedIn(ds, p, n);
    var d := ds[0];
    var own := c[d.id := NodeOf(d, p)];
    var first := IndexTree(c, d, p);
    assert first == IndexForest(own, d.children, d.id);
    if n == NodeOf(d, p) {
      assert first[d.id] == n;
    } else if Placed(d.children, d.id, n) {
      IndexFinds(own, d.children, d.id, n);
    } else {
      IndexFinds(first, ds[1..], p, n);
    }
  }

  /** A placed node sits in the top-level list or in the children of
      another placed node whose id is its parent. */
  lemma {:induction false} PlacedHeld(ds: seq<Decoded>, p: Id, n: Node)
    requires Placed(ds, p, n)
    ensures (n.parentId == p && n.id in Ids(ds))
      || exists m :: Placed(ds, p, m) && m.id == n.parentId && n.id in m.children
    decreases ds
  {
    var d := ds[0];
    if n == NodeOf(d, p) {
      assert Ids(ds)[0] == n.id;
    } else if Placed(d.children, d.id, n) {
      PlacedHeld(d.children, d.id, n);
      if n.parentId == d.id && n.id in Ids(d.children) {
        assert Placed(ds, p, NodeOf(d, p));
      } else {
        var m :| Placed(d.children, d.id, m) && m.id == n.parentId && n.id in m.children;
        assert Placed(ds, p, m);
      }
    } else {
      PlacedHeld(ds[1..], p, n);
      if n.parentId == p && n.id in Ids(ds[1..]) {
        assert Ids(ds) == [d.id] + Ids(ds[1..]);
      } else {
        var m :| Placed(ds[1..], p, m) && m.id == n.parentId && n.id in m.children;
        assert Placed(ds, p, m);
      }
    }
  }

  /** Each child a placed node names is placed, with that node as parent. */
  lemma {:induction false} PlacedChildren(ds: seq<Decoded>, p: Id, n: Node, x: Id)
    requires Placed(ds, p, n) && x in n.children
    ensures exists m :: Placed(ds, p, m) && m.id == x && m.parentId == n.id
    decreases ds
  {
    var d := ds[0];
    if n == NodeOf(d, p) {
      var j :| 0 <= j < |d.children| && d.children[j].id == x;
      PlacedTop(d.children, d.id, j);
      assert Placed(ds, p, NodeOf(d.children[j], d.id));
    } else if Placed(d.children, d.id, n) {
      PlacedChildren(d.children, d.id, n, x);
      var m :| Placed(d.children, d.id, m) && m.id == x && m.parentId == n.id;
      assert Placed(ds, p, m);
    } else {
      PlacedChildren(ds[1..], p, n, x);
      var m :| Placed(ds[1..], p, m) && m.id == x && m.parentId == n.id;
      assert Placed(ds, p, m);
    }
  }

  /** A placed node's children list is duplicate-free. */
  lemma {:induction false} PlacedNoDup(ds: seq<Decoded>, p: Id, n: Node)
    requires NoDup(AllIds(ds)) && Placed(ds, p, n)
    ensures NoDup(n.children)
    decreases ds
  {
    SplitAll(ds);
    var d := ds[0];
    if n == NodeOf(d, p) {
      NoDupIds(d.children);
    } else if Placed(d.children, d.id, n) {
      PlacedNoDup(d.children, d.id, n);
    } else {
      PlacedNoDup(ds[1..], p, n);
    }
  }

  /** Every cached node of a load is a placed node keyed by its own id. */
  lemma LoadedNodes(ds: seq<Decoded>, t: Id)
    requires NoDup(AllIds(ds))
    ensures forall x :: x in Load(ds, t).cache ==>
      Placed(ds, t, Load(ds, t).cache[x]) && Load(ds, t).cache[x].id == x
    ensures forall n :: Placed(ds, t, n) ==> n.id in Load(ds, t).cache && Load(ds, t).cache[n.id] == n
  {
    var c := Load(ds, t).cache;
    forall n | Placed(ds, t, n)
      ensures n.id in c && c[n.id] == n
    {
      IndexFinds(map[], ds, t, n);
    }
    forall x | x in c
      ensures Placed(ds, t, c[x]) && c[x].id == x
    {
      var n := PlacedNode(ds, t, x);
      assert c[n.id] == n;
    }
  }

  lemma LoadTopAgrees(ds: seq<Decoded>, t: Id)
    requires NoDup(AllIds(ds))
    ensures TopAgrees(Load(ds, t), t)
  {
    var st := Load(ds, t);
    LoadedNodes(ds, t);
    forall x | x in st.top
      ensures x in st.cache && st.cache[x].parentId == t
    {
      var i :| 0 <= i < |ds| && ds[i].id == x;
      PlacedTop(ds, t, i);
    }
  }

  lemma LoadChildrenAgree(ds: seq<Decoded>, t: Id)
    requires NoDup(AllIds(ds))
    ensures ChildrenAgree(Load(ds, t))
  {
    LoadedNodes(ds, t);
    PlacedAgree(Load(ds, t), ds, t);
  }

  /** A cache holding exactly the placed nodes, each keyed by its id,
      agrees with the children lists. */
  lemma PlacedAgree(st: State, ds: seq<Decoded>, t: Id)
    requires forall x :: x in st.cache ==> Placed(ds, t, st.cache[x]) && st.cache[x].id == x
    requires forall n :: Placed(ds, t, n) ==> n.id in st.cache && st.cache[n.id] == n
    ensures ChildrenAgree(st)
  {
    forall q, x | q in st.cache && x in st.cache[q].children
      ensures x in st.cache && st.cache[x].parentId == q
    {
      PlacedChildren(ds, t, st.cache[q], x);
      var m :| Placed(ds, t, m) && m.id == x && m.parentId == st.cache[q].id;
    }
  }

  lemma LoadContainersNoDup(ds: seq<Decoded>, t: Id)
    requires NoDup(AllIds(ds))
    ensures ContainersNoDup(Load(ds, t))
  {
    var st := Load(ds, t);
    NoDupIds(ds);
    forall q | q in st.cache
      ensures NoDup(st.cache[q].children)
    {
      LoadChildrenNoDup(ds, t, q);
    }
  }

  lemma LoadChildrenNoDup(ds: seq<Decoded>, t: Id, q: Id)
    requires NoDup(AllIds(ds)) && q in Load(ds, t).cache
    ensures NoDup(Load(ds, t).cache[q].children)
  {
    LoadedNodes(ds, t);
    PlacedNoDup(ds, t, Load(ds, t).cache[q]);
  }

  lemma LoadHeld(ds: seq<Decoded>, t: Id)
    requires NoDup(AllIds(ds)) && t !in AllIds(ds)
    ensures AllHeld(Load(ds, t), t)
  {
    var st := Load(ds, t);
    LoadedNodes(ds, t);
    forall x | x in st.cache
      ensures Held(st, t, x)
    {
      var n := st.cache[x];
      PlacedHeld(ds, t, n);
      if !(n.parentId == t && n.id in Ids(ds)) {
        var m :| Placed(ds, t, m) && m.id == n.parentId && n.id in m.children;
        PlacedIn(ds, t, m);
        assert n.parentId != t;
        assert st.cache[m.id] == m;
      }
    }
  }

  /** A load whose ids are distinct and differ from the top marker
      satisfies the tree invariant. */
  lemma LoadPreservesWf(ds: seq<Decoded>, t: Id)
    requires NoDup(AllIds(ds)) && t !in AllIds(ds)
    ensures Wf(Load(ds, t), t)
  {
    LoadTopAgrees(ds, t);
    LoadContainersNoDup(ds, t);
    LoadChildrenAgree(ds, t);
    LoadHeld(ds, t);
    LoadedNodes(ds, t);
  }
}
