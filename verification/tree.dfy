/** The two-way bookkeeping of the item tree. Every cached item is held by
    exactly one container: the mapping's top-level list or the children list
    of one cached item. Its `parentId` names that container: the top marker
    `t` for the top-level list (`Null` in a forest mapping, the anchor in an
    anchored one), the holder's id otherwise. */
module Tree {
  import opened Types
  import opened Seqs

  /** A container of item ids. */
  datatype Holder = TopList | ChildrenOf(parent: Id)

  /** The ids a container holds; the children list of an uncached item is
      empty. */
  function Members(st: State, h: Holder): seq<Id>
  {
    match h
    case TopList => st.top
    case ChildrenOf(p) => if p in st.cache then st.cache[p].children else []
  }

  /** The container an item whose parent is `parentId` belongs to. */
  function HolderFor(t: Id, parentId: Id): Holder
  {
    if parentId == t then TopList else ChildrenOf(parentId)
  }

  /** A container that exists: the top-level list or a cached item's
      children. */
  predicate Valid(st: State, h: Holder)
  {
    h.ChildrenOf? ==> h.parent in st.cache
  }

  function WithMembers(st: State, h: Holder, ids: seq<Id>): (r: State)
    requires Valid(st, h)
    ensures Members(r, h) == ids
    ensures r.cache.Keys == st.cache.Keys
  {
    match h
    case TopList => st.(top := ids)
    case ChildrenOf(p) => st.(cache := st.cache[p := st.cache[p].(children := ids)])
  }

  /** Appends `x` to a container (`List.Add`); every other container and
      every node's own data stay as they were. */
  function Attach(st: State, h: Holder, x: Id): (r: State)
    requires Valid(st, h)
    ensures Members(r, h) == Members(st, h) + [x]
    ensures r.cache.Keys == st.cache.Keys
    ensures forall g :: g != h ==> Members(r, g) == Members(st, g)
    ensures forall y :: y in st.cache ==> r.cache[y] == st.cache[y].(children := r.cache[y].children)
  {
    WithMembersFrame(st, h, Members(st, h) + [x]);
    WithMembers(st, h, Members(st, h) + [x])
  }

  /** Removes the first occurrence of `x` from a container (`List.Remove`);
      every other container and every node's own data stay as they were. */
  function Detach(st: State, h: Holder, x: Id): (r: State)
    requires Valid(st, h)
    ensures Members(r, h) == RemoveFirst(Members(st, h), x)
    ensures r.cache.Keys == st.cache.Keys
    ensures forall g :: g != h ==> Members(r, g) == Members(st, g)
    ensures forall y :: y in st.cache ==> r.cache[y] == st.cache[y].(children := r.cache[y].children)
  {
    WithMembersFrame(st, h, RemoveFirst(Members(st, h), x));
    WithMembers(st, h, RemoveFirst(Members(st, h), x))
  }

  /** Detaching an id just attached to a container that did not hold it
      restores the state exactly. */
  lemma DetachUndoesAttach(st: State, h: Holder, x: Id)
    requires Valid(st, h) && x !in Members(st, h)
    ensures Detach(Attach(st, h, x), h, x) == st
  {
    RemoveAppended(Members(st, h), x);
    var r := Detach(Attach(st, h, x), h, x);
    match h
    case TopList =>
    case ChildrenOf(p) =>
      assert r.cache[p] == st.cache[p];
      assert r.cache == st.cache;
  }

  /** Caches a node and appends it to a container. */
  function Insert(st: State, h: Holder, n: Node): (r: State)
    requires Valid(st, h)
    ensures r.cache.Keys == st.cache.Keys + {n.id}
  {
    Attach(st.(cache := st.cache[n.id := n]), h, n.id)
  }

  ghost predicate KeysMatch(st: State)
  {
    forall x :: x in st.cache ==> st.cache[x].id == x
  }

  ghost predicate ContainersNoDup(st: State)
  {
    NoDup(st.top) && forall p :: p in st.cache ==> NoDup(st.cache[p].children)
  }

  /** Each top-level id is cached and its parent is the top marker. */
  ghost predicate TopAgrees(st: State, t: Id)
  {
    forall x :: x in st.top ==> x in st.cache && st.cache[x].parentId == t
  }

  /** Each child id is cached and its parent is its holder. */
  ghost predicate ChildrenAgree(st: State)
  {
    forall p, x :: p in st.cache && x in st.cache[p].children ==>
      x in st.cache && st.cache[x].parentId == p
  }

  /** A cached item sits in the container its parent names. */
  ghost predicate Held(st: State, t: Id, x: Id)
    requires x in st.cache
  {
    x in Members(st, HolderFor(t, st.cache[x].parentId))
  }

  ghost predicate AllHeld(st: State, t: Id)
  {
    forall x {:trigger Held(st, t, x)} :: x in st.cache ==> Held(st, t, x)
  }

  /** The tree invariant for top marker `t`. */
  ghost predicate Wf(st: State, t: Id)
  {
    && t !in st.cache
    && KeysMatch(st)
    && ContainersNoDup(st)
    && TopAgrees(st, t)
    && ChildrenAgree(st)
    && AllHeld(st, t)
  }

  /** Every held id is cached. */
  ghost predicate Closed(st: State)
  {
    && (forall x :: x in st.top ==> x in st.cache)
    && (forall p, x :: p in st.cache && x in st.cache[p].children ==> x in st.cache)
  }

  /** Some container holds the cached item `x`. */
  ghost predicate Contained(st: State, x: Id)
  {
    x in st.top || exists p :: p in st.cache && x in st.cache[p].children
  }

  /** No id sits in two different containers. */
  ghost predicate Disjoint(st: State)
  {
    && (forall p, x :: p in st.cache && x in st.cache[p].children ==> x !in st.top)
    && (forall p, q, x :: p in st.cache && q in st.cache && x in st.cache[p].children && x in st.cache[q].children ==> p == q)
  }

  /** Every cached item is held exactly once by exactly one container, and
      every held id is cached; `parentId` is not consulted. */
  ghost predicate UniqueMembership(st: State)
  {
    && ContainersNoDup(st)
    && Closed(st)
    && (forall x :: x in st.cache ==> Contained(st, x))
    && Disjoint(st)
  }

  lemma WfClosed(st: State, t: Id)
    requires Wf(st, t)
    ensures Closed(st)
  {
  }

  lemma WfContained(st: State, t: Id)
    requires Wf(st, t)
    ensures forall x :: x in st.cache ==> Contained(st, x)
  {
    forall x | x in st.cache
      ensures Contained(st, x)
    {
      assert Held(st, t, x);
    }
  }

  lemma WfDisjoint(st: State, t: Id)
    requires Wf(st, t)
    ensures Disjoint(st)
  {
    forall p, q, x | p in st.cache && q in st.cache && x in st.cache[p].children && x in st.cache[q].children
      ensures p == q
    {
      assert st.cache[x].parentId == p;
      assert st.cache[x].parentId == q;
    }
  }

  /** The invariant implies unique membership. */
  lemma WfUnique(st: State, t: Id)
    requires Wf(st, t)
    ensures UniqueMembership(st)
  {
    WfClosed(st, t);
    WfContained(st, t);
    WfDisjoint(st, t);
  }

  /** Under the invariant a container holds exactly the items whose parent
      names it. */
  lemma MembersAreChildren(st: State, t: Id, p: Id)
    requires Wf(st, t)
    requires p == t || p in st.cache
    ensures forall x :: x in Members(st, HolderFor(t, p)) <==> x in st.cache && st.cache[x].parentId == p
  {
    forall x | x in st.cache && st.cache[x].parentId == p
      ensures x in Members(st, HolderFor(t, p))
    {
      assert Held(st, t, x);
    }
  }

  /** The container that holds a cached item exists. */
  lemma HolderIsValid(st: State, t: Id, x: Id)
    requires Wf(st, t) && x in st.cache
    ensures Valid(st, HolderFor(t, st.cache[x].parentId))
  {
    assert Held(st, t, x);
  }

  // Inserting a leaf

  lemma InsertTopNoDup(st: State, t: Id, n: Node)
    requires Wf(st, t)
    requires n.id !in st.cache && n.children == []
    ensures ContainersNoDup(State(st.cache[n.id := n], st.top + [n.id]))
  {
    assert n.id !in st.top;
    AppendNoDup(st.top, n.id);
  }

  lemma InsertTopAgrees(st: State, t: Id, n: Node)
    requires Wf(st, t)
    requires n.id !in st.cache && n.children == [] && n.parentId == t
    ensures var r := State(st.cache[n.id := n], st.top + [n.id]);
      TopAgrees(r, t) && ChildrenAgree(r)
  {
  }

  lemma InsertTopHeld(st: State, t: Id, n: Node)
    requires Wf(st, t)
    requires n.id !in st.cache && n.parentId == t
    ensures AllHeld(State(st.cache[n.id := n], st.top + [n.id]), t)
  {
    var r := State(st.cache[n.id := n], st.top + [n.id]);
    forall x | x in r.cache
      ensures Held(r, t, x)
    {
      if x != n.id {
        assert Held(st, t, x);
      }
    }
  }

  /** The state after caching `n` and appending it to the children of `q`. */
  function InsertUnder(st: State, q: Id, n: Node): State
    requires q in st.cache
  {
    var c := st.cache[n.id := n];
    State(c[q := st.cache[q].(children := st.cache[q].children + [n.id])], st.top)
  }

  lemma InsertChildNoDup(st: State, t: Id, q: Id, n: Node)
    requires Wf(st, t) && q in st.cache
    requires n.id !in st.cache && n.children == []
    ensures ContainersNoDup(InsertUnder(st, q, n))
  {
    assert n.id !in st.cache[q].children;
    AppendNoDup(st.cache[q].children, n.id);
  }

  lemma InsertChildAgrees(st: State, t: Id, q: Id, n: Node)
    requires Wf(st, t) && q in st.cache
    requires n.id !in st.cache && n.children == [] && n.parentId == q
    ensures TopAgrees(InsertUnder(st, q, n), t) && ChildrenAgree(InsertUnder(st, q, n))
  {
  }

  lemma InsertChildHeld(st: State, t: Id, q: Id, n: Node)
    requires Wf(st, t) && q in st.cache && q != t
    requires n.id !in st.cache && n.parentId == q
    ensures AllHeld(InsertUnder(st, q, n), t)
  {
    var r := InsertUnder(st, q, n);
    forall x | x in r.cache
      ensures Held(r, t, x)
    {
      if x != n.id {
        assert Held(st, t, x);
      }
    }
  }

  lemma InsertChildWf(st: State, t: Id, q: Id, n: Node)
    requires Wf(st, t) && q in st.cache
    requires n.id !in st.cache && n.id != t && n.children == [] && n.parentId == q
    ensures Wf(InsertUnder(st, q, n), t)
  {
    InsertChildNoDup(st, t, q, n);
    InsertChildAgrees(st, t, q, n);
    InsertChildHeld(st, t, q, n);
  }

  /** Inserting a fresh leaf into the container its parent names keeps the
      invariant. */
  lemma InsertPreservesWf(st: State, t: Id, n: Node)
    requires Wf(st, t)
    requires n.id !in st.cache && n.id != t && n.children == []
    requires Valid(st, HolderFor(t, n.parentId))
    ensures Wf(Insert(st, HolderFor(t, n.parentId), n), t)
  {
    if n.parentId == t {
      assert Insert(st, TopList, n) == State(st.cache[n.id := n], st.top + [n.id]);
      InsertTopNoDup(st, t, n);
      InsertTopAgrees(st, t, n);
      InsertTopHeld(st, t, n);
    } else {
      var q := n.parentId;
      assert Insert(st, ChildrenOf(q), n) == InsertUnder(st, q, n);
      InsertChildWf(st, t, q, n);
    }
  }

  // Moving an item between containers

  /** Rewriting one container leaves the others and every node's own data
      alone. */
  lemma WithMembersFrame(st: State, h: Holder, ids: seq<Id>)
    requires Valid(st, h)
    ensures var r := WithMembers(st, h, ids);
      && (forall g :: g != h ==> Members(r, g) == Members(st, g))
      && (forall y :: y in st.cache ==> r.cache[y] == st.cache[y].(children := r.cache[y].children))
  {
  }

  /** Under the invariant, a cached item sits in no container other than the
      one its parent names. */
  lemma OnlyHolder(st: State, t: Id, x: Id, g: Holder)
    requires Wf(st, t) && x in st.cache && Valid(st, g)
    requires g != HolderFor(t, st.cache[x].parentId)
    ensures x !in Members(st, g)
  {
  }

  /** What each container holds after moving `x` out of the container its
      parent names and appending it to `target`. */
  lemma MoveMembers(st: State, t: Id, x: Id, target: Holder, g: Holder)
    requires Wf(st, t) && x in st.cache && Valid(st, target) && Valid(st, g)
    ensures var from := HolderFor(t, st.cache[x].parentId);
      Valid(st, from) &&
      var r := Attach(Detach(st, from, x), target, x);
      && (forall y :: y in Members(r, g) <==> (y != x && y in Members(st, g)) || (y == x && g == target))
      && NoDup(Members(r, g))
  {
    var from := HolderFor(t, st.cache[x].parentId);
    HolderIsValid(st, t, x);
    var d := Detach(st, from, x);
    var r := Attach(d, target, x);
    var m := Members(st, g);
    assert NoDup(m);
    WithMembersFrame(st, from, RemoveFirst(Members(st, from), x));
    WithMembersFrame(d, target, Members(d, target) + [x]);
    RemoveFirstNoDup(m, x);
    if g == from {
      if g == target {
        assert Members(r, g) == RemoveFirst(m, x) + [x];
        AppendNoDup(RemoveFirst(m, x), x);
      } else {
        assert Members(r, g) == RemoveFirst(m, x);
      }
    } else {
      OnlyHolder(st, t, x, g);
      if g == target {
        assert Members(r, g) == m + [x];
        AppendNoDup(m, x);
      } else {
        assert Members(r, g) == m;
      }
    }
  }

  /** `r` is `st` with `x` taken out of every container and appended to
      `target`. */
  ghost predicate Moved(st: State, r: State, x: Id, target: Holder)
  {
    && r.cache.Keys == st.cache.Keys
    && NoDup(r.top)
    && (forall y :: y in r.top <==> (y != x && y in st.top) || (y == x && target == TopList))
    && (forall p :: p in r.cache ==> NoDup(r.cache[p].children))
    && (forall p, y :: p in r.cache ==>
          (y in r.cache[p].children <==> (y != x && y in st.cache[p].children) || (y == x && target == ChildrenOf(p))))
  }

  lemma MovedContained(st: State, r: State, x: Id, target: Holder)
    requires UniqueMembership(st) && Moved(st, r, x, target)
    requires x in st.cache && Valid(st, target)
    ensures forall y :: y in r.cache ==> Contained(r, y)
  {
    forall y | y in r.cache
      ensures Contained(r, y)
    {
      if y == x {
        if target.ChildrenOf? {
          assert y in r.cache[target.parent].children;
        }
      } else {
        assert Contained(st, y);
        if y !in st.top {
          var p :| p in st.cache && y in st.cache[p].children;
          assert y in r.cache[p].children;
        }
      }
    }
  }

  lemma MovedDisjoint(st: State, r: State, x: Id, target: Holder)
    requires UniqueMembership(st) && Moved(st, r, x, target)
    ensures Disjoint(r)
  {
    forall p, q, y | p in r.cache && q in r.cache && y in r.cache[p].children && y in r.cache[q].children
      ensures p == q
    {
    }
  }

  lemma MovedUnique(st: State, r: State, x: Id, target: Holder)
    requires UniqueMembership(st) && Moved(st, r, x, target)
    requires x in st.cache && Valid(st, target)
    ensures UniqueMembership(r)
  {
    MovedContained(st, r, x, target);
    MovedDisjoint(st, r, x, target);
  }

  /** The raw move takes `x` out of the container its parent names and
      appends it to `target`, touching nothing else. */
  lemma MoveIsMoved(st: State, t: Id, x: Id, target: Holder)
    requires Wf(st, t) && x in st.cache && Valid(st, target)
    ensures var from := HolderFor(t, st.cache[x].parentId);
      && Valid(st, from)
      && var r := Attach(Detach(st, from, x), target, x);
      && Moved(st, r, x, target)
      && (forall y :: y in st.cache ==> r.cache[y] == st.cache[y].(children := r.cache[y].children))
  {
    var from := HolderFor(t, st.cache[x].parentId);
    HolderIsValid(st, t, x);
    var d := Detach(st, from, x);
    var r := Attach(d, target, x);
    WithMembersFrame(st, from, RemoveFirst(Members(st, from), x));
    WithMembersFrame(d, target, Members(d, target) + [x]);
    MoveMembers(st, t, x, target, TopList);
    forall p | p in r.cache
      ensures NoDup(r.cache[p].children)
      ensures forall y :: y in r.cache[p].children <==> (y != x && y in st.cache[p].children) || (y == x && target == ChildrenOf(p))
    {
      MoveMembers(st, t, x, target, ChildrenOf(p));
    }
  }

  /** Moving a cached item out of the container its parent names and into
      any existing container keeps every item held exactly once, although
      the item's `parentId` is left as it was. */
  lemma MovePreservesMembership(st: State, t: Id, x: Id, target: Holder)
    requires Wf(st, t) && x in st.cache && Valid(st, target)
    ensures var from := HolderFor(t, st.cache[x].parentId);
      Valid(st, from) && UniqueMembership(Attach(Detach(st, from, x), target, x))
  {
    MoveIsMoved(st, t, x, target);
    WfUnique(st, t);
    var from := HolderFor(t, st.cache[x].parentId);
    MovedUnique(st, Attach(Detach(st, from, x), target, x), x, target);
  }

  /** The corrected move: as above, and the item's `parentId` is set to the
      target container's owner. */
  function Relink(st: State, t: Id, x: Id, target: Holder): (r: State)
    requires x in st.cache && Valid(st, target)
    requires Valid(st, HolderFor(t, st.cache[x].parentId))
    ensures r.cache.Keys == st.cache.Keys
  {
    var moved := Attach(Detach(st, HolderFor(t, st.cache[x].parentId), x), target, x);
    var owner := if target.TopList? then t else target.parent;
    moved.(cache := moved.cache[x := moved.cache[x].(parentId := owner)])
  }

  lemma MovedTopAgrees(st: State, r: State, t: Id, x: Id, target: Holder)
    requires TopAgrees(st, t) && Moved(st, r, x, target)
    requires forall y :: y in st.cache && y != x ==> r.cache[y].parentId == st.cache[y].parentId
    requires x in st.cache && r.cache[x].parentId == (if target.TopList? then t else target.parent)
    ensures TopAgrees(r, t)
  {
    forall y | y in r.top
      ensures y in r.cache && r.cache[y].parentId == t
    {
      if y != x {
        assert y in st.top;
      }
    }
  }

  lemma MovedChildrenAgree(st: State, r: State, t: Id, x: Id, target: Holder)
    requires ChildrenAgree(st) && Moved(st, r, x, target)
    requires forall y :: y in st.cache && y != x ==> r.cache[y].parentId == st.cache[y].parentId
    requires x in st.cache && r.cache[x].parentId == (if target.TopList? then t else target.parent)
    ensures ChildrenAgree(r)
  {
    forall p, y | p in r.cache && y in r.cache[p].children
      ensures y in r.cache && r.cache[y].parentId == p
    {
      if y != x {
        assert y in st.cache[p].children;
      }
    }
  }

  lemma MovedHeld(st: State, r: State, t: Id, x: Id, target: Holder)
    requires Wf(st, t) && Moved(st, r, x, target)
    requires x in st.cache && Valid(st, target)
    requires forall y :: y in st.cache && y != x ==> r.cache[y].parentId == st.cache[y].parentId
    requires r.cache[x].parentId == (if target.TopList? then t else target.parent)
    ensures AllHeld(r, t)
  {
    forall y | y in r.cache
      ensures Held(r, t, y)
    {
      if y != x {
        assert Held(st, t, y);
      }
    }
  }

  lemma MovedSameChildren(st: State, m: State, r: State, x: Id, target: Holder)
    requires Moved(st, m, x, target)
    requires r.top == m.top && r.cache.Keys == m.cache.Keys
    requires forall p :: p in r.cache ==> r.cache[p].children == m.cache[p].children
    ensures Moved(st, r, x, target)
  {
  }

  /** Re-pointing the parent of `x` leaves the containers as they are. */
  lemma SetParentKeepsMoved(st: State, m: State, x: Id, target: Holder, owner: Id)
    requires Moved(st, m, x, target) && x in m.cache
    ensures Moved(st, m.(cache := m.cache[x := m.cache[x].(parentId := owner)]), x, target)
  {
    var r := m.(cache := m.cache[x := m.cache[x].(parentId := owner)]);
    assert forall p :: p in r.cache ==> r.cache[p].children == m.cache[p].children;
    MovedSameChildren(st, m, r, x, target);
  }

  lemma RelinkIsMoved(st: State, t: Id, x: Id, target: Holder)
    requires Wf(st, t) && x in st.cache && Valid(st, target)
    ensures Valid(st, HolderFor(t, st.cache[x].parentId))
    ensures Moved(st, Relink(st, t, x, target), x, target)
  {
    MoveIsMoved(st, t, x, target);
    var m := Attach(Detach(st, HolderFor(t, st.cache[x].parentId), x), target, x);
    SetParentKeepsMoved(st, m, x, target, if target.TopList? then t else target.parent);
  }

  lemma RelinkNodes(st: State, t: Id, x: Id, target: Holder)
    requires Wf(st, t) && x in st.cache && Valid(st, target)
    ensures Valid(st, HolderFor(t, st.cache[x].parentId))
    ensures var r := Relink(st, t, x, target);
      && KeysMatch(r)
      && (forall y :: y in st.cache && y != x ==> r.cache[y].parentId == st.cache[y].parentId)
      && r.cache[x].parentId == (if target.TopList? then t else target.parent)
  {
    MoveIsMoved(st, t, x, target);
    var m := Attach(Detach(st, HolderFor(t, st.cache[x].parentId), x), target, x);
    SetParentNodes(st, m, x, if target.TopList? then t else target.parent);
  }

  /** Re-pointing the parent of `x` in a state whose nodes differ from
      `st`'s only in their children changes no other parent. */
  lemma SetParentNodes(st: State, m: State, x: Id, owner: Id)
    requires KeysMatch(st) && x in st.cache && m.cache.Keys == st.cache.Keys
    requires forall y :: y in st.cache ==> m.cache[y] == st.cache[y].(children := m.cache[y].children)
    ensures var r := m.(cache := m.cache[x := m.cache[x].(parentId := owner)]);
      && KeysMatch(r)
      && (forall y :: y in st.cache && y != x ==> r.cache[y].parentId == st.cache[y].parentId)
      && r.cache[x].parentId == owner
  {
  }

  /** The corrected move keeps the whole invariant. */
  lemma RelinkPreservesWf(st: State, t: Id, x: Id, target: Holder)
    requires Wf(st, t) && x in st.cache && Valid(st, target)
    ensures Valid(st, HolderFor(t, st.cache[x].parentId))
    ensures Wf(Relink(st, t, x, target), t)
  {
    RelinkIsMoved(st, t, x, target);
    RelinkNodes(st, t, x, target);
    var r := Relink(st, t, x, target);
    assert ContainersNoDup(r);
    MovedTopAgrees(st, r, t, x, target);
    MovedChildrenAgree(st, r, t, x, target);
    MovedHeld(st, r, t, x, target);
  }
}
