/** The anchored strategy
    (src/Sitecore.JsonDataProvider/Data/Mappings/SubTreeFileMapping.cs):
    the backing file holds the children of one configured anchor item,
    which is not itself cached; the anchor id is the top marker, so the
    top-level list holds exactly the items whose parent is the anchor.
    Every mutation short-circuits to `false` on a read-only mapping. */
module SubTreeFileMapping {
  import opened Types
  import opened Seqs
  import opened Tree
  import opened AbstractMapping
  import opened ItemTree

  /** The two shapes the backing file may decode to: a list of items, or
      a dictionary from root ids to item lists. `None` is a JSON null. */
  datatype SubTreeDoc =
    | AsList(items: Option<seq<Decoded>>)
    | AsMap(entries: Option<seq<(Id, Option<seq<Decoded>>)>>)

  /** `Deserialize`: a list is taken as is. A null or empty dictionary
      yields nothing; a dictionary with several keys, or whose single key
      is not the anchor, is fatal; otherwise the single value is used. */
  function Deserialize(doc: SubTreeDoc, anchor: Id): (r: Result<Option<seq<Decoded>>>)
    ensures doc.AsList? ==> r == Ok(doc.items)
    ensures doc.AsMap? && (doc.entries.None? || doc.entries.value == []) ==> r == Ok(None)
    ensures doc.AsMap? && doc.entries.Some? && |doc.entries.value| > 1 ==> r == Err(ManyRootKeys)
    ensures doc.AsMap? && doc.entries.Some? && |doc.entries.value| == 1 ==>
      var (key, items) := doc.entries.value[0];
      (key == anchor ==> r == Ok(items)) && (key != anchor ==> r == Err(RootKeyMismatch(key)))
  {
    match doc
    case AsList(items) => Ok(items)
    case AsMap(None) => Ok(None)
    case AsMap(Some(entries)) =>
      if |entries| == 0 then Ok(None)
      else if |entries| != 1 then Err(ManyRootKeys)
      else if entries[0].0 != anchor then Err(RootKeyMismatch(entries[0].0))
      else Ok(entries[0].1)
  }

  /** A decoded file is accepted exactly when it is a list, or a
      dictionary with no key or with the anchor as its only key; the items
      accepted are the list's, or the value under the anchor key. */
  lemma DeserializeAccepts(doc: SubTreeDoc, anchor: Id)
    ensures Deserialize(doc, anchor).Ok? <==>
      doc.AsList? || doc.entries.None? || doc.entries.value == []
      || (|doc.entries.value| == 1 && doc.entries.value[0].0 == anchor)
    ensures var r := Deserialize(doc, anchor);
      r.Ok? && r.value.Some? ==> doc == AsList(r.value) || doc == AsMap(Some([(anchor, r.value)]))
    ensures var r := Deserialize(doc, anchor);
      r.Ok? && r.value.None? ==>
        doc == AsList(None) || doc == AsMap(None) || doc == AsMap(Some([])) || doc == AsMap(Some([(anchor, None)]))
  {
    if doc.AsMap? && doc.entries.Some? && |doc.entries.value| > 1 {
      assert Deserialize(doc, anchor) == Err(ManyRootKeys);
    }
    if doc.AsMap? && doc.entries.Some? && |doc.entries.value| == 1 {
      assert doc.entries.value == [doc.entries.value[0]];
    }
  }

  /** `Initialize`: every decoded top-level item is held by the anchor and
      its subtree is indexed; nothing decoded gives an empty mapping. */
  function Initialize(doc: SubTreeDoc, anchor: Id): (r: Result<State>)
    ensures r.Err? <==> Deserialize(doc, anchor).Err?
    ensures Deserialize(doc, anchor) == Ok(None) ==> r == Ok(EmptyState)
    ensures Deserialize(doc, anchor).Ok? && Deserialize(doc, anchor).value.Some? ==>
      var items := Deserialize(doc, anchor).value.value;
      r.Ok? && r.value.top == Ids(items) && forall x :: x in r.value.cache <==> x in AllIds(items)
  {
    match Deserialize(doc, anchor)
    case Err(f) => Err(f)
    case Ok(None) => Ok(EmptyState)
    case Ok(Some(items)) => Ok(Load(items, anchor))
  }

  /** An accepted file whose ids are distinct and differ from the anchor
      loads into a well-formed subtree whose top-level items name the
      anchor as parent. */
  lemma InitializePreservesWf(doc: SubTreeDoc, anchor: Id, items: seq<Decoded>)
    requires Deserialize(doc, anchor) == Ok(Some(items))
    requires NoDup(AllIds(items)) && anchor !in AllIds(items)
    ensures Initialize(doc, anchor).Ok? && Wf(Initialize(doc, anchor).value, anchor)
  {
    LoadPreservesWf(items, anchor);
  }

  /** `GetChildIDs`: the top-level ids for the anchor, the children of a
      cached item, `None` otherwise. */
  function GetChildIDs(st: State, anchor: Id, id: Id): (r: Option<seq<Id>>)
    ensures r.Some? <==> id == anchor || id in st.cache
    ensures id == anchor ==> r == Some(st.top)
    ensures id != anchor && id in st.cache ==> r == Some(st.cache[id].children)
  {
    if id == anchor then Some(st.top)
    else if id in st.cache then Some(st.cache[id].children)
    else None
  }

  /** In a well-formed subtree the child ids of the anchor or of a cached
      item are exactly the items naming it as parent, each once. */
  lemma ChildIDsAreChildren(st: State, anchor: Id, id: Id)
    requires Wf(st, anchor) && (id == anchor || id in st.cache)
    ensures NoDup(GetChildIDs(st, anchor, id).value)
    ensures forall x :: x in GetChildIDs(st, anchor, id).value <==> x in st.cache && st.cache[x].parentId == id
  {
    MembersAreChildren(st, anchor, id);
    assert GetChildIDs(st, anchor, id).value == Members(st, HolderFor(anchor, id));
  }

  /** `AcceptsNewChildrenOf`. */
  function AcceptsNewChildrenOf(st: State, anchor: Id, readOnly: bool, id: Id): (r: bool)
    ensures r <==> !readOnly && (id == anchor || id in st.cache)
  {
    if readOnly then false
    else if id == anchor then true
    else id in st.cache
  }

  /** A container accepts new children exactly when the mapping is
      writable and `GetChildIDs` answers for it. */
  lemma AcceptsWhereChildIDsAnswer(st: State, anchor: Id, readOnly: bool, id: Id)
    ensures AcceptsNewChildrenOf(st, anchor, readOnly, id) <==> !readOnly && GetChildIDs(st, anchor, id).Some?
    ensures AcceptsNewChildrenOf(st, anchor, readOnly, id) ==>
      Valid(st, HolderFor(anchor, id)) && GetChildIDs(st, anchor, id).value == Members(st, HolderFor(anchor, id))
  {
  }

  function NewItem(itemId: Id, name: string, templateId: Id, parentId: Id): Node
  {
    Node(itemId, name, templateId, parentId, [], NoFields)
  }

  /** Appends `n`'s id to container `h`, then caches `n` under its id,
      replacing any item cached there. The container is fetched before the
      cache entry is written, so when `n` replaces the item whose children
      are `h`, the appended id goes to the replaced item. */
  function AddUnder(st: State, h: Holder, n: Node): (r: State)
    requires Valid(st, h)
    ensures r.cache.Keys == st.cache.Keys + {n.id}
    ensures r.cache[n.id] == n
    ensures r.top == Members(st, TopList) + (if h == TopList then [n.id] else [])
    ensures h != ChildrenOf(n.id) ==> Members(r, h) == Members(st, h) + [n.id]
    ensures forall g :: g != h && g != ChildrenOf(n.id) ==> Members(r, g) == Members(st, g)
    ensures forall x :: x in st.cache && x != n.id ==> r.cache[x] == st.cache[x].(children := r.cache[x].children)
  {
    var attached := Attach(st, h, n.id);
    attached.(cache := attached.cache[n.id := n])
  }

  /** For a new id, `AddUnder` is `Insert`. */
  lemma AddUnderNew(st: State, h: Holder, n: Node)
    requires Valid(st, h) && n.id !in st.cache
    ensures AddUnder(st, h, n) == Insert(st, h, n)
  {
    var r := AddUnder(st, h, n);
    var i := Insert(st, h, n);
    assert r.top == i.top;
    assert r.cache == i.cache by {
      forall x | x in r.cache
        ensures x in i.cache && r.cache[x] == i.cache[x]
      {
      }
    }
  }

  /** `CreateItem`: false on a read-only mapping or for an uncached parent
      other than the anchor; otherwise the new item is stored in the cache
      under its id, replacing any item with that id, and appended to the
      top-level list (anchor parent) or to its parent's children. */
  function CreateItem(st: State, anchor: Id, readOnly: bool, itemId: Id, name: string, templateId: Id, parentId: Id): (r: Outcome<bool>)
    ensures r.Done?
    ensures r.value <==> AcceptsNewChildrenOf(st, anchor, readOnly, parentId)
    ensures !r.value ==> r.state == st
    ensures r.value ==>
      var h := HolderFor(anchor, parentId);
      && r.state.cache.Keys == st.cache.Keys + {itemId}
      && r.state.cache[itemId] == NewItem(itemId, name, templateId, parentId)
      && (h != ChildrenOf(itemId) ==> Members(r.state, h) == Members(st, h) + [itemId])
      && (forall g :: g != h && g != ChildrenOf(itemId) ==> Members(r.state, g) == Members(st, g))
      && (forall x :: x in st.cache && x != itemId ==> r.state.cache[x] == st.cache[x].(children := r.state.cache[x].children))
  {
    if !AcceptsNewChildrenOf(st, anchor, readOnly, parentId) then Done(st, false)
    else Done(AddUnder(st, HolderFor(anchor, parentId), NewItem(itemId, name, templateId, parentId)), true)
  }

  /** Creating an item with a new id other than the anchor keeps the
      subtree well formed. */
  lemma CreatePreservesWf(st: State, anchor: Id, readOnly: bool, itemId: Id, name: string, templateId: Id, parentId: Id)
    requires Wf(st, anchor) && itemId !in st.cache && itemId != anchor
    ensures Wf(CreateItem(st, anchor, readOnly, itemId, name, templateId, parentId).state, anchor)
  {
    if AcceptsNewChildrenOf(st, anchor, readOnly, parentId) {
      var n := NewItem(itemId, name, templateId, parentId);
      AddUnderNew(st, HolderFor(anchor, parentId), n);
      InsertPreservesWf(st, anchor, n);
    }
  }

  /** The anchored copy helper `DoCopy` is not part of this model: it is a
      parameter that builds the copy node. */
  type Copier = (Id, Id, Id, string) -> Node

  /** `CopyItem`: false on a read-only mapping or for an uncached
      destination other than the anchor; otherwise the node `DoCopy`
      builds is stored in the cache under its own id, replacing any item
      with that id, and appended to the destination's list. */
  function CopyItem(st: State, anchor: Id, readOnly: bool, copier: Copier,
                    sourceId: Id, destId: Id, copyId: Id, copyName: string): (r: Outcome<bool>)
    ensures r.Done?
    ensures r.value <==> AcceptsNewChildrenOf(st, anchor, readOnly, destId)
    ensures !r.value ==> r.state == st
    ensures r.value ==>
      var h := HolderFor(anchor, destId);
      var copy := copier(sourceId, destId, copyId, copyName);
      && r.state.cache.Keys == st.cache.Keys + {copy.id}
      && r.state.cache[copy.id] == copy
      && (h != ChildrenOf(copy.id) ==> Members(r.state, h) == Members(st, h) + [copy.id])
      && (forall g :: g != h && g != ChildrenOf(copy.id) ==> Members(r.state, g) == Members(st, g))
      && (forall x :: x in st.cache && x != copy.id ==> r.state.cache[x] == st.cache[x].(children := r.state.cache[x].children))
  {
    if !AcceptsNewChildrenOf(st, anchor, readOnly, destId) then Done(st, false)
    else Done(AddUnder(st, HolderFor(anchor, destId), copier(sourceId, destId, copyId, copyName)), true)
  }

  /** When `DoCopy` builds a childless copy under a new id, held by the
      destination, the copy keeps the subtree well formed. */
  lemma CopyPreservesWf(st: State, anchor: Id, readOnly: bool, copier: Copier,
                        sourceId: Id, destId: Id, copyId: Id, copyName: string)
    requires Wf(st, anchor)
    requires var copy := copier(sourceId, destId, copyId, copyName);
      copy.id !in st.cache && copy.id != anchor && copy.parentId == destId && copy.children == []
    ensures Wf(CopyItem(st, anchor, readOnly, copier, sourceId, destId, copyId, copyName).state, anchor)
  {
    if AcceptsNewChildrenOf(st, anchor, readOnly, destId) {
      var copy := copier(sourceId, destId, copyId, copyName);
      AddUnderNew(st, HolderFor(anchor, destId), copy);
      InsertPreservesWf(st, anchor, copy);
    }
  }

  /** The fault a move raises, if any: the current parent is checked
      first unless it is the anchor. */
  function MoveFault(st: State, anchor: Id, parentId: Id, targetId: Id): Option<Fault>
  {
    if parentId != anchor && parentId !in st.cache then Some(MissingParent(parentId))
    else if targetId != anchor && targetId !in st.cache then Some(OutsideMapping(targetId))
    else None
  }

  /** `MoveItem`, as the source writes it: false on a read-only mapping or
      for an unknown item; true with no change when the recorded parent
      is already the target; a missing parent or an uncached target
      other than the anchor is fatal. Otherwise the item leaves its
      parent's container and is appended to the target's, and its
      recorded parent is left unchanged. */
  function MoveItem(st: State, anchor: Id, readOnly: bool, itemId: Id, targetId: Id): (r: Outcome<bool>)
    ensures readOnly || itemId !in st.cache ==> r == Done(st, false)
    ensures !readOnly && itemId in st.cache && st.cache[itemId].parentId == targetId ==> r == Done(st, true)
    ensures !readOnly && itemId in st.cache && st.cache[itemId].parentId != targetId ==>
      var p := st.cache[itemId].parentId;
      && (r.Fatal? <==> MoveFault(st, anchor, p, targetId).Some?)
      && (r.Fatal? ==> r.fault == MoveFault(st, anchor, p, targetId).value)
      && (r.Done? ==>
            var from := HolderFor(anchor, p);
            var to := HolderFor(anchor, targetId);
            && r.value
            && r.state.cache.Keys == st.cache.Keys
            && (forall x :: x in st.cache ==> r.state.cache[x] == st.cache[x].(children := r.state.cache[x].children))
            && Members(r.state, from) == RemoveFirst(Members(st, from), itemId)
            && Members(r.state, to) == Members(st, to) + [itemId]
            && (forall g :: g != from && g != to && Valid(st, g) ==> Members(r.state, g) == Members(st, g)))
  {
    if readOnly || itemId !in st.cache then Done(st, false)
    else
      var p := st.cache[itemId].parentId;
      if p == targetId then Done(st, true)
      else
        match MoveFault(st, anchor, p, targetId)
        case Some(f) => Fatal(f)
        case None =>
          var from := HolderFor(anchor, p);
          var to := HolderFor(anchor, targetId);
          var detached := Detach(st, from, itemId);
          WithMembersFrame(st, from, RemoveFirst(Members(st, from), itemId));
          WithMembersFrame(detached, to, Members(detached, to) + [itemId]);
          Done(Attach(detached, to, itemId), true)
  }

  /** One move from a well-formed subtree keeps every item in exactly one
      container, and never fails. */
  lemma MoveKeepsMembership(st: State, anchor: Id, readOnly: bool, itemId: Id, targetId: Id)
    requires Wf(st, anchor) && (targetId == anchor || targetId in st.cache)
    ensures MoveItem(st, anchor, readOnly, itemId, targetId).Done?
    ensures UniqueMembership(MoveItem(st, anchor, readOnly, itemId, targetId).state)
  {
    WfUnique(st, anchor);
    if !readOnly && itemId in st.cache && st.cache[itemId].parentId != targetId {
      assert Held(st, anchor, itemId);
      MovePreservesMembership(st, anchor, itemId, HolderFor(anchor, targetId));
    }
  }

  /** `MoveItem` with the recorded parent updated to the target. */
  function MoveItemRelinked(st: State, anchor: Id, readOnly: bool, itemId: Id, targetId: Id): (r: Outcome<bool>)
    ensures readOnly || itemId !in st.cache ==> r == Done(st, false)
    ensures !readOnly && itemId in st.cache && st.cache[itemId].parentId == targetId ==> r == Done(st, true)
    ensures !readOnly && itemId in st.cache && st.cache[itemId].parentId != targetId ==>
      var p := st.cache[itemId].parentId;
      && (r.Fatal? <==> MoveFault(st, anchor, p, targetId).Some?)
      && (r.Done? ==>
            (r.value && itemId in r.state.cache && r.state.cache[itemId].parentId == targetId
             && itemId in Members(r.state, HolderFor(anchor, targetId))))
  {
    if readOnly || itemId !in st.cache then Done(st, false)
    else
      var p := st.cache[itemId].parentId;
      if p == targetId then Done(st, true)
      else
        match MoveFault(st, anchor, p, targetId)
        case Some(f) => Fatal(f)
        case None =>
          var to := HolderFor(anchor, targetId);
          var r := Relink(st, anchor, itemId, to);
          assert to.TopList? ==> Members(r, to) == r.top;
          assert to.ChildrenOf? ==> Members(r, to) == r.cache[targetId].children;
          Done(r, true)
  }

  /** The corrected move keeps the subtree well formed, parent agreement
      included, and never fails. */
  lemma MoveRelinkedPreservesWf(st: State, anchor: Id, readOnly: bool, itemId: Id, targetId: Id)
    requires Wf(st, anchor) && (targetId == anchor || targetId in st.cache)
    ensures MoveItemRelinked(st, anchor, readOnly, itemId, targetId).Done?
    ensures Wf(MoveItemRelinked(st, anchor, readOnly, itemId, targetId).state, anchor)
  {
    if !readOnly && itemId in st.cache && st.cache[itemId].parentId != targetId {
      assert Held(st, anchor, itemId);
      RelinkPreservesWf(st, anchor, itemId, HolderFor(anchor, targetId));
    }
  }

  /** The subtree used to exhibit the lost move: anchor `A` holds the
      items `X` and `T`. */
  const A := Guid("A")
  const X := Guid("X")
  const T := Guid("T")

  function Sample(): State
  {
    State(
      map[X := Node(X, "x", Null, A, [], NoFields),
          T := Node(T, "t", Null, A, [], NoFields)],
      [X, T])
  }

  lemma SampleKeys()
    ensures forall x :: x in Sample().cache <==> x == X || x == T
    ensures KeysMatch(Sample()) && A !in Sample().cache
  {
  }

  lemma SampleWf()
    ensures Wf(Sample(), A)
  {
    var st := Sample();
    SampleKeys();
    assert NoDup(st.top) by {
      assert st.top[0] != st.top[1];
    }
    assert ContainersNoDup(st);
    assert forall x :: x in st.cache ==> Held(st, A, x);
  }

  /** Moving `X` under `T` and back to the anchor loses the second move:
      `X` still records the anchor as parent, so the second call reports
      success without changing anything, and `X` stays out of the
      top-level list. */
  lemma MoveBackIsLost()
    ensures Wf(Sample(), A)
    ensures var once := MoveItem(Sample(), A, false, X, T);
      && once.Done? && X !in once.state.top && X in once.state.cache[T].children
      && once.state.cache[X].parentId == A
      && MoveItem(once.state, A, false, X, A) == Done(once.state, true)
      && !Wf(once.state, A)
  {
    SampleWf();
    var st := Sample();
    assert RemoveFirst([X, T], X) == [T];
    var once := MoveItem(st, A, false, X, T);
    assert once.state.top == [T];
    assert X !in once.state.top;
    assert !TopAgrees(once.state, A) || !AllHeld(once.state, A) by {
      assert X in once.state.cache;
      assert !Held(once.state, A, X);
    }
  }

  /** `DoDeleteItem` and `DeleteItem`: false for an unknown item; an item
      held by the anchor leaves the top-level list, any other leaves its
      parent's children, and a missing parent is fatal; the subtree then
      leaves the cache. */
  function DeleteItem(st: State, anchor: Id, id: Id): (r: Outcome<bool>)
    ensures id !in st.cache ==> r == Done(st, false)
    ensures id in st.cache ==>
      (r.Fatal? <==> st.cache[id].parentId != anchor && st.cache[id].parentId !in st.cache)
    ensures r.Done? && id in st.cache ==>
      var h := HolderFor(anchor, st.cache[id].parentId);
      && r.value
      && id !in r.state.cache
      && r.state.cache.Keys <= st.cache.Keys
      && (forall x :: x in r.state.cache ==> r.state.cache[x] == st.cache[x].(children := r.state.cache[x].children))
      && (forall x :: x in r.state.cache && ChildrenOf(x) != h ==> r.state.cache[x] == st.cache[x])
      && (h.TopList? ==> r.state.top == RemoveFirst(st.top, id))
      && (h.ChildrenOf? ==> r.state.top == st.top)
      && (h.ChildrenOf? && h.parent in r.state.cache ==> r.state.cache[h.parent].children == RemoveFirst(st.cache[h.parent].children, id))
  {
    if id !in st.cache then Done(st, false)
    else
      var h := HolderFor(anchor, st.cache[id].parentId);
      if !Valid(st, h) then Fatal(MissingParent(st.cache[id].parentId))
      else
        WithMembersFrame(st, h, RemoveFirst(Members(st, h), id));
        Done(DropSubtree(st, h, id), true)
  }

  /** Deleting from a well-formed subtree never fails and keeps it well
      formed. */
  lemma DeletePreservesWf(st: State, anchor: Id, id: Id)
    requires Wf(st, anchor)
    ensures DeleteItem(st, anchor, id).Done?
    ensures Wf(DeleteItem(st, anchor, id).state, anchor)
  {
    if id in st.cache {
      AbstractMapping.DeletePreservesWf(st, anchor, id);
    }
  }

  /** Deletion removes the whole subtree of `id`: a child of a removed item
      is removed too. */
  lemma DeleteRemovesWholeSubtree(st: State, anchor: Id, id: Id, x: Id, y: Id)
    requires DeleteItem(st, anchor, id).Done?
    requires x in st.cache && x !in DeleteItem(st, anchor, id).state.cache
    requires y in st.cache[x].children && y != id
    ensures y !in DeleteItem(st, anchor, id).state.cache
  {
    var h := HolderFor(anchor, st.cache[id].parentId);
    var d := Detach(st, h, id);
    WithMembersFrame(st, h, RemoveFirst(Members(st, h), id));
    assert y in d.cache[x].children by {
      if h == ChildrenOf(x) {
        assert d.cache[x].children == RemoveFirst(st.cache[x].children, id);
      }
    }
    RemoveTreeClosed(d.cache, id, x, y);
  }

  /** Deletion removes no item outside the subtree of `id`: every removed
      item lies in any set that contains `id` and is closed under
      children. */
  lemma DeleteRemovesOnlySubtree(st: State, anchor: Id, id: Id, s: set<Id>)
    requires id in s
    requires forall y, z :: y in s && y in st.cache && z in st.cache[y].children ==> z in s
    requires DeleteItem(st, anchor, id).Done?
    ensures forall x :: x in st.cache && x !in DeleteItem(st, anchor, id).state.cache ==> x in s
  {
    if id in st.cache {
      var h := HolderFor(anchor, st.cache[id].parentId);
      var d := Detach(st, h, id);
      WithMembersFrame(st, h, RemoveFirst(Members(st, h), id));
      forall y, z | y in s && y in d.cache && z in d.cache[y].children
        ensures z in s
      {
        assert z in st.cache[y].children;
      }
      RemoveTreeWithin(d.cache, id, s);
    }
  }

  /** `GetCommitObject`: the top-level list itself. In a well-formed
      subtree it names each item held by the anchor exactly once. */
  function GetCommitObject(st: State): (r: seq<Id>)
    ensures r == Members(st, TopList)
  {
    st.top
  }

  lemma CommitObjectIsTopLevel(st: State, anchor: Id)
    requires Wf(st, anchor)
    ensures NoDup(GetCommitObject(st))
    ensures forall x :: x in GetCommitObject(st) <==> x in st.cache && st.cache[x].parentId == anchor
  {
    MembersAreChildren(st, anchor, anchor);
  }
}
