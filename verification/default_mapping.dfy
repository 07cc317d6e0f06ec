/** The forest strategy (src/Data/Mappings/DefaultMapping.cs): the backing
    file is a dictionary from root ids to their children; each root is
    cached as a hidden holder item whose parent is `Null`, so the top
    marker of this strategy is `Null`. A missing parent or move target is
    materialised as a fresh `"$default-mapping"` root holder. */
module DefaultMapping {
  import opened Types
  import opened Seqs
  import opened FieldStore
  import opened Tree
  import opened AbstractMapping
  import opened ItemTree

  const RootName := "$default-mapping"

  /** One key/value pair of the decoded root dictionary; `None` is a JSON
      null value. */
  datatype RootEntry = RootEntry(key: Id, items: Option<seq<Decoded>>)

  /** The holder item built for a root entry: no name, no template, no
      fields, and the entry's list as children. */
  function HolderOf(e: RootEntry): Decoded
    requires e.items.Some?
  {
    Decoded(e.key, "", Null, NoFields, e.items.value)
  }

  /** The keys of the entries whose value is not null, in entry order. */
  function PresentKeys(entries: seq<RootEntry>): seq<Id>
  {
    if entries == [] then []
    else (if entries[0].items.Some? then [entries[0].key] else []) + PresentKeys(entries[1..])
  }

  /** One holder per entry whose value is not null, in entry order. */
  function Holders(entries: seq<RootEntry>): (r: seq<Decoded>)
    ensures Ids(r) == PresentKeys(entries)
    ensures forall x :: x in Ids(r) <==> exists i :: 0 <= i < |entries| && entries[i].items.Some? && entries[i].key == x
  {
    if entries == [] then []
    else
      var rest := Holders(entries[1..]);
      var r := if entries[0].items.Some? then [HolderOf(entries[0])] + rest else rest;
      assert Ids(r) == (if entries[0].items.Some? then [entries[0].key] else []) + Ids(rest);
      forall x | x in Ids(r)
        ensures exists i :: 0 <= i < |entries| && entries[i].items.Some? && entries[i].key == x
      {
        if x in Ids(rest) {
          var i :| 0 <= i < |entries[1..]| && entries[1..][i].items.Some? && entries[1..][i].key == x;
          assert entries[i + 1] == entries[1..][i];
        }
      }
      forall i | 0 <= i < |entries| && entries[i].items.Some?
        ensures entries[i].key in Ids(r)
      {
        if i > 0 {
          assert entries[1..][i - 1] == entries[i];
        }
      }
      r
  }

  /** `Initialize(json)`: a null document loads as an empty mapping;
      otherwise every entry with a non-null value becomes a root holder
      and its items are indexed below it. */
  function Initialize(doc: Option<seq<RootEntry>>): (r: State)
    ensures doc.None? ==> r == EmptyState
    ensures doc.Some? ==> r.top == PresentKeys(doc.value)
    ensures doc.Some? ==> forall x :: x in r.top <==>
      exists i :: 0 <= i < |doc.value| && doc.value[i].items.Some? && doc.value[i].key == x
    ensures doc.Some? ==> forall x :: x in r.cache <==> x in AllIds(Holders(doc.value))
  {
    match doc
    case None => EmptyState
    case Some(entries) => Load(Holders(entries), Null)
  }

  /** A document whose ids are distinct and never `Null` loads into a
      well-formed forest whose top-level items are hidden holders. */
  lemma InitializePreservesWf(entries: seq<RootEntry>)
    requires NoDup(AllIds(Holders(entries))) && Null !in AllIds(Holders(entries))
    ensures Wf(Initialize(Some(entries)), Null)
    ensures var st := Initialize(Some(entries));
      forall x :: x in st.top ==> st.cache[x].name == "" && Ignored(Forest, st.cache[x])
  {
    var hs := Holders(entries);
    var st := Initialize(Some(entries));
    LoadPreservesWf(hs, Null);
    LoadedNodes(hs, Null);
    forall x | x in st.top
      ensures st.cache[x].name == "" && Ignored(Forest, st.cache[x])
    {
      var i :| 0 <= i < |hs| && hs[i].id == x;
      PlacedTop(hs, Null, i);
      HoldersAreBare(entries, i);
    }
  }

  lemma {:induction false} HoldersAreBare(entries: seq<RootEntry>, i: nat)
    requires i < |Holders(entries)|
    ensures Holders(entries)[i].name == ""
    decreases entries
  {
    var rest := Holders(entries[1..]);
    if entries[0].items.Some? {
      if i > 0 {
        HoldersAreBare(entries[1..], i - 1);
      }
    } else {
      HoldersAreBare(entries[1..], i);
    }
  }

  /** `GetChildIDs`: the ordered children of any cached item, root holders
      included; `None` for an unknown id. */
  function GetChildIDs(st: State, id: Id): (r: Option<seq<Id>>)
    ensures r.Some? <==> id in st.cache
    ensures r.Some? ==> r.value == Members(st, ChildrenOf(id))
  {
    if id in st.cache then Some(st.cache[id].children) else None
  }

  /** In a well-formed forest the children of an item are exactly the
      items that name it as parent, each once. */
  lemma ChildIDsAreChildren(st: State, id: Id)
    requires Wf(st, Null) && id in st.cache
    ensures NoDup(GetChildIDs(st, id).value)
    ensures forall x :: x in GetChildIDs(st, id).value <==> x in st.cache && st.cache[x].parentId == id
  {
    MembersAreChildren(st, Null, id);
  }

  /** A synthetic root holder for `id`. */
  function RootHolder(id: Id): Node
  {
    Node(id, RootName, Null, Null, [], NoFields)
  }

  /** `AddRootItem`: appends a hidden root holder to the top-level list
      and the cache. */
  function AddRootItem(st: State, id: Id): (r: State)
    ensures r.top == st.top + [id]
    ensures r.cache.Keys == st.cache.Keys + {id}
    ensures r.cache[id].name == RootName && r.cache[id].children == [] && Ignored(Forest, r.cache[id])
    ensures forall x :: x in st.cache && x != id ==> r.cache[x] == st.cache[x]
  {
    Insert(st, TopList, RootHolder(id))
  }

  lemma AddRootPreservesWf(st: State, id: Id)
    requires Wf(st, Null) && id !in st.cache && id != Null
    ensures Wf(AddRootItem(st, id), Null)
  {
    InsertPreservesWf(st, Null, RootHolder(id));
  }

  /** The item `CreateItem` caches. */
  function NewItem(itemId: Id, name: string, templateId: Id, parentId: Id): Node
  {
    Node(itemId, name, templateId, parentId, [], NoFields)
  }

  /** `CreateItem`: materialises a missing parent as a root holder, then
      caches the new item and appends its id to the parent's children. When
      an item with that id is already cached, the list cache is searched
      first-match, so the new item stays hidden behind it: the cache keeps
      the old item and only the parent's children list grows. */
  function CreateItem(st: State, itemId: Id, name: string, templateId: Id, parentId: Id): (r: Outcome<bool>)
    ensures r.Done? && r.value
    ensures r.state.cache.Keys == st.cache.Keys + {itemId, parentId}
    ensures itemId !in st.cache && itemId != parentId ==>
      r.state.cache[itemId] == NewItem(itemId, name, templateId, parentId)
    ensures r.state.cache[parentId].children == Members(st, ChildrenOf(parentId)) + [itemId]
    ensures parentId in st.cache ==> (r.state.top == st.top
      && r.state.cache[parentId] == st.cache[parentId].(children := r.state.cache[parentId].children))
    ensures parentId !in st.cache ==> (r.state.top == st.top + [parentId]
      && r.state.cache[parentId].name == RootName && Ignored(Forest, r.state.cache[parentId]))
    ensures forall x :: x in st.cache && x != parentId ==> r.state.cache[x] == st.cache[x]
  {
    var s1 := if parentId in st.cache then st else AddRootItem(st, parentId);
    var h := ChildrenOf(parentId);
    if itemId in s1.cache then Done(Attach(s1, h, itemId), true)
    else Done(Insert(s1, h, NewItem(itemId, name, templateId, parentId)), true)
  }

  /** Creating an item under a new id keeps the forest well formed. */
  lemma CreatePreservesWf(st: State, itemId: Id, name: string, templateId: Id, parentId: Id)
    requires Wf(st, Null)
    requires itemId !in st.cache && itemId != parentId && itemId != Null && parentId != Null
    ensures Wf(CreateItem(st, itemId, name, templateId, parentId).state, Null)
  {
    var s1 := if parentId in st.cache then st else AddRootItem(st, parentId);
    if parentId !in st.cache {
      AddRootPreservesWf(st, parentId);
    }
    InsertPreservesWf(s1, Null, NewItem(itemId, name, templateId, parentId));
  }

  /** The source fields `DoCopyItem`'s loops read. When the copy is the
      source itself, clearing the copy's shared fields has already cleared
      the source's. */
  function CopiedFields(st: State, sourceId: Id, copyId: Id): Fields
    requires sourceId in st.cache
  {
    var source := st.cache[sourceId].fields;
    if copyId == sourceId then source.(shared := map[]) else source
  }

  /** `CopyItem`: false for a missing or hidden source or a missing
      destination; otherwise `DoCopyItem` creates the copy under the
      destination with the source's template and copies the source's
      fields into the item the copy id finds. Only the source node is
      copied, not its children. A new copy id yields a fresh item that
      reads like the source; a cached one keeps its item and merges the
      source's fields into it, fatal on a key it already holds. */
  function CopyItem(st: State, sourceId: Id, destId: Id, copyId: Id, copyName: string): (r: Outcome<bool>)
    ensures !Visible(st, Forest, sourceId) || destId !in st.cache ==> r == Done(st, false)
    ensures Visible(st, Forest, sourceId) && destId in st.cache ==>
      var into := if copyId in st.cache then st.cache[copyId].fields else NoFields;
      (r.Fatal? <==> CopyFieldsInto(into, CopiedFields(st, sourceId, copyId)).Err?)
    ensures Visible(st, Forest, sourceId) && destId in st.cache && copyId !in st.cache ==> r.Done?
    ensures r.Done? && Visible(st, Forest, sourceId) && destId in st.cache ==>
      var source := st.cache[sourceId];
      && r.value
      && r.state.top == st.top
      && r.state.cache.Keys == st.cache.Keys + {copyId}
      && r.state.cache[destId].children == st.cache[destId].children + [copyId]
      && (forall x :: x in st.cache && x != destId ==> r.state.cache[x].children == st.cache[x].children)
      && (forall x :: x in st.cache && x != copyId ==>
            r.state.cache[x] == st.cache[x].(children := r.state.cache[x].children))
      && (copyId !in st.cache ==>
            r.state.cache[copyId] == Node(copyId, copyName, source.templateId, destId, [], source.fields))
      && (copyId in st.cache ==>
            r.state.cache[copyId] == st.cache[copyId].(
              children := r.state.cache[copyId].children,
              fields := CopyFieldsInto(st.cache[copyId].fields, CopiedFields(st, sourceId, copyId)).value))
  {
    if !Visible(st, Forest, sourceId) || destId !in st.cache then Done(st, false)
    else
      var source := st.cache[sourceId];
      var created := CreateItem(st, copyId, copyName, source.templateId, destId).state;
      CopyIntoEmpty(source.fields);
      match DoCopyFields(created, copyId, CopiedFields(st, sourceId, copyId))
      case Err(fault) => Fatal(fault)
      case Ok(copied) =>
        CopiedState(st, sourceId, destId, copyId, copyName, copied);
        Done(copied, true)
  }

  /** The state a successful copy reaches, read off the two steps. */
  lemma CopiedState(st: State, sourceId: Id, destId: Id, copyId: Id, copyName: string, copied: State)
    requires Visible(st, Forest, sourceId) && destId in st.cache
    requires var created := CreateItem(st, copyId, copyName, st.cache[sourceId].templateId, destId).state;
      DoCopyFields(created, copyId, CopiedFields(st, sourceId, copyId)) == Ok(copied)
    ensures var source := st.cache[sourceId];
      && copied.top == st.top
      && copied.cache.Keys == st.cache.Keys + {copyId}
      && copied.cache[destId].children == st.cache[destId].children + [copyId]
      && (forall x :: x in st.cache && x != destId ==> copied.cache[x].children == st.cache[x].children)
      && (forall x :: x in st.cache && x != copyId ==>
            copied.cache[x] == st.cache[x].(children := copied.cache[x].children))
      && (copyId !in st.cache ==>
            copied.cache[copyId] == Node(copyId, copyName, source.templateId, destId, [], source.fields))
      && (copyId in st.cache ==>
            copied.cache[copyId] == st.cache[copyId].(
              children := copied.cache[copyId].children,
              fields := CopyFieldsInto(st.cache[copyId].fields, CopiedFields(st, sourceId, copyId)).value))
  {
    var source := st.cache[sourceId];
    var created := CreateItem(st, copyId, copyName, source.templateId, destId).state;
    assert OnlyFieldsOf(created, copied, copyId);
    if copyId !in st.cache {
      CopyIntoEmpty(source.fields);
      assert created.cache[copyId].fields == NoFields;
    }
  }

  /** A copy under a new id reads exactly like its source: the same
      versions and the same field values in every language and version. */
  lemma CopyReadsLikeSource(st: State, sourceId: Id, destId: Id, copyId: Id, copyName: string, uri: VersionUri)
    requires Wf(st, Null) && copyId !in st.cache
    requires CopyItem(st, sourceId, destId, copyId, copyName).Done? && CopyItem(st, sourceId, destId, copyId, copyName).value
    ensures var r := CopyItem(st, sourceId, destId, copyId, copyName).state;
      && GetItemVersions(r, Forest, copyId) == GetItemVersions(st, Forest, sourceId)
      && GetItemFields(r, Forest, copyId, uri) == GetItemFields(st, Forest, sourceId, uri)
      && GetItemFields(r, Forest, sourceId, uri) == GetItemFields(st, Forest, sourceId, uri)
  {
  }

  /** Copying under a new id keeps the forest well formed. */
  lemma CopyPreservesWf(st: State, sourceId: Id, destId: Id, copyId: Id, copyName: string)
    requires Wf(st, Null) && copyId !in st.cache && copyId != Null
    ensures CopyItem(st, sourceId, destId, copyId, copyName).Done?
    ensures Wf(CopyItem(st, sourceId, destId, copyId, copyName).state, Null)
  {
    if Visible(st, Forest, sourceId) && destId in st.cache {
      var source := st.cache[sourceId];
      var created := CreateItem(st, copyId, copyName, source.templateId, destId).state;
      CreatePreservesWf(st, copyId, copyName, source.templateId, destId);
      var copied := DoCopyFields(created, copyId, CopiedFields(st, sourceId, copyId));
      FieldEditPreservesWf(created, copied.value, copyId, Null);
    }
  }

  /** The state a move reaches before it looks up the item's parent: the
      target, if missing, is materialised as a root holder. */
  function WithTarget(st: State, targetId: Id): (r: State)
    ensures r.cache.Keys == st.cache.Keys + {targetId}
    ensures forall x :: x in st.cache ==> r.cache[x] == st.cache[x]
  {
    if targetId in st.cache then st else AddRootItem(st, targetId)
  }

  /** `MoveItem`, as the source writes it: false for a missing or hidden
      item; a missing target becomes a root holder; a missing parent is
      fatal. The item leaves its parent's children and is appended to the
      target's, but its recorded parent is left unchanged. */
  function MoveItem(st: State, itemId: Id, targetId: Id): (r: Outcome<bool>)
    ensures !Visible(st, Forest, itemId) ==> r == Done(st, false)
    ensures Visible(st, Forest, itemId) ==>
      (r.Fatal? <==> st.cache[itemId].parentId !in st.cache && st.cache[itemId].parentId != targetId)
    ensures r.Done? && Visible(st, Forest, itemId) ==>
      var p := st.cache[itemId].parentId;
      var s1 := WithTarget(st, targetId);
      && r.value
      && r.state.cache.Keys == st.cache.Keys + {targetId}
      && r.state.top == s1.top
      && (forall x :: x in s1.cache ==> r.state.cache[x] == s1.cache[x].(children := r.state.cache[x].children))
      && (forall x :: x in st.cache ==> r.state.cache[x].parentId == st.cache[x].parentId)
      && (forall x :: x in st.cache && x != p && x != targetId ==> r.state.cache[x] == st.cache[x])
      && r.state.cache[targetId].children == Members(Detach(s1, ChildrenOf(p), itemId), ChildrenOf(targetId)) + [itemId]
      && (p != targetId ==> r.state.cache[p].children == RemoveFirst(s1.cache[p].children, itemId))
  {
    if !Visible(st, Forest, itemId) then Done(st, false)
    else
      var s1 := WithTarget(st, targetId);
      var p := st.cache[itemId].parentId;
      if p !in s1.cache then Fatal(MissingParent(p))
      else
        ChildMoveFacts(s1, p, itemId, targetId);
        Done(Attach(Detach(s1, ChildrenOf(p), itemId), ChildrenOf(targetId), itemId), true)
  }

  /** What moving `x` from the children of `p` to those of `q` changes. */
  lemma ChildMoveFacts(s: State, p: Id, x: Id, q: Id)
    requires p in s.cache && q in s.cache
    ensures var r := Attach(Detach(s, ChildrenOf(p), x), ChildrenOf(q), x);
      && r.cache.Keys == s.cache.Keys && r.top == s.top
      && (forall y :: y in s.cache ==> r.cache[y] == s.cache[y].(children := r.cache[y].children))
      && (forall y :: y in s.cache && y != p && y != q ==> r.cache[y] == s.cache[y])
      && r.cache[q].children == Members(Detach(s, ChildrenOf(p), x), ChildrenOf(q)) + [x]
      && (p != q ==> r.cache[p].children == RemoveFirst(s.cache[p].children, x))
  {
    var d := Detach(s, ChildrenOf(p), x);
    WithMembersFrame(s, ChildrenOf(p), RemoveFirst(Members(s, ChildrenOf(p)), x));
    WithMembersFrame(d, ChildrenOf(q), Members(d, ChildrenOf(q)) + [x]);
  }

  /** One move from a well-formed forest keeps every item in exactly one
      container, and never fails. */
  lemma MoveKeepsMembership(st: State, itemId: Id, targetId: Id)
    requires Wf(st, Null) && targetId != Null
    ensures MoveItem(st, itemId, targetId).Done?
    ensures UniqueMembership(MoveItem(st, itemId, targetId).state)
  {
    if Visible(st, Forest, itemId) {
      var s1 := WithTarget(st, targetId);
      if targetId !in st.cache {
        AddRootPreservesWf(st, targetId);
      }
      assert Held(st, Null, itemId);
      MovePreservesMembership(s1, Null, itemId, ChildrenOf(targetId));
    } else {
      WfUnique(st, Null);
    }
  }

  /** `MoveItem` with the recorded parent updated to the target: the move
      the rest of the engine relies on. */
  function MoveItemRelinked(st: State, itemId: Id, targetId: Id): (r: Outcome<bool>)
    ensures !Visible(st, Forest, itemId) ==> r == Done(st, false)
    ensures Visible(st, Forest, itemId) ==>
      (r.Fatal? <==> st.cache[itemId].parentId !in st.cache && st.cache[itemId].parentId != targetId)
    ensures r.Done? && Visible(st, Forest, itemId) ==>
      r.value && itemId in r.state.cache && r.state.cache[itemId].parentId == targetId
      && itemId in Members(r.state, ChildrenOf(targetId))
  {
    if !Visible(st, Forest, itemId) then Done(st, false)
    else
      var s1 := WithTarget(st, targetId);
      var p := st.cache[itemId].parentId;
      if p !in s1.cache then Fatal(MissingParent(p))
      else
        assert p != Null;
        var r := Relink(s1, Null, itemId, ChildrenOf(targetId));
        assert Members(r, ChildrenOf(targetId)) == r.cache[targetId].children;
        Done(r, true)
  }

  /** The corrected move keeps the forest well formed, parent agreement
      included, and never fails. */
  lemma MoveRelinkedPreservesWf(st: State, itemId: Id, targetId: Id)
    requires Wf(st, Null) && targetId != Null
    ensures MoveItemRelinked(st, itemId, targetId).Done?
    ensures Wf(MoveItemRelinked(st, itemId, targetId).state, Null)
  {
    if Visible(st, Forest, itemId) {
      var s1 := WithTarget(st, targetId);
      if targetId !in st.cache {
        AddRootPreservesWf(st, targetId);
      }
      assert Held(st, Null, itemId);
      RelinkPreservesWf(s1, Null, itemId, ChildrenOf(targetId));
    }
  }

  /** The forest used to exhibit the stale parent: holder `H` holds the
      items `X` and `Q`. */
  const H := Guid("H")
  const X := Guid("X")
  const Q := Guid("Q")

  function Sample(): State
  {
    State(
      map[H := Node(H, "", Null, Null, [X, Q], NoFields),
          X := Node(X, "x", Null, H, [], NoFields),
          Q := Node(Q, "q", Null, H, [], NoFields)],
      [H])
  }

  lemma SampleKeys()
    ensures forall x :: x in Sample().cache <==> x == H || x == X || x == Q
    ensures KeysMatch(Sample()) && Null !in Sample().cache
  {
  }

  lemma SampleNoDup()
    ensures ContainersNoDup(Sample())
  {
    var st := Sample();
    SampleKeys();
    assert NoDup([X, Q]) by {
      assert [X, Q][0] != [X, Q][1];
    }
    assert NoDup(st.top) by { assert st.top == [H]; }
    forall p | p in st.cache
      ensures NoDup(st.cache[p].children)
    {
      assert st.cache[p].children == [] || p == H;
    }
  }

  lemma SampleAgrees()
    ensures TopAgrees(Sample(), Null) && ChildrenAgree(Sample())
  {
    var st := Sample();
    SampleKeys();
    forall p, x | p in st.cache && x in st.cache[p].children
      ensures x in st.cache && st.cache[x].parentId == p
    {
      assert p == H;
    }
  }

  lemma SampleHeld()
    ensures AllHeld(Sample(), Null)
  {
    var st := Sample();
    SampleKeys();
    forall x | x in st.cache
      ensures Held(st, Null, x)
    {
      assert x in st.cache[H].children || x in st.top;
    }
  }

  lemma SampleWf()
    ensures Wf(Sample(), Null)
  {
    SampleKeys();
    SampleNoDup();
    SampleAgrees();
    SampleHeld();
  }

  /** The first move: `X` joins `Q`'s children but still records `H`. */
  lemma FirstMove()
    ensures var once := MoveItem(Sample(), X, Q);
      && once.Done?
      && once.state.cache.Keys == {H, X, Q}
      && once.state.cache[X].parentId == H
      && once.state.cache[H].children == [Q]
      && once.state.cache[Q].children == [X]
  {
    var st := Sample();
    assert Visible(st, Forest, X);
    assert RemoveFirst([X, Q], X) == [Q];
  }

  /** The second move, back under `H`: nothing is taken out of `Q`. */
  lemma SecondMove(once: State)
    requires once.cache.Keys == {H, X, Q} && once.cache[X].parentId == H
    requires once.cache[H].children == [Q] && once.cache[Q].children == [X]
    ensures var twice := MoveItem(once, X, H);
      && twice.Done?
      && twice.state.cache[H].children == [Q, X]
      && twice.state.cache[Q].children == [X]
  {
    assert Visible(once, Forest, X);
    assert RemoveFirst([Q], X) == [Q];
  }

  /** Moving `X` under `Q` and then back under `H` leaves `X` in the
      children of both: the first move keeps `H` as `X`'s recorded parent,
      so the second takes `X` out of `H` (where it no longer is) instead
      of out of `Q`. */
  lemma StaleParentDuplicates()
    ensures Wf(Sample(), Null)
    ensures var once := MoveItem(Sample(), X, Q);
      && once.Done? && GetParentID(once.state, Forest, X) == Some(H)
      && X in once.state.cache[Q].children
      && var twice := MoveItem(once.state, X, H);
      && twice.Done?
      && !UniqueMembership(twice.state)
  {
    SampleWf();
    FirstMove();
    var once := MoveItem(Sample(), X, Q).state;
    SecondMove(once);
    var twice := MoveItem(once, X, H).state;
    assert X in twice.cache[Q].children && X in twice.cache[H].children;
    assert !Disjoint(twice);
  }

  /** The second move of the cycle: `Q`, still recorded under `H`, leaves
      `H` and joins `X`'s children, keeping `X` among its own. */
  lemma CycleMove(once: State)
    requires once.cache.Keys == {H, X, Q} && once.cache[Q].parentId == H
    requires once.cache[H].children == [Q] && once.cache[Q].children == [X] && once.cache[X].children == []
    ensures var twice := MoveItem(once, Q, X);
      && twice.Done?
      && twice.state.cache.Keys == {H, X, Q}
      && twice.state.cache[X].parentId == once.cache[X].parentId
      && twice.state.cache[H].children == []
      && twice.state.cache[Q].children == [X]
      && twice.state.cache[X].children == [Q]
  {
    assert Visible(once, Forest, Q);
    assert RemoveFirst([Q], Q) == [];
  }

  /** Deleting `X` from the cycle: `X` still records `H`, so nothing is
      detached, and the subtree walk removes `X`, then `Q`, and stops at
      `X`, already gone. */
  lemma CycleDelete(twice: State)
    requires twice.cache.Keys == {H, X, Q} && twice.cache[X].parentId == H
    requires twice.cache[H].children == [] && twice.cache[Q].children == [X] && twice.cache[X].children == [Q]
    ensures var gone := DeleteItem(twice, X);
      gone.Done? && gone.value && gone.state.cache.Keys == {H}
  {
    var d := Detach(twice, ChildrenOf(H), X);
    assert d.cache.Keys == {H, X, Q};
    assert d.cache[X].children == [Q] && d.cache[Q].children == [X];
    CycleWalk(d.cache);
  }

  /** The subtree walk from `X` over the cycle removes `X`, then `Q`, and
      stops at `X`, already gone. */
  lemma CycleWalk(c: map<Id, Node>)
    requires c.Keys == {H, X, Q} && c[X].children == [Q] && c[Q].children == [X]
    ensures RemoveTree(c, X).Keys == {H}
  {
    var c1 := c - {X};
    var c2 := c1 - {Q};
    assert RemoveTree(c2, X) == c2;
    assert RemoveForest(c2, [X]) == RemoveForest(c2, []);
    assert RemoveTree(c1, Q) == c2;
    assert RemoveForest(c1, [Q]) == RemoveForest(c2, []);
    assert RemoveTree(c, X) == c2;
  }

  /** Two moves as the source writes them close a cycle of children lists:
      `X` under `Q`, then `Q` under `X`. Deleting `X` afterwards removes
      both here; `DeleteItemTreeFromItemsCache`, which follows child objects
      without asking whether they are still cached, would walk the cycle
      without end. */
  lemma MovesMakeCycle()
    ensures var once := MoveItem(Sample(), X, Q);
      && once.Done?
      && var twice := MoveItem(once.state, Q, X);
      && twice.Done?
      && X in twice.state.cache[Q].children && Q in twice.state.cache[X].children
      && var gone := DeleteItem(twice.state, X);
      && gone.Done? && gone.state.cache.Keys == {H}
  {
    FirstMove();
    var once := MoveItem(Sample(), X, Q).state;
    CycleMove(once);
    var twice := MoveItem(once, Q, X).state;
    CycleDelete(twice);
  }

  /** `DoDeleteItem` and `DeleteItem`: false for an unknown item; an
      uncached parent is fatal, which is the case for every root holder;
      otherwise the item leaves its parent's children, siblings keeping
      their order, and its subtree leaves the cache. */
  function DeleteItem(st: State, id: Id): (r: Outcome<bool>)
    ensures id !in st.cache ==> r == Done(st, false)
    ensures id in st.cache ==> (r.Fatal? <==> st.cache[id].parentId !in st.cache)
    ensures r.Done? && id in st.cache ==>
      var p := st.cache[id].parentId;
      && r.value
      && id !in r.state.cache
      && r.state.top == st.top
      && r.state.cache.Keys <= st.cache.Keys
      && (forall x :: x in r.state.cache && x != p ==> r.state.cache[x] == st.cache[x])
      && (p in r.state.cache ==> r.state.cache[p].children == RemoveFirst(st.cache[p].children, id))
  {
    if id !in st.cache then Done(st, false)
    else
      var p := st.cache[id].parentId;
      if p !in st.cache then Fatal(MissingParent(p))
      else
        WithMembersFrame(st, ChildrenOf(p), RemoveFirst(Members(st, ChildrenOf(p)), id));
        Done(DropSubtree(st, ChildrenOf(p), id), true)
  }

  /** Deleting an item keeps the forest well formed. */
  lemma DeleteKeepsWf(st: State, id: Id)
    requires Wf(st, Null)
    ensures DeleteItem(st, id).Done? ==> Wf(DeleteItem(st, id).state, Null)
  {
    if id in st.cache && st.cache[id].parentId in st.cache {
      DeletePreservesWf(st, Null, id);
    }
  }

  /** A root holder cannot be deleted: its parent `Null` is never cached. */
  lemma RootHolderDeleteFails(st: State, id: Id)
    requires Wf(st, Null) && id in st.cache && Ignored(Forest, st.cache[id])
    ensures DeleteItem(st, id) == Fatal(MissingParent(Null))
  {
  }

  /** Deletion removes the whole subtree of `id`: a child of a removed item
      is removed too. */
  lemma DeleteRemovesWholeSubtree(st: State, id: Id, x: Id, y: Id)
    requires DeleteItem(st, id).Done?
    requires x in st.cache && x !in DeleteItem(st, id).state.cache
    requires y in st.cache[x].children && y != id
    ensures y !in DeleteItem(st, id).state.cache
  {
    var p := st.cache[id].parentId;
    var d := Detach(st, ChildrenOf(p), id);
    WithMembersFrame(st, ChildrenOf(p), RemoveFirst(Members(st, ChildrenOf(p)), id));
    assert y in d.cache[x].children;
    RemoveTreeClosed(d.cache, id, x, y);
  }

  /** Deletion removes no item outside the subtree of `id`: every removed
      item lies in any set that contains `id` and is closed under
      children. */
  lemma DeleteRemovesOnlySubtree(st: State, id: Id, s: set<Id>)
    requires id in s
    requires forall y, z :: y in s && y in st.cache && z in st.cache[y].children ==> z in s
    requires DeleteItem(st, id).Done?
    ensures forall x :: x in st.cache && x !in DeleteItem(st, id).state.cache ==> x in s
  {
    if id in st.cache {
      var p := st.cache[id].parentId;
      var d := Detach(st, ChildrenOf(p), id);
      WithMembersFrame(st, ChildrenOf(p), RemoveFirst(Members(st, ChildrenOf(p)), id));
      forall y, z | y in s && y in d.cache && z in d.cache[y].children
        ensures z in s
      {
        assert z in st.cache[y].children;
      }
      RemoveTreeWithin(d.cache, id, s);
    }
  }

  /** `GetCommitObject`: one entry per top-level holder, keyed by its id
      and holding its children. */
  function GetCommitObject(st: State): (r: seq<(Id, seq<Id>)>)
    ensures |r| == |st.top|
    ensures forall i :: 0 <= i < |r| ==> r[i].0 == st.top[i] && r[i].1 == Members(st, ChildrenOf(st.top[i]))
  {
    seq(|st.top|, i requires 0 <= i < |st.top| => (st.top[i], Members(st, ChildrenOf(st.top[i]))))
  }

  /** In a well-formed forest the commit object's keys are distinct, so it
      converts to a dictionary, and each entry lists exactly the items
      whose parent is its key. */
  lemma CommitObjectIsDictionary(st: State)
    requires Wf(st, Null)
    ensures var r := GetCommitObject(st);
      && (forall i, j :: 0 <= i < j < |r| ==> r[i].0 != r[j].0)
      && (forall i, x :: 0 <= i < |r| ==> (x in r[i].1 <==> x in st.cache && st.cache[x].parentId == r[i].0))
  {
    var r := GetCommitObject(st);
    forall i | 0 <= i < |r|
      ensures forall x :: x in r[i].1 <==> x in st.cache && st.cache[x].parentId == r[i].0
    {
      MembersAreChildren(st, Null, st.top[i]);
      assert st.top[i] != Null;
    }
  }
}
