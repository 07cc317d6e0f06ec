/** The strategy-independent part of the mapping engine
    (src/Data/Mappings/AbstractMapping.cs): item lookups, version and field
    edits, removing a subtree from the cache, and indexing a loaded tree. */
module AbstractMapping {
  import opened Types
  import opened Seqs
  import opened FieldStore
  import opened Tree

  /** `IgnoreItem`: the forest strategy hides its root holders (items whose
      parent is `Null`); the anchored strategy hides nothing. */
  predicate Ignored(s: Strategy, n: Node)
  {
    s == Forest && n.parentId == Null
  }

  /** An item the host may see: cached and not ignored. */
  predicate Visible(st: State, s: Strategy, id: Id)
  {
    id in st.cache && !Ignored(s, st.cache[id])
  }

  /** What the host learns about an item: its id, name and template. The
      definition's branch id is always `Null`. */
  datatype Definition = Definition(id: Id, name: string, templateId: Id, branchId: Id)

  function GetItemDefinition(st: State, s: Strategy, id: Id): (r: Option<Definition>)
    ensures r.Some? <==> Visible(st, s, id)
    ensures r.Some? ==> (r.value.id == st.cache[id].id && r.value.branchId == Null
      && r.value.name == st.cache[id].name && r.value.templateId == st.cache[id].templateId)
  {
    if !Visible(st, s, id) then None
    else Some(Definition(st.cache[id].id, st.cache[id].name, st.cache[id].templateId, Null))
  }

  function GetParentID(st: State, s: Strategy, id: Id): (r: Option<Id>)
    ensures r.Some? <==> Visible(st, s, id)
    ensures r.Some? ==> r.value == st.cache[id].parentId
  {
    if !Visible(st, s, id) then None else Some(st.cache[id].parentId)
  }

  /** The (language, number) pairs of a visible item's stored versions. */
  function GetItemVersions(st: State, s: Strategy, id: Id): (r: Option<set<VersionUri>>)
    ensures r.Some? <==> Visible(st, s, id)
    ensures r.Some? ==> forall u :: u in r.value <==> u.number in Versions(st.cache[id].fields, u.language)
  {
    if !Visible(st, s, id) then None else Some(VersionSet(st.cache[id].fields))
  }

  /** The field list of a visible item in one (language, version) context. */
  function GetItemFields(st: State, s: Strategy, id: Id, uri: VersionUri): (r: Option<FieldMap>)
    ensures r.Some? <==> Visible(st, s, id)
    ensures r.Some? && uri.language == Invariant ==> r.value == st.cache[id].fields.shared
    ensures r.Some? && uri.language != Invariant ==> var f := st.cache[id].fields;
      forall k :: k in r.value <==> k in f.shared || k in Unversioned(f, uri.language) || k in Slot(f, uri.language, uri.number)
    ensures r.Some? ==> r.value == FieldsFor(st.cache[id].fields, uri.language, uri.number)
  {
    if !Visible(st, s, id) then None
    else Some(FieldsFor(st.cache[id].fields, uri.language, uri.number))
  }

  /** The four reads answer for the same items, and under the invariant the
      definition names the item asked for. */
  lemma ReadsAgree(st: State, s: Strategy, t: Id, id: Id, uri: VersionUri)
    requires Wf(st, t)
    ensures GetItemDefinition(st, s, id).Some? == GetParentID(st, s, id).Some?
      == GetItemVersions(st, s, id).Some? == GetItemFields(st, s, id, uri).Some?
    ensures GetItemDefinition(st, s, id).Some? ==> GetItemDefinition(st, s, id).value.id == id
  {
  }

  /** Under the invariant, the parent a read reports holds the item: it is
      the top marker and the item is top-level, or it is a cached item that
      lists the item among its children. */
  lemma ParentHoldsItem(st: State, s: Strategy, t: Id, id: Id)
    requires Wf(st, t)
    ensures var p := GetParentID(st, s, id);
      p.Some? ==> (
        && id in Members(st, HolderFor(t, p.value))
        && (p.value == t ==> id in st.top)
        && (p.value != t ==> p.value in st.cache && id in st.cache[p.value].children))
  {
    if Visible(st, s, id) {
      assert Held(st, t, id);
    }
  }

  /** In a forest mapping the root holders are invisible to every read. */
  lemma RootHoldersAreHidden(st: State, id: Id, uri: VersionUri)
    requires id in st.cache && st.cache[id].parentId == Null
    ensures GetItemDefinition(st, Forest, id).None?
    ensures GetParentID(st, Forest, id).None?
    ensures GetItemVersions(st, Forest, id).None?
    ensures GetItemFields(st, Forest, id, uri).None?
  {
  }

  /** `r` differs from `st` at most in the fields of item `id`. */
  ghost predicate OnlyFieldsOf(st: State, r: State, id: Id)
  {
    && id in st.cache
    && r.top == st.top
    && r.cache.Keys == st.cache.Keys
    && (forall x :: x in st.cache && x != id ==> r.cache[x] == st.cache[x])
    && r.cache[id] == st.cache[id].(fields := r.cache[id].fields)
  }

  /** Field and version edits leave the tree structure alone, so they keep
      the tree invariant. */
  lemma FieldEditPreservesWf(st: State, r: State, id: Id, t: Id)
    requires Wf(st, t) && OnlyFieldsOf(st, r, id)
    ensures Wf(r, t)
  {
    SameShape(st, r, id);
    assert ContainersNoDup(r);
    assert TopAgrees(r, t) && ChildrenAgree(r);
    forall x | x in r.cache
      ensures Held(r, t, x)
    {
      assert Held(st, t, x);
      var h := HolderFor(t, st.cache[x].parentId);
      assert Members(r, h) == Members(st, h);
    }
  }

  lemma SameShape(st: State, r: State, id: Id)
    requires OnlyFieldsOf(st, r, id)
    ensures forall x :: x in r.cache ==> (r.cache[x].id == st.cache[x].id
      && r.cache[x].parentId == st.cache[x].parentId && r.cache[x].children == st.cache[x].children)
  {
  }

  function WithFields(st: State, id: Id, f: Fields): (r: State)
    requires id in st.cache
    ensures OnlyFieldsOf(st, r, id) && r.cache[id].fields == f
  {
    st.(cache := st.cache[id := st.cache[id].(fields := f)])
  }

  /** `AddVersion`: -1 for an unknown or ignored item; otherwise the number
      of a new version, which is a copy of the requested version without
      its workflow state when that version exists and is positive, and a
      version holding only the creation stamp `now` otherwise. */
  function AddVersion(st: State, s: Strategy, id: Id, uri: VersionUri, now: string): (r: Outcome<int>)
    ensures r.Done?
    ensures !Visible(st, s, id) ==> r == Done(st, -1)
    ensures Visible(st, s, id) ==> OnlyFieldsOf(st, r.state, id)
    ensures Visible(st, s, id) ==>
      var before := st.cache[id].fields;
      var vs := Versions(before, uri.language);
      var f := r.state.cache[id].fields;
      && OnlyFieldsOf(st, r.state, id)
      && r.value !in vs
      && (forall k :: k in vs ==> k < r.value)
      && ((vs == map[] && r.value == 1) || r.value - 1 in vs)
      && VersionSet(f) == VersionSet(before) + {VersionUri(uri.language, r.value)}
      && (forall k :: k in vs ==> Versions(f, uri.language)[k] == vs[k])
      && (uri.number > 0 && uri.number in vs ==>
            Slot(f, uri.language, r.value) == vs[uri.number] - {WorkflowStateField})
      && (!(uri.number > 0 && uri.number in vs) ==>
            Slot(f, uri.language, r.value) == map[CreatedField := now])
      && f.shared == before.shared && f.unversioned == before.unversioned
      && (forall l :: l != uri.language ==> Versions(f, l) == Versions(before, l))
  {
    if !Visible(st, s, id) then Done(st, -1)
    else
      var added := AddVersionTo(st.cache[id].fields, uri.language, uri.number, now);
      AddVersionGrowsVersionSet(st.cache[id].fields, uri.language, uri.number, now);
      Done(WithFields(st, id, added.0), added.1)
  }

  /** The changes a save carries: an optional new name and template, and
      the field edits, possibly flagged to replace every stored field. */
  datatype ItemChanges = ItemChanges(
    propertiesChanged: bool,
    name: Option<string>,
    templateId: Option<Id>,
    fieldsChanged: bool,
    saveAll: bool,
    fieldChanges: seq<FieldChange>)

  /** `SaveItem`: false for an unknown item. The name and template change
      only to supplied values. Field edits apply in order, after every
      stored field is cleared when the save replaces all fields; an edit
      with no known scope is fatal. */
  function SaveItem(st: State, id: Id, ch: ItemChanges): (r: Outcome<bool>)
    ensures id !in st.cache ==> r == Done(st, false)
    ensures id in st.cache ==>
      (r.Fatal? <==> ch.fieldsChanged && exists i :: 0 <= i < |ch.fieldChanges| && Throws(ch.fieldChanges[i]))
    ensures id in st.cache && r.Done? ==> r.state.cache.Keys == st.cache.Keys
    ensures id in st.cache && r.Done? ==>
      var n := st.cache[id];
      var n' := r.state.cache[id];
      && r.value
      && r.state.top == st.top
      && r.state.cache.Keys == st.cache.Keys
      && (forall x :: x in st.cache && x != id ==> r.state.cache[x] == st.cache[x])
      && n'.id == n.id && n'.parentId == n.parentId && n'.children == n.children
      && n'.name == (if ch.propertiesChanged && ch.name.Some? then ch.name.value else n.name)
      && n'.templateId == (if ch.propertiesChanged && ch.templateId.Some? then ch.templateId.value else n.templateId)
      && (!ch.fieldsChanged ==> n'.fields == n.fields)
      && (ch.fieldsChanged ==>
            n'.fields == ApplyEdits(if ch.saveAll then NoFields else n.fields, ch.fieldChanges, ch.saveAll).value)
      && (ch.fieldsChanged && ch.saveAll ==> Explained(n'.fields, ch.fieldChanges))
  {
    if id !in st.cache then Done(st, false)
    else
      var n := st.cache[id];
      var renamed :=
        if ch.propertiesChanged
        then n.(name := GetOr(ch.name, n.name), templateId := GetOr(ch.templateId, n.templateId))
        else n;
      if !ch.fieldsChanged then Done(st.(cache := st.cache[id := renamed]), true)
      else
        var start := if ch.saveAll then NoFields else renamed.fields;
        SaveAllExplained(ch.fieldChanges);
        match ApplyEdits(start, ch.fieldChanges, ch.saveAll)
        case Err(fault) => Fatal(fault)
        case Ok(f) => Done(st.(cache := st.cache[id := renamed.(fields := f)]), true)
  }

  /** A save's result, field by field: each field of each place holds what
      the last edit touching it left, and otherwise what it held before the
      save (nothing, for a save that replaces every field). The version list
      gains exactly the slots the versioned writes open. */
  lemma SaveItemPerField(st: State, id: Id, ch: ItemChanges, p: Place, k: Id)
    requires id in st.cache && ch.fieldsChanged && SaveItem(st, id, ch).Done?
    ensures var before := st.cache[id].fields;
      var after := SaveItem(st, id, ch).state.cache[id].fields;
      && Read(after, p, k) == After(NetEffect(ch.fieldChanges, ch.saveAll, p, k),
                                    if ch.saveAll then None else Read(before, p, k))
      && VersionSet(after) == (if ch.saveAll then {} else VersionSet(before)) + OpenedBy(ch.fieldChanges)
  {
    var start := if ch.saveAll then NoFields else st.cache[id].fields;
    LastEditDecides(start, ch.fieldChanges, ch.saveAll, p, k);
    EditsVersionSet(start, ch.fieldChanges, ch.saveAll);
    if ch.saveAll {
      assert VersionSet(NoFields) == {};
    }
  }

  /** Every field the store holds was written there by one of `edits`. */
  ghost predicate Explained(f: Fields, edits: seq<FieldChange>)
  {
    forall p, k :: k in At(f, p) ==> exists i :: 0 <= i < |edits| && Stores(edits[i], k, p)
  }

  /** One edit of a field-replacing save only adds what it writes. */
  lemma SaveAllStepExplained(f: Fields, done: seq<FieldChange>, e: FieldChange)
    requires Explained(f, done) && !Throws(e)
    ensures Explained(ApplyEdit(f, e, true).value, done + [e])
  {
    var g := ApplyEdit(f, e, true).value;
    var all := done + [e];
    forall p, k | k in At(g, p)
      ensures exists i :: 0 <= i < |all| && Stores(all[i], k, p)
    {
      if Stores(e, k, p) {
        assert all[|done|] == e;
      } else {
        assert k in At(f, p);
        var i :| 0 <= i < |done| && Stores(done[i], k, p);
        assert all[i] == done[i];
      }
    }
  }

  lemma {:induction false} SaveAllFromExplained(f: Fields, done: seq<FieldChange>, rest: seq<FieldChange>)
    requires Explained(f, done)
    requires ApplyEdits(f, rest, true).Ok?
    ensures Explained(ApplyEdits(f, rest, true).value, done + rest)
    decreases |rest|
  {
    if rest == [] {
      assert done + rest == done;
    } else {
      var e := rest[0];
      assert !Throws(e);
      SaveAllStepExplained(f, done, e);
      var g := ApplyEdit(f, e, true).value;
      SaveAllFromExplained(g, done + [e], rest[1..]);
      assert done + [e] + rest[1..] == done + rest;
    }
  }

  /** A field-replacing save keeps only fields its edits wrote: nothing
      stored before the save survives it. */
  lemma SaveAllExplained(edits: seq<FieldChange>)
    ensures ApplyEdits(NoFields, edits, true).Ok? ==>
      Explained(ApplyEdits(NoFields, edits, true).value, edits)
  {
    if ApplyEdits(NoFields, edits, true).Ok? {
      forall p, k | k in At(NoFields, p)
        ensures false
      {
      }
      SaveAllFromExplained(NoFields, [], edits);
      assert [] + edits == edits;
    }
  }

  /** `DoCopyItem` once `CreateItem` has cached the copy: the source's
      fields are copied into the cached item `copyId` (see
      `CopyFieldsInto`); a key the item already holds is fatal. A copy
      whose store starts empty ends up reading exactly like the source. */
  function DoCopyFields(st: State, copyId: Id, source: Fields): (r: Result<State>)
    requires copyId in st.cache
    ensures r.Ok? <==> CopyFieldsInto(st.cache[copyId].fields, source).Ok?
    ensures r.Err? ==> r.fault == DuplicateKey
    ensures r.Ok? ==> OnlyFieldsOf(st, r.value, copyId)
    ensures r.Ok? ==> r.value.cache[copyId].fields == CopyFieldsInto(st.cache[copyId].fields, source).value
    ensures st.cache[copyId].fields == NoFields ==> (
      && r.Ok?
      && VersionSet(r.value.cache[copyId].fields) == VersionSet(source)
      && forall l, n :: FieldsFor(r.value.cache[copyId].fields, l, n) == FieldsFor(source, l, n))
  {
    CopyIntoEmpty(source);
    match CopyFieldsInto(st.cache[copyId].fields, source)
    case Err(fault) => Err(fault)
    case Ok(f) => Ok(WithFields(st, copyId, f))
  }

  /** `RemoveVersion`: deletes exactly one (language, number) entry; false
      when the item or the entry is missing. */
  function RemoveVersion(st: State, id: Id, uri: VersionUri): (r: Outcome<bool>)
    ensures r.Done?
    ensures r.value <==> id in st.cache && uri.number in Versions(st.cache[id].fields, uri.language)
    ensures !r.value ==> r.state == st
    ensures r.value ==> OnlyFieldsOf(st, r.state, id)
    ensures r.value ==>
      var before := st.cache[id].fields;
      var f := r.state.cache[id].fields;
      && OnlyFieldsOf(st, r.state, id)
      && VersionSet(f) == VersionSet(before) - {uri}
      && OtherSlotsAgree(before, f, uri.language, uri.number)
      && (forall l :: l != uri.language ==> Versions(f, l) == Versions(before, l))
      && f.shared == before.shared && f.unversioned == before.unversioned
  {
    if id !in st.cache then Done(st, false)
    else
      var f := st.cache[id].fields;
      var versions := Versions(f, uri.language);
      if uri.number !in versions then Done(st, false)
      else
        var f' := f.(versioned := f.versioned[uri.language := versions - {uri.number}]);
        assert VersionSet(f') == VersionSet(f) - {uri} by {
          forall u | u in VersionSet(f')
            ensures u in VersionSet(f) && u != uri
          {
            if u.language != uri.language {
              assert Versions(f', u.language) == Versions(f, u.language);
            }
          }
          forall u | u in VersionSet(f) && u != uri
            ensures u in VersionSet(f')
          {
            if u.language != uri.language {
              assert Versions(f', u.language) == Versions(f, u.language);
            }
          }
        }
        Done(WithFields(st, id, f'), true)
  }

  /** `RemoveVersions`: clears every version of one language, or of every
      language for `Invariant`; false only for an unknown item. */
  function RemoveVersions(st: State, id: Id, lang: Language): (r: Outcome<bool>)
    ensures r.Done?
    ensures r.value <==> id in st.cache
    ensures !r.value ==> r.state == st
    ensures r.value ==> OnlyFieldsOf(st, r.state, id)
    ensures r.value ==>
      var before := st.cache[id].fields;
      var f := r.state.cache[id].fields;
      && OnlyFieldsOf(st, r.state, id)
      && (lang == Invariant ==> VersionSet(f) == {})
      && (lang != Invariant ==> VersionSet(f) == set u | u in VersionSet(before) && u.language != lang)
      && (lang != Invariant ==> forall l :: l != lang ==> Versions(f, l) == Versions(before, l))
      && f.shared == before.shared && f.unversioned == before.unversioned
  {
    if id !in st.cache then Done(st, false)
    else
      var f := st.cache[id].fields;
      var f' := if lang == Invariant then f.(versioned := map[])
                else f.(versioned := f.versioned[lang := map[]]);
      assert lang != Invariant ==> VersionSet(f') == set u | u in VersionSet(f) && u.language != lang by {
        if lang != Invariant {
          forall u | u in VersionSet(f')
            ensures u in VersionSet(f) && u.language != lang
          {
            assert Versions(f', u.language) == Versions(f, u.language);
          }
          forall u | u in VersionSet(f) && u.language != lang
            ensures u in VersionSet(f')
          {
            assert Versions(f', u.language) == Versions(f, u.language);
          }
        }
      }
      Done(WithFields(st, id, f'), true)
  }

  /** Some item of `cache` that is missing from `r` holds `x`. */
  ghost predicate RemovedHolder(cache: map<Id, Node>, r: map<Id, Node>, x: Id)
  {
    exists y :: y in cache && y !in r && x in cache[y].children
  }

  /** `DeleteItemTreeFromItemsCache`: removes `id` from the cache, then
      each of its children's subtrees in turn. The removed set contains
      `id`; with `RemoveTreeClosed` and `RemoveTreeMinimal` it is exactly
      the subtree below `id`. */
  function RemoveTree(cache: map<Id, Node>, id: Id): (r: map<Id, Node>)
    ensures r.Keys <= cache.Keys && |r| <= |cache|
    ensures forall x :: x in r ==> r[x] == cache[x]
    ensures id !in r
    decreases |cache|, 0
  {
    if id !in cache then cache
    else
      var rest := cache - {id};
      RemoveForest(rest, cache[id].children)
  }

  /** Removes the subtrees of `ids`, left to right. */
  function RemoveForest(cache: map<Id, Node>, ids: seq<Id>): (r: map<Id, Node>)
    ensures r.Keys <= cache.Keys && |r| <= |cache|
    ensures forall x :: x in r ==> r[x] == cache[x]
    ensures forall y :: y in ids ==> y !in r
    decreases |cache|, |ids|
  {
    if ids == [] then cache
    else
      RemoveForest(RemoveTree(cache, ids[0]), ids[1..])
  }

  /** The removed set is closed under children: a child of a removed item
      is removed too. */
  lemma {:induction false} RemoveTreeClosed(cache: map<Id, Node>, id: Id, x: Id, y: Id)
    requires x in cache && x !in RemoveTree(cache, id) && y in cache[x].children
    ensures y !in RemoveTree(cache, id)
    decreases |cache|, 0
  {
    if x != id {
      RemoveForestClosed(cache - {id}, cache[id].children, x, y);
    }
  }

  lemma {:induction false} RemoveForestClosed(cache: map<Id, Node>, ids: seq<Id>, x: Id, y: Id)
    requires x in cache && x !in RemoveForest(cache, ids) && y in cache[x].children
    ensures y !in RemoveForest(cache, ids)
    decreases |cache|, |ids|
  {
    if ids != [] {
      var first := RemoveTree(cache, ids[0]);
      if x in first {
        RemoveForestClosed(first, ids[1..], x, y);
      } else {
        RemoveTreeClosed(cache, ids[0], x, y);
      }
    }
  }

  /** Nothing outside the subtree is removed: every removed item other
      than `id` is a child of a removed item. */
  lemma RemoveTreeMinimal(cache: map<Id, Node>, id: Id, x: Id)
    requires x in cache && x !in RemoveTree(cache, id) && x != id
    ensures RemovedHolder(cache, RemoveTree(cache, id), x)
    decreases |cache|, 0
  {
    var rest := cache - {id};
    var r := RemoveForest(rest, cache[id].children);
    if x in cache[id].children {
      assert id in cache && id !in r;
    } else {
      RemoveForestMinimal(rest, cache[id].children, x);
      var y :| y in rest && y !in r && x in rest[y].children;
      assert y in cache && x in cache[y].children;
    }
  }

  lemma RemoveForestMinimal(cache: map<Id, Node>, ids: seq<Id>, x: Id)
    requires x in cache && x !in RemoveForest(cache, ids) && x !in ids
    ensures RemovedHolder(cache, RemoveForest(cache, ids), x)
    decreases |cache|, |ids|
  {
    var first := RemoveTree(cache, ids[0]);
    var r := RemoveForest(first, ids[1..]);
    if x in first {
      assert x !in ids[1..];
      RemoveForestMinimal(first, ids[1..], x);
      var y :| y in first && y !in r && x in first[y].children;
      assert y in cache && x in cache[y].children;
    } else {
      RemoveTreeMinimal(cache, ids[0], x);
      var y :| y in cache && y !in first && x in cache[y].children;
      assert y !in r;
    }
  }

  /** The removed items lie within any set that contains `id` and is
      closed under children: the removal never leaves the subtree. */
  lemma RemoveTreeWithin(cache: map<Id, Node>, id: Id, s: set<Id>)
    requires id in s
    requires forall y, z :: y in s && y in cache && z in cache[y].children ==> z in s
    ensures forall x :: x in cache && x !in RemoveTree(cache, id) ==> x in s
    decreases |cache|, 0
  {
    if id in cache {
      RemoveForestWithin(cache - {id}, cache[id].children, s);
    }
  }

  lemma RemoveForestWithin(cache: map<Id, Node>, ids: seq<Id>, s: set<Id>)
    requires forall y :: y in ids ==> y in s
    requires forall y, z :: y in s && y in cache && z in cache[y].children ==> z in s
    ensures forall x :: x in cache && x !in RemoveForest(cache, ids) ==> x in s
    decreases |cache|, |ids|
  {
    if ids != [] {
      var first := RemoveTree(cache, ids[0]);
      RemoveTreeWithin(cache, ids[0], s);
      RemoveForestWithin(first, ids[1..], s);
    }
  }

  /** `DeleteItem` after the strategy has located the container `h`:
      detach the item from `h`, then drop its subtree from the cache. */
  function DropSubtree(st: State, h: Holder, id: Id): (r: State)
    requires Valid(st, h)
    ensures r.top == RemoveFirst(st.top, id) || r.top == st.top
  {
    var d := Detach(st, h, id);
    State(RemoveTree(d.cache, id), d.top)
  }

  /** Detaching a held item removes it from its own container and from
      nowhere else, and changes no other node data. */
  lemma DetachFacts(st: State, t: Id, id: Id)
    requires Wf(st, t) && id in st.cache
    ensures Valid(st, HolderFor(t, st.cache[id].parentId))
    ensures var d := Detach(st, HolderFor(t, st.cache[id].parentId), id);
      && d.cache.Keys == st.cache.Keys
      && (forall y :: y in st.cache ==> d.cache[y] == st.cache[y].(children := d.cache[y].children))
      && (forall y :: y in d.top <==> y in st.top && y != id)
      && NoDup(d.top)
      && (forall p, y :: p in st.cache ==> (y in d.cache[p].children <==> y in st.cache[p].children && y != id))
      && (forall p :: p in st.cache ==> NoDup(d.cache[p].children))
  {
    HolderIsValid(st, t, id);
    var h := HolderFor(t, st.cache[id].parentId);
    var d := Detach(st, h, id);
    WithMembersFrame(st, h, RemoveFirst(Members(st, h), id));
    assert Held(st, t, id);
    RemoveFirstNoDup(Members(st, h), id);
    forall y
      ensures y in d.top <==> y in st.top && y != id
    {
      if h != TopList {
        OnlyHolder(st, t, id, TopList);
      }
    }
    forall p, y | p in st.cache
      ensures y in d.cache[p].children <==> y in st.cache[p].children && y != id
    {
      if h != ChildrenOf(p) {
        OnlyHolder(st, t, id, ChildrenOf(p));
        assert Members(d, ChildrenOf(p)) == Members(st, ChildrenOf(p));
      } else {
        assert Members(d, h) == d.cache[p].children;
      }
    }
    forall p | p in st.cache
      ensures NoDup(d.cache[p].children)
    {
      if h == ChildrenOf(p) {
        assert Members(d, h) == d.cache[p].children;
      } else {
        assert Members(d, ChildrenOf(p)) == Members(st, ChildrenOf(p));
      }
    }
  }

  /** After a deletion the top-level list names remaining items whose
      parent is the top marker. */
  lemma DropTopAgrees(st: State, t: Id, id: Id)
    requires Wf(st, t) && id in st.cache
    ensures Valid(st, HolderFor(t, st.cache[id].parentId))
    ensures TopAgrees(DropSubtree(st, HolderFor(t, st.cache[id].parentId), id), t)
  {
    DetachFacts(st, t, id);
    var h := HolderFor(t, st.cache[id].parentId);
    var d := Detach(st, h, id);
    var r := DropSubtree(st, h, id);
    forall x | x in r.top
      ensures x in r.cache && r.cache[x].parentId == t
    {
      assert x in st.top && x != id;
      if x !in r.cache {
        RemoveTreeMinimal(d.cache, id, x);
        assert false;
      }
    }
  }

  /** A child whose only holder survives a subtree removal survives it. */
  lemma KeptChild(c: map<Id, Node>, id: Id, p: Id, x: Id)
    requires p in RemoveTree(c, id) && x in c && x != id && x in c[p].children
    requires forall y :: y in c && x in c[y].children ==> y == p
    ensures x in RemoveTree(c, id)
  {
    if x !in RemoveTree(c, id) {
      RemoveTreeMinimal(c, id, x);
    }
  }

  /** After a deletion every remaining children list names remaining
      items whose parent agrees. */
  lemma DropChildrenAgree(st: State, t: Id, id: Id)
    requires Wf(st, t) && id in st.cache
    ensures Valid(st, HolderFor(t, st.cache[id].parentId))
    ensures ChildrenAgree(DropSubtree(st, HolderFor(t, st.cache[id].parentId), id))
  {
    DetachFacts(st, t, id);
    var d := Detach(st, HolderFor(t, st.cache[id].parentId), id);
    forall p, x | p in d.cache && x in d.cache[p].children
      ensures x in d.cache && d.cache[x].parentId == p
    {
      assert x in st.cache[p].children;
    }
    RemovalKeepsAgreement(d.cache, id, d.top);
  }

  /** The cache-level core of `DropChildrenAgree`: removing the subtree of
      an item no children list names keeps parents and children agreeing. */
  lemma RemovalKeepsAgreement(c: map<Id, Node>, id: Id, top: seq<Id>)
    requires ChildrenAgree(State(c, top))
    requires forall p :: p in c ==> id !in c[p].children
    ensures ChildrenAgree(State(RemoveTree(c, id), top))
  {
    var rc := RemoveTree(c, id);
    forall p, x | p in rc && x in c[p].children
      ensures x in rc
    {
      OnlyParent(c, top, p, x);
      KeptChild(c, id, p, x);
    }
    SubmapAgrees(c, rc, top);
  }

  /** A sub-map of an agreeing cache that keeps every child of a kept item
      agrees too. */
  lemma SubmapAgrees(c: map<Id, Node>, rc: map<Id, Node>, top: seq<Id>)
    requires ChildrenAgree(State(c, top))
    requires forall x :: x in rc ==> x in c && rc[x] == c[x]
    requires forall p, x :: p in rc && x in c[p].children ==> x in rc
    ensures ChildrenAgree(State(rc, top))
  {
  }

  /** Where parents and children agree, a child has one holder. */
  lemma OnlyParent(c: map<Id, Node>, top: seq<Id>, p: Id, x: Id)
    requires ChildrenAgree(State(c, top)) && p in c && x in c[p].children
    ensures x in c && c[x].parentId == p
    ensures forall y :: y in c && x in c[y].children ==> y == p
  {
  }

  /** After a deletion every remaining item still sits in the container
      its parent names. */
  lemma DropHeld(st: State, t: Id, id: Id)
    requires Wf(st, t) && id in st.cache
    ensures Valid(st, HolderFor(t, st.cache[id].parentId))
    ensures AllHeld(DropSubtree(st, HolderFor(t, st.cache[id].parentId), id), t)
  {
    DetachFacts(st, t, id);
    var h := HolderFor(t, st.cache[id].parentId);
    var d := Detach(st, h, id);
    var r := DropSubtree(st, h, id);
    forall x | x in r.cache
      ensures Held(r, t, x)
    {
      assert Held(st, t, x);
      var p := st.cache[x].parentId;
      if p != t {
        assert x in st.cache[p].children;
        assert x in d.cache[p].children;
        if p !in r.cache {
          RemoveTreeClosed(d.cache, id, p, x);
        }
      }
    }
  }

  /** Deleting an item keeps the tree invariant. */
  lemma DeletePreservesWf(st: State, t: Id, id: Id)
    requires Wf(st, t) && id in st.cache
    ensures Valid(st, HolderFor(t, st.cache[id].parentId))
    ensures Wf(DropSubtree(st, HolderFor(t, st.cache[id].parentId), id), t)
  {
    DropTopAgrees(st, t, id);
    DropChildrenAgree(st, t, id);
    DropHeld(st, t, id);
    DetachFacts(st, t, id);
  }
}
