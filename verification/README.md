# Sitecore JSON data provider: the item-mapping engine, in Dafny

The JSON data provider keeps Sitecore content items in JSON files instead of
a database. A *mapping* owns one file. It loads the file into an in-memory
item tree and answers the host's reads: definitions, parents, children,
versions and fields. It applies the host's writes: create, copy, move,
delete, add or remove versions, save fields. After each write it serialises
the tree back.

This project models the engine that all mappings share. It also models its
two structural strategies:

- **Forest** (`DefaultMapping`): the file is a dictionary from root ids to
  item lists. Each root becomes a hidden *holder* item whose parent is `Null`.
- **Anchored** (`SubTreeFileMapping`): the file holds the children of one
  configured *anchor* item. The anchor lives elsewhere and is not cached.

## Structure

The state is `State(cache, top)`:
- `cache` maps an id to its `Node`: name, template, parent id, ordered child
  ids, and the three-scope field store.
- `top` is the mapping's own top-level list.

Both strategies share one tree invariant, `Tree.Wf(st, t)`. The *top marker*
`t` is `Null` for the forest and the anchor id for the anchored strategy.
`Wf(st, t)` says:
- `t` is not cached, and each node is keyed by its own id;
- no list repeats an id;
- the top-level items name `t` as parent;
- every child names its holder as parent;
- every cached item sits in the list its parent names.

C# assertion failures and exceptions become `Fatal(fault)` outcomes. Normal
results are `Done(state, value)`.

| file | module | models |
|---|---|---|
| types.dfy | `Types` | ids, languages, the field store, nodes, state, faults |
| seqs.dfy | `Seqs` | duplicate-freedom; `List<T>.Remove` as `RemoveFirst` |
| fields.dfy | `FieldStore` | scoped field lookup, version numbering, field edits and their per-field effect, the `Dictionary.Add` field copy |
| tree.dfy | `Tree` | containers, the invariant, insert/detach/attach/move |
| abstract_mapping.dfy | `AbstractMapping` | reads, `AddVersion`, `SaveItem`, `RemoveVersion(s)`, `DoCopyItem`, subtree removal, `DeleteItem` |
| item_tree.dfy | `ItemTree` | `InitializeItemTree`: indexing a decoded tree |
| default_mapping.dfy | `DefaultMapping` | the forest strategy |
| subtree_mapping.dfy | `SubTreeFileMapping` | the anchored strategy |

Source paths below are relative to the repository root. `A` is
`src/Data/Mappings/AbstractMapping.cs` and `D` is
`src/Data/Mappings/DefaultMapping.cs`; both are written out in the table.

## Model

| member | source | states |
|---|---|---|
| Seqs.RemoveFirst | src/Data/Mappings/DefaultMapping.cs:144-145 | `List.Remove`: an absent element leaves the list unchanged; otherwise exactly the first occurrence goes, with the rest in order; every other element keeps its membership |
| Seqs.RemoveFirstNoDup | src/Data/Mappings/DefaultMapping.cs:161 | on a duplicate-free list, removal deletes the element entirely and keeps the list duplicate-free |
| FieldStore.FieldsFor | src/Data/Mappings/AbstractMapping.cs:124-160 | the invariant language sees the shared fields only; other languages see shared, then unversioned, then versioned fields, each later scope overriding an earlier one; keys are exactly the union |
| FieldStore.VersionSet | src/Data/Mappings/AbstractMapping.cs:103-110 | a (language, number) pair is listed iff that version is stored |
| FieldStore.NextVersion | src/Data/Mappings/AbstractMapping.cs:218-225 | the new number is 1 for a language with no versions, otherwise the maximum plus one: fresh, above every stored number, adjacent to the maximum |
| FieldStore.AddVersionTo | src/Data/Mappings/AbstractMapping.cs:192-230 | adds exactly one version. It copies a positive, existing source version minus the workflow-state field; otherwise it holds only the Created stamp. Existing versions, other languages, shared and unversioned fields are untouched |
| FieldStore.AddVersionGrowsVersionSet | src/Data/Mappings/AbstractMapping.cs:200-230 | the version list gains exactly the new (language, number) pair, which was not there before |
| FieldStore.ApplyEdit | src/Data/Mappings/AbstractMapping.cs:270-327 | an edit with no field id or no definition is skipped, and so is a removal during a save-all. A removal deletes the field from shared, from the language's unversioned fields and from an existing version slot. A write lands in exactly the scope its definition names and creates a missing slot. An edit is fatal iff it writes a field whose definition is none of shared, unversioned or versioned |
| FieldStore.ApplyEdits | src/Data/Mappings/AbstractMapping.cs:270-328 | fatal iff some edit has an unsupported definition; a list of skipped edits changes nothing; what it leaves field by field is `LastEditDecides` |
| FieldStore.EditActsPerField | src/Data/Mappings/AbstractMapping.cs:270-327 | one edit acts on each field of each place as read off the edit alone: a write puts its value in the one place its scope names, a removal clears the field from shared, its language's unversioned fields and its version slot, anything else keeps the field |
| FieldStore.LastEditDecides | src/Data/Mappings/AbstractMapping.cs:270-328 | edits applied in order leave each field of each place as the last edit touching it says, and every untouched field as it was |
| FieldStore.EditsVersionSet | src/Data/Mappings/AbstractMapping.cs:306-323 | edits add to the version list exactly the slots their versioned writes open, and remove none |
| FieldStore.RemoveIsIdempotent | src/Data/Mappings/AbstractMapping.cs:292-305 | repeating a removal changes nothing |
| FieldStore.RemovalHidesField | src/Data/Mappings/AbstractMapping.cs:292-305 | after a removal the field is absent from the edit's own reading context |
| FieldStore.WriteIsVisible | src/Data/Mappings/AbstractMapping.cs:306-323 | after a write in a scope nothing more specific overrides, reading the edit's context shows the written value |
| FieldStore.AddEachIsAddAll | src/Data/Mappings/AbstractMapping.cs:459-462 | a loop of `Dictionary.Add` over a dictionary's entries, in any order, fails iff some key is already present, and otherwise yields the union |
| FieldStore.AddGroups | src/Data/Mappings/AbstractMapping.cs:455-480 | adding per-language groups: fails iff some language meets a key already present; otherwise each language the source has holds the union and every other language is unchanged |
| FieldStore.CopyFieldsInto | src/Data/Mappings/AbstractMapping.cs:445-480 | the copy's shared fields become the source's; each unversioned language and each language's versions are added key by key, fatal (`DuplicateKey`) iff the copy already holds one of the source's keys; languages the source lacks are unchanged |
| FieldStore.CopyIntoEmpty | src/Data/Mappings/AbstractMapping.cs:445-480 | copying into an empty store reproduces the source's store exactly |
| Tree.Attach | src/Data/Mappings/DefaultMapping.cs:90 | `List.Add`: the container gains the id at its end; no other container and no node's own data change |
| Tree.Detach | src/Data/Mappings/DefaultMapping.cs:161 | `List.Remove`: the container loses the first occurrence of the id; no other container and no node's own data change |
| Tree.DetachUndoesAttach | src/Data/Mappings/DefaultMapping.cs:144-145 | removing an id just appended to a container that did not hold it restores the state exactly |
| Tree.MembersAreChildren | src/Sitecore.JsonDataProvider/Data/Mappings/SubTreeFileMapping.cs:102-108 | under the invariant, a container lists exactly the items naming its owner as parent, each once |
| Tree.InsertPreservesWf | src/Sitecore.JsonDataProvider/Data/Mappings/SubTreeFileMapping.cs:179-188 | caching a fresh childless node and appending it to the container its parent names keeps the invariant |
| Tree.MovePreservesMembership | src/Sitecore.JsonDataProvider/Data/Mappings/SubTreeFileMapping.cs:289-315 | the raw move (remove from the parent's container, append to the target) keeps every item in exactly one container |
| Tree.RelinkPreservesWf | src/Sitecore.JsonDataProvider/Data/Mappings/SubTreeFileMapping.cs:289-315 | the move with the parent id updated keeps the whole invariant |
| AbstractMapping.GetItemVersions | src/Data/Mappings/AbstractMapping.cs:93-111 | defined iff visible; exactly the stored (language, number) pairs |
| AbstractMapping.ReadsAgree | src/Data/Mappings/AbstractMapping.cs:67-161 | the definition, parent, version and field reads answer for exactly the same items; under the invariant the definition names the item asked for |
| AbstractMapping.ParentHoldsItem | src/Data/Mappings/AbstractMapping.cs:80-91 | under the invariant the reported parent holds the item: it is the top marker and the item is top-level, or a cached item listing it among its children |
| AbstractMapping.GetItemFields | src/Data/Mappings/AbstractMapping.cs:113-161 | defined iff visible; the invariant language reads shared fields only, any other language the three scopes with the precedence `FieldStore.FieldsFor` states |
| AbstractMapping.RootHoldersAreHidden | src/Data/Mappings/DefaultMapping.cs:59-62 | in a forest, every read of a root holder is empty |
| AbstractMapping.FieldEditPreservesWf | src/Data/Mappings/AbstractMapping.cs:177-397 | a change confined to one item's fields keeps the tree invariant |
| AbstractMapping.AddVersion | src/Data/Mappings/AbstractMapping.cs:177-236 | -1 and no change for an unknown or ignored item; otherwise only that item's fields change, and the new number is fresh and follows the maximum. The version list gains exactly it. Its content is the workflow-stripped copy or the Created stamp. The language's other versions and every other language's versions keep their contents |
| AbstractMapping.SaveItem | src/Data/Mappings/AbstractMapping.cs:238-335 | false for an unknown item. Fatal iff fields changed and some edit is unsupported. Name and template change only to supplied values. Nothing but that item changes, and structure is kept. Without field changes the fields are kept; with them the edits apply in order to the old store, or to an empty one for a save-all |
| AbstractMapping.SaveItemPerField | src/Data/Mappings/AbstractMapping.cs:263-327 | field by field, a save leaves what the last edit touching that field and place left, and otherwise the value from before the save (none after a save-all); the version list gains exactly the slots versioned writes open |
| AbstractMapping.SaveAllExplained | src/Data/Mappings/AbstractMapping.cs:263-268 | one direction of the save-all case: every field a save-all leaves was written, at that place, by one of its edits (the exact result is `SaveItemPerField`) |
| AbstractMapping.DoCopyFields | src/Data/Mappings/AbstractMapping.cs:438-483 | fatal (`DuplicateKey`) iff the cached copy already holds a key the source's fields bring; otherwise only that item's fields change, to the merge; a copy whose store starts empty ends reading exactly like the source in every context |
| AbstractMapping.RemoveVersion | src/Data/Mappings/AbstractMapping.cs:339-369 | true iff the item and the version exist; then exactly that pair leaves the version list and nothing outside the item's fields changes |
| AbstractMapping.RemoveVersions | src/Data/Mappings/AbstractMapping.cs:371-397 | true iff the item exists; the invariant language empties the version list, any other language drops exactly its own versions and leaves the others' versions as they were |
| AbstractMapping.RemoveTree | src/Data/Mappings/AbstractMapping.cs:534-545 | removes `id` and keeps every remaining node as it was |
| AbstractMapping.RemoveTreeClosed | src/Data/Mappings/AbstractMapping.cs:539-544 | a child of a removed item is removed |
| AbstractMapping.RemoveTreeMinimal | src/Data/Mappings/AbstractMapping.cs:538-544 | every removed item other than `id` is a child of a removed item |
| AbstractMapping.RemoveTreeWithin | src/Data/Mappings/AbstractMapping.cs:534-545 | the removed items lie in every child-closed set containing `id` |
| AbstractMapping.DeletePreservesWf | src/Data/Mappings/AbstractMapping.cs:399-419 | detaching an item from its container and removing its subtree keeps the invariant |
| ItemTree.Load | src/Data/Mappings/AbstractMapping.cs:490-508 | the top-level list is the decoded list's ids; the cache holds exactly the ids of the decoded trees |
| ItemTree.LoadedNodes | src/Data/Mappings/AbstractMapping.cs:494-506 | with distinct ids, each decoded node is cached under its id with its decoded parent as parent and its decoded children as children |
| ItemTree.LoadPreservesWf | src/Data/Mappings/AbstractMapping.cs:490-508 | a decoded forest with distinct ids, none equal to the top marker, loads into a state satisfying the invariant |
| DefaultMapping.Initialize | src/Data/Mappings/DefaultMapping.cs:21-41 | a null document loads empty; the top-level list is the keys with non-null values, in entry order; the cache holds exactly those holders and the ids under them |
| DefaultMapping.InitializePreservesWf | src/Data/Mappings/DefaultMapping.cs:21-41 | a document with distinct non-`Null` ids loads into a well-formed forest whose top-level items are hidden holders |
| DefaultMapping.ChildIDsAreChildren | src/Data/Mappings/DefaultMapping.cs:43-56 | in a well-formed forest, the child ids are exactly the items naming it as parent, each once |
| DefaultMapping.AddRootItem | src/Data/Mappings/DefaultMapping.cs:169-182 | appends a childless, hidden `"$default-mapping"` holder to the top-level list and cache; nothing else changes |
| DefaultMapping.AddRootPreservesWf | src/Data/Mappings/DefaultMapping.cs:169-182 | adding a root holder with a fresh non-`Null` id keeps the invariant |
| DefaultMapping.CreateItem | src/Data/Mappings/DefaultMapping.cs:64-96 | always true. A missing parent becomes a new root holder, and the id joins the parent's children. A new id caches the new item; a cached id keeps its old item, the new one hidden behind it in the first-match list. No other item changes |
| DefaultMapping.CreatePreservesWf | src/Data/Mappings/DefaultMapping.cs:64-96 | creation under a new non-`Null` id other than the parent keeps the invariant |
| DefaultMapping.CopyItem | src/Data/Mappings/DefaultMapping.cs:98-120 | false, with no change, iff the source is missing or hidden or the destination is missing. Otherwise the copy id joins the destination's children. A new id gets a childless copy with the copy name, the source's template and the source's fields, and never fails. A cached id keeps its item and merges the source's fields into it, fatal iff a key collides; copying an item onto itself first clears its shared fields. No other node's data changes |
| DefaultMapping.CopyReadsLikeSource | src/Data/Mappings/AbstractMapping.cs:426-486 | a copy under a new id reads like its source in every context and the source reads as before |
| DefaultMapping.CopyPreservesWf | src/Data/Mappings/DefaultMapping.cs:98-120 | copying under a new id never fails and keeps the invariant |
| DefaultMapping.MoveItem | src/Data/Mappings/DefaultMapping.cs:122-151 | false for a missing or hidden item. A missing target first becomes a root holder; the move is then fatal iff the recorded parent is neither cached nor the target. The item leaves its parent's children and joins the target's. No parent id changes and other nodes are untouched |
| DefaultMapping.MoveKeepsMembership | src/Data/Mappings/DefaultMapping.cs:122-151 | one move from a well-formed forest succeeds and keeps every item in exactly one container |
| DefaultMapping.MoveItemRelinked | src/Data/Mappings/DefaultMapping.cs:122-151 | as `MoveItem`, and the moved item's parent becomes the target |
| DefaultMapping.MoveRelinkedPreservesWf | src/Data/Mappings/DefaultMapping.cs:122-151 | the relinked move keeps the whole invariant |
| DefaultMapping.StaleParentDuplicates | src/Data/Mappings/DefaultMapping.cs:139-145 | from a well-formed forest, two moves as written leave an item in two children lists |
| DefaultMapping.MovesMakeCycle | src/Data/Mappings/DefaultMapping.cs:139-145 | from the sample forest, two moves as written (`X` under `Q`, then `Q` under `X`) put each in the other's children; deleting `X` then ends here with both gone, where the source's subtree walk would not end |
| DefaultMapping.DeleteItem | src/Data/Mappings/DefaultMapping.cs:153-162 | false for an unknown item. Fatal iff its parent is uncached. Otherwise it leaves the cache and its parent's list, whose order is kept. Nothing new is cached, and every survivor but the parent is unchanged |
| DefaultMapping.DeleteKeepsWf | src/Data/Mappings/AbstractMapping.cs:399-419 | a successful delete keeps the invariant |
| DefaultMapping.RootHolderDeleteFails | src/Data/Mappings/DefaultMapping.cs:157-159 | deleting a root holder is fatal |
| DefaultMapping.DeleteRemovesWholeSubtree | src/Data/Mappings/AbstractMapping.cs:534-545 | a child of a removed item is removed |
| DefaultMapping.DeleteRemovesOnlySubtree | src/Data/Mappings/AbstractMapping.cs:534-545 | removed items lie in every child-closed set containing the deleted id |
| DefaultMapping.CommitObjectIsDictionary | src/Data/Mappings/DefaultMapping.cs:163-166 | in a well-formed forest the entries' keys are distinct, so `ToDictionary` cannot fail; each entry lists exactly the items naming its key as parent |
| SubTreeFileMapping.DeserializeAccepts | src/Sitecore.JsonDataProvider/Data/Mappings/SubTreeFileMapping.cs:56-94 | a decoded file is accepted iff it is a list, an empty or null dictionary, or keyed by the anchor alone. The accepted items are the list's or the anchor key's value. Nothing is decoded only from a null list, a null or empty dictionary, or a null value under the anchor |
| SubTreeFileMapping.Initialize | src/Sitecore.JsonDataProvider/Data/Mappings/SubTreeFileMapping.cs:36-53 | fails iff decoding fails; nothing decoded loads empty; otherwise the top-level list is the decoded ids and the cache their subtrees |
| SubTreeFileMapping.InitializePreservesWf | src/Sitecore.JsonDataProvider/Data/Mappings/SubTreeFileMapping.cs:36-53 | distinct ids that avoid the anchor load into a well-formed subtree whose top-level items name the anchor |
| SubTreeFileMapping.ChildIDsAreChildren | src/Sitecore.JsonDataProvider/Data/Mappings/SubTreeFileMapping.cs:96-114 | in a well-formed subtree these are exactly the items naming the id as parent, each once |
| SubTreeFileMapping.AcceptsWhereChildIDsAnswer | src/Sitecore.JsonDataProvider/Data/Mappings/SubTreeFileMapping.cs:116-140 | a container accepts new children iff the mapping is writable and `GetChildIDs` answers for it; it then exists and `GetChildIDs` lists its members |
| SubTreeFileMapping.AddUnder | src/Sitecore.JsonDataProvider/Data/Mappings/SubTreeFileMapping.cs:179-188 | the node is stored under its id, replacing any item with that id, and its id is appended to the container fetched before; no other container and no other node's data change |
| SubTreeFileMapping.CreateItem | src/Sitecore.JsonDataProvider/Data/Mappings/SubTreeFileMapping.cs:147-198 | true iff `AcceptsNewChildrenOf` the parent. The new item is then stored under its id, replacing any item with that id, and appended to the top-level list or to the parent's children; no other container and no other node's data change. Otherwise nothing changes |
| SubTreeFileMapping.CreatePreservesWf | src/Sitecore.JsonDataProvider/Data/Mappings/SubTreeFileMapping.cs:147-198 | creation with a new id other than the anchor keeps the invariant |
| SubTreeFileMapping.CopyItem | src/Sitecore.JsonDataProvider/Data/Mappings/SubTreeFileMapping.cs:200-251 | true iff `AcceptsNewChildrenOf` the destination; then the node `DoCopy` builds is stored under its own id, replacing any item with that id, and appended to the destination's list; no other container and no other node's data change. Otherwise nothing changes |
| SubTreeFileMapping.CopyPreservesWf | src/Sitecore.JsonDataProvider/Data/Mappings/SubTreeFileMapping.cs:200-251 | a childless copy under a new id, held by its destination, keeps the invariant |
| SubTreeFileMapping.MoveItem | src/Sitecore.JsonDataProvider/Data/Mappings/SubTreeFileMapping.cs:253-325 | false when read-only or unknown; true, unchanged, when the recorded parent is the target. Otherwise a parent that is neither the anchor nor cached is fatal (`MissingParent`), and then so is such a target (`OutsideMapping`). Otherwise the item leaves the parent's list for the target's, other lists and parent ids unchanged |
| SubTreeFileMapping.MoveKeepsMembership | src/Sitecore.JsonDataProvider/Data/Mappings/SubTreeFileMapping.cs:253-325 | one move to the anchor or a cached item succeeds and keeps every item in exactly one container |
| SubTreeFileMapping.MoveItemRelinked | src/Sitecore.JsonDataProvider/Data/Mappings/SubTreeFileMapping.cs:253-325 | as `MoveItem`, and the moved item's parent becomes the target |
| SubTreeFileMapping.MoveRelinkedPreservesWf | src/Sitecore.JsonDataProvider/Data/Mappings/SubTreeFileMapping.cs:253-325 | the relinked move keeps the whole invariant |
| SubTreeFileMapping.MoveBackIsLost | src/Sitecore.JsonDataProvider/Data/Mappings/SubTreeFileMapping.cs:275-279 | after one move as written the item still records the anchor. Moving it back is then a successful no-op, leaving it outside the top-level list, and the subtree is no longer well formed |
| SubTreeFileMapping.DeleteItem | src/Sitecore.JsonDataProvider/Data/Mappings/SubTreeFileMapping.cs:327-344 | false for an unknown item. Fatal iff its parent is neither the anchor nor cached. Otherwise it leaves the cache and the top-level list or its parent's list. Nothing new is cached, and every survivor but the former parent is unchanged |
| SubTreeFileMapping.DeletePreservesWf | src/Sitecore.JsonDataProvider/Data/Mappings/SubTreeFileMapping.cs:327-344 | on a well-formed subtree a delete never fails and keeps the invariant |
| SubTreeFileMapping.DeleteRemovesWholeSubtree | src/Data/Mappings/AbstractMapping.cs:534-545 | a child of a removed item is removed |
| SubTreeFileMapping.DeleteRemovesOnlySubtree | src/Data/Mappings/AbstractMapping.cs:534-545 | removed items lie in every child-closed set containing the deleted id |
| SubTreeFileMapping.CommitObjectIsTopLevel | src/Sitecore.JsonDataProvider/Data/Mappings/SubTreeFileMapping.cs:346-350 | in a well-formed subtree it names each item whose parent is the anchor exactly once |

## Left out

- File I/O, `Commit` and the JSON codec: a file is given as its decoded value (`RootEntry` list, `SubTreeDoc`). Serialising after each write is not modelled. A file that fails both decodings is outside the model.
- Locking (`SyncRoot`, the reader/writer lock): the model is sequential.
- The XML configuration and the constructors.
- `GetTemplateItemIDs` and `GetLanguages`: plain filters over the cache with no state change. They depend on host template ids.
- `JsonDataProvider.InitializeDefaultValues`, called while indexing: it is not part of this model.
- Null entries in decoded children lists: the loader skips them but leaves them in the list. Decoded children here are never null.
- Malformed GUID keys in the forest document (`ID.Parse` throwing): ids are abstract.
- Partial effects before a fatal error are dropped. Examples: the root holder a forest move adds before its parent check fails, the edits a save applied before an unsupported one, and the item a copy creates before a key collision. A fatal outcome carries only the fault.
- The round trip from commit object back to load: the codec is not modelled. The commit objects are modelled as id lists.
- DefaultMapping.CreateItem: children lists hold ids, not item objects. An item created under an id already cached is identified with the cached item, so its own name and template are kept nowhere.
- SubTreeFileMapping.CreateItem: children lists hold ids, not item objects. When the new item replaces a cached item with the same id, the list that held the replaced object now resolves to the new item.
- SubTreeFileMapping.CopyItem: `DoCopy` in `AbstractFileMapping` is not part of this model. It is the parameter `copier`; the node it builds is stored under its own id. `CopyPreservesWf` further assumes that node has a new id, no children and the destination as parent.
- `AbstractFileMapping` is not part of this model. The anchored `DeleteItem` is taken to be `AbstractMapping.DeleteItem` with this strategy's `DoDeleteItem`. `ReadOnly` is a parameter of create, copy and move.
- The forest holder built from a dictionary entry has name `""` and template `Null`; the source leaves them at `JsonItem` defaults that are not part of this model.
- AbstractMapping.RemoveTree: stops at an id that is no longer cached, so it ends on every cache. `DeleteItemTreeFromItemsCache` follows child objects without that check and does not end once children lists form a cycle. `Tree.Wf` does not exclude cycles, but under it the detach that precedes the walk breaks any cycle through the deleted item. The moves as written reach a cycle outside the invariant (`DefaultMapping.MovesMakeCycle`).
- `FieldList.Add` is read as "set": a later scope overrides an earlier one on the same field.
- A language with no entry and an empty entry are identified: the source's collections create entries on demand.
- AbstractMapping.GetItemVersions: the version list is returned as a set. The source lists the pairs in dictionary enumeration order, which .NET leaves unspecified.
- FieldStore.NextVersion: version numbers are unbounded. The source's `int` addition after the maximum 2147483647 would wrap to -2147483648; that is not modelled.
- SubTreeFileMapping.Initialize: a null entry in the decoded top-level list makes the source throw when it sets the entry's parent (SubTreeFileMapping.cs:46-48). Decoded lists here hold no nulls.
- The anchored `ItemsCache` indexer is read as yielding null for a missing id, as the callers' null checks expect. Its class, in `AbstractFileMapping`, is not part of this model.
- `JsonFieldsCollection` and the per-language collections are read as dictionaries whose `Add` throws on a key already present. Their classes are not part of this model.

## Findings

| source | as written | input that shows it | evidently intended | confidence | as-written member | corrected member |
|---|---|---|---|---|---|---|
| src/Data/Mappings/DefaultMapping.cs:139-145 | `MoveItem` moves the item into the target's children but never sets its `ParentID`, so the next move removes it from the old parent instead | holder `H` with children `[X, Q]`; move `X` under `Q`, then under `H`: `X` ends in both `Q`'s and `H`'s children. Moving `X` under `Q` and then `Q` under `X` instead closes a children cycle, on which a later delete's subtree walk does not end | the move sets `item.ParentID = targetID` | high; not executed | DefaultMapping.MoveItem, DefaultMapping.StaleParentDuplicates and DefaultMapping.MovesMakeCycle | DefaultMapping.MoveItemRelinked and DefaultMapping.MoveRelinkedPreservesWf |
| src/Sitecore.JsonDataProvider/Data/Mappings/SubTreeFileMapping.cs:275-315 | `MoveItem` never sets `ParentID`: a later move back is judged by the stale parent | anchor `A` holding `[X, T]`; move `X` under `T`, then back to `A`: the second call returns true and does nothing, so `X` stays in `T`'s children, is missing from the top-level list, and still records `A` as its parent | the move sets `item.ParentID = targetID` | high; not executed | SubTreeFileMapping.MoveItem and SubTreeFileMapping.MoveBackIsLost | SubTreeFileMapping.MoveItemRelinked and SubTreeFileMapping.MoveRelinkedPreservesWf |
