/** The per-item field store: scoped lookup, version numbering and the
    single-field edits a save applies (AbstractMapping.cs). */
module FieldStore {
  import opened Types

  /** The unversioned fields of one language; a missing language is empty. */
  function Unversioned(f: Fields, lang: Language): FieldMap
  {
    if lang in f.unversioned then f.unversioned[lang] else map[]
  }

  /** The versions of one language, keyed by number; a missing language has
      none. */
  function Versions(f: Fields, lang: Language): map<int, FieldMap>
  {
    if lang in f.versioned then f.versioned[lang] else map[]
  }

  /** The versioned fields of one (language, number) slot; a missing slot is
      empty. */
  function Slot(f: Fields, lang: Language, number: int): FieldMap
  {
    if number in Versions(f, lang) then Versions(f, lang)[number] else map[]
  }

  /** The field list an item shows for a (language, version) context. The
      invariant language sees the shared fields alone; any other language sees
      shared, then unversioned, then versioned fields, a later scope
      overriding an earlier one on the same field. */
  function FieldsFor(f: Fields, lang: Language, number: int): (r: FieldMap)
    ensures lang == Invariant ==> r == f.shared
    ensures lang != Invariant ==> forall k ::
      k in r <==> k in f.shared || k in Unversioned(f, lang) || k in Slot(f, lang, number)
    ensures lang != Invariant ==> forall k :: k in Slot(f, lang, number) ==>
      r[k] == Slot(f, lang, number)[k]
    ensures lang != Invariant ==> forall k :: k in Unversioned(f, lang) && k !in Slot(f, lang, number) ==>
      r[k] == Unversioned(f, lang)[k]
    ensures lang != Invariant ==> forall k ::
      k in f.shared && k !in Unversioned(f, lang) && k !in Slot(f, lang, number) ==>
      r[k] == f.shared[k]
  {
    if lang == Invariant then f.shared
    else
      var withUnversioned := f.shared + Unversioned(f, lang);
      if number !in Versions(f, lang) then withUnversioned
      else withUnversioned + Versions(f, lang)[number]
  }

  /** Every (language, number) pair that holds a stored version. */
  function VersionSet(f: Fields): (r: set<VersionUri>)
    ensures forall u :: u in r <==> u.number in Versions(f, u.language)
  {
    set l, n | l in f.versioned.Keys && n in f.versioned[l].Keys :: VersionUri(l, n)
  }

  lemma NonEmpty(s: set<int>)
    requires s != {}
    ensures exists x :: x in s
  {
    if forall x :: x !in s {
      assert false;
    }
  }

  predicate IsMax(s: set<int>, m: int)
  {
    m in s && forall k :: k in s ==> k <= m
  }

  lemma {:induction false} HasMax(s: set<int>)
    requires s != {}
    ensures exists m :: IsMax(s, m)
    decreases |s|
  {
    NonEmpty(s);
    var x :| x in s;
    var rest := s - {x};
    if rest == {} {
      assert IsMax(s, x) by {
        forall k | k in s
          ensures k <= x
        {
          assert k !in rest;
        }
      }
    } else {
      HasMax(rest);
      var m :| IsMax(rest, m);
      if m < x {
        assert IsMax(s, x) by {
          forall k | k in s
            ensures k <= x
          {
            if k != x { assert k in rest; }
          }
        }
      } else {
        assert IsMax(s, m) by {
          forall k | k in s
            ensures k <= m
          {
            if k != x { assert k in rest; }
          }
        }
      }
    }
  }

  /** The largest element of a non-empty set of version numbers. */
  function MaxKey(s: set<int>): (m: int)
    requires s != {}
    ensures m in s && forall k :: k in s ==> k <= m
  {
    HasMax(s);
    var m :| IsMax(s, m); m
  }

  /** The number a new version of a language gets: 1 when it has none,
      otherwise one more than the highest existing number. */
  function NextVersion(vs: map<int, FieldMap>): (n: int)
    ensures n !in vs
    ensures forall k :: k in vs ==> k < n
    ensures (vs == map[] && n == 1) || n - 1 in vs
  {
    if |vs| == 0 then 1 else MaxKey(vs.Keys) + 1
  }

  /** Adds a version to one language. When `number` is positive and names a
      stored version, the new version is a copy of it without the workflow
      state; otherwise it holds only the creation stamp `now`. Yields the new
      field store and the allocated number. */
  function AddVersionTo(f: Fields, lang: Language, number: int, now: string): (r: (Fields, int))
    ensures var vs := Versions(f, lang); var n := r.1;
      && n !in vs
      && (forall k :: k in vs ==> k < n)
      && ((vs == map[] && n == 1) || n - 1 in vs)
    ensures Versions(r.0, lang).Keys == Versions(f, lang).Keys + {r.1}
    ensures forall k :: k in Versions(f, lang) ==> Versions(r.0, lang)[k] == Versions(f, lang)[k]
    ensures number > 0 && number in Versions(f, lang) ==>
      Versions(r.0, lang)[r.1] == Versions(f, lang)[number] - {WorkflowStateField}
    ensures !(number > 0 && number in Versions(f, lang)) ==>
      Versions(r.0, lang)[r.1] == map[CreatedField := now]
    ensures r.0.shared == f.shared && r.0.unversioned == f.unversioned
    ensures forall l :: l != lang ==> Versions(r.0, l) == Versions(f, l)
  {
    var vs := Versions(f, lang);
    var n := NextVersion(vs);
    var slot := if number > 0 && number in vs then vs[number] - {WorkflowStateField}
                else map[CreatedField := now];
    (f.(versioned := f.versioned[lang := vs[n := slot]]), n)
  }

  /** Adding a version adds exactly one (language, number) pair to the
      item's version list. */
  lemma AddVersionGrowsVersionSet(f: Fields, lang: Language, number: int, now: string)
    ensures var r := AddVersionTo(f, lang, number, now);
      && VersionUri(lang, r.1) !in VersionSet(f)
      && VersionSet(r.0) == VersionSet(f) + {VersionUri(lang, r.1)}
  {
    var r := AddVersionTo(f, lang, number, now);
    var added := VersionUri(lang, r.1);
    forall u | u in VersionSet(r.0)
      ensures u in VersionSet(f) + {added}
    {
      if u.language != lang {
        assert Versions(r.0, u.language) == Versions(f, u.language);
      } else if u != added {
        assert u.number in Versions(f, lang);
      }
    }
    forall u | u in VersionSet(f) + {added}
      ensures u in VersionSet(r.0)
    {
      if u.language != lang {
        assert Versions(r.0, u.language) == Versions(f, u.language);
      }
    }
  }

  /** The scope a field definition assigns to a field. `Unclassified` stands
      for a definition that is none of the three. */
  datatype Scope = SharedField | UnversionedField | VersionedField | Unclassified

  /** One field edit of a save: the field, its definition's scope (either may
      be missing), the target language and version, and a value or a removal
      flag. */
  datatype FieldChange = FieldChange(
    fieldId: Option<Id>,
    definition: Option<Scope>,
    language: Language,
    number: int,
    value: Option<string>,
    remove: bool)

  /** An edit the engine silently passes over. */
  predicate Skipped(e: FieldChange, saveAll: bool)
  {
    e.fieldId.None? || e.definition.None? || ((e.remove || e.value.None?) && saveAll)
  }

  /** An edit that deletes its field rather than writing it. */
  predicate Removes(e: FieldChange, saveAll: bool)
  {
    !Skipped(e, saveAll) && (e.remove || e.value.None?)
  }

  /** An edit that writes a value into the scope its definition names. */
  predicate Writes(e: FieldChange)
  {
    e.fieldId.Some? && e.definition.Some? && !e.remove && e.value.Some?
  }

  /** An edit whose definition is none of the three scopes: fatal. */
  predicate Throws(e: FieldChange)
  {
    Writes(e) && e.definition.value == Unclassified
  }

  /** Every unversioned or versioned entry of a language other than `lang`
      reads the same in both stores. */
  ghost predicate OtherLanguagesAgree(f: Fields, g: Fields, lang: Language)
  {
    forall l :: l != lang ==> Unversioned(f, l) == Unversioned(g, l) && Versions(f, l) == Versions(g, l)
  }

  /** Every version of `lang` other than `number` is the same in both
      stores. */
  ghost predicate OtherSlotsAgree(f: Fields, g: Fields, lang: Language, number: int)
  {
    forall k :: k != number ==>
      (k in Versions(f, lang) <==> k in Versions(g, lang)) &&
      (k in Versions(f, lang) ==> Versions(f, lang)[k] == Versions(g, lang)[k])
  }

  /** Applies one field edit. A removal deletes the field from the shared
      fields, the edit language's unversioned fields and the edit's version
      slot (when that slot exists); a write stores the value in exactly the
      scope the definition names, creating a missing version slot. */
  function ApplyEdit(f: Fields, e: FieldChange, saveAll: bool): (r: Result<Fields>)
    ensures r.Err? <==> Throws(e)
    ensures r.Err? ==> r.fault == UnsupportedField(e.fieldId.value)
    ensures Skipped(e, saveAll) ==> r == Ok(f)
    ensures Removes(e, saveAll) ==> (
      && r.Ok?
      && r.value.shared == f.shared - {e.fieldId.value}
      && Unversioned(r.value, e.language) == Unversioned(f, e.language) - {e.fieldId.value}
      && Slot(r.value, e.language, e.number) == Slot(f, e.language, e.number) - {e.fieldId.value}
      && (e.number in Versions(r.value, e.language) <==> e.number in Versions(f, e.language))
      && OtherSlotsAgree(f, r.value, e.language, e.number)
      && OtherLanguagesAgree(f, r.value, e.language))
    ensures Writes(e) && e.definition.value == SharedField ==> (
      && r.Ok?
      && r.value == f.(shared := f.shared[e.fieldId.value := e.value.value]))
    ensures Writes(e) && e.definition.value == UnversionedField ==> (
      && r.Ok?
      && r.value.shared == f.shared && r.value.versioned == f.versioned
      && Unversioned(r.value, e.language) == Unversioned(f, e.language)[e.fieldId.value := e.value.value]
      && (forall l :: l != e.language ==> Unversioned(r.value, l) == Unversioned(f, l)))
    ensures Writes(e) && e.definition.value == VersionedField ==> (
      && r.Ok?
      && r.value.shared == f.shared && r.value.unversioned == f.unversioned
      && e.number in Versions(r.value, e.language)
      && Slot(r.value, e.language, e.number) == Slot(f, e.language, e.number)[e.fieldId.value := e.value.value]
      && OtherSlotsAgree(f, r.value, e.language, e.number)
      && (forall l :: l != e.language ==> Versions(r.value, l) == Versions(f, l)))
  {
    if e.fieldId.None? || e.definition.None? then Ok(f)
    else
      var id := e.fieldId.value;
      var lang := e.language;
      var versions := Versions(f, lang);
      if e.remove || e.value.None? then
        if saveAll then Ok(f)
        else
          var versions' := if e.number in versions then versions[e.number := versions[e.number] - {id}]
                           else versions;
          Ok(Fields(
            f.shared - {id},
            f.unversioned[lang := Unversioned(f, lang) - {id}],
            f.versioned[lang := versions']))
      else
        var v := e.value.value;
        match e.definition.value
        case SharedField => Ok(f.(shared := f.shared[id := v]))
        case UnversionedField => Ok(f.(unversioned := f.unversioned[lang := Unversioned(f, lang)[id := v]]))
        case VersionedField =>
          var slot := if e.number in versions then versions[e.number] else map[];
          Ok(f.(versioned := f.versioned[lang := versions[e.number := slot[id := v]]]))
        case Unclassified => Err(UnsupportedField(id))
  }

  /** Applies a save's field edits in order, stopping at the first edit that
      has no known scope. */
  function ApplyEdits(f: Fields, edits: seq<FieldChange>, saveAll: bool): (r: Result<Fields>)
    ensures r.Err? <==> exists i :: 0 <= i < |edits| && Throws(edits[i])
    ensures (forall i :: 0 <= i < |edits| ==> Skipped(edits[i], saveAll)) ==> r == Ok(f)
    decreases |edits|
  {
    if edits == [] then Ok(f)
    else
      match ApplyEdit(f, edits[0], saveAll)
      case Err(fault) => Err(fault)
      case Ok(f') =>
        var r := ApplyEdits(f', edits[1..], saveAll);
        assert forall i :: 1 <= i < |edits| ==> edits[i] == edits[1..][i - 1];
        r
  }

  /** A removal is idempotent: applying it again changes nothing. */
  lemma RemoveIsIdempotent(f: Fields, e: FieldChange, saveAll: bool)
    requires Removes(e, saveAll)
    ensures ApplyEdit(ApplyEdit(f, e, saveAll).value, e, saveAll) == ApplyEdit(f, e, saveAll)
  {
    var g := ApplyEdit(f, e, saveAll).value;
    var h := ApplyEdit(g, e, saveAll).value;
    var lang := e.language;
    var id := e.fieldId.value;
    assert g.shared - {id} == g.shared;
    assert Unversioned(g, lang) - {id} == Unversioned(g, lang);
    assert h.unversioned == g.unversioned;
    if e.number in Versions(g, lang) {
      assert Versions(g, lang)[e.number] - {id} == Versions(g, lang)[e.number];
      assert Versions(g, lang)[e.number := Versions(g, lang)[e.number]] == Versions(g, lang);
    }
    assert h.versioned == g.versioned;
  }

  /** After a removal, the field is gone from the edit's own reading context. */
  lemma RemovalHidesField(f: Fields, e: FieldChange, saveAll: bool)
    requires Removes(e, saveAll)
    ensures e.fieldId.value !in FieldsFor(ApplyEdit(f, e, saveAll).value, e.language, e.number)
  {
  }

  /** After a write, reading the edit's own context shows the written value,
      provided no scope that takes precedence already holds the field. */
  lemma WriteIsVisible(f: Fields, e: FieldChange, saveAll: bool)
    requires Writes(e) && e.definition.value != Unclassified
    requires e.language != Invariant || e.definition.value == SharedField
    requires e.definition.value != VersionedField ==> e.fieldId.value !in Slot(f, e.language, e.number)
    requires e.definition.value == SharedField && e.language != Invariant ==>
      e.fieldId.value !in Unversioned(f, e.language)
    ensures var r := FieldsFor(ApplyEdit(f, e, saveAll).value, e.language, e.number);
      e.fieldId.value in r && r[e.fieldId.value] == e.value.value
  {
    var g := ApplyEdit(f, e, saveAll).value;
    if e.definition.value != VersionedField {
      assert Slot(g, e.language, e.number) == Slot(f, e.language, e.number);
    }
  }

  /** A place in the field store. */
  datatype Place = InShared | InUnversioned(language: Language) | InVersioned(language: Language, number: int)

  function At(f: Fields, p: Place): FieldMap
  {
    match p
    case InShared => f.shared
    case InUnversioned(l) => Unversioned(f, l)
    case InVersioned(l, n) => Slot(f, l, n)
  }

  /** Edit `e` writes field `k` into place `p`. */
  predicate Stores(e: FieldChange, k: Id, p: Place)
  {
    && Writes(e) && e.fieldId.value == k
    && match p
       case InShared => e.definition.value == SharedField
       case InUnversioned(l) => e.definition.value == UnversionedField && e.language == l
       case InVersioned(l, n) => e.definition.value == VersionedField && e.language == l && e.number == n
  }


  /** The value field `k` holds in place `p`, if any. */
  function Read(f: Fields, p: Place, k: Id): Option<string>
  {
    if k in At(f, p) then Some(At(f, p)[k]) else None
  }

  /** What one edit does to one field of one place. */
  datatype Effect = Keep | Put(value: string) | Clear

  function After(eff: Effect, before: Option<string>): Option<string>
  {
    match eff
    case Keep => before
    case Put(v) => Some(v)
    case Clear => None
  }

  /** The places a removal reaches: the shared fields, its language's
      unversioned fields and its own version slot. */
  predicate Clears(e: FieldChange, p: Place)
  {
    p == InShared || p == InUnversioned(e.language) || p == InVersioned(e.language, e.number)
  }

  /** The effect of edit `e` on field `k` of place `p`, read off the edit
      alone. */
  function EffectOn(e: FieldChange, saveAll: bool, p: Place, k: Id): Effect
  {
    if Removes(e, saveAll) && e.fieldId.value == k && Clears(e, p) then Clear
    else if Stores(e, k, p) then Put(e.value.value)
    else Keep
  }

  /** The effect of a whole edit sequence on one field of one place: the
      last edit that touches it decides; none touching it keeps it. */
  function NetEffect(edits: seq<FieldChange>, saveAll: bool, p: Place, k: Id): Effect
    decreases |edits|
  {
    if edits == [] then Keep
    else
      var later := NetEffect(edits[1..], saveAll, p, k);
      if later != Keep then later else EffectOn(edits[0], saveAll, p, k)
  }

  /** One edit acts on each field of each place as `EffectOn` says. */
  lemma EditActsPerField(f: Fields, e: FieldChange, saveAll: bool, p: Place, k: Id)
    requires !Throws(e)
    ensures Read(ApplyEdit(f, e, saveAll).value, p, k) == After(EffectOn(e, saveAll, p, k), Read(f, p, k))
  {
    match p
    case InShared =>
    case InUnversioned(l) => EditActsUnversioned(f, e, saveAll, l, k);
    case InVersioned(l, n) => EditActsVersioned(f, e, saveAll, l, n, k);
  }

  lemma EditActsUnversioned(f: Fields, e: FieldChange, saveAll: bool, l: Language, k: Id)
    requires !Throws(e)
    ensures var p := InUnversioned(l);
      Read(ApplyEdit(f, e, saveAll).value, p, k) == After(EffectOn(e, saveAll, p, k), Read(f, p, k))
  {
    if l != e.language || !(Removes(e, saveAll) || (Writes(e) && e.definition.value == UnversionedField)) {
      UnversionedKept(f, e, saveAll, l, k);
    }
  }

  /** An edit leaves the unversioned fields of `l` alone unless it removes
      or writes an unversioned field of `l`. */
  lemma UnversionedKept(f: Fields, e: FieldChange, saveAll: bool, l: Language, k: Id)
    requires !Throws(e)
    requires l != e.language || !(Removes(e, saveAll) || (Writes(e) && e.definition.value == UnversionedField))
    ensures Read(ApplyEdit(f, e, saveAll).value, InUnversioned(l), k) == Read(f, InUnversioned(l), k)
    ensures EffectOn(e, saveAll, InUnversioned(l), k) == Keep
  {
    var g := ApplyEdit(f, e, saveAll).value;
    if Skipped(e, saveAll) {
    } else if Removes(e, saveAll) || e.definition.value == UnversionedField {
      assert Unversioned(g, l) == Unversioned(f, l);
    } else {
      assert g.unversioned == f.unversioned;
    }
  }

  lemma EditActsVersioned(f: Fields, e: FieldChange, saveAll: bool, l: Language, n: int, k: Id)
    requires !Throws(e)
    ensures var p := InVersioned(l, n);
      Read(ApplyEdit(f, e, saveAll).value, p, k) == After(EffectOn(e, saveAll, p, k), Read(f, p, k))
  {
    if Removes(e, saveAll) || (Writes(e) && e.definition.value == VersionedField) {
      ChangedSlots(f, e, saveAll, l, n, k);
    } else if !Skipped(e, saveAll) {
      assert ApplyEdit(f, e, saveAll).value.versioned == f.versioned;
    }
  }

  /** A removal or a versioned write changes only its own slot. */
  lemma ChangedSlots(f: Fields, e: FieldChange, saveAll: bool, l: Language, n: int, k: Id)
    requires Removes(e, saveAll) || (Writes(e) && e.definition.value == VersionedField)
    ensures var p := InVersioned(l, n);
      Read(ApplyEdit(f, e, saveAll).value, p, k) == After(EffectOn(e, saveAll, p, k), Read(f, p, k))
  {
    if l != e.language || n != e.number {
      OtherSlotKept(f, e, saveAll, l, n, k);
    }
  }

  /** A removal or a versioned write leaves every other slot alone. */
  lemma OtherSlotKept(f: Fields, e: FieldChange, saveAll: bool, l: Language, n: int, k: Id)
    requires Removes(e, saveAll) || (Writes(e) && e.definition.value == VersionedField)
    requires l != e.language || n != e.number
    ensures Read(ApplyEdit(f, e, saveAll).value, InVersioned(l, n), k) == Read(f, InVersioned(l, n), k)
    ensures EffectOn(e, saveAll, InVersioned(l, n), k) == Keep
  {
    var g := ApplyEdit(f, e, saveAll).value;
    if l != e.language {
      assert Versions(g, l) == Versions(f, l);
    } else {
      OtherSlotSame(f, g, l, e.number, n);
    }
  }

  lemma OtherSlotSame(f: Fields, g: Fields, l: Language, number: int, n: int)
    requires OtherSlotsAgree(f, g, l, number) && n != number
    ensures Slot(f, l, n) == Slot(g, l, n)
  {
    assert (n in Versions(f, l) <==> n in Versions(g, l));
  }

  /** A save's edits, applied in order, leave each field of each place as
      the last edit touching it says, and untouched fields as they were. */
  lemma {:induction false} LastEditDecides(f: Fields, edits: seq<FieldChange>, saveAll: bool, p: Place, k: Id)
    requires ApplyEdits(f, edits, saveAll).Ok?
    ensures Read(ApplyEdits(f, edits, saveAll).value, p, k) == After(NetEffect(edits, saveAll, p, k), Read(f, p, k))
    decreases |edits|
  {
    if edits != [] {
      assert ApplyEdit(f, edits[0], saveAll).Ok?;
      var g := ApplyEdit(f, edits[0], saveAll).value;
      EditActsPerField(f, edits[0], saveAll, p, k);
      LastEditDecides(g, edits[1..], saveAll, p, k);
    }
  }

  /** The version slot a write of a versioned field opens, if any. */
  function Opens(e: FieldChange): set<VersionUri>
  {
    if Writes(e) && e.definition.value == VersionedField then {VersionUri(e.language, e.number)} else {}
  }

  function OpenedBy(edits: seq<FieldChange>): set<VersionUri>
    decreases |edits|
  {
    if edits == [] then {} else Opens(edits[0]) + OpenedBy(edits[1..])
  }

  /** One edit adds to the version list exactly the slot it opens. */
  lemma EditVersionSet(f: Fields, e: FieldChange, saveAll: bool)
    requires !Throws(e)
    ensures VersionSet(ApplyEdit(f, e, saveAll).value) == VersionSet(f) + Opens(e)
  {
    var g := ApplyEdit(f, e, saveAll).value;
    forall u
      ensures u in VersionSet(g) <==> u in VersionSet(f) + Opens(e)
    {
      if u.language != e.language || u.number != e.number {
        if Removes(e, saveAll) || (Writes(e) && e.definition.value == VersionedField) {
          if u.language != e.language {
            assert Versions(g, u.language) == Versions(f, u.language);
          }
        } else if !Skipped(e, saveAll) {
          assert g.versioned == f.versioned;
        }
      } else if Writes(e) && e.definition.value != VersionedField {
        assert g.versioned == f.versioned;
      }
    }
  }

  /** A save's edits add to the version list exactly the slots their
      versioned writes open, and remove none. */
  lemma {:induction false} EditsVersionSet(f: Fields, edits: seq<FieldChange>, saveAll: bool)
    requires ApplyEdits(f, edits, saveAll).Ok?
    ensures VersionSet(ApplyEdits(f, edits, saveAll).value) == VersionSet(f) + OpenedBy(edits)
    decreases |edits|
  {
    if edits != [] {
      assert ApplyEdit(f, edits[0], saveAll).Ok?;
      var g := ApplyEdit(f, edits[0], saveAll).value;
      EditVersionSet(f, edits[0], saveAll);
      EditsVersionSet(g, edits[1..], saveAll);
    }
  }

  /** Adds entries to a dictionary one `Add` at a time: fails at the first
      key already present, whether it came from `m` or from an earlier
      entry. */
  function AddEach<K(==), V>(m: map<K, V>, es: seq<(K, V)>): Option<map<K, V>>
    decreases |es|
  {
    if es == [] then Some(m)
    else if es[0].0 in m then None
    else AddEach(m[es[0].0 := es[0].1], es[1..])
  }

  /** `es` lists every entry of `src` once, in some order. */
  ghost predicate Enumerates<K, V>(es: seq<(K, V)>, src: map<K, V>)
  {
    && (forall i :: 0 <= i < |es| ==> es[i].0 in src && src[es[i].0] == es[i].1)
    && (forall i, j :: 0 <= i < j < |es| ==> es[i].0 != es[j].0)
    && (forall k :: k in src ==> exists i :: 0 <= i < |es| && es[i].0 == k)
  }

  /** Adding every entry of `src` into `m`: the union when the key sets
      are disjoint, a failure otherwise. */
  function AddAll<K(==), V>(m: map<K, V>, src: map<K, V>): Option<map<K, V>>
  {
    if m.Keys !! src.Keys then Some(m + src) else None
  }

  /** A loop of `Add` calls over `src`'s entries, in whatever order the
      dictionary yields them, is `AddAll`. */
  lemma {:induction false} AddEachIsAddAll<K, V>(m: map<K, V>, es: seq<(K, V)>, src: map<K, V>)
    requires Enumerates(es, src)
    ensures AddEach(m, es) == AddAll(m, src)
    decreases |es|
  {
    if es == [] {
      assert src.Keys == {} by {
        forall k | k in src
          ensures false
        {
        }
      }
      assert m + src == m;
    } else {
      var k := es[0].0;
      if k !in m {
        EnumeratesRest(es, src);
        AddEachIsAddAll(m[k := es[0].1], es[1..], src - {k});
        AddAllStep(m, k, src);
      }
    }
  }

  /** Adding one entry of `src` first and then the rest is adding `src`. */
  lemma AddAllStep<K, V>(m: map<K, V>, k: K, src: map<K, V>)
    requires k in src && k !in m
    ensures AddAll(m[k := src[k]], src - {k}) == AddAll(m, src)
  {
    var smaller := src - {k};
    assert m[k := src[k]].Keys == m.Keys + {k};
    assert smaller.Keys == src.Keys - {k};
    if !(m.Keys !! src.Keys) {
      var x :| x in m.Keys && x in src.Keys;
      assert x in m[k := src[k]].Keys && x in smaller.Keys;
    }
    assert m[k := src[k]] + smaller == m + src;
  }

  /** Past its first entry, an enumeration of `src` enumerates the rest of
      `src`. */
  lemma EnumeratesRest<K, V>(es: seq<(K, V)>, src: map<K, V>)
    requires Enumerates(es, src) && es != []
    ensures Enumerates(es[1..], src - {es[0].0})
  {
    var rest := es[1..];
    var smaller := src - {es[0].0};
    forall i | 0 <= i < |rest|
      ensures rest[i].0 in smaller && smaller[rest[i].0] == rest[i].1
    {
      assert rest[i] == es[i + 1];
    }
    forall i, j | 0 <= i < j < |rest|
      ensures rest[i].0 != rest[j].0
    {
      assert rest[i] == es[i + 1] && rest[j] == es[j + 1];
    }
    forall x | x in smaller
      ensures exists i :: 0 <= i < |rest| && rest[i].0 == x
    {
      var i :| 0 <= i < |es| && es[i].0 == x;
      assert i != 0 && rest[i - 1] == es[i];
    }
  }

  /** The group `g` holds for language `l`; a missing language is empty. */
  function Group<K, V>(g: map<Language, map<K, V>>, l: Language): map<K, V>
  {
    if l in g then g[l] else map[]
  }

  /** Adds each language group of `b` into the same language's group of
      `a`, as `AddAll` does; fails when any language meets a key `a`
      already holds. */
  function AddGroups<K(==), V>(a: map<Language, map<K, V>>, b: map<Language, map<K, V>>): (r: Option<map<Language, map<K, V>>>)
    ensures r.Some? <==> forall l :: l in b ==> AddAll(Group(a, l), b[l]).Some?
    ensures r.Some? ==> forall l :: l in b ==> Group(r.value, l) == AddAll(Group(a, l), b[l]).value
    ensures r.Some? ==> forall l :: l !in b ==> Group(r.value, l) == Group(a, l)
  {
    if exists l :: l in b && !(Group(a, l).Keys !! b[l].Keys) then None
    else
      var u := map l | l in a.Keys + b.Keys :: Group(a, l) + Group(b, l);
      assert forall l :: l !in b ==> Group(u, l) == Group(a, l) by {
        forall l | l !in b
          ensures Group(u, l) == Group(a, l)
        {
          assert Group(a, l) + map[] == Group(a, l);
        }
      }
      Some(u)
  }

  /** `DoCopyItem`'s field copy into the copy's store `dst`: the shared
      fields are cleared and refilled from `src`; each unversioned language
      and each language's version map of `src` is added, entry by entry,
      into `dst`'s, and a key `dst` already holds is fatal. A copied version
      is a new collection filled from the source's slot, so it equals it. */
  function CopyFieldsInto(dst: Fields, src: Fields): (r: Result<Fields>)
    ensures r.Ok? <==>
      && (forall l :: l in src.unversioned ==> AddAll(Unversioned(dst, l), src.unversioned[l]).Some?)
      && (forall l :: l in src.versioned ==> AddAll(Versions(dst, l), src.versioned[l]).Some?)
    ensures r.Err? ==> r.fault == DuplicateKey
    ensures r.Ok? ==> r.value.shared == src.shared
    ensures r.Ok? ==> forall l :: l in src.unversioned ==>
      Unversioned(r.value, l) == AddAll(Unversioned(dst, l), src.unversioned[l]).value
    ensures r.Ok? ==> forall l :: l !in src.unversioned ==> Unversioned(r.value, l) == Unversioned(dst, l)
    ensures r.Ok? ==> forall l :: l in src.versioned ==>
      Versions(r.value, l) == AddAll(Versions(dst, l), src.versioned[l]).value
    ensures r.Ok? ==> forall l :: l !in src.versioned ==> Versions(r.value, l) == Versions(dst, l)
  {
    var u := AddGroups(dst.unversioned, src.unversioned);
    var v := AddGroups(dst.versioned, src.versioned);
    assert forall l :: Unversioned(dst, l) == Group(dst.unversioned, l);
    assert forall l :: Versions(dst, l) == Group(dst.versioned, l);
    if u.None? || v.None? then Err(DuplicateKey)
    else
      var r := Fields(src.shared, u.value, v.value);
      assert forall l :: Unversioned(r, l) == Group(u.value, l);
      assert forall l :: Versions(r, l) == Group(v.value, l);
      Ok(r)
  }

  /** Adding groups into no groups yields them unchanged. */
  lemma AddGroupsIntoEmpty<K, V>(b: map<Language, map<K, V>>)
    ensures AddGroups(map[], b) == Some(b)
  {
    var none: map<Language, map<K, V>> := map[];
    assert !(exists l :: l in b && !(Group(none, l).Keys !! b[l].Keys));
    assert none.Keys + b.Keys == b.Keys;
    var u := map l | l in b.Keys :: Group(none, l) + Group(b, l);
    forall l | l in b
      ensures u[l] == b[l]
    {
      assert map[] + b[l] == b[l];
    }
    assert u == b;
  }

  /** Copying into an empty store reproduces the source store exactly. */
  lemma CopyIntoEmpty(src: Fields)
    ensures CopyFieldsInto(NoFields, src) == Ok(src)
  {
    AddGroupsIntoEmpty(src.unversioned);
    AddGroupsIntoEmpty(src.versioned);
  }
}
