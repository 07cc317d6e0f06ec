/** Value types shared by every part of the mapping engine: identifiers,
    languages, the three-scope field store, tree nodes, the engine state and
    the shapes a backing file decodes to. */
module Types {

  /** An item, template or field identifier. `Null` is the distinguished
      identifier meaning "no parent". */
  datatype Id = Null | Guid(text: string)

  /** A content language; `Invariant` applies to all languages and carries no
      version scoping. */
  datatype Language = Invariant | Named(code: string)

  /** One (language, version number) revision of an item. */
  datatype VersionUri = VersionUri(language: Language, number: int)

  /** Field values keyed by field identifier. */
  type FieldMap = map<Id, string>

  /** The per-item field store: shared fields, unversioned fields per
      language, versioned fields per language and version number. A language
      with no entry reads as an empty one. */
  datatype Fields = Fields(
    shared: FieldMap,
    unversioned: map<Language, FieldMap>,
    versioned: map<Language, map<int, FieldMap>>)

  const NoFields := Fields(map[], map[], map[])

  /** Stand-ins for the host's `__Created` and `__Workflow state` field
      identifiers; the engine only needs them to be fixed values. */
  const CreatedField := Guid("__Created")
  const WorkflowStateField := Guid("__Workflow state")

  /** One cached item. `children` lists the identifiers of the items this
      node holds, in display order; `parentId` is the back-reference. */
  datatype Node = Node(
    id: Id,
    name: string,
    templateId: Id,
    parentId: Id,
    children: seq<Id>,
    fields: Fields)

  /** The engine state: the flat item cache and the mapping's own top-level
      list (`ItemChildren`). */
  datatype State = State(cache: map<Id, Node>, top: seq<Id>)

  const EmptyState := State(map[], [])

  /** An item as the codec decodes it from the backing file: children are
      nested, and no parent is recorded. */
  datatype Decoded = Decoded(
    id: Id,
    name: string,
    templateId: Id,
    fields: Fields,
    children: seq<Decoded>)

  /** Which of the two structural strategies a mapping uses. */
  datatype Strategy = Forest | Anchored

  /** The fatal errors the engine raises instead of returning a negative
      result. */
  datatype Fault =
    | MissingParent(parent: Id)        // an item's recorded parent is not cached
    | OutsideMapping(target: Id)       // a move target outside an anchored subtree
    | UnsupportedField(field: Id)      // a field edit with no known scope
    | ManyRootKeys                     // an anchored file keyed by several roots
    | RootKeyMismatch(actual: Id)      // an anchored file keyed by a foreign root
    | DuplicateKey                     // `Dictionary.Add` of a key already present

  datatype Option<T> = None | Some(value: T)

  function GetOr<T>(o: Option<T>, default: T): T
  {
    match o
    case Some(v) => v
    case None => default
  }

  datatype Result<T> = Ok(value: T) | Err(fault: Fault)

  /** The result of a mutating operation: the new state and the value the
      host sees, or a fatal error. */
  datatype Outcome<T> = Done(state: State, value: T) | Fatal(fault: Fault)
}
