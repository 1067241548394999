/**
 Conditional reads, and why a client may keep what it read: over every run, a validator that still matches names
 an item that has not changed.
 */
module ConditionalReads {
  import opened Wrappers
  import opened Text
  import opened Bytes
  import opened Identifiers
  import opened Domain
  import opened Ledger
  import opened LedgerInvariants
  import opened Runs
  import opened Validators

  datatype Core = Core(
    id: ItemId, title: string, status: Status, priority: Option<Priority>, assignee: Option<string>, revision: nat)

  datatype WorkDetail = WorkDetail(description: Option<string>, criteria: seq<string>, statusReason: Option<string>)

  datatype Projection =
    | SummaryOf(core: Core)
    | WorkOf(core: Core, work: WorkDetail)
    | AuditOf(core: Core, work: WorkDetail, capturedAt: string, updatedAt: string, provenance: Provenance)

  function CoreOf(item: Item): Core {
    Core(item.id, item.content.title, item.status, item.priority, item.assignee, item.revision)
  }

  function DetailOf(item: Item): WorkDetail {
    WorkDetail(item.content.description, item.content.criteria, item.statusReason)
  }

  /** `PrimaryRow::project` after hydration, on a row that decodes. */
  function Project(kind: ProjectionKind, item: Item): Projection {
    match kind
    case Summary => SummaryOf(CoreOf(item))
    case Work => WorkOf(CoreOf(item), DetailOf(item))
    case Audit => AuditOf(CoreOf(item), DetailOf(item), item.capturedAt, item.updatedAt, item.provenance)
  }

  /** Field by field, what each projection shows of an item and what it leaves out. */
  lemma ProjectionShows(kind: ProjectionKind, item: Item)
    ensures Project(kind, item) ==
            match kind
            case Summary =>
              SummaryOf(Core(item.id, item.content.title, item.status, item.priority, item.assignee, item.revision))
            case Work =>
              WorkOf(Core(item.id, item.content.title, item.status, item.priority, item.assignee, item.revision),
                     WorkDetail(item.content.description, item.content.criteria, item.statusReason))
            case Audit =>
              AuditOf(Core(item.id, item.content.title, item.status, item.priority, item.assignee, item.revision),
                      WorkDetail(item.content.description, item.content.criteria, item.statusReason),
                      item.capturedAt, item.updatedAt, item.provenance)
  {
  }

  /** What a client can tell from a projection: an audit determines the item, the others exactly their part. */
  lemma ProjectionTells(x: Item, y: Item)
    ensures Project(Audit, x) == Project(Audit, y) <==> x == y
    ensures Project(Work, x) == Project(Work, y) <==>
              x == y.(capturedAt := x.capturedAt, updatedAt := x.updatedAt, provenance := x.provenance)
    ensures Project(Summary, x) == Project(Summary, y) <==>
              && x.id == y.id && x.content.title == y.content.title && x.status == y.status
              && x.priority == y.priority && x.assignee == y.assignee && x.revision == y.revision
  {
  }

  datatype Reading = Modified(version: string, item: Projection) | NotModified(version: string)

  datatype ReadError = NotFound | StoreUnreadable | Refused(error: InvalidValidator)

  function BindingOf(db: Db, id: ItemId, kind: ProjectionKind): Binding
    requires id in db.items
  {
    Binding(db.identity.storeId, db.metadata.generation, db.identity.schemaVersion, id, kind, db.items[id].revision)
  }

  /** `read_conditional_projection`: existence, then the store's identity, then the validator. */
  ghost function ReadConditional(db: Db, id: ItemId, kind: ProjectionKind, known: Option<string>)
    : Result<Reading, ReadError>
  {
    if id !in db.items then Err(ReadError.NotFound)
    else if StateOf(db).None? then Err(StoreUnreadable)
    else
      var version := ValidatorText(BindingOf(db, id, kind));
      var hit := if known.None? then Ok(false) else Matches(version, known.value);
      if hit.Err? then Err(Refused(hit.error))
      else if hit.value then Ok(NotModified(version))
      else Ok(Modified(version, Project(kind, db.items[id])))
  }

  /** A schema cookie is any i64. */
  predicate CookieOk(db: Db) {
    -I64_MAX - 1 <= db.identity.schemaVersion <= I64_MAX
  }

  lemma ReachableBindable(h: seq<Db>, actions: seq<Action>, i: nat, id: ItemId, kind: ProjectionKind)
    requires Run(h, actions) && i < |h| && id in h[i].items && id.Valid() && CookieOk(h[i])
    ensures Bindable(BindingOf(h[i], id, kind)) && StateOf(h[i]).Some?
  {
    hide Canonical, GenerationOk;
    ReachableUpTo(h, actions, i);
    assert Good(h[i]);
    assert ItemOk(id, h[i].items[id], h[i].counters);
  }

  predicate SameVersion(a: Db, b: Db, id: ItemId) {
    && id in a.items && id in b.items && a.items[id].revision == b.items[id].revision
    && a.metadata.generation == b.metadata.generation
    && a.identity.storeId == b.identity.storeId && a.identity.schemaVersion == b.identity.schemaVersion
  }

  /**
   The whole behaviour of presenting an earlier version: it is refused exactly beyond the request limit or when it
   was issued under a negative schema cookie; otherwise it is NotModified exactly when store, cookie, generation, item,
   projection and revision are all as they were, and anything else is a complete replacement by the current projection.
   */
  lemma {:induction false} KnownVersionOutcome(
    h: seq<Db>, actions: seq<Action>, i: nat, j: nat, id: ItemId, kind: ProjectionKind, id2: ItemId,
    kind2: ProjectionKind)
    requires Run(h, actions) && i < |h| && j < |h| && CookieOk(h[i]) && CookieOk(h[j])
    requires id in h[i].items && id.Valid() && id2 in h[j].items && id2.Valid()
    ensures var version := ValidatorText(BindingOf(h[i], id, kind));
            var current := ValidatorText(BindingOf(h[j], id2, kind2));
            ReadConditional(h[j], id2, kind2, Some(version)) ==
              if |Utf8(version)| > MAXIMUM_REQUEST_BYTES || h[i].identity.schemaVersion < 0 then Err(Refused(Malformed))
              else if id == id2 && kind == kind2 && SameVersion(h[i], h[j], id) then Ok(NotModified(version))
              else Ok(Modified(current, Project(kind2, h[j].items[id2])))
  {
    hide ValidatorText, Matches, Utf8, StateOf, Bindable, Project, Run;
    ReachableBindable(h, actions, i, id, kind);
    ReachableBindable(h, actions, j, id2, kind2);
    GeneratedMatches(BindingOf(h[j], id2, kind2), BindingOf(h[i], id, kind));
  }

  /**
   The cache is sound over every run. A client that got `version` for one item and projection in any state, and is
   told NotModified when presenting it in any other, holds the current projection of exactly what it asked for.
   */
  lemma {:induction false} CacheSound(
    h: seq<Db>, actions: seq<Action>, i: nat, j: nat, id: ItemId, kind: ProjectionKind, id2: ItemId,
    kind2: ProjectionKind, first: Option<string>)
    requires Run(h, actions) && i < |h| && j < |h| && CookieOk(h[i]) && CookieOk(h[j]) && id.Valid() && id2.Valid()
    requires ReadConditional(h[i], id, kind, first).Ok?
    requires var version := ReadConditional(h[i], id, kind, first).value.version;
             var second := ReadConditional(h[j], id2, kind2, Some(version));
             second.Ok? && second.value.NotModified?
    ensures id == id2 && kind == kind2
    ensures id in h[i].items && id in h[j].items && Project(kind2, h[j].items[id2]) == Project(kind, h[i].items[id])
    ensures ReadConditional(h[i], id, kind, first).value.Modified? ==>
              ReadConditional(h[i], id, kind, first).value.item == Project(kind2, h[j].items[id2])
  {
    hide ValidatorText, Matches, Utf8, StateOf, Run, BindingOf;
    KnownVersionOutcome(h, actions, i, j, id, kind, id2, kind2);
    RevisionDeterminesItem(h, actions, i, j, id);
  }

  /** A restored store never confirms a version issued before the restore, even for an identical item. */
  lemma {:induction false} RestoreInvalidatesVersions(
    h: seq<Db>, actions: seq<Action>, i: nat, k: nat, j: nat, id: ItemId, kind: ProjectionKind)
    requires Run(h, actions) && i <= k < j < |h| && CookieOk(h[i]) && CookieOk(h[j]) && actions[k].DoRestore?
    requires id in h[i].items && id in h[j].items && id.Valid()
    ensures var r := ReadConditional(h[j], id, kind, Some(ValidatorText(BindingOf(h[i], id, kind))));
            r.Ok? ==> r.value.Modified?
  {
    hide ValidatorText, Matches, Utf8, StateOf, BindingOf;
    KnownVersionOutcome(h, actions, i, j, id, kind, id, kind);
    RunStep(h, actions, k);
    if Generation(h[i]) == Generation(h[j]) {
      GenerationEvolves(h, actions, i, j);
      assert false;
    }
  }
}
