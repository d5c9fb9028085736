/**
 The tables of one type of objects and what the operations of the generic data access object do to them: live rows,
 archived rows and the events that are published in the same transaction.
 */
module ObjectStore {
  import opened Wrappers
  import opened Names

  /** Everything of an object that isn't its identifier or its metadata. */
  datatype Data = Data(fields: map<string, string>)

  /** A timestamp of zero is the Unix epoch in a row, and an absent timestamp in the metadata. */
  datatype Row = Row(
    creation: nat, deletion: nat, finalizers: seq<string>, creators: seq<string>, tenants: seq<string>, data: Data)

  datatype ArchivedRow = ArchivedRow(
    id: string, creation: nat, deletion: nat, creators: seq<string>, tenants: seq<string>, data: Data)

  datatype Metadata = Metadata(
    creation: nat, deletion: nat, finalizers: seq<string>, creators: seq<string>, tenants: seq<string>)

  datatype Object = Object(id: string, metadata: Option<Metadata>, data: Data)

  datatype Event = Created(obj: Object) | Updated(obj: Object) | Deleted(obj: Object)

  datatype Tables = Tables(live: map<string, Row>, archive: seq<ArchivedRow>, events: seq<Event>)

  /** The calls that can fail on their own. */
  datatype Step =
    | Begin | Attribution | Tenancy | Translation | Encode | Decode | Select | Write | Notify | ArchiveInsert | ArchiveDelete

  datatype Error = MissingId | NotFound(id: string) | NoRows | Failed(step: Step)

  /**
   What an operation gets from outside: the clock and the identifier generator, what the attribution and tenancy
   logics answer for the user, and the calls that fail.
   */
  datatype Env = Env(
    now: nat, newId: string, creators: seq<string>, granted: seq<string>, visible: seq<string>, fails: set<Step>)

  /** The database never stores the epoch as the current time. */
  predicate Sane(env: Env) {
    env.now > 0
  }

  datatype Request =
    | Get(id: string)
    | Exists(id: string)
    | List(filter: Row -> bool, offset: int, limit: int)
    | Create(obj: Object)
    | Update(obj: Object)
    | Delete(id: string)

  datatype Response = Nothing | Found(obj: Object) | Flag(value: bool) | Page(items: seq<Object>, total: nat)

  datatype Outcome = Outcome(tables: Tables, result: Result<Response, Error>)

  const DEFAULT_LIMIT := 100
  const MAX_LIMIT := 1000

  /* ---------- Rows and objects ---------- */

  function MakeObject(id: string, row: Row): (o: Object) {
    Object(id, Some(Metadata(row.creation, row.deletion, row.finalizers, row.creators, row.tenants)), row.data)
  }

  /** Whether a row belongs to some visible tenant; no visible tenants means no restriction. */
  predicate Sees(visible: seq<string>, row: Row) {
    visible == [] || exists tenant :: tenant in row.tenants && tenant in visible
  }

  function Lookup(t: Tables, id: string, visible: seq<string>): (row: Option<Row>) {
    if id in t.live && Sees(visible, t.live[id]) then Some(t.live[id]) else None
  }

  function SubmittedFinalizers(obj: Object): (finalizers: seq<string>) {
    if obj.metadata.None? then [] else Canonical(obj.metadata.value.finalizers)
  }

  /** Equality except for the timestamps; a missing object is equivalent to nothing. */
  predicate Equivalent(current: Option<Object>, obj: Object) {
    && current.Some?
    && current.value.id == obj.id
    && current.value.data == obj.data
    && current.value.metadata.Some? == obj.metadata.Some?
    && (obj.metadata.Some? ==>
          && current.value.metadata.value.finalizers == obj.metadata.value.finalizers
          && current.value.metadata.value.creators == obj.metadata.value.creators
          && current.value.metadata.value.tenants == obj.metadata.value.tenants)
  }

  /** Whether the row has to leave the table: deleted, and nobody holds it. */
  predicate Done(row: Row) {
    row.deletion != 0 && row.finalizers == []
  }

  function ArchiveOf(id: string, row: Row): (a: ArchivedRow) {
    ArchivedRow(id, row.creation, row.deletion, row.creators, row.tenants, row.data)
  }

  /* ---------- What each operation does once there is a transaction ---------- */

  function Fetch(t: Tables, id: string, env: Env): (r: Result<Option<Object>, Error>) {
    if Select in env.fails then Err(Failed(Select))
    else
      var row := Lookup(t, id, env.visible);
      if row.None? then Ok(None)
      else if Decode in env.fails then Err(Failed(Decode))
      else Ok(Some(MakeObject(id, row.value)))
  }

  /** Publishes an event and, when nothing holds the row any more, moves it to the archive. */
  function Finish(t: Tables, id: string, row: Row, done: bool, event: Event, env: Env): (o: Outcome) {
    if Notify in env.fails then Outcome(t, Err(Failed(Notify)))
    else
      var published := t.(events := t.events + [event]);
      if !done then Outcome(published, Ok(Found(event.obj)))
      else if ArchiveInsert in env.fails then Outcome(published, Err(Failed(ArchiveInsert)))
      else
        var archived := published.(archive := t.archive + [ArchiveOf(id, row)]);
        if ArchiveDelete in env.fails then Outcome(archived, Err(Failed(ArchiveDelete)))
        else Outcome(archived.(live := archived.live - {id}), Ok(Found(event.obj)))
  }

  function ExecuteCreate(t: Tables, obj: Object, env: Env): (o: Outcome) {
    var id := if obj.id == "" then env.newId else obj.id;
    if Write in env.fails || id in t.live then Outcome(t, Err(Failed(Write)))
    else
      var row := Row(env.now, 0, SubmittedFinalizers(obj), env.creators, env.granted, obj.data);
      Finish(t.(live := t.live[id := row]), id, row, false, Created(MakeObject(id, row)), env)
  }

  /** The part of an update that is skipped when there are no changes. */
  function WriteUpdate(t: Tables, obj: Object, env: Env): (o: Outcome) {
    if Encode in env.fails then Outcome(t, Err(Failed(Encode)))
    else if Write in env.fails then Outcome(t, Err(Failed(Write)))
    else if obj.id !in t.live then Outcome(t, Err(NoRows))
    else
      var row := t.live[obj.id].(finalizers := SubmittedFinalizers(obj), data := obj.data);
      Finish(t.(live := t.live[obj.id := row]), obj.id, row, Done(row), Updated(MakeObject(obj.id, row)), env)
  }

  function ExecuteUpdate(t: Tables, obj: Object, env: Env): (o: Outcome) {
    var current := Fetch(t, obj.id, env);
    if current.Err? then Outcome(t, Err(current.error))
    else if Equivalent(current.value, obj) then Outcome(t, Ok(Nothing))
    else WriteUpdate(t, obj, env)
  }

  function ExecuteDelete(t: Tables, id: string, env: Env): (o: Outcome) {
    if Write in env.fails then Outcome(t, Err(Failed(Write)))
    else
      var found := Lookup(t, id, env.visible);
      if found.None? then Outcome(t, Err(NotFound(id)))
      else
        var row := found.value.(deletion := env.now);
        var marked := t.(live := t.live[id := row]);
        if Decode in env.fails then Outcome(marked, Err(Failed(Decode)))
        else
          var o := Finish(marked, id, row, row.finalizers == [], Deleted(MakeObject(id, row)), env);
          if o.result.Ok? then o.(result := Ok(Nothing)) else o
  }

  ghost function ExecuteList(t: Tables, filter: Row -> bool, offset: int, limit: int, env: Env): (o: Outcome) {
    if Select in env.fails then Outcome(t, Err(Failed(Select)))
    else
      var ids := MatchingIds(t, filter, env.visible);
      var page := Slice(ids, offset, EffectiveLimit(limit));
      if page != [] && Decode in env.fails then Outcome(t, Err(Failed(Decode)))
      else Outcome(t, Ok(Page(ObjectsOf(t, page), |ids|)))
  }

  /** The identifiers of the rows that match, in ascending order. */
  ghost function MatchingIds(t: Tables, filter: Row -> bool, visible: seq<string>): (ids: seq<string>)
    ensures forall id :: id in ids ==> id in t.live
  {
    ListingLists(Matching(t, filter, visible));
    Listing(Matching(t, filter, visible))
  }

  ghost function Matching(t: Tables, filter: Row -> bool, visible: seq<string>): (ids: set<string>) {
    set id | id in t.live && filter(t.live[id]) && Sees(visible, t.live[id])
  }

  function EffectiveLimit(limit: int): (n: nat) {
    if limit < 0 then 0 else if limit == 0 then DEFAULT_LIMIT else if limit > MAX_LIMIT then MAX_LIMIT else limit
  }

  /** The offset and limit clauses. */
  function Slice(ids: seq<string>, offset: int, limit: nat): (page: seq<string>)
    ensures forall id :: id in page ==> id in ids
  {
    var start := if offset < 0 then 0 else if offset > |ids| then |ids| else offset;
    var end := if start + limit > |ids| then |ids| else start + limit;
    ids[start..end]
  }

  function ObjectsOf(t: Tables, ids: seq<string>): (items: seq<Object>)
    requires forall id :: id in ids ==> id in t.live
  {
    if ids == [] then [] else [MakeObject(ids[0], t.live[ids[0]])] + ObjectsOf(t, ids[1..])
  }

  /** Errors that are found before the first statement. */
  function Precheck(q: Request, env: Env): (error: Option<Error>) {
    match q
    case List(_, _, _) =>
      if Translation in env.fails then Some(Failed(Translation))
      else if Tenancy in env.fails then Some(Failed(Tenancy)) else None
    case Create(obj) =>
      if Attribution in env.fails then Some(Failed(Attribution))
      else if Tenancy in env.fails then Some(Failed(Tenancy))
      else if Encode in env.fails then Some(Failed(Encode)) else None
    case _ =>
      if RequestId(q) == "" then Some(MissingId)
      else if Tenancy in env.fails then Some(Failed(Tenancy)) else None
  }

  function RequestId(q: Request): string {
    match q
    case Get(id) => id
    case Exists(id) => id
    case Delete(id) => id
    case Update(obj) => obj.id
    case Create(obj) => obj.id
    case List(_, _, _) => ""
  }

  /** What a request does to the tables of the transaction. */
  ghost function Execute(t: Tables, q: Request, env: Env): (o: Outcome) {
    match q
    case Get(id) =>
      var r := Fetch(t, id, env);
      Outcome(t, if r.Err? then Err(r.error) else Ok(if r.value.Some? then Found(r.value.value) else Nothing))
    case Exists(id) =>
      Outcome(t, if Select in env.fails then Err(Failed(Select)) else Ok(Flag(Lookup(t, id, env.visible).Some?)))
    case List(filter, offset, limit) => ExecuteList(t, filter, offset, limit, env)
    case Create(obj) => ExecuteCreate(t, obj, env)
    case Update(obj) => ExecuteUpdate(t, obj, env)
    case Delete(id) => ExecuteDelete(t, id, env)
  }
}
