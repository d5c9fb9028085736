/** What holds of the object store over whole transactions and whole histories. */
module StoreProperties {
  import opened Wrappers
  import opened Names
  import opened ObjectStore
  import opened Transactions

  datatype Call = Call(q: Request, env: Env)

  /* ---------- Atomicity ---------- */

  ghost function RunAll(s: Session, committed: Tables, calls: seq<Call>): (r: Session)
    decreases |calls|
  {
    if calls == [] then s
    else RunAll(Run(s, committed, calls[0].q, calls[0].env).session, committed, calls[1..])
  }

  ghost predicate AnyFails(s: Session, committed: Tables, calls: seq<Call>)
    decreases |calls|
  {
    calls != [] &&
    var reply := Run(s, committed, calls[0].q, calls[0].env);
    reply.result.Err? || AnyFails(reply.session, committed, calls[1..])
  }

  /** The effect of the calls on the tables when there are no transactions. */
  ghost function Effect(t: Tables, calls: seq<Call>): (r: Tables)
    decreases |calls|
  {
    if calls == [] then t else Effect(Execute(t, calls[0].q, calls[0].env).tables, calls[1..])
  }

  ghost predicate Consistent(s: Session) {
    s.begun == if s.working.Some? then 1 else 0
  }

  function View(s: Session, committed: Tables): (t: Tables) {
    if s.working.Some? then s.working.value else committed
  }

  lemma {:induction false} RunAllOutcome(s: Session, committed: Tables, calls: seq<Call>)
    requires Consistent(s)
    ensures var r := RunAll(s, committed, calls);
      && Consistent(r)
      && (r.errs == [] <==> s.errs == [] && !AnyFails(s, committed, calls))
      && (!AnyFails(s, committed, calls) ==> View(r, committed) == Effect(View(s, committed), calls))
    decreases |calls|
  {
    if calls != [] {
      var reply := Run(s, committed, calls[0].q, calls[0].env);
      RunAllOutcome(reply.session, committed, calls[1..]);
    }
  }

  /**
   A transaction in which some operation failed leaves the tables and the event log as they were; otherwise all of its
   effects are committed. The real transaction starts at most once.
   */
  lemma RequestAtomicity(committed: Tables, calls: seq<Call>)
    ensures var s := RunAll(IDLE, committed, calls);
      && s.begun <= 1
      && Ended(s, committed, false)
         == (if AnyFails(IDLE, committed, calls) then committed else Effect(committed, calls))
      && Ended(s, committed, true) == committed
  {
    RunAllOutcome(IDLE, committed, calls);
  }

  /* ---------- Invariants of the tables ---------- */

  /** Rebuilds the live rows from the events. */
  function Replay(events: seq<Event>): (live: map<string, Row>) {
    if events == [] then map[]
    else
      var before, o := Replay(events[..|events| - 1]), events[|events| - 1].obj;
      if o.metadata.None? then before
      else
        var m := o.metadata.value;
        if m.deletion != 0 && m.finalizers == [] then before - {o.id}
        else before[o.id := Row(m.creation, m.deletion, m.finalizers, m.creators, m.tenants, o.data)]
  }

  function Creations(events: seq<Event>): (n: nat) {
    if events == [] then 0
    else Creations(events[..|events| - 1]) + if events[|events| - 1].Created? then 1 else 0
  }

  ghost predicate Valid(t: Tables) {
    && (forall id :: id in t.live ==> !Done(t.live[id]) && Ascending(t.live[id].finalizers))
    && (forall a :: a in t.archive ==> a.deletion != 0)
    && Replay(t.events) == t.live
    && Creations(t.events) == |t.live| + |t.archive|
  }

  const EMPTY := Tables(map[], [], [])

  lemma EmptyIsValid()
    ensures Valid(EMPTY)
  {
  }

  lemma MapSizes(m: map<string, Row>, id: string, row: Row)
    ensures |m[id := row]| == if id in m then |m| else |m| + 1
    ensures id in m ==> |m - {id}| == |m| - 1
    ensures m[id := row] - {id} == m - {id}
  {
    assert m[id := row].Keys == m.Keys + {id};
    assert (m - {id}).Keys == m.Keys - {id};
    assert |m.Keys| == |m| && |m[id := row].Keys| == |m[id := row]| && |(m - {id}).Keys| == |m - {id}|;
  }

  lemma ReplayLast(events: seq<Event>, event: Event, id: string, row: Row)
    requires event.obj == MakeObject(id, row)
    ensures Replay(events + [event]) == if Done(row) then Replay(events) - {id} else Replay(events)[id := row]
    ensures Creations(events + [event]) == Creations(events) + if event.Created? then 1 else 0
  {
    assert (events + [event])[..|events|] == events;
  }

  lemma FinishKeeps(t: Tables, id: string, row: Row, event: Event, env: Env)
    requires Valid(t) && Ascending(row.finalizers)
    requires event.obj == MakeObject(id, row)
    requires event.Created? <==> id !in t.live
    requires event.Created? ==> !Done(row)
    requires Finish(t.(live := t.live[id := row]), id, row, Done(row), event, env).result.Ok?
    ensures Valid(Finish(t.(live := t.live[id := row]), id, row, Done(row), event, env).tables)
  {
    ReplayLast(t.events, event, id, row);
    MapSizes(t.live, id, row);
  }

  lemma CreateKeeps(t: Tables, obj: Object, env: Env)
    requires Valid(t) && ExecuteCreate(t, obj, env).result.Ok?
    ensures Valid(ExecuteCreate(t, obj, env).tables)
  {
    var id := if obj.id == "" then env.newId else obj.id;
    var row := Row(env.now, 0, SubmittedFinalizers(obj), env.creators, env.granted, obj.data);
    SubmittedAscending(obj);
    FinishKeeps(t, id, row, Created(MakeObject(id, row)), env);
  }

  lemma UpdateKeeps(t: Tables, obj: Object, env: Env)
    requires Valid(t) && WriteUpdate(t, obj, env).result.Ok?
    ensures Valid(WriteUpdate(t, obj, env).tables)
  {
    var row := t.live[obj.id].(finalizers := SubmittedFinalizers(obj), data := obj.data);
    SubmittedAscending(obj);
    FinishKeeps(t, obj.id, row, Updated(MakeObject(obj.id, row)), env);
  }

  lemma DeleteKeeps(t: Tables, id: string, env: Env)
    requires Valid(t) && Sane(env) && ExecuteDelete(t, id, env).result.Ok?
    ensures Valid(ExecuteDelete(t, id, env).tables)
  {
    var row := t.live[id].(deletion := env.now);
    FinishKeeps(t, id, row, Deleted(MakeObject(id, row)), env);
  }

  /** Every successful operation keeps the invariant. */
  lemma ExecuteKeeps(t: Tables, q: Request, env: Env)
    requires Valid(t) && Sane(env) && Execute(t, q, env).result.Ok?
    ensures Valid(Execute(t, q, env).tables)
  {
    if q.Create? {
      CreateKeeps(t, q.obj, env);
    } else if q.Update? && Execute(t, q, env) == WriteUpdate(t, q.obj, env) {
      UpdateKeeps(t, q.obj, env);
    } else if q.Delete? {
      DeleteKeeps(t, q.id, env);
    }
  }

  lemma SubmittedAscending(obj: Object)
    ensures Ascending(SubmittedFinalizers(obj))
  {
    if obj.metadata.Some? {
      CanonicalLists(obj.metadata.value.finalizers);
    }
  }

  /* ---------- Histories ---------- */

  datatype Transaction = Transaction(calls: seq<Call>, commitFails: bool)

  /** The committed tables after a sequence of transactions on an empty database. */
  ghost function History(txs: seq<Transaction>): (t: Tables) {
    if txs == [] then EMPTY
    else
      var before, tx := History(txs[..|txs| - 1]), txs[|txs| - 1];
      Ended(RunAll(IDLE, before, tx.calls), before, tx.commitFails)
  }

  ghost predicate AllSane(txs: seq<Transaction>) {
    forall i, j :: 0 <= i < |txs| && 0 <= j < |txs[i].calls| ==> Sane(txs[i].calls[j].env)
  }

  lemma {:induction false} SessionValid(s: Session, committed: Tables, calls: seq<Call>)
    requires Valid(View(s, committed)) && !AnyFails(s, committed, calls)
    requires forall j :: 0 <= j < |calls| ==> Sane(calls[j].env)
    ensures Valid(View(RunAll(s, committed, calls), committed))
    decreases |calls|
  {
    if calls != [] {
      var reply := Run(s, committed, calls[0].q, calls[0].env);
      assert View(reply.session, committed) == Execute(View(s, committed), calls[0].q, calls[0].env).tables;
      ExecuteKeeps(View(s, committed), calls[0].q, calls[0].env);
      SessionValid(reply.session, committed, calls[1..]);
    }
  }

  lemma {:induction false} HistoryValid(txs: seq<Transaction>)
    requires AllSane(txs)
    ensures Valid(History(txs))
  {
    if txs == [] {
      EmptyIsValid();
    } else {
      var before, tx := History(txs[..|txs| - 1]), txs[|txs| - 1];
      HistoryValid(txs[..|txs| - 1]);
      RunAllOutcome(IDLE, before, tx.calls);
      if !AnyFails(IDLE, before, tx.calls) {
        assert forall j :: 0 <= j < |tx.calls| ==> Sane(tx.calls[j].env);
        SessionValid(IDLE, before, tx.calls);
      }
    }
  }

  /** In every reachable state the committed events rebuild the live rows exactly. */
  lemma EventLogDeterminesTable(txs: seq<Transaction>)
    requires AllSane(txs)
    ensures Replay(History(txs).events) == History(txs).live
  {
    HistoryValid(txs);
  }

  /** In every reachable state a live row marked as deleted is held by a finalizer, and archived rows are marked. */
  lemma TwoPhaseDeletion(txs: seq<Transaction>)
    requires AllSane(txs)
    ensures var t := History(txs);
      && (forall id :: id in t.live && t.live[id].deletion != 0 ==> t.live[id].finalizers != [])
      && (forall a :: a in t.archive ==> a.deletion != 0)
      && Creations(t.events) == |t.live| + |t.archive|
  {
    HistoryValid(txs);
  }

  /**
   What one operation can do to a row, whether it succeeds or not: the creation data never changes, a deletion mark
   is never removed, and a row that leaves the table is the one that was archived last.
   */
  lemma RowsAdvance(t: Tables, q: Request, env: Env, id: string)
    requires Sane(env) && id in t.live
    ensures var t', row := Execute(t, q, env).tables, t.live[id];
      && t.archive <= t'.archive
      && t.events <= t'.events
      && (id in t'.live ==>
            var row' := t'.live[id];
            && row'.creation == row.creation && row'.creators == row.creators && row'.tenants == row.tenants
            && (row.deletion != 0 ==> row'.deletion != 0))
      && (id !in t'.live ==>
            exists last :: t'.archive == t.archive + [last] && last.id == id && last.creation == row.creation)
  {
    if q.Update? && id == q.obj.id && id !in Execute(t, q, env).tables.live {
      var row := t.live[id].(finalizers := SubmittedFinalizers(q.obj), data := q.obj.data);
      assert Execute(t, q, env).tables.archive == t.archive + [ArchiveOf(id, row)];
    }
    if q.Delete? && id == q.id && id !in Execute(t, q, env).tables.live {
      var row := t.live[id].(deletion := env.now);
      assert Execute(t, q, env).tables.archive == t.archive + [ArchiveOf(id, row)];
    }
  }

  /* ---------- Equivalent updates ---------- */

  /** Whether writing the object over a row would leave the row as it is. */
  predicate SameContent(row: Row, obj: Object) {
    row.data == obj.data && row.finalizers == SubmittedFinalizers(obj)
  }

  /** The full write path leaves live and archived rows identical exactly when the content is the same. */
  lemma WriteIsIdentity(t: Tables, obj: Object, env: Env)
    requires Valid(t) && obj.id in t.live && env.fails == {}
    ensures var t' := WriteUpdate(t, obj, env).tables;
      t'.live == t.live && t'.archive == t.archive <==> SameContent(t.live[obj.id], obj)
  {
    var row := t.live[obj.id];
    var row' := row.(finalizers := SubmittedFinalizers(obj), data := obj.data);
    if SameContent(row, obj) {
      assert row' == row && t.live[obj.id := row] == t.live;
    } else {
      assert Done(row') ==> |WriteUpdate(t, obj, env).tables.archive| == |t.archive| + 1;
      assert !Done(row') ==> WriteUpdate(t, obj, env).tables.live[obj.id] == row';
    }
  }

  /** An update that is skipped as equivalent is one that would have changed nothing. */
  lemma SkipIsSound(t: Tables, obj: Object, env: Env)
    requires Valid(t) && env.fails == {}
    requires Fetch(t, obj.id, env).Ok? && Equivalent(Fetch(t, obj.id, env).value, obj)
    ensures ExecuteUpdate(t, obj, env).tables == t
    ensures var t' := WriteUpdate(t, obj, env).tables; t'.live == t.live && t'.archive == t.archive
  {
    CanonicalFixed(t.live[obj.id].finalizers);
    WriteIsIdentity(t, obj, env);
  }

  /* ---------- Tenancy ---------- */

  /** The table as it would be if only the visible rows existed. */
  function Restricted(t: Tables, visible: seq<string>): (r: Tables) {
    t.(live := map id | id in t.live && Sees(visible, t.live[id]) :: t.live[id])
  }

  function Hidden(t: Tables, visible: seq<string>): (rows: map<string, Row>) {
    map id | id in t.live && !Sees(visible, t.live[id]) :: t.live[id]
  }

  /** Puts the rows that aren't visible back. */
  function WithHidden(t: Tables, visible: seq<string>, r: Tables): (full: Tables) {
    r.(live := Hidden(t, visible) + r.live)
  }

  ghost predicate Refines(t: Tables, visible: seq<string>, actual: Outcome, restricted: Outcome) {
    actual.result == restricted.result && actual.tables == WithHidden(t, visible, restricted.tables)
  }

  /** Reads and deletions behave as on the restricted table and leave every hidden row unchanged. */
  lemma TenancyRefines(t: Tables, q: Request, env: Env)
    requires q.Get? || q.Exists? || q.List? || q.Delete?
    ensures Refines(t, env.visible, Execute(t, q, env), Execute(Restricted(t, env.visible), q, env.(visible := [])))
  {
    NothingHidden(t, env.visible);
    if q.List? {
      ListRefines(t, q.filter, q.offset, q.limit, env);
    } else if q.Delete? && Lookup(t, q.id, env.visible).Some? {
      DeleteRefines(t, q.id, env);
    }
  }

  lemma NothingHidden(t: Tables, visible: seq<string>)
    ensures WithHidden(t, visible, Restricted(t, visible)) == t
  {
    assert WithHidden(t, visible, Restricted(t, visible)).live == t.live;
  }

  lemma ListRefines(t: Tables, filter: Row -> bool, offset: int, limit: int, env: Env)
    ensures ExecuteList(t, filter, offset, limit, env).result
         == ExecuteList(Restricted(t, env.visible), filter, offset, limit, env.(visible := [])).result
  {
    var r := Restricted(t, env.visible);
    assert Matching(t, filter, env.visible) == Matching(r, filter, []);
    assert MatchingIds(t, filter, env.visible) == MatchingIds(r, filter, []);
    ObjectsAgree(t, r, Slice(MatchingIds(t, filter, env.visible), offset, EffectiveLimit(limit)));
  }

  lemma {:induction false} ObjectsAgree(t: Tables, r: Tables, ids: seq<string>)
    requires forall id :: id in ids ==> id in t.live && id in r.live && t.live[id] == r.live[id]
    ensures ObjectsOf(t, ids) == ObjectsOf(r, ids)
  {
    if ids != [] {
      ObjectsAgree(t, r, ids[1..]);
    }
  }

  /** Writing a visible row of the restricted table and publishing it is the same with the hidden rows around. */
  lemma FinishRefines(t: Tables, id: string, row: Row, done: bool, event: Event, env: Env)
    requires Lookup(t, id, env.visible).Some?
    ensures var r := Restricted(t, env.visible);
      Refines(t, env.visible, Finish(t.(live := t.live[id := row]), id, row, done, event, env),
              Finish(r.(live := r.live[id := row]), id, row, done, event, env.(visible := [])))
  {
    var r := Restricted(t, env.visible);
    HiddenAround(t, env.visible, id, row);
    FinishAround(t.(live := t.live[id := row]), r.(live := r.live[id := row]), Hidden(t, env.visible),
      id, row, done, event, env);
  }

  /** The same for any two tables that differ in the rows around the written one only. */
  lemma FinishAround(t: Tables, r: Tables, around: map<string, Row>, id: string, row: Row, done: bool, event: Event,
                     env: Env)
    requires t == r.(live := around + r.live) && around + (r.live - {id}) == t.live - {id}
    ensures var (o, p) := (Finish(t, id, row, done, event, env), Finish(r, id, row, done, event, env.(visible := [])));
      o.result == p.result && o.tables == p.tables.(live := around + p.tables.live)
  {
  }

  lemma HiddenAround(t: Tables, visible: seq<string>, id: string, row: Row)
    requires Lookup(t, id, visible).Some?
    ensures var (hidden, live) := (Hidden(t, visible), Restricted(t, visible).live);
      && hidden + live == t.live
      && hidden + live[id := row] == t.live[id := row]
      && hidden + (live[id := row] - {id}) == t.live[id := row] - {id}
  {
  }

  lemma DeleteRefines(t: Tables, id: string, env: Env)
    requires Lookup(t, id, env.visible).Some?
    ensures Refines(t, env.visible, ExecuteDelete(t, id, env),
                    ExecuteDelete(Restricted(t, env.visible), id, env.(visible := [])))
  {
    var row := t.live[id].(deletion := env.now);
    HiddenAround(t, env.visible, id, row);
    FinishRefines(t, id, row, row.finalizers == [], Deleted(MakeObject(id, row)), env);
  }

  /**
   The update of the generic server: fetches the object, fails when it isn't found, and saves what the mask makes of
   it. 'merge' stands for the masked update, or for the whole object when there is no mask; neither changes the
   identifier.
   */
  ghost function ServerUpdate(t: Tables, id: string, merge: Object -> Object, env: Env): (o: Outcome) {
    var current := Fetch(t, id, env);
    if current.Err? then Outcome(t, Err(current.error))
    else if current.value.None? then Outcome(t, Err(NotFound(id)))
    else ExecuteUpdate(t, merge(current.value.value), env)
  }

  lemma ServerUpdateRefines(t: Tables, id: string, merge: Object -> Object, env: Env)
    requires forall o :: merge(o).id == o.id
    ensures Refines(t, env.visible, ServerUpdate(t, id, merge, env),
                    ServerUpdate(Restricted(t, env.visible), id, merge, env.(visible := [])))
  {
    NothingHidden(t, env.visible);
    if Lookup(t, id, env.visible).Some? && Select !in env.fails && Decode !in env.fails {
      UpdateRefines(t, merge(MakeObject(id, t.live[id])), env);
    }
  }

  lemma UpdateRefines(t: Tables, obj: Object, env: Env)
    requires Lookup(t, obj.id, env.visible).Some?
    ensures Refines(t, env.visible, ExecuteUpdate(t, obj, env),
                    ExecuteUpdate(Restricted(t, env.visible), obj, env.(visible := [])))
  {
    NothingHidden(t, env.visible);
    WriteRefines(t, obj, env);
  }

  lemma WriteRefines(t: Tables, obj: Object, env: Env)
    requires Lookup(t, obj.id, env.visible).Some?
    ensures Refines(t, env.visible, WriteUpdate(t, obj, env),
                    WriteUpdate(Restricted(t, env.visible), obj, env.(visible := [])))
  {
    var row := t.live[obj.id].(finalizers := SubmittedFinalizers(obj), data := obj.data);
    HiddenAround(t, env.visible, obj.id, row);
    FinishRefines(t, obj.id, row, Done(row), Updated(MakeObject(obj.id, row)), env);
  }

  /** Without the server in front, an update respects the restriction exactly when the row isn't a hidden one. */
  lemma DirectUpdateRefines(t: Tables, obj: Object, env: Env)
    requires env.fails == {}
    ensures Refines(t, env.visible, ExecuteUpdate(t, obj, env),
                    ExecuteUpdate(Restricted(t, env.visible), obj, env.(visible := [])))
       <==> !(obj.id in t.live && !Sees(env.visible, t.live[obj.id]))
  {
    if Lookup(t, obj.id, env.visible).Some? {
      UpdateRefines(t, obj, env);
    } else {
      NothingHidden(t, env.visible);
    }
  }

  /* ---------- Pages ---------- */

  ghost function PageIds(t: Tables, filter: Row -> bool, limit: int, env: Env, offset: int): (ids: seq<string>) {
    Slice(MatchingIds(t, filter, env.visible), offset, EffectiveLimit(limit))
  }

  lemma PageItems(t: Tables, filter: Row -> bool, limit: int, env: Env, offset: int)
    requires env.fails == {}
    ensures forall id :: id in PageIds(t, filter, limit, env, offset) ==> id in t.live
    ensures var ids := PageIds(t, filter, limit, env, offset);
      && ExecuteList(t, filter, offset, limit, env).result
         == Ok(Page(ObjectsOf(t, ids), |MatchingIds(t, filter, env.visible)|))
      && |ObjectsOf(t, ids)| == |ids|
  {
    ObjectsLength(t, PageIds(t, filter, limit, env, offset));
  }

  /** The objects that a client gets that asks for page after page until one is empty. */
  ghost function FollowPages(t: Tables, filter: Row -> bool, limit: int, env: Env, offset: nat): (items: seq<Object>)
    requires env.fails == {} && limit > 0
    decreases |MatchingIds(t, filter, env.visible)| - offset
  {
    PageItems(t, filter, limit, env, offset);
    var page := ExecuteList(t, filter, offset, limit, env).result.value.items;
    if page == [] then [] else page + FollowPages(t, filter, limit, env, offset + |page|)
  }

  lemma {:induction false} ObjectsLength(t: Tables, ids: seq<string>)
    requires forall id :: id in ids ==> id in t.live
    ensures |ObjectsOf(t, ids)| == |ids|
    ensures forall i :: 0 <= i < |ids| ==> ObjectsOf(t, ids)[i] == MakeObject(ids[i], t.live[ids[i]])
  {
    if ids != [] {
      ObjectsLength(t, ids[1..]);
    }
  }

  /** What the client gets from an offset on, item by item. */
  ghost predicate ListsFrom(t: Tables, ids: seq<string>, offset: nat, items: seq<Object>) {
    && |items| == |ids| - offset
    && forall k :: offset <= k < |ids| ==> ids[k] in t.live && items[k - offset] == ObjectAt(t, ids[k])
  }

  function ObjectAt(t: Tables, id: string): Object
    requires id in t.live
  {
    MakeObject(id, t.live[id])
  }

  lemma PageBounds(ids: seq<string>, offset: nat, limit: nat)
    requires offset <= |ids| && limit > 0
    ensures offset + |Slice(ids, offset, limit)| <= |ids|
    ensures Slice(ids, offset, limit) == [] ==> offset == |ids|
  {
  }

  /** Page after page of a list of identifiers. */
  function Chunks(t: Tables, ids: seq<string>, offset: nat, limit: nat): (items: seq<Object>)
    requires offset <= |ids| && limit > 0 && forall id :: id in ids ==> id in t.live
    decreases |ids| - offset
  {
    var page := Slice(ids, offset, limit);
    if page == [] then []
    else
      PageBounds(ids, offset, limit);
      ObjectsOf(t, page) + Chunks(t, ids, offset + |page|, limit)
  }

  lemma {:induction false} ChunksList(t: Tables, ids: seq<string>, offset: nat, limit: nat)
    requires offset <= |ids| && limit > 0 && forall id :: id in ids ==> id in t.live
    ensures ListsFrom(t, ids, offset, Chunks(t, ids, offset, limit))
    decreases |ids| - offset
  {
    var page := Slice(ids, offset, limit);
    PageBounds(ids, offset, limit);
    if page != [] {
      ChunksList(t, ids, offset + |page|, limit);
      PageJoins(t, ids, offset, limit, Chunks(t, ids, offset + |page|, limit));
    }
  }

  lemma PageJoins(t: Tables, ids: seq<string>, offset: nat, limit: nat, others: seq<Object>)
    requires offset <= |ids| && limit > 0 && forall id :: id in ids ==> id in t.live
    requires var page := Slice(ids, offset, limit); ListsFrom(t, ids, offset + |page|, others)
    ensures var page := Slice(ids, offset, limit); ListsFrom(t, ids, offset, ObjectsOf(t, page) + others)
  {
    PageObjects(t, ids, offset, limit);
    Concatenates(t, ids, offset, ObjectsOf(t, Slice(ids, offset, limit)), others);
  }

  lemma NextPage(t: Tables, filter: Row -> bool, limit: int, env: Env, offset: nat)
    requires env.fails == {} && limit > 0
    ensures forall id :: id in PageIds(t, filter, limit, env, offset) ==> id in t.live
    ensures var page := PageIds(t, filter, limit, env, offset);
      FollowPages(t, filter, limit, env, offset) ==
      if page == [] then [] else ObjectsOf(t, page) + FollowPages(t, filter, limit, env, offset + |page|)
  {
    PageItems(t, filter, limit, env, offset);
  }

  lemma {:induction false} PagesAreChunks(t: Tables, filter: Row -> bool, limit: int, env: Env, offset: nat)
    requires env.fails == {} && limit > 0
    requires offset <= |MatchingIds(t, filter, env.visible)|
    ensures FollowPages(t, filter, limit, env, offset)
         == Chunks(t, MatchingIds(t, filter, env.visible), offset, EffectiveLimit(limit))
    decreases |MatchingIds(t, filter, env.visible)| - offset
  {
    var page := PageIds(t, filter, limit, env, offset);
    NextPage(t, filter, limit, env, offset);
    PageBounds(MatchingIds(t, filter, env.visible), offset, EffectiveLimit(limit));
    if page != [] {
      PagesAreChunks(t, filter, limit, env, offset + |page|);
    }
  }

  lemma PageObjects(t: Tables, ids: seq<string>, offset: nat, limit: nat)
    requires offset <= |ids| && limit > 0
    requires forall id :: id in ids ==> id in t.live
    ensures var page := Slice(ids, offset, limit);
      && offset + |page| <= |ids|
      && (page == [] ==> offset == |ids|)
      && |ObjectsOf(t, page)| == |page|
      && forall k :: offset <= k < offset + |page| ==> ObjectsOf(t, page)[k - offset] == ObjectAt(t, ids[k])
  {
    var page := Slice(ids, offset, limit);
    ObjectsLength(t, page);
    assert forall k :: offset <= k < offset + |page| ==> page[k - offset] == ids[k];
  }

  lemma Concatenates(t: Tables, ids: seq<string>, offset: nat, items: seq<Object>, others: seq<Object>)
    requires offset + |items| <= |ids|
    requires forall k :: offset <= k < offset + |items| ==> ids[k] in t.live && items[k - offset] == ObjectAt(t, ids[k])
    requires ListsFrom(t, ids, offset + |items|, others)
    ensures ListsFrom(t, ids, offset, items + others)
  {
  }

  /** What a list of objects in the order of their identifiers contains. */
  ghost predicate ListsEach(t: Tables, names: set<string>, items: seq<Object>) {
    && (forall i, j :: 0 <= i < j < |items| ==> Before(items[i].id, items[j].id))
    && (forall i :: 0 <= i < |items| ==> items[i].id in names)
    && (forall i :: 0 <= i < |items| ==> items[i].id in t.live && items[i] == ObjectAt(t, items[i].id))
    && (forall id :: id in names ==> exists i :: 0 <= i < |items| && items[i].id == id)
  }

  lemma ListsFromStart(t: Tables, ids: seq<string>, names: set<string>, items: seq<Object>)
    requires Lists(ids, names) && ListsFrom(t, ids, 0, items)
    ensures ListsEach(t, names, items)
  {
    assert forall k :: 0 <= k < |ids| ==> ids[k] in t.live && items[k - 0] == ObjectAt(t, ids[k]);
    assert forall k :: 0 <= k < |items| ==> items[k].id == ids[k];
    forall id | id in names ensures exists i :: 0 <= i < |items| && items[i].id == id {
      assert id in ids;
      var i :| 0 <= i < |ids| && ids[i] == id;
      assert items[i].id == id;
    }
    forall i | 0 <= i < |items| ensures items[i].id in names {
      assert ids[i] in ids;
    }
  }

  /**
   With any positive limit the pages together are the matching rows, each exactly once and in the order of the
   identifiers, and there are as many as the total that every page reports.
   */
  lemma PagesPartition(t: Tables, filter: Row -> bool, limit: int, env: Env)
    requires env.fails == {} && limit > 0
    ensures var items := FollowPages(t, filter, limit, env, 0);
      && ListsEach(t, Matching(t, filter, env.visible), items)
      && forall offset :: ExecuteList(t, filter, offset, limit, env).result.value.total == |items|
  {
    var names := Matching(t, filter, env.visible);
    PagesAreChunks(t, filter, limit, env, 0);
    ChunksList(t, MatchingIds(t, filter, env.visible), 0, EffectiveLimit(limit));
    ListingLists(names);
    ListsFromStart(t, Listing(names), names, FollowPages(t, filter, limit, env, 0));
    forall offset: int
      ensures ExecuteList(t, filter, offset, limit, env).result.value.total == |Listing(names)|
    {
      PageItems(t, filter, limit, env, offset);
    }
  }
}
