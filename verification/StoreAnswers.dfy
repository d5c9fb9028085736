/**
 What each operation of the object store answers and leaves in the tables, field by field, for an operation in which no
 call fails. A row is visible to the user when it shares a tenant with the visible ones, or when none are given.
 */
module StoreAnswers {
  import opened Wrappers
  import opened Names
  import opened ObjectStore
  import opened StoreProperties

  /** The object has the identifier and the columns of the row. */
  ghost predicate Shows(o: Object, id: string, row: Row) {
    && o.id == id && o.data == row.data && o.metadata.Some?
    && o.metadata.value.creation == row.creation && o.metadata.value.deletion == row.deletion
    && o.metadata.value.finalizers == row.finalizers
    && o.metadata.value.creators == row.creators && o.metadata.value.tenants == row.tenants
  }

  /** All rows but one are as they were. */
  ghost predicate OthersStay(t: Tables, t': Tables, id: string) {
    t'.live - {id} == t.live - {id}
  }

  /** The only change of the archive is one more row, with the columns of the given one. */
  ghost predicate Archives(t: Tables, t': Tables, id: string, row: Row) {
    && |t'.archive| == |t.archive| + 1 && t'.archive[..|t.archive|] == t.archive
    && var last := t'.archive[|t.archive|];
      && last.id == id && last.creation == row.creation && last.deletion == row.deletion
      && last.creators == row.creators && last.tenants == row.tenants && last.data == row.data
  }

  /** Whether the user may see a row: none of the visible tenants is asked for, or one of them owns it. */
  ghost predicate Owned(row: Row, visible: seq<string>) {
    visible == [] || !(Elements(row.tenants) !! Elements(visible))
  }

  lemma SeesExactly(visible: seq<string>, row: Row)
    ensures Sees(visible, row) <==> Owned(row, visible)
  {
    if Sees(visible, row) && visible != [] {
      var tenant :| tenant in row.tenants && tenant in visible;
      assert tenant in Elements(row.tenants) && tenant in Elements(visible);
    }
    if !(Elements(row.tenants) !! Elements(visible)) {
      var tenant :| tenant in Elements(row.tenants) && tenant in Elements(visible);
      assert tenant in row.tenants && tenant in visible;
    }
  }

  // Reads

  /** A row that shares no tenant with the visible ones can't be read, found, listed or deleted. */
  lemma HiddenFromStrangers(t: Tables, id: string, env: Env)
    requires env.fails == {} && env.visible != []
    requires id in t.live && Elements(t.live[id].tenants) !! Elements(env.visible)
    ensures Execute(t, Get(id), env) == Outcome(t, Ok(Nothing))
    ensures Execute(t, Exists(id), env) == Outcome(t, Ok(Flag(false)))
    ensures Execute(t, Delete(id), env) == Outcome(t, Err(NotFound(id)))
    ensures forall filter, offset, limit :: !Listed(t, filter, offset, limit, env, id)
  {
    SeesExactly(env.visible, t.live[id]);
    forall filter, offset, limit ensures !Listed(t, filter, offset, limit, env, id) {
      if Listed(t, filter, offset, limit, env, id) {
        ListedMatches(t, filter, offset, limit, env, id);
      }
    }
  }

  /** An identifier without a row isn't found by anybody. */
  lemma AbsentIsNotFound(t: Tables, id: string, env: Env)
    requires env.fails == {} && id !in t.live
    ensures Execute(t, Get(id), env) == Outcome(t, Ok(Nothing))
    ensures Execute(t, Exists(id), env) == Outcome(t, Ok(Flag(false)))
  {
  }

  /** A row that shares a tenant with the visible ones, and every row when none are given, is read, found and listed. */
  lemma FoundByItsTenants(t: Tables, id: string, env: Env)
    requires env.fails == {} && id in t.live
    requires env.visible == [] || !(Elements(t.live[id].tenants) !! Elements(env.visible))
    ensures exists o :: Execute(t, Get(id), env) == Outcome(t, Ok(Found(o))) && Shows(o, id, t.live[id])
    ensures Execute(t, Exists(id), env) == Outcome(t, Ok(Flag(true)))
    ensures forall filter: Row -> bool, limit :: filter(t.live[id]) && |t.live| <= limit <= 1000 ==>
              Listed(t, filter, 0, limit, env, id)
  {
    SeesExactly(env.visible, t.live[id]);
    var o := MakeObject(id, t.live[id]);
    assert Execute(t, Get(id), env) == Outcome(t, Ok(Found(o))) && Shows(o, id, t.live[id]);
    forall filter: Row -> bool, limit | filter(t.live[id]) && |t.live| <= limit <= 1000
      ensures Listed(t, filter, 0, limit, env, id)
    {
      MatchIsListed(t, filter, limit, env, id);
    }
  }

  /** The identifier is that of an object on the page. */
  ghost predicate Listed(t: Tables, filter: Row -> bool, offset: int, limit: int, env: Env, id: string) {
    var r := Execute(t, List(filter, offset, limit), env).result;
    r.Ok? && r.value.Page? && exists i :: 0 <= i < |r.value.items| && r.value.items[i].id == id
  }

  lemma ListedMatches(t: Tables, filter: Row -> bool, offset: int, limit: int, env: Env, id: string)
    requires env.fails == {} && Listed(t, filter, offset, limit, env, id)
    ensures id in t.live && filter(t.live[id]) && Sees(env.visible, t.live[id])
  {
    var page := PageIds(t, filter, limit, env, offset);
    PageItems(t, filter, limit, env, offset);
    ObjectsLength(t, page);
    var i :| 0 <= i < |page| && ObjectsOf(t, page)[i].id == id;
    assert page[i] == id && id in MatchingIds(t, filter, env.visible);
    ListingLists(Matching(t, filter, env.visible));
  }

  /** The rows that a list is about. */
  ghost function Selected(t: Tables, filter: Row -> bool, visible: seq<string>): (ids: set<string>) {
    set id | id in t.live && filter(t.live[id]) && Owned(t.live[id], visible)
  }

  /** How many items a page has: at most 100 by default, at most 1000, and none for a negative limit. */
  function PageSize(total: nat, offset: int, limit: int): (n: nat) {
    var size := if limit < 0 then 0 else if limit == 0 then 100 else if limit <= 1000 then limit else 1000;
    var left := if offset <= 0 then total else if offset < total then total - offset else 0;
    if size < left then size else left
  }

  /** A page shows the selected rows from the offset on, in the order of their identifiers. */
  lemma ListAnswers(t: Tables, filter: Row -> bool, offset: int, limit: int, env: Env, ids: seq<string>)
    requires env.fails == {} && Lists(ids, Selected(t, filter, env.visible))
    ensures Execute(t, List(filter, offset, limit), env).tables == t
    ensures var (r, start) := (Execute(t, List(filter, offset, limit), env).result, if offset < 0 then 0 else offset);
      && r.Ok? && r.value.Page? && r.value.total == |ids|
      && |r.value.items| == PageSize(|ids|, offset, limit)
      && forall k :: 0 <= k < |r.value.items| ==>
           ids[start + k] in t.live && Shows(r.value.items[k], ids[start + k], t.live[ids[start + k]])
  {
    var page := PageIds(t, filter, limit, env, offset);
    InOrder(t, filter, env.visible, ids);
    PageItems(t, filter, limit, env, offset);
    ObjectsLength(t, page);
    SliceExactly(ids, offset, limit);
  }

  lemma InOrder(t: Tables, filter: Row -> bool, visible: seq<string>, ids: seq<string>)
    requires Lists(ids, Selected(t, filter, visible))
    ensures MatchingIds(t, filter, visible) == ids
  {
    SelectedExactly(t, filter, visible);
    ListingLists(Selected(t, filter, visible));
    ListsUnique(ids, Listing(Selected(t, filter, visible)), Selected(t, filter, visible));
  }

  lemma SliceExactly(ids: seq<string>, offset: int, limit: int)
    ensures var (page, start) := (Slice(ids, offset, EffectiveLimit(limit)), if offset < 0 then 0 else offset);
      && |page| == PageSize(|ids|, offset, limit)
      && forall k :: 0 <= k < |page| ==> start + k < |ids| && page[k] == ids[start + k]
  {
  }

  lemma SelectedExactly(t: Tables, filter: Row -> bool, visible: seq<string>)
    ensures Matching(t, filter, visible) == Selected(t, filter, visible)
  {
    forall id | id in t.live {
      SeesExactly(visible, t.live[id]);
    }
  }

  lemma MatchIsListed(t: Tables, filter: Row -> bool, limit: int, env: Env, id: string)
    requires env.fails == {} && id in t.live && filter(t.live[id]) && Owned(t.live[id], env.visible)
    requires |t.live| <= limit <= 1000
    ensures Listed(t, filter, 0, limit, env, id)
  {
    var names := Selected(t, filter, env.visible);
    var ids := Listing(names);
    ListingLists(names);
    ListsLength(ids, names);
    SubsetSize(names, t.live.Keys);
    ListAnswers(t, filter, 0, limit, env, ids);
    assert id in names && id in ids;
    var k :| 0 <= k < |ids| && ids[k] == id;
    assert |t.live.Keys| == |t.live|;
    assert 0 < |ids| <= limit;
    assert PageSize(|ids|, 0, limit) == |ids|;
    assert Execute(t, List(filter, 0, limit), env).result.value.items[k].id == id;
  }

  lemma {:induction false} SubsetSize(a: set<string>, b: set<string>)
    requires a <= b
    ensures |a| <= |b|
    decreases b
  {
    if b != {} {
      var x :| x in b;
      SubsetSize(a - {x}, b - {x});
    }
  }

  // Writes

  /** The submitted finalizers, as a set. */
  ghost function Submitted(obj: Object): (names: set<string>) {
    if obj.metadata.None? then {} else Elements(obj.metadata.value.finalizers)
  }

  lemma SubmittedLists(obj: Object)
    ensures Lists(SubmittedFinalizers(obj), Submitted(obj))
  {
    if obj.metadata.Some? {
      CanonicalLists(obj.metadata.value.finalizers);
    }
  }

  /** A creation succeeds unless the identifier is taken, and stores, publishes and returns one new object. */
  lemma CreateAnswers(t: Tables, obj: Object, env: Env)
    requires env.fails == {}
    ensures var (id, o) := (if obj.id == "" then env.newId else obj.id, Execute(t, Create(obj), env));
      && (o.result.Ok? <==> id !in t.live)
      && (o.result.Err? ==> o.tables == t)
      && (o.result.Ok? ==>
            && o.tables.live.Keys == t.live.Keys + {id} && OthersStay(t, o.tables, id)
            && o.tables.archive == t.archive
            && var row := o.tables.live[id];
              && row.creation == env.now && row.deletion == 0
              && row.creators == env.creators && row.tenants == env.granted && row.data == obj.data
              && Lists(row.finalizers, Submitted(obj))
              && o.result.value.Found? && Shows(o.result.value.obj, id, row)
              && o.tables.events == t.events + [Created(o.result.value.obj)])
  {
    SubmittedLists(obj);
  }

  /** What the tables are after a row was written, or archived when it is deleted and nobody holds it. */
  ghost predicate Leaves(t: Tables, t': Tables, id: string, row: Row, event: Event) {
    && OthersStay(t, t', id) && t'.events == t.events + [event] && Shows(event.obj, id, row)
    && if row.deletion != 0 && row.finalizers == [] then id !in t'.live && Archives(t, t', id, row)
       else id in t'.live && t'.live[id] == row && t'.archive == t.archive
  }

  /** The submitted object says nothing new about the row, timestamps aside. */
  ghost predicate SaysNothingNew(row: Row, obj: Object) {
    && obj.data == row.data && obj.metadata.Some? && obj.metadata.value.finalizers == row.finalizers
    && obj.metadata.value.creators == row.creators && obj.metadata.value.tenants == row.tenants
  }

  /**
   An update that says nothing new about a row that the user may see does nothing. Any other replaces the data and the
   finalizers and nothing else, and publishes and returns the object.
   */
  lemma UpdateAnswers(t: Tables, obj: Object, env: Env)
    requires env.fails == {}
    ensures obj.id !in t.live ==> Execute(t, Update(obj), env) == Outcome(t, Err(NoRows))
    ensures obj.id in t.live && Owned(t.live[obj.id], env.visible) && SaysNothingNew(t.live[obj.id], obj) ==>
              Execute(t, Update(obj), env) == Outcome(t, Ok(Nothing))
    ensures obj.id in t.live && !(Owned(t.live[obj.id], env.visible) && SaysNothingNew(t.live[obj.id], obj)) ==>
              exists row :: Updates(t, obj, row, Execute(t, Update(obj), env))
  {
    if obj.id in t.live {
      SeesExactly(env.visible, t.live[obj.id]);
      SubmittedLists(obj);
      var row := t.live[obj.id].(finalizers := SubmittedFinalizers(obj), data := obj.data);
      if !(Owned(t.live[obj.id], env.visible) && SaysNothingNew(t.live[obj.id], obj)) {
        assert Updates(t, obj, row, Execute(t, Update(obj), env));
      }
    }
  }

  ghost predicate Updates(t: Tables, obj: Object, row: Row, o: Outcome)
    requires obj.id in t.live
  {
    var before := t.live[obj.id];
    && row.creation == before.creation && row.deletion == before.deletion
    && row.creators == before.creators && row.tenants == before.tenants
    && row.data == obj.data && Lists(row.finalizers, Submitted(obj))
    && o.result.Ok? && o.result.value.Found?
    && Leaves(t, o.tables, obj.id, row, Updated(o.result.value.obj))
  }

  /** A deletion marks a held row with the current time, and archives a row that nobody holds. */
  lemma DeleteAnswers(t: Tables, id: string, env: Env)
    requires env.fails == {} && Sane(env)
    ensures id !in t.live || !Owned(t.live[id], env.visible) ==>
              Execute(t, Delete(id), env) == Outcome(t, Err(NotFound(id)))
    ensures id in t.live && Owned(t.live[id], env.visible) ==>
              exists row, obj :: Deletes(t, id, env.now, row, obj, Execute(t, Delete(id), env))
  {
    if id in t.live {
      SeesExactly(env.visible, t.live[id]);
      if Owned(t.live[id], env.visible) {
        var row := t.live[id].(deletion := env.now);
        assert Deletes(t, id, env.now, row, MakeObject(id, row), Execute(t, Delete(id), env));
      }
    }
  }

  ghost predicate Deletes(t: Tables, id: string, now: nat, row: Row, obj: Object, o: Outcome)
    requires id in t.live
  {
    var before := t.live[id];
    && row.creation == before.creation && row.deletion == now
    && row.creators == before.creators && row.tenants == before.tenants
    && row.data == before.data && row.finalizers == before.finalizers
    && o.result == Ok(Nothing)
    && Leaves(t, o.tables, id, row, Deleted(obj))
  }

  /** The update through the server fails when the user may not see the row, and otherwise updates what it read. */
  lemma ServerUpdateAnswers(t: Tables, id: string, merge: Object -> Object, env: Env)
    requires env.fails == {}
    ensures id !in t.live || !Owned(t.live[id], env.visible) ==>
              ServerUpdate(t, id, merge, env) == Outcome(t, Err(NotFound(id)))
    ensures id in t.live && Owned(t.live[id], env.visible) ==>
              exists o :: Shows(o, id, t.live[id]) && ServerUpdate(t, id, merge, env) == Execute(t, Update(merge(o)), env)
  {
    if id in t.live {
      SeesExactly(env.visible, t.live[id]);
      assert Shows(MakeObject(id, t.live[id]), id, t.live[id]);
    }
  }

  // Failures

  /** The calls that an operation makes once there is a transaction, given what it answered and left. */
  ghost function Called(t: Tables, q: Request, o: Outcome): (steps: set<Step>) {
    var archived := if |o.tables.archive| > |t.archive| then {ArchiveInsert, ArchiveDelete} else {};
    match q
    case Get(_) => if o.result == Ok(Nothing) then {Select} else {Select, Decode}
    case Exists(_) => {Select}
    case List(_, _, _) => if o.result.Ok? && o.result.value.Page? && o.result.value.items == [] then {Select} else {Select, Decode}
    case Create(_) => {Write, Notify}
    case Update(_) => if o.result == Ok(Nothing) then {Select, Decode} else {Select, Encode, Write, Notify} + archived
    case Delete(_) => {Write, Decode, Notify} + archived
  }

  /** An operation that answers without an error made no call that failed. */
  lemma SuccessHidesNoFailure(t: Tables, q: Request, env: Env)
    requires Execute(t, q, env).result.Ok?
    ensures Called(t, q, Execute(t, q, env)) !! env.fails
  {
    if q.List? {
      var page := Slice(MatchingIds(t, q.filter, env.visible), q.offset, EffectiveLimit(q.limit));
      ObjectsLength(t, page);
    }
  }

  /** Before any statement: an empty identifier is refused, and so is a request whose preparation fails. */
  lemma RefusedAtOnce(q: Request, env: Env)
    ensures env.fails == {} ==> (Precheck(q, env) == Some(MissingId) <==> !q.Create? && !q.List? && RequestId(q) == "")
    ensures env.fails == {} && Precheck(q, env).Some? ==> Precheck(q, env) == Some(MissingId)
    ensures Precheck(q, env).None? ==> Tenancy !in env.fails
    ensures Precheck(q, env).None? && q.List? ==> Translation !in env.fails
    ensures Precheck(q, env).None? && q.Create? ==> Attribution !in env.fails && Encode !in env.fails
  {
  }
}
