/**
 Lazy transactions: the real transaction starts with the first statement, errors are collected, and the end of the
 transaction commits when there are none.
 */
module Transactions {
  import opened Wrappers
  import opened Names
  import opened ObjectStore

  /** The state of a transaction: its own view of the tables once it started, and the reported errors. */
  datatype Session = Session(working: Option<Tables>, errs: seq<Error>, begun: nat)

  const IDLE := Session(None, [], 0)

  datatype Reply = Reply(session: Session, result: Result<Response, Error>)

  function Report(s: Session, result: Result<Response, Error>): (r: Reply) {
    Reply(if result.Err? then s.(errs := s.errs + [result.error]) else s, result)
  }

  /** The effect of one operation on the transaction. */
  ghost function Run(s: Session, committed: Tables, q: Request, env: Env): (r: Reply) {
    var error := Precheck(q, env);
    if error.Some? then Report(s, Err(error.value))
    else if s.working.None? && Begin in env.fails then Report(s, Err(Failed(Begin)))
    else
      var begun := Begun(s, committed);
      var o := Execute(begun.working.value, q, env);
      Report(begun.(working := Some(o.tables)), o.result)
  }

  function Begun(s: Session, committed: Tables): (r: Session)
    ensures r.working.Some?
  {
    if s.working.Some? then s else Session(Some(committed), s.errs, s.begun + 1)
  }

  /** The committed tables after the end of the transaction. */
  function Ended(s: Session, committed: Tables, commitFails: bool): (t: Tables) {
    if s.working.Some? && s.errs == [] && !commitFails then s.working.value else committed
  }

  class Database {
    var committed: Tables

    constructor (tables: Tables)
      ensures committed == tables
    {
      committed := tables;
    }
  }

  class ManagedTx {
    const database: Database
    var working: Option<Tables>
    var errs: seq<Error>
    ghost var begun: nat

    ghost function State(): Session
      reads this
    {
      Session(working, errs, begun)
    }

    constructor (database: Database)
      ensures this.database == database && State() == IDLE
    {
      this.database := database;
      working, errs, begun := None, [], 0;
    }

    method EnsureReal(env: Env) returns (error: Option<Error>)
      modifies this
      ensures if old(working).None? && Begin in env.fails
              then error == Some(Failed(Begin)) && State() == old(State())
              else error == None && State() == Begun(old(State()), database.committed)
    {
      if working.Some? {
        return None;
      }
      if Begin in env.fails {
        return Some(Failed(Begin));
      }
      working := Some(database.committed);
      begun := begun + 1;
      return None;
    }

    method ReportError(result: Result<Response, Error>)
      modifies this`errs
      ensures State() == Report(old(State()), result).session
    {
      if result.Err? {
        errs := errs + [result.error];
      }
    }

    /** Ends the transaction: commits when no errors were reported, otherwise rolls back. */
    method End(commitFails: bool)
      modifies database
      ensures database.committed == Ended(State(), old(database.committed), commitFails)
    {
      if working.Some? && errs == [] && !commitFails {
        database.committed := working.value;
      }
    }

    /* ---------- Statements of the data access obj ---------- */

    method Handle(q: Request, env: Env) returns (result: Result<Response, Error>)
      modifies this
      ensures Reply(State(), result) == Run(old(State()), database.committed, q, env)
    {
      var error := Precheck(q, env);
      if error.Some? {
        result := Err(error.value);
      } else {
        error := EnsureReal(env);
        if error.Some? {
          result := Err(error.value);
        } else {
          result := Perform(q, env);
        }
      }
      ReportError(result);
    }

    method Perform(q: Request, env: Env) returns (result: Result<Response, Error>)
      requires working.Some?
      modifies this`working
      ensures working == Some(Execute(old(working).value, q, env).tables)
      ensures result == Execute(old(working).value, q, env).result
    {
      match q {
        case Get(id) =>
          var fetched := Fetch(working.value, id, env);
          if fetched.Err? {
            return Err(fetched.error);
          }
          return Ok(if fetched.value.Some? then Found(fetched.value.value) else Nothing);
        case Exists(id) =>
          if Select in env.fails {
            return Err(Failed(Select));
          }
          return Ok(Flag(Lookup(working.value, id, env.visible).Some?));
        case List(filter, offset, limit) => result := FetchPage(filter, offset, limit, env);
        case Create(obj) => result := Insert(obj, env);
        case Update(obj) => result := Change(obj, env);
        case Delete(id) => result := Remove(id, env);
      }
    }

    method Insert(obj: Object, env: Env) returns (result: Result<Response, Error>)
      requires working.Some?
      modifies this`working
      ensures working == Some(ExecuteCreate(old(working).value, obj, env).tables)
      ensures result == ExecuteCreate(old(working).value, obj, env).result
    {
      var id := obj.id;
      if id == "" {
        id := env.newId;
      }
      var finalizers := [];
      if obj.metadata.Some? {
        finalizers := GetFinalizers(obj.metadata.value.finalizers);
      }
      var t := working.value;
      if Write in env.fails || id in t.live {
        return Err(Failed(Write));
      }
      var row := Row(env.now, 0, finalizers, env.creators, env.granted, obj.data);
      working := Some(t.(live := t.live[id := row]));
      var created := MakeObject(id, row);
      var error := FireEvent(Created(created), env);
      if error.Some? {
        return Err(error.value);
      }
      return Ok(Found(created));
    }

    method Change(obj: Object, env: Env) returns (result: Result<Response, Error>)
      requires working.Some?
      modifies this`working
      ensures working == Some(ExecuteUpdate(old(working).value, obj, env).tables)
      ensures result == ExecuteUpdate(old(working).value, obj, env).result
    {
      var t := working.value;
      var current := Fetch(t, obj.id, env);
      if current.Err? {
        return Err(current.error);
      }
      if Equivalent(current.value, obj) {
        return Ok(Nothing);
      }
      var finalizers := [];
      if obj.metadata.Some? {
        finalizers := GetFinalizers(obj.metadata.value.finalizers);
      }
      if Encode in env.fails {
        return Err(Failed(Encode));
      }
      if Write in env.fails {
        return Err(Failed(Write));
      }
      if obj.id !in t.live {
        return Err(NoRows);
      }
      var row := t.live[obj.id].(finalizers := finalizers, data := obj.data);
      working := Some(t.(live := t.live[obj.id := row]));
      var updated := MakeObject(obj.id, row);
      var error := FireEvent(Updated(updated), env);
      if error.Some? {
        return Err(error.value);
      }
      if row.deletion != 0 && finalizers == [] {
        error := Archive(obj.id, row, env);
        if error.Some? {
          return Err(error.value);
        }
      }
      return Ok(Found(updated));
    }

    method Remove(id: string, env: Env) returns (result: Result<Response, Error>)
      requires working.Some?
      modifies this`working
      ensures working == Some(ExecuteDelete(old(working).value, id, env).tables)
      ensures result == ExecuteDelete(old(working).value, id, env).result
    {
      if Write in env.fails {
        return Err(Failed(Write));
      }
      var t := working.value;
      var found := Lookup(t, id, env.visible);
      if found.None? {
        return Err(NotFound(id));
      }
      var row := found.value.(deletion := env.now);
      working := Some(t.(live := t.live[id := row]));
      if Decode in env.fails {
        return Err(Failed(Decode));
      }
      var error := FireEvent(Deleted(MakeObject(id, row)), env);
      if error.Some? {
        return Err(error.value);
      }
      if |row.finalizers| == 0 {
        error := Archive(id, row, env);
        if error.Some? {
          return Err(error.value);
        }
      }
      return Ok(Nothing);
    }

    method FireEvent(event: Event, env: Env) returns (error: Option<Error>)
      requires working.Some?
      modifies this`working
      ensures error == if Notify in env.fails then Some(Failed(Notify)) else None
      ensures working == Some(if error.Some? then old(working).value
                           else old(working).value.(events := old(working).value.events + [event]))
    {
      if Notify in env.fails {
        return Some(Failed(Notify));
      }
      working := Some(working.value.(events := working.value.events + [event]));
      return None;
    }

    method Archive(id: string, row: Row, env: Env) returns (error: Option<Error>)
      requires working.Some?
      modifies this`working
      ensures var t := old(working).value;
        var archived := t.(archive := t.archive + [ArchiveOf(id, row)]);
        if ArchiveInsert in env.fails then error == Some(Failed(ArchiveInsert)) && working == Some(t)
        else if ArchiveDelete in env.fails then error == Some(Failed(ArchiveDelete)) && working == Some(archived)
        else error == None && working == Some(archived.(live := t.live - {id}))
    {
      if ArchiveInsert in env.fails {
        return Some(Failed(ArchiveInsert));
      }
      var t := working.value;
      working := Some(t.(archive := t.archive + [ArchiveOf(id, row)]));
      if ArchiveDelete in env.fails {
        return Some(Failed(ArchiveDelete));
      }
      working := Some(working.value.(live := working.value.live - {id}));
      return None;
    }

    /** Counts the matching rows, then reads the rows of the page one by one in the order of the identifiers. */
    method FetchPage(filter: Row -> bool, offset: int, limit: int, env: Env) returns (result: Result<Response, Error>)
      requires working.Some?
      ensures result == ExecuteList(working.value, filter, offset, limit, env).result
    {
      if Select in env.fails {
        return Err(Failed(Select));
      }
      var t := working.value;
      var matching := set id | id in t.live && filter(t.live[id]) && Sees(env.visible, t.live[id]);
      var ids := InOrder(matching);
      ListingLists(matching);
      ListsUnique(ids, MatchingIds(t, filter, env.visible), matching);
      var page := Slice(ids, offset, EffectiveLimit(limit));
      var items: seq<Object> := [];
      for i := 0 to |page|
        invariant i > 0 ==> Decode !in env.fails
        invariant forall id :: id in page ==> id in t.live
        invariant items == ObjectsOf(t, page[..i])
      {
        if Decode in env.fails {
          return Err(Failed(Decode));
        }
        assert page[i] in ids;
        ObjectsAppend(t, page[..i], page[i]);
        assert page[..i + 1] == page[..i] + [page[i]];
        items := items + [MakeObject(page[i], t.live[page[i]])];
      }
      assert page[..|page|] == page;
      return Ok(Page(items, |ids|));
    }
  }

  method InOrder(names: set<string>) returns (s: seq<string>)
    ensures Lists(s, names)
  {
    s := [];
    var left := names;
    while left != {}
      invariant left <= names
      invariant Lists(s, names - left)
      decreases left
    {
      var x :| x in left;
      InsertLists(x, s);
      s := Names.Insert(x, s);
      left := left - {x};
    }
  }

  lemma {:induction false} ObjectsAppend(t: Tables, ids: seq<string>, id: string)
    requires forall x :: x in ids ==> x in t.live
    requires id in t.live
    ensures forall x :: x in ids + [id] ==> x in t.live
    ensures ObjectsOf(t, ids + [id]) == ObjectsOf(t, ids) + [MakeObject(id, t.live[id])]
  {
    if ids != [] {
      assert (ids + [id])[1..] == ids[1..] + [id];
      ObjectsAppend(t, ids[1..], id);
    }
  }
}
