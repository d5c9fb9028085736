/**
 The reconciliation of clusters: each one that is progressing gets a cluster order in a hub. The environment decides
 which calls fail, also after having taken effect, which hub the random choice takes, and which orders other actors
 remove meanwhile.
 */
module Reconciler {
  import opened Wrappers
  import opened Clusters

  type HubId = string
  type Name = string

  datatype NodeRequest = NodeRequest(resourceClass: string, numberOfNodes: int)

  /** The parameters stand for the JSON text that encodes them. */
  datatype OrderSpec =
    OrderSpec(templateId: string, parameters: map<string, Packed>, nodeRequests: seq<NodeRequest>)

  /** A cluster order, labelled with the identifier of its cluster. */
  datatype Order = Order(uuid: string, spec: OrderSpec)

  type Orders = map<Name, Order>
  type Fleet = map<HubId, Orders>

  /** A write is done, is refused, or takes effect while the caller sees an error. */
  datatype Write = Done | Refused | Lost

  datatype Env = Env(
    kinds: seq<Kind>,
    hubs: Option<seq<HubId>>,
    pick: nat,
    connects: bool,
    lists: bool,
    keys: seq<string>,
    converts: bool,
    gone: set<Name>,
    name: Name,
    write: Write,
    lingers: bool,
    saves: bool)

  datatype Error =
    | HubsUnavailable
    | NoHubs
    | HubUnavailable
    | ListFailed
    | TooMany(count: nat)
    | ParametersInvalid
    | WriteFailed
    | SaveFailed

  /** The loops over maps visit each key once. */
  ghost predicate Fits(cluster: Cluster, env: Env) {
    Visits(env.kinds, KINDS) && Visits(env.keys, cluster.spec.nodeSets.Keys)
  }

  // Specification

  ghost function WithCondition(conditions: seq<Condition>, kind: Kind): (r: seq<Condition>) {
    if kind == UNSPECIFIED || Has(conditions, kind) then conditions else conditions + [Condition(kind, false)]
  }

  ghost function WithConditions(conditions: seq<Condition>, kinds: seq<Kind>): (r: seq<Condition>)
    decreases |kinds|
  {
    if kinds == [] then conditions
    else WithCondition(WithConditions(conditions, kinds[..|kinds| - 1]), kinds[|kinds| - 1])
  }

  function StatusOf(cluster: Cluster): (s: Status) {
    if cluster.status.Some? then cluster.status.value else Status(StateUnspecified, "", [])
  }

  ghost function WithDefaults(cluster: Cluster, kinds: seq<Kind>): (r: Cluster)
    ensures r.status.Some?
  {
    var s := StatusOf(cluster);
    var state := if s.state.StateUnspecified? then Progressing else s.state;
    cluster.(status := Some(Status(state, s.hub, WithConditions(s.conditions, kinds))))
  }

  function WithHub(cluster: Cluster, hub: HubId): (r: Cluster)
    requires cluster.status.Some?
  {
    cluster.(status := Some(cluster.status.value.(hub := hub)))
  }

  /** The hub of the snapshot, and otherwise a random one. */
  function Target(cluster: Cluster, env: Env): (r: Result<HubId, Error>) {
    if StatusOf(cluster).hub != "" then Ok(StatusOf(cluster).hub)
    else if env.hubs.None? then Err(HubsUnavailable)
    else if env.hubs.value == [] then Err(NoHubs)
    else Ok(env.hubs.value[env.pick % |env.hubs.value|])
  }

  function Labelled(orders: Orders, id: string): (names: set<Name>) {
    set name | name in orders && orders[name].uuid == id
  }

  ghost function Any(names: set<Name>): (name: Name)
    requires names != {}
    ensures name in names
  {
    var name :| name in names;
    name
  }

  /** The order of a cluster, which must be the only one. */
  ghost function Found(orders: Orders, id: string, env: Env): (r: Result<Option<Name>, Error>) {
    var names := Labelled(orders, id);
    if !env.lists then Err(ListFailed)
    else if |names| > 1 then Err(TooMany(|names|))
    else if names == {} then Ok(None)
    else Ok(Some(Any(names)))
  }

  function Request(nodeSets: map<string, NodeSet>, key: string): (r: NodeRequest) {
    if key in nodeSets then NodeRequest(nodeSets[key].hostClass, nodeSets[key].size) else NodeRequest("", 0)
  }

  function Requests(nodeSets: map<string, NodeSet>, keys: seq<string>): (r: seq<NodeRequest>) {
    seq(|keys|, i requires 0 <= i < |keys| => Request(nodeSets, keys[i]))
  }

  function Wanted(spec: Spec, keys: seq<string>): (r: OrderSpec) {
    OrderSpec(spec.template, spec.parameters, Requests(spec.nodeSets, keys))
  }

  /** The state of a hub after a write, and whether the caller sees it done. */
  type Written = (Orders, bool)

  function Create(orders: Orders, order: Order, env: Env): (r: Written) {
    if env.write.Refused? || env.name in orders then (orders, false)
    else (orders[env.name := order], env.write.Done?)
  }

  function Patch(orders: Orders, name: Name, spec: OrderSpec, env: Env): (r: Written) {
    if env.write.Refused? || name !in orders then (orders, false)
    else (orders[name := Order(orders[name].uuid, spec)], env.write.Done?)
  }

  /** A deleted order may linger until its own finalizers are done. */
  function Delete(orders: Orders, name: Name, env: Env): (r: Written) {
    if env.write.Refused? || name !in orders then (orders, false)
    else (if env.lingers then orders else orders - {name}, env.write.Done?)
  }

  datatype Outcome = Outcome(fleet: Fleet, cluster: Cluster, error: Option<Error>)

  function Settle(fleet: Fleet, hub: HubId, written: Written, cluster: Cluster): (r: Outcome) {
    Outcome(fleet[hub := written.0], cluster, if written.1 then None else Some(WriteFailed))
  }

  ghost function Update(fleet: Fleet, snapshot: Cluster, env: Env): (r: Outcome) {
    UpdateSeeing(fleet, fleet, snapshot, env)
  }

  /** An update that finds what is in the hubs at one time, and writes at a later one. */
  ghost function UpdateSeeing(seen: Fleet, fleet: Fleet, snapshot: Cluster, env: Env): (r: Outcome) {
    var cluster := WithDefaults(snapshot, env.kinds);
    var target := Target(cluster, env);
    if cluster.status.value.state != Progressing then Outcome(fleet, cluster, None)
    else if target.Err? then Outcome(fleet, cluster, Some(target.error))
    else if !env.connects || target.value !in seen || target.value !in fleet then
      Outcome(fleet, cluster, Some(HubUnavailable))
    else Place(seen[target.value], fleet, WithHub(cluster, target.value), target.value, env)
  }

  /** Creates or patches the order in the selected hub, depending on the orders that were seen there. */
  ghost function Place(seen: Orders, fleet: Fleet, cluster: Cluster, hub: HubId, env: Env): (r: Outcome)
    requires hub in fleet
  {
    var found := Found(seen, cluster.id, env);
    var spec := Wanted(cluster.spec, env.keys);
    var present := fleet[hub] - env.gone;
    if found.Err? then Outcome(fleet, cluster, Some(found.error))
    else if !env.converts then Outcome(fleet, cluster, Some(ParametersInvalid))
    else if found.value.None? then Settle(fleet, hub, Create(present, Order(cluster.id, spec), env), cluster)
    else Settle(fleet, hub, Patch(present, found.value.value, spec, env), cluster)
  }

  ghost function Remove(fleet: Fleet, cluster: Cluster, env: Env): (r: Outcome) {
    var hub := StatusOf(cluster).hub;
    if hub == "" then Outcome(fleet, cluster, None)
    else if !env.connects || hub !in fleet then Outcome(fleet, cluster, Some(HubUnavailable))
    else
      var found := Found(fleet[hub], cluster.id, env);
      if found.Err? then Outcome(fleet, cluster, Some(found.error))
      else if found.value.None? then Outcome(fleet, cluster, None)
      else Settle(fleet, hub, Delete(fleet[hub] - env.gone, found.value.value, env), cluster)
  }

  /** One reconciliation; without error the resulting cluster has been saved. */
  ghost function Run(fleet: Fleet, snapshot: Cluster, env: Env): (r: Outcome) {
    var o := if snapshot.deleting then Remove(fleet, snapshot, env) else Update(fleet, snapshot, env);
    if o.error.None? && !env.saves then o.(error := Some(SaveFailed)) else o
  }

  // Implementation

  /** The servers of the hubs. */
  class Hubs {
    var fleet: Fleet

    constructor (fleet: Fleet)
      ensures this.fleet == fleet
    {
      this.fleet := fleet;
    }

    /** The names of the orders of a cluster, in any order. */
    method List(hub: HubId, id: string, env: Env) returns (r: Result<seq<Name>, Error>)
      requires hub in fleet
      ensures r == Err(ListFailed) || (r.Ok? && Visits(r.value, Labelled(fleet[hub], id)))
      ensures r.Ok? <==> env.lists
    {
      if !env.lists {
        return Err(ListFailed);
      }
      var names := [];
      var rest := Labelled(fleet[hub], id);
      ghost var all := rest;
      while rest != {}
        invariant rest <= all
        invariant Visits(names, all - rest)
        decreases |rest|
      {
        var name :| name in rest;
        names := names + [name];
        rest := rest - {name};
      }
      return Ok(names);
    }

    /** What other actors do to a hub between two calls of a run. */
    method Interfere(hub: HubId, gone: set<Name>)
      requires hub in fleet
      modifies this
      ensures fleet == old(fleet)[hub := old(fleet)[hub] - gone]
    {
      fleet := fleet[hub := fleet[hub] - gone];
    }

    method Write(hub: HubId, written: Written) returns (r: Option<Error>)
      modifies this
      ensures fleet == old(fleet)[hub := written.0]
      ensures r == if written.1 then None else Some(WriteFailed)
    {
      fleet := fleet[hub := written.0];
      r := if written.1 then None else Some(WriteFailed);
    }
  }

  /** A list of distinct names has as many elements as the set it visits. */
  lemma {:induction false} VisitsCount(names: seq<Name>, all: set<Name>)
    requires Visits(names, all)
    ensures |names| == |all|
    decreases |names|
  {
    if names == [] {
      assert all == {};
    } else {
      var last := names[|names| - 1];
      var shorter := names[..|names| - 1];
      forall name ensures name in shorter <==> name in all - {last} {
        if name in shorter {
          assert name in names;
        }
        if name in all && name != last {
          var i :| 0 <= i < |names| && names[i] == name;
          assert shorter[i] == name;
        }
      }
      VisitsCount(shorter, all - {last});
    }
  }

  lemma AnyIsOnly(names: seq<Name>, all: set<Name>)
    requires Visits(names, all) && |names| == 1
    ensures all == {names[0]} && Any(all) == names[0]
  {
    assert names[0] in all;
    forall name | name in all ensures name == names[0] {
      assert name in names;
    }
  }

  class Task {
    const hubs: Hubs
    var cluster: Cluster
    var hubId: HubId

    constructor (hubs: Hubs, cluster: Cluster)
      ensures this.hubs == hubs && this.cluster == cluster
    {
      this.hubs, this.cluster, this.hubId := hubs, cluster, "";
    }

    method SetDefaults(env: Env)
      modifies this
      ensures cluster == WithDefaults(old(cluster), env.kinds)
      ensures hubId == old(hubId)
    {
      if cluster.status.None? {
        cluster := cluster.(status := Some(Status(StateUnspecified, "", [])));
      }
      if cluster.status.value.state == StateUnspecified {
        cluster := cluster.(status := Some(cluster.status.value.(state := Progressing)));
      }
      ghost var before := cluster;
      for i := 0 to |env.kinds|
        invariant cluster.status.Some? && hubId == old(hubId)
        invariant cluster == before.(status := Some(before.status.value.(
          conditions := WithConditions(before.status.value.conditions, env.kinds[..i]))))
      {
        assert env.kinds[..i + 1][..i] == env.kinds[..i];
        if env.kinds[i] != UNSPECIFIED {
          SetConditionDefaults(env.kinds[i]);
        }
      }
      assert env.kinds[..|env.kinds|] == env.kinds;
    }

    method SetConditionDefaults(kind: Kind)
      requires cluster.status.Some? && kind != UNSPECIFIED
      modifies this
      ensures hubId == old(hubId)
      ensures cluster == old(cluster).(status := Some(old(cluster).status.value.(
        conditions := WithCondition(old(cluster).status.value.conditions, kind))))
    {
      var conditions := cluster.status.value.conditions;
      var present := false;
      for i := 0 to |conditions|
        invariant !present
        invariant forall j :: 0 <= j < i ==> conditions[j].kind != kind
      {
        if conditions[i].kind == kind {
          present := true;
          break;
        }
      }
      assert present <==> Has(conditions, kind);
      if !present {
        conditions := conditions + [Condition(kind, false)];
        cluster := cluster.(status := Some(cluster.status.value.(conditions := conditions)));
      }
    }

    method SelectHub(env: Env) returns (r: Option<Error>)
      modifies this
      ensures cluster == old(cluster)
      ensures r == (if Target(cluster, env).Err? then Some(Target(cluster, env).error)
                    else if !env.connects || Target(cluster, env).value !in hubs.fleet then Some(HubUnavailable)
                    else None)
      ensures r.None? ==> hubId == Target(cluster, env).value
    {
      hubId := StatusOf(cluster).hub;
      if hubId == "" {
        if env.hubs.None? {
          return Some(HubsUnavailable);
        }
        if |env.hubs.value| == 0 {
          return Some(NoHubs);
        }
        hubId := env.hubs.value[env.pick % |env.hubs.value|];
      }
      if !env.connects || hubId !in hubs.fleet {
        return Some(HubUnavailable);
      }
      return None;
    }

    method GetHub(env: Env) returns (r: Option<Error>)
      modifies this
      ensures cluster == old(cluster) && hubId == StatusOf(cluster).hub
      ensures r == if !env.connects || hubId !in hubs.fleet then Some(HubUnavailable) else None
    {
      hubId := StatusOf(cluster).hub;
      r := if !env.connects || hubId !in hubs.fleet then Some(HubUnavailable) else None;
    }

    method GetKubeObject(env: Env) returns (r: Result<Option<Name>, Error>)
      requires hubId in hubs.fleet
      ensures r == Found(hubs.fleet[hubId], cluster.id, env)
    {
      var items :- hubs.List(hubId, cluster.id, env);
      ghost var all := Labelled(hubs.fleet[hubId], cluster.id);
      VisitsCount(items, all);
      var count := |items|;
      if count > 1 {
        return Err(TooMany(count));
      }
      if count > 0 {
        AnyIsOnly(items, all);
        return Ok(Some(items[0]));
      }
      return Ok(None);
    }

    method PrepareNodeRequests(env: Env) returns (r: seq<NodeRequest>)
      ensures r == Requests(cluster.spec.nodeSets, env.keys)
    {
      r := [];
      for i := 0 to |env.keys|
        invariant |r| == i
        invariant forall j :: 0 <= j < i ==> r[j] == Request(cluster.spec.nodeSets, env.keys[j])
      {
        r := r + [Request(cluster.spec.nodeSets, env.keys[i])];
      }
    }

    method UpdateCluster(env: Env) returns (r: Option<Error>)
      modifies this, hubs
      ensures Outcome(hubs.fleet, cluster, r) == Update(old(hubs.fleet), old(cluster), env)
    {
      SetDefaults(env);
      if cluster.status.value.state != Progressing {
        return None;
      }
      r := SelectHub(env);
      if r.Some? {
        return;
      }
      cluster := WithHub(cluster, hubId);
      var found := GetKubeObject(env);
      if found.Err? {
        return Some(found.error);
      }
      var nodeRequests := PrepareNodeRequests(env);
      if !env.converts {
        return Some(ParametersInvalid);
      }
      var spec := OrderSpec(cluster.spec.template, cluster.spec.parameters, nodeRequests);
      ghost var fleet := hubs.fleet;
      hubs.Interfere(hubId, env.gone);
      var present := hubs.fleet[hubId];
      if found.value.None? {
        r := hubs.Write(hubId, Create(present, Order(cluster.id, spec), env));
      } else {
        r := hubs.Write(hubId, Patch(present, found.value.value, spec, env));
      }
      assert hubs.fleet.Keys == fleet.Keys;
    }

    method DeleteOrder(env: Env) returns (r: Option<Error>)
      modifies this, hubs
      ensures Outcome(hubs.fleet, cluster, r) == Remove(old(hubs.fleet), old(cluster), env)
    {
      hubId := StatusOf(cluster).hub;
      if hubId == "" {
        return None;
      }
      r := GetHub(env);
      if r.Some? {
        return;
      }
      var found := GetKubeObject(env);
      if found.Err? {
        return Some(found.error);
      }
      if found.value.None? {
        return None;
      }
      hubs.Interfere(hubId, env.gone);
      r := hubs.Write(hubId, Delete(hubs.fleet[hubId], found.value.value, env));
    }
  }

  method Reconcile(hubs: Hubs, snapshot: Cluster, env: Env) returns (cluster: Cluster, error: Option<Error>)
    modifies hubs
    ensures Outcome(hubs.fleet, cluster, error) == Run(old(hubs.fleet), snapshot, env)
  {
    var task := new Task(hubs, snapshot);
    if snapshot.deleting {
      error := task.DeleteOrder(env);
    } else {
      error := task.UpdateCluster(env);
    }
    cluster := task.cluster;
    if error.None? && !env.saves {
      error := Some(SaveFailed);
    }
  }

  // Histories

  datatype Step =
    | Reconciled(snapshot: Cluster, env: Env)
    | Removed(hub: HubId, gone: set<Name>)
    | Joined(hub: HubId)

  ghost function Next(fleet: Fleet, step: Step): (r: Fleet) {
    match step
    case Reconciled(snapshot, env) => Run(fleet, snapshot, env).fleet
    case Removed(hub, gone) => if hub in fleet then fleet[hub := fleet[hub] - gone] else fleet
    case Joined(hub) => if hub in fleet then fleet else fleet[hub := map[]]
  }

  ghost function Replay(fleet: Fleet, steps: seq<Step>): (r: Fleet)
    decreases |steps|
  {
    if steps == [] then fleet else Next(Replay(fleet, steps[..|steps| - 1]), steps[|steps| - 1])
  }

  /** The reconcile loop: one object after the other, whatever becomes of each; an error is only logged. */
  method Start(hubs: Hubs, queue: seq<(Cluster, Env)>)
    modifies hubs
    ensures hubs.fleet == Replay(old(hubs.fleet), seq(|queue|, i requires 0 <= i < |queue| =>
      Reconciled(queue[i].0, queue[i].1)))
  {
    ghost var steps := seq(|queue|, i requires 0 <= i < |queue| => Reconciled(queue[i].0, queue[i].1));
    for i := 0 to |queue|
      invariant hubs.fleet == Replay(old(hubs.fleet), steps[..i])
    {
      assert steps[..i + 1][..i] == steps[..i];
      var _, _ := Reconcile(hubs, queue[i].0, queue[i].1);
    }
    assert steps[..|queue|] == steps;
  }
}
