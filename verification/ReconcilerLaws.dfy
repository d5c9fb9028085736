/**
 What every sequence of reconciliations keeps: at most one order per cluster and hub, whatever the snapshots say and
 whichever calls fail. A cluster that names its hub keeps it; one that does not may leave orders behind.
 */
module ReconcilerLaws {
  import opened Wrappers
  import opened Clusters
  import opened Reconciler

  // At most one order per cluster on each hub

  ghost predicate Single(orders: Orders) {
    forall m, n :: m in orders && n in orders && orders[m].uuid == orders[n].uuid ==> m == n
  }

  ghost predicate AtMostOne(fleet: Fleet) {
    forall hub :: hub in fleet ==> Single(fleet[hub])
  }

  lemma FoundMeans(orders: Orders, id: string, env: Env)
    requires Found(orders, id, env).Ok?
    ensures Found(orders, id, env).value.None? ==> Labelled(orders, id) == {}
    ensures Found(orders, id, env).value.Some? ==> Labelled(orders, id) == {Found(orders, id, env).value.value}
  {
    var names := Labelled(orders, id);
    if names != {} {
      SingletonByCount(names, Any(names));
    }
  }

  lemma SingletonByCount(names: set<Name>, name: Name)
    requires name in names && |names| <= 1
    ensures names == {name}
  {
    assert |names - {name}| == 0;
  }

  lemma SingleCount(orders: Orders, id: string)
    requires Single(orders)
    ensures |Labelled(orders, id)| <= 1
  {
    var names := Labelled(orders, id);
    if names != {} {
      var name :| name in names;
      assert names == {name};
    }
  }

  lemma CreateKeeps(orders: Orders, order: Order, env: Env)
    requires Single(orders) && Labelled(orders, order.uuid) == {}
    ensures Single(Create(orders, order, env).0)
  {
    var after := Create(orders, order, env).0;
    forall m, n | m in after && n in after && after[m].uuid == after[n].uuid ensures m == n {
      assert m in orders ==> m in orders && (orders[m].uuid == order.uuid ==> m in Labelled(orders, order.uuid));
      assert n in orders ==> n in orders && (orders[n].uuid == order.uuid ==> n in Labelled(orders, order.uuid));
    }
  }

  lemma PlaceKeeps(fleet: Fleet, cluster: Cluster, hub: HubId, env: Env)
    requires hub in fleet && AtMostOne(fleet)
    ensures AtMostOne(Place(fleet[hub], fleet, cluster, hub, env).fleet)
  {
    var found := Found(fleet[hub], cluster.id, env);
    if found.Ok? {
      FoundMeans(fleet[hub], cluster.id, env);
      var present := fleet[hub] - env.gone;
      if found.value.None? {
        NoneRemain(fleet[hub], env.gone, cluster.id);
        CreateKeeps(present, Order(cluster.id, Wanted(cluster.spec, env.keys)), env);
      }
    }
  }

  lemma NoneRemain(orders: Orders, gone: set<Name>, id: string)
    requires Labelled(orders, id) == {}
    ensures Labelled(orders - gone, id) == {}
  {
    forall name | name in orders - gone ensures (orders - gone)[name].uuid != id {
      assert name !in Labelled(orders, id);
    }
  }

  lemma RunKeeps(fleet: Fleet, snapshot: Cluster, env: Env)
    requires AtMostOne(fleet)
    ensures AtMostOne(Run(fleet, snapshot, env).fleet)
  {
    if !snapshot.deleting {
      var cluster := WithDefaults(snapshot, env.kinds);
      var target := Target(cluster, env);
      if cluster.status.value.state == Progressing && target.Ok? && env.connects && target.value in fleet {
        PlaceKeeps(fleet, WithHub(cluster, target.value), target.value, env);
      }
    }
  }

  /** Every history keeps at most one order per cluster on each hub. */
  lemma {:induction false} HistoryKeepsAtMostOne(fleet: Fleet, steps: seq<Step>)
    requires AtMostOne(fleet)
    ensures AtMostOne(Replay(fleet, steps))
    decreases |steps|
  {
    if steps != [] {
      var before := steps[..|steps| - 1];
      HistoryKeepsAtMostOne(fleet, before);
      NextKeeps(Replay(fleet, before), steps[|steps| - 1]);
    }
  }

  lemma NextKeeps(fleet: Fleet, step: Step)
    requires AtMostOne(fleet)
    ensures AtMostOne(Next(fleet, step))
  {
    if step.Reconciled? {
      RunKeeps(fleet, step.snapshot, step.env);
    }
  }

  /** So no reconciliation of any history ever finds too many orders. */
  lemma NeverTooMany(fleet: Fleet, steps: seq<Step>, snapshot: Cluster, env: Env, count: nat)
    requires AtMostOne(fleet)
    ensures Run(Replay(fleet, steps), snapshot, env).error != Some(TooMany(count))
  {
    HistoryKeepsAtMostOne(fleet, steps);
    var now := Replay(fleet, steps);
    forall hub | hub in now ensures |Labelled(now[hub], snapshot.id)| <= 1 {
      SingleCount(now[hub], snapshot.id);
    }
  }

  // Frame

  /** The hub a run may change. */
  ghost function Touched(snapshot: Cluster, env: Env): (r: Option<HubId>) {
    if StatusOf(snapshot).hub != "" then Some(StatusOf(snapshot).hub)
    else if snapshot.deleting || Target(snapshot, env).Err? then None
    else Some(Target(snapshot, env).value)
  }

  /** The orders of other clusters stay as they are, except for those that other actors remove. */
  ghost predicate OthersKept(before: Orders, after: Orders, id: string, gone: set<Name>) {
    && (forall name :: name in before && before[name].uuid != id && name !in gone ==>
          name in after && after[name] == before[name])
    && (forall name :: name in after && after[name].uuid != id ==> name in before && after[name] == before[name])
  }

  lemma WritesKeepOthers(orders: Orders, cluster: Cluster, spec: OrderSpec, env: Env)
    requires Found(orders, cluster.id, env).Ok?
    ensures var found := Found(orders, cluster.id, env).value;
            var present := orders - env.gone;
            && (found.None? ==>
                  OthersKept(orders, Create(present, Order(cluster.id, spec), env).0, cluster.id, env.gone))
            && (found.Some? ==>
                  && OthersKept(orders, Patch(present, found.value, spec, env).0, cluster.id, env.gone)
                  && OthersKept(orders, Delete(present, found.value, env).0, cluster.id, env.gone))
  {
    FoundMeans(orders, cluster.id, env);
    var found := Found(orders, cluster.id, env).value;
    if found.Some? {
      assert found.value in Labelled(orders, cluster.id);
    }
  }

  lemma UpdateFrame(fleet: Fleet, snapshot: Cluster, env: Env, hub: HubId)
    requires hub in fleet
    ensures Update(fleet, snapshot, env).fleet.Keys == fleet.Keys
    ensures Target(snapshot, env) != Ok(hub) ==> Update(fleet, snapshot, env).fleet[hub] == fleet[hub]
    ensures OthersKept(fleet[hub], Update(fleet, snapshot, env).fleet[hub], snapshot.id, env.gone)
  {
    var cluster := WithDefaults(snapshot, env.kinds);
    var target := Target(cluster, env);
    assert target == Target(snapshot, env);
    if target == Ok(hub) && Found(fleet[hub], cluster.id, env).Ok? {
      WritesKeepOthers(fleet[hub], cluster, Wanted(cluster.spec, env.keys), env);
    }
  }

  /** A run leaves the other hubs alone, and on its own hub the orders of the other clusters. */
  lemma RunFrame(fleet: Fleet, snapshot: Cluster, env: Env, hub: HubId)
    requires hub in fleet
    ensures Run(fleet, snapshot, env).fleet.Keys == fleet.Keys
    ensures Some(hub) != Touched(snapshot, env) ==> Run(fleet, snapshot, env).fleet[hub] == fleet[hub]
    ensures OthersKept(fleet[hub], Run(fleet, snapshot, env).fleet[hub], snapshot.id, env.gone)
  {
    if snapshot.deleting {
      if hub == StatusOf(snapshot).hub && Found(fleet[hub], snapshot.id, env).Ok? {
        WritesKeepOthers(fleet[hub], snapshot, Wanted(snapshot.spec, env.keys), env);
      }
    } else {
      UpdateFrame(fleet, snapshot, env, hub);
    }
  }

  /** A snapshot that names a hub keeps it, and its run changes that hub only. */
  lemma NamedHubIsKept(fleet: Fleet, snapshot: Cluster, env: Env)
    requires StatusOf(snapshot).hub != ""
    ensures StatusOf(Run(fleet, snapshot, env).cluster).hub == StatusOf(snapshot).hub
    ensures forall hub :: hub in fleet && hub != StatusOf(snapshot).hub ==>
              hub in Run(fleet, snapshot, env).fleet && Run(fleet, snapshot, env).fleet[hub] == fleet[hub]
  {
    forall hub | hub in fleet && hub != StatusOf(snapshot).hub
      ensures hub in Run(fleet, snapshot, env).fleet && Run(fleet, snapshot, env).fleet[hub] == fleet[hub]
    {
      RunFrame(fleet, snapshot, env, hub);
    }
  }

  // At most one hub per cluster

  ghost predicate Holds(fleet: Fleet, id: string, hub: HubId) {
    hub in fleet && Labelled(fleet[hub], id) != {}
  }

  /** The orders of the cluster are all on one hub. */
  ghost predicate OnlyOn(fleet: Fleet, id: string, hub: HubId) {
    forall other :: Holds(fleet, id, other) ==> other == hub
  }

  ghost predicate OnOneHub(fleet: Fleet, id: string) {
    forall h, k :: Holds(fleet, id, h) && Holds(fleet, id, k) ==> h == k
  }

  /** The run reaches the creation of an order on the hub, and the creation takes effect. */
  ghost predicate Creates(fleet: Fleet, snapshot: Cluster, env: Env, hub: HubId) {
    && !snapshot.deleting && StatusOf(snapshot).state in {StateUnspecified, Progressing}
    && Target(snapshot, env) == Ok(hub) && env.connects && hub in fleet
    && env.lists && Labelled(fleet[hub], snapshot.id) == {} && env.converts
    && !env.write.Refused? && env.name !in fleet[hub] - env.gone
  }

  lemma HoldsAfter(fleet: Fleet, snapshot: Cluster, env: Env, hub: HubId)
    ensures Creates(fleet, snapshot, env, hub) ==> Holds(Run(fleet, snapshot, env).fleet, snapshot.id, hub)
    ensures Holds(Run(fleet, snapshot, env).fleet, snapshot.id, hub) ==>
              Holds(fleet, snapshot.id, hub) || Creates(fleet, snapshot, env, hub)
  {
    var after := Run(fleet, snapshot, env).fleet;
    var cluster := WithDefaults(snapshot, env.kinds);
    assert Target(cluster, env) == Target(snapshot, env);
    if Creates(fleet, snapshot, env, hub) {
      assert env.name in Labelled(after[hub], snapshot.id);
    }
    if hub in fleet && !Holds(fleet, snapshot.id, hub) {
      NoneRemain(fleet[hub], env.gone, snapshot.id);
    }
  }

  /**
   The loop has to be sequential: of two updates of a cluster that both look at the hub before either writes, and that
   both go on to create an order, the second leaves two orders there.
   */
  lemma OverlappingRunsDuplicate(fleet: Fleet, a: Cluster, b: Cluster, first: Env, second: Env, hub: HubId)
    requires a.id == b.id && Creates(fleet, a, first, hub) && Creates(fleet, b, second, hub)
    requires first.name != second.name && first.name !in second.gone
    ensures var middle := UpdateSeeing(fleet, fleet, a, first).fleet;
      !AtMostOne(UpdateSeeing(fleet, middle, b, second).fleet)
  {
    CreatesSeeing(fleet, fleet, a, first, hub);
    var middle := UpdateSeeing(fleet, fleet, a, first).fleet;
    assert second.name !in middle[hub] - second.gone;
    CreatesSeeing(fleet, middle, b, second, hub);
    var after := UpdateSeeing(fleet, middle, b, second).fleet[hub];
    assert first.name in after && second.name in after && after[first.name].uuid == after[second.name].uuid;
  }

  /** What an update does that saw no order and creates one in what the hub is by then. */
  lemma CreatesSeeing(seen: Fleet, fleet: Fleet, snapshot: Cluster, env: Env, hub: HubId)
    requires Creates(seen, snapshot, env, hub) && hub in fleet && env.name !in fleet[hub] - env.gone
    ensures var order := Order(snapshot.id, Wanted(snapshot.spec, env.keys));
      UpdateSeeing(seen, fleet, snapshot, env).fleet == fleet[hub := (fleet[hub] - env.gone)[env.name := order]]
  {
    var cluster := WithDefaults(snapshot, env.kinds);
    assert Target(cluster, env) == Target(snapshot, env);
    assert Found(seen[hub], snapshot.id, env) == Ok(None);
  }

  lemma HoldsElsewhere(fleet: Fleet, snapshot: Cluster, env: Env, hub: HubId)
    requires Some(hub) != Touched(snapshot, env)
    ensures Holds(Run(fleet, snapshot, env).fleet, snapshot.id, hub) <==> Holds(fleet, snapshot.id, hub)
  {
    if hub in fleet {
      RunFrame(fleet, snapshot, env, hub);
    }
  }

  /** A run spreads a cluster over two hubs exactly when it creates an order while another hub holds one. */
  lemma SplitsIff(fleet: Fleet, snapshot: Cluster, env: Env)
    requires OnOneHub(fleet, snapshot.id)
    ensures OnOneHub(Run(fleet, snapshot, env).fleet, snapshot.id) <==>
            !exists hub, other :: hub != other && Creates(fleet, snapshot, env, hub) && Holds(fleet, snapshot.id, other)
  {
    var after := Run(fleet, snapshot, env).fleet;
    forall hub {
      HoldsAfter(fleet, snapshot, env, hub);
    }
    forall hub, other | hub != other && Creates(fleet, snapshot, env, hub) && Holds(fleet, snapshot.id, other)
      ensures !OnOneHub(after, snapshot.id)
    {
      HoldsElsewhere(fleet, snapshot, env, other);
    }
  }

  /** The reconciliations of a cluster all start from a snapshot that names the hub. */
  ghost predicate NamesHub(step: Step, id: string, hub: HubId) {
    step.Reconciled? && step.snapshot.id == id && !step.snapshot.deleting ==> StatusOf(step.snapshot).hub == hub
  }

  lemma NextKeepsHub(fleet: Fleet, step: Step, id: string, hub: HubId)
    requires hub != "" && OnlyOn(fleet, id, hub) && NamesHub(step, id, hub)
    ensures OnlyOn(Next(fleet, step), id, hub)
  {
    forall other | Holds(Next(fleet, step), id, other) ensures other == hub {
      if step.Reconciled? {
        if step.snapshot.id == id {
          HoldsAfter(fleet, step.snapshot, step.env, other);
        } else {
          OthersStayAway(fleet, step.snapshot, step.env, id, other);
        }
      } else {
        OnlyRunsCreate(fleet, step, id, other);
      }
    }
  }

  lemma OnlyRunsCreate(fleet: Fleet, step: Step, id: string, hub: HubId)
    requires !step.Reconciled? && Holds(Next(fleet, step), id, hub)
    ensures Holds(fleet, id, hub)
  {
    if step.Removed? && hub == step.hub && !Holds(fleet, id, hub) {
      NoneRemain(fleet[hub], step.gone, id);
    }
  }

  lemma OthersStayAway(fleet: Fleet, snapshot: Cluster, env: Env, id: string, hub: HubId)
    requires snapshot.id != id && Holds(Run(fleet, snapshot, env).fleet, id, hub)
    ensures Holds(fleet, id, hub)
  {
    var after := Run(fleet, snapshot, env).fleet;
    if hub !in fleet {
      UpdateKeys(fleet, snapshot, env);
    } else {
      RunFrame(fleet, snapshot, env, hub);
      var name :| name in Labelled(after[hub], id);
      assert name in Labelled(fleet[hub], id);
    }
  }

  lemma UpdateKeys(fleet: Fleet, snapshot: Cluster, env: Env)
    ensures Run(fleet, snapshot, env).fleet.Keys == fleet.Keys
  {
  }

  /** While every snapshot of a cluster names its hub, it has at most one order in the whole fleet. */
  lemma {:induction false} NamedHistoryKeepsOneOrder(fleet: Fleet, steps: seq<Step>, id: string, hub: HubId)
    requires hub != "" && AtMostOne(fleet) && OnlyOn(fleet, id, hub)
    requires forall i :: 0 <= i < |steps| ==> NamesHub(steps[i], id, hub)
    ensures AtMostOne(Replay(fleet, steps)) && OnlyOn(Replay(fleet, steps), id, hub)
    decreases |steps|
  {
    if steps != [] {
      var before := steps[..|steps| - 1];
      NamedHistoryKeepsOneOrder(fleet, before, id, hub);
      NextKeeps(Replay(fleet, before), steps[|steps| - 1]);
      NextKeepsHub(Replay(fleet, before), steps[|steps| - 1], id, hub);
    }
  }

  // What one run achieves

  /** A successful run of a progressing cluster leaves exactly one order on its hub, with the wanted content. */
  lemma RunEstablishes(fleet: Fleet, snapshot: Cluster, env: Env)
    requires !snapshot.deleting && StatusOf(snapshot).state in {StateUnspecified, Progressing}
    requires Run(fleet, snapshot, env).error.None?
    ensures Established(Run(fleet, snapshot, env), env)
  {
    var cluster := WithDefaults(snapshot, env.kinds);
    var hub := Target(cluster, env).value;
    var o := Run(fleet, snapshot, env);
    var found := Found(fleet[hub], cluster.id, env).value;
    var spec := Wanted(cluster.spec, env.keys);
    FoundMeans(fleet[hub], cluster.id, env);
    if found.None? {
      NoneRemain(fleet[hub], env.gone, cluster.id);
      CreateEstablishes(fleet[hub] - env.gone, cluster.id, spec, env);
    } else {
      PatchEstablishes(fleet[hub], found.value, cluster.id, spec, env);
    }
  }

  ghost predicate Lone(orders: Orders, id: string, spec: OrderSpec) {
    exists name :: Labelled(orders, id) == {name} && name in orders && orders[name].spec == spec
  }

  ghost predicate Established(o: Outcome, env: Env) {
    && o.cluster.status.Some? && o.cluster.status.value.hub in o.fleet
    && Lone(o.fleet[o.cluster.status.value.hub], o.cluster.id, Wanted(o.cluster.spec, env.keys))
  }

  /** The order is the only one of the cluster on the hub. */
  ghost predicate IsOnlyOrder(orders: Orders, id: string, name: Name) {
    name in orders && forall n :: n in orders ==> (orders[n].uuid == id <==> n == name)
  }

  /** The order asks for what the cluster says: its template, its parameters and one request for each node set. */
  ghost predicate AsksFor(order: OrderSpec, spec: Spec) {
    && order.templateId == spec.template && order.parameters == spec.parameters
    && |order.nodeRequests| == |spec.nodeSets|
    && exists keys: seq<string> ::
         && |keys| == |order.nodeRequests|
         && (forall i, j :: 0 <= i < j < |keys| ==> keys[i] != keys[j])
         && (forall key :: key in spec.nodeSets <==> key in keys)
         && forall i :: 0 <= i < |keys| ==>
              && order.nodeRequests[i].resourceClass == spec.nodeSets[keys[i]].hostClass
              && order.nodeRequests[i].numberOfNodes == spec.nodeSets[keys[i]].size
  }

  /** After a successful run of a progressing cluster the only order on its hub asks for what the cluster says. */
  lemma OrderAsksForCluster(fleet: Fleet, snapshot: Cluster, env: Env)
    requires !snapshot.deleting && StatusOf(snapshot).state in {StateUnspecified, Progressing}
    requires Fits(snapshot, env) && Run(fleet, snapshot, env).error.None?
    ensures var o := Run(fleet, snapshot, env);
      && o.cluster.status.Some? && o.cluster.status.value.hub in o.fleet
      && var (hub, orders) := (o.cluster.status.value.hub, o.fleet[o.cluster.status.value.hub]);
        && (if snapshot.status.Some? && snapshot.status.value.hub != "" then hub == snapshot.status.value.hub
            else env.hubs.Some? && hub in env.hubs.value)
        && exists name :: IsOnlyOrder(orders, snapshot.id, name) && AsksFor(orders[name].spec, snapshot.spec)
  {
    RunEstablishes(fleet, snapshot, env);
    var o := Run(fleet, snapshot, env);
    var orders := o.fleet[o.cluster.status.value.hub];
    var name :| Labelled(orders, snapshot.id) == {name} && name in orders
                && orders[name].spec == Wanted(snapshot.spec, env.keys);
    assert forall n :: n in orders ==> (orders[n].uuid == snapshot.id <==> n in Labelled(orders, snapshot.id));
    assert IsOnlyOrder(orders, snapshot.id, name);
    WantedAsksFor(snapshot.spec, env.keys);
  }

  lemma WantedAsksFor(spec: Spec, keys: seq<string>)
    requires Visits(keys, spec.nodeSets.Keys)
    ensures AsksFor(Wanted(spec, keys), spec)
  {
    VisitsCount(keys, spec.nodeSets.Keys);
    assert |spec.nodeSets.Keys| == |spec.nodeSets|;
    var order := Wanted(spec, keys);
    assert forall i :: 0 <= i < |keys| ==> keys[i] in spec.nodeSets;
    assert |keys| == |order.nodeRequests|;
  }

  /** A run that ends without an error made no call that failed. */
  lemma SuccessHidesNoFailure(fleet: Fleet, snapshot: Cluster, env: Env)
    requires Run(fleet, snapshot, env).error.None?
    ensures env.saves
    ensures !snapshot.deleting && StatusOf(snapshot).state in {StateUnspecified, Progressing} ==>
              env.connects && env.lists && env.converts && env.write == Done
    ensures snapshot.deleting && StatusOf(snapshot).hub != "" ==>
              env.connects && env.lists && StatusOf(snapshot).hub in fleet
  {
  }

  /** A cluster that is neither new nor progressing is only given its defaults. */
  lemma SettledClusterIsLeftAlone(fleet: Fleet, snapshot: Cluster, env: Env)
    requires !snapshot.deleting && StatusOf(snapshot).state in {Ready, StateFailed}
    ensures Run(fleet, snapshot, env).fleet == fleet
    ensures Run(fleet, snapshot, env).error == if env.saves then None else Some(SaveFailed)
    ensures Run(fleet, snapshot, env).cluster == WithDefaults(snapshot, env.kinds)
  {
  }

  /** A cluster without a hub can be given any of the listed hubs, and no other. */
  lemma AnyListedHubCanBeChosen(fleet: Fleet, snapshot: Cluster, env: Env, hub: HubId)
    requires !snapshot.deleting && StatusOf(snapshot).state in {StateUnspecified, Progressing}
    requires StatusOf(snapshot).hub == "" && hub != ""
    requires env.hubs.Some? && env.connects && forall h :: h in env.hubs.value ==> h in fleet
    ensures hub in env.hubs.value
       <==> exists pick: nat :: StatusOf(Run(fleet, snapshot, env.(pick := pick)).cluster).hub == hub
  {
    var hubs := env.hubs.value;
    if hub in hubs {
      var i :| 0 <= i < |hubs| && hubs[i] == hub;
      ChosenHub(fleet, snapshot, env.(pick := i));
    }
    forall pick: nat | StatusOf(Run(fleet, snapshot, env.(pick := pick)).cluster).hub == hub ensures hub in hubs {
      if hubs != [] {
        ChosenHub(fleet, snapshot, env.(pick := pick));
      }
    }
  }

  lemma ChosenHub(fleet: Fleet, snapshot: Cluster, env: Env)
    requires !snapshot.deleting && StatusOf(snapshot).state in {StateUnspecified, Progressing}
    requires StatusOf(snapshot).hub == ""
    requires env.hubs.Some? && env.hubs.value != [] && env.connects && forall h :: h in env.hubs.value ==> h in fleet
    ensures var hubs := env.hubs.value;
      && StatusOf(Run(fleet, snapshot, env).cluster).hub in hubs
      && (env.pick < |hubs| ==> StatusOf(Run(fleet, snapshot, env).cluster).hub == hubs[env.pick])
  {
    var hubs := env.hubs.value;
    assert 0 <= env.pick % |hubs| < |hubs|;
    assert env.pick < |hubs| ==> env.pick % |hubs| == env.pick;
  }

  /** A run changes nothing of the cluster but its status: there the hub, a missing state and missing conditions. */
  lemma RunKeepsCluster(fleet: Fleet, snapshot: Cluster, env: Env)
    ensures var r := Run(fleet, snapshot, env).cluster;
      && r.id == snapshot.id && r.deleting == snapshot.deleting && r.spec == snapshot.spec
      && (snapshot.deleting ==> r == snapshot)
      && (!snapshot.deleting ==> r.status.Some?)
      && (!snapshot.deleting && snapshot.status.Some? ==>
            && (r.status.value.state == if snapshot.status.value.state == StateUnspecified then Progressing
                                        else snapshot.status.value.state)
            && snapshot.status.value.conditions <= r.status.value.conditions
            && forall i :: |snapshot.status.value.conditions| <= i < |r.status.value.conditions| ==>
                 !r.status.value.conditions[i].status)
      && (!snapshot.deleting && snapshot.status.None? ==> r.status.value.state == Progressing)
  {
    ConditionsAreFalse(StatusOf(snapshot).conditions, env.kinds);
    if !snapshot.deleting {
      UpdatedCluster(fleet, snapshot, env);
    }
  }

  lemma UpdatedCluster(fleet: Fleet, snapshot: Cluster, env: Env)
    requires !snapshot.deleting
    ensures var (r, cluster) := (Run(fleet, snapshot, env).cluster, WithDefaults(snapshot, env.kinds));
      r.status.Some? && r == WithHub(cluster, r.status.value.hub)
  {
  }

  lemma {:induction false} ConditionsAreFalse(conditions: seq<Condition>, kinds: seq<Kind>)
    ensures conditions <= WithConditions(conditions, kinds)
    ensures forall i :: |conditions| <= i < |WithConditions(conditions, kinds)| ==>
              !WithConditions(conditions, kinds)[i].status
    decreases |kinds|
  {
    if kinds != [] {
      ConditionsAreFalse(conditions, kinds[..|kinds| - 1]);
    }
  }

  lemma CreateEstablishes(orders: Orders, id: string, spec: OrderSpec, env: Env)
    requires Labelled(orders, id) == {} && Create(orders, Order(id, spec), env).1
    ensures Lone(Create(orders, Order(id, spec), env).0, id, spec)
  {
    var after := Create(orders, Order(id, spec), env).0;
    forall name | name in after && name != env.name ensures after[name].uuid != id {
      assert name !in Labelled(orders, id);
    }
    assert Labelled(after, id) == {env.name};
  }

  lemma PatchEstablishes(orders: Orders, name: Name, id: string, spec: OrderSpec, env: Env)
    requires Labelled(orders, id) == {name} && Patch(orders - env.gone, name, spec, env).1
    ensures Lone(Patch(orders - env.gone, name, spec, env).0, id, spec)
  {
    var after := Patch(orders - env.gone, name, spec, env).0;
    assert name in Labelled(orders, id);
    forall other | other in after && other != name ensures after[other].uuid != id {
      assert other !in Labelled(orders, id);
    }
    assert Labelled(after, id) == {name};
  }

  /** After a successful deletion no order is left exactly when the snapshot named the hub of all of them. */
  lemma DeletionIff(fleet: Fleet, snapshot: Cluster, env: Env)
    requires snapshot.deleting && Run(fleet, snapshot, env).error.None?
    ensures (forall hub :: !Holds(Run(fleet, snapshot, env).fleet, snapshot.id, hub)) <==>
            && OnlyOn(fleet, snapshot.id, StatusOf(snapshot).hub)
            && (Holds(fleet, snapshot.id, StatusOf(snapshot).hub) ==> StatusOf(snapshot).hub != "" && !env.lingers)
  {
    var after := Run(fleet, snapshot, env).fleet;
    var hub := StatusOf(snapshot).hub;
    forall other | other != hub ensures Holds(after, snapshot.id, other) <==> Holds(fleet, snapshot.id, other) {
      HoldsElsewhere(fleet, snapshot, env, other);
    }
    if hub != "" {
      DeletionOnHub(fleet, snapshot, env);
    }
  }

  lemma DeletionOnHub(fleet: Fleet, snapshot: Cluster, env: Env)
    requires snapshot.deleting && Run(fleet, snapshot, env).error.None? && StatusOf(snapshot).hub != ""
    ensures Holds(Run(fleet, snapshot, env).fleet, snapshot.id, StatusOf(snapshot).hub) <==>
            Holds(fleet, snapshot.id, StatusOf(snapshot).hub) && env.lingers
  {
    var hub := StatusOf(snapshot).hub;
    var after := Run(fleet, snapshot, env).fleet;
    FoundMeans(fleet[hub], snapshot.id, env);
    var found := Found(fleet[hub], snapshot.id, env).value;
    if found.Some? {
      assert found.value in Labelled(fleet[hub], snapshot.id);
      var present := fleet[hub] - env.gone;
      if env.lingers {
        assert found.value in Labelled(after[hub], snapshot.id);
      } else {
        forall name | name in after[hub] ensures after[hub][name].uuid != snapshot.id {
          assert name !in Labelled(fleet[hub], snapshot.id);
        }
      }
    }
  }

  // Defaults

  /** The defaults keep the conditions there are and add the missing types, each once, in the order of the visit. */
  lemma {:induction false} ConditionsCovered(conditions: seq<Condition>, kinds: seq<Kind>, kind: Kind)
    ensures conditions <= WithConditions(conditions, kinds)
    ensures Has(WithConditions(conditions, kinds), kind) <==> Has(conditions, kind) || (kind in kinds && kind != UNSPECIFIED)
    decreases |kinds|
  {
    if kinds != [] {
      var before := WithConditions(conditions, kinds[..|kinds| - 1]);
      var last := kinds[|kinds| - 1];
      ConditionsCovered(conditions, kinds[..|kinds| - 1], kind);
      WithConditionMeans(before, last, kind);
      assert kind in kinds <==> kind == last || kind in kinds[..|kinds| - 1];
    }
  }

  lemma WithConditionMeans(conditions: seq<Condition>, added: Kind, kind: Kind)
    ensures conditions <= WithCondition(conditions, added)
    ensures Has(WithCondition(conditions, added), kind) <==>
            Has(conditions, kind) || (kind == added && added != UNSPECIFIED)
    ensures Unique(WithCondition(conditions, added)) <==> Unique(conditions)
  {
    var after := WithCondition(conditions, added);
    if after != conditions {
      assert after[|conditions|].kind == added;
      assert forall i :: 0 <= i < |conditions| ==> after[i] == conditions[i];
      if Has(conditions, kind) {
        var i :| 0 <= i < |conditions| && conditions[i].kind == kind;
        assert after[i].kind == kind;
      }
    }
  }

  /** So the server, which refuses duplicated conditions, accepts the saved cluster whenever it accepts the snapshot. */
  lemma {:induction false} DefaultsKeepUnique(conditions: seq<Condition>, kinds: seq<Kind>)
    ensures Unique(WithConditions(conditions, kinds)) <==> Unique(conditions)
    decreases |kinds|
  {
    if kinds != [] {
      DefaultsKeepUnique(conditions, kinds[..|kinds| - 1]);
      WithConditionMeans(WithConditions(conditions, kinds[..|kinds| - 1]), kinds[|kinds| - 1], UNSPECIFIED);
    }
  }

  lemma {:induction false} NothingMissing(conditions: seq<Condition>, kinds: seq<Kind>)
    requires forall kind :: kind in kinds && kind != UNSPECIFIED ==> Has(conditions, kind)
    ensures WithConditions(conditions, kinds) == conditions
    decreases |kinds|
  {
    if kinds != [] {
      assert kinds[|kinds| - 1] in kinds;
      NothingMissing(conditions, kinds[..|kinds| - 1]);
    }
  }

  /** Setting the defaults again changes nothing, in whatever order the types are visited. */
  lemma DefaultsIdempotent(cluster: Cluster, first: seq<Kind>, second: seq<Kind>)
    requires Visits(first, KINDS) && Visits(second, KINDS)
    ensures WithDefaults(WithDefaults(cluster, first), second) == WithDefaults(cluster, first)
  {
    var conditions := WithConditions(StatusOf(cluster).conditions, first);
    forall kind | kind in second && kind != UNSPECIFIED ensures Has(conditions, kind) {
      assert kind in KINDS;
      ConditionsCovered(StatusOf(cluster).conditions, first, kind);
    }
    NothingMissing(conditions, second);
  }

  // Reconciling again

  /** No call fails, nobody interferes, and the node sets are visited in the same order. */
  ghost predicate Calm(env: Env, keys: seq<string>) {
    env.connects && env.lists && env.converts && env.gone == {} && env.write == Done && env.saves && env.keys == keys
  }

  /** A calm reconciliation of what a successful one saved changes nothing at all. */
  lemma ReconciledIsFixed(fleet: Fleet, snapshot: Cluster, env: Env, again: Env)
    requires !snapshot.deleting && Fits(snapshot, env) && Fits(snapshot, again)
    requires Run(fleet, snapshot, env).error.None? && Calm(again, env.keys)
    requires StatusOf(snapshot).state in {StateUnspecified, Progressing} ==>
               StatusOf(Run(fleet, snapshot, env).cluster).hub != ""
    ensures var o := Run(fleet, snapshot, env); Run(o.fleet, o.cluster, again) == o
  {
    var o := Run(fleet, snapshot, env);
    var cluster := WithDefaults(snapshot, env.kinds);
    DefaultsIdempotent(snapshot, env.kinds, again.kinds);
    if cluster.status.value.state == Progressing {
      RunEstablishes(fleet, snapshot, env);
      var hub := o.cluster.status.value.hub;
      assert WithDefaults(o.cluster, again.kinds) == o.cluster;
      PlaceIsFixed(o.fleet, o.cluster, hub, again);
    }
  }

  lemma PlaceIsFixed(fleet: Fleet, cluster: Cluster, hub: HubId, env: Env)
    requires hub in fleet && Calm(env, env.keys) && Lone(fleet[hub], cluster.id, Wanted(cluster.spec, env.keys))
    ensures Place(fleet[hub], fleet, cluster, hub, env) == Outcome(fleet, cluster, None)
  {
    var orders := fleet[hub];
    var name :| Labelled(orders, cluster.id) == {name} && name in orders
                && orders[name].spec == Wanted(cluster.spec, env.keys);
    assert name in Labelled(orders, cluster.id);
    assert Found(orders, cluster.id, env) == Ok(Some(name));
    assert orders - env.gone == orders;
    assert orders[name := Order(orders[name].uuid, Wanted(cluster.spec, env.keys))] == orders;
    assert fleet[hub := orders] == fleet;
  }

  // What is lost with a failed save

  const UNPLACED := Cluster("c", false, Spec("t", map[], map[]), None)
  const TWO_HUBS: Fleet := map["a" := map[], "b" := map[]]

  function Attempt(pick: nat, saves: bool): (env: Env) {
    Env([0, 1, 2, 3, 4], Some(["a", "b"]), pick, true, true, [], true, {}, "order-1", Done, false, saves)
  }

  lemma AttemptCreates(fleet: Fleet, pick: nat, saves: bool)
    requires pick < 2 && fleet.Keys == TWO_HUBS.Keys
    requires fleet[["a", "b"][pick]] == map[]
    ensures Creates(fleet, UNPLACED, Attempt(pick, saves), ["a", "b"][pick])
  {
    assert Labelled(fleet[["a", "b"][pick]], "c") == {};
  }

  lemma ReplayTwo(fleet: Fleet, first: Step, second: Step)
    ensures Replay(fleet, [first, second]) == Next(Next(fleet, first), second)
  {
    assert [first, second][..1] == [first] && [first][..0] == [];
    assert Replay(fleet, [first]) == Next(Replay(fleet, []), first);
  }

  /**
   The hub is saved after the order is created. When that save fails the next run may take another hub, so that two
   hubs hold an order of one cluster.
   */
  lemma FailedSaveSplits()
    ensures var steps := [Reconciled(UNPLACED, Attempt(0, false)), Reconciled(UNPLACED, Attempt(1, true))];
            !OnOneHub(Replay(TWO_HUBS, steps), UNPLACED.id)
  {
    var first, second := Attempt(0, false), Attempt(1, true);
    var steps := [Reconciled(UNPLACED, first), Reconciled(UNPLACED, second)];
    var middle := Run(TWO_HUBS, UNPLACED, first).fleet;
    ReplayTwo(TWO_HUBS, steps[0], steps[1]);
    AttemptCreates(TWO_HUBS, 0, false);
    HoldsAfter(TWO_HUBS, UNPLACED, first, "a");
    RunFrame(TWO_HUBS, UNPLACED, first, "b");
    AttemptCreates(middle, 1, true);
    HoldsAfter(middle, UNPLACED, second, "b");
    HoldsElsewhere(middle, UNPLACED, second, "a");
  }

  /** For the same reason the deletion of such a cluster can succeed and leave its order behind. */
  lemma FailedSaveOrphans()
    ensures var deleted := UNPLACED.(deleting := true);
            var fleet := Run(TWO_HUBS, UNPLACED, Attempt(0, false)).fleet;
            && Run(fleet, deleted, Attempt(0, true)).error.None?
            && Holds(Run(fleet, deleted, Attempt(0, true)).fleet, UNPLACED.id, "a")
  {
    AttemptCreates(TWO_HUBS, 0, false);
    HoldsAfter(TWO_HUBS, UNPLACED, Attempt(0, false), "a");
  }
}
