/**
 The cluster and template messages, as far as the reconciler and the cluster validation read them.
 */
module Clusters {
  import opened Wrappers

  datatype NodeSet = NodeSet(hostClass: string, size: int)

  /** A packed value: the URL of its type and its bytes. */
  datatype Packed = Packed(typeUrl: string, bytes: seq<bv8>)

  datatype Definition = Definition(name: string, required: bool, kind: string, default: Option<Packed>)

  datatype Template =
    Template(id: string, deleted: bool, nodeSets: map<string, NodeSet>, parameters: seq<Definition>)

  datatype State = StateUnspecified | Progressing | Ready | StateFailed

  /** The numbers of the condition types; zero is 'unspecified'. */
  type Kind = nat

  const UNSPECIFIED: Kind := 0
  const KINDS: set<Kind> := {0, 1, 2, 3, 4}

  datatype Condition = Condition(kind: Kind, status: bool)

  datatype Status = Status(state: State, hub: string, conditions: seq<Condition>)

  datatype Spec = Spec(template: string, parameters: map<string, Packed>, nodeSets: map<string, NodeSet>)

  datatype Cluster = Cluster(id: string, deleting: bool, spec: Spec, status: Option<Status>)

  /** No condition type occurs twice. */
  ghost predicate Unique(conditions: seq<Condition>) {
    forall i, j :: 0 <= i < j < |conditions| ==> conditions[i].kind != conditions[j].kind
  }

  ghost predicate Has(conditions: seq<Condition>, kind: Kind) {
    exists i :: 0 <= i < |conditions| && conditions[i].kind == kind
  }

  /** An order in which a range over a map visits its keys. */
  ghost predicate Visits<T(!new)>(order: seq<T>, keys: set<T>) {
    && (forall i, j :: 0 <= i < j < |order| ==> order[i] != order[j])
    && (forall k :: k in order <==> k in keys)
  }
}
