/** The in-memory curriculum objects of meritBadge.py: a merit badge owns a forest of
    requirements, and every slot of a requirement list may hold `None` (an entry the
    converter rejected). This module also defines the measures the other modules state
    their properties against: the number of nodes and the pre-order listing with depths. */
module Curriculum {

  import opened Wrappers
  import opened JsonData

  /** A database id as handed back by an insert (a uuid or serial, kept opaque). */
  type Id = string

  /** A requirement object. `idnf` and `desc` hold whatever JSON value the file had:
      the converter copies them without checking their type. */
  datatype Requirement = Requirement(
    idnf: Json,
    desc: Json,
    children: Forest,
    parentRqmtId: Option<Id>,
    badgeId: Option<Id>,
    rqmtId: Option<Id>)

  /** A list of requirement slots, in file order. */
  type Forest = seq<Option<Requirement>>

  /** A merit badge object; `requirements` is the converted top-level forest. */
  datatype MeritBadge = MeritBadge(
    badgeId: Option<Id>,
    name: Json,
    desc: Json,
    eagle: Json,
    dpmtName: Json,
    requirements: Forest)

  /** `Requirement.__init__`: the three database ids start unset. */
  function NewRequirement(idnf: Json, desc: Json, children: Forest): Requirement
  {
    Requirement(idnf, desc, children, None, None, None)
  }

  /** `MeritBadge.__init__`: the badge id starts unset. */
  function NewMeritBadge(name: Json, desc: Json, eagle: Json, dpmtName: Json, requirements: Forest): MeritBadge
  {
    MeritBadge(None, name, desc, eagle, dpmtName, requirements)
  }

  /** Number of requirement objects in a forest (`None` slots hold none). */
  function ForestSize(f: Forest): nat
  {
    if |f| == 0 then 0 else NodeSize(f[0]) + ForestSize(f[1..])
  }

  function NodeSize(o: Option<Requirement>): nat
  {
    match o
    case None => 0
    case Some(r) => 1 + ForestSize(r.children)
  }

  /** One node of a pre-order walk together with its nesting depth. */
  datatype Entry = Entry(depth: nat, node: Requirement)

  /** Pre-order listing: a node, then its whole subtree one level deeper, then its later
      siblings. `None` slots contribute nothing. */
  function Flatten(f: Forest, depth: nat): seq<Entry>
  {
    if |f| == 0 then [] else FlattenNode(f[0], depth) + Flatten(f[1..], depth)
  }

  function FlattenNode(o: Option<Requirement>, depth: nat): seq<Entry>
  {
    match o
    case None => []
    case Some(r) => [Entry(depth, r)] + Flatten(r.children, depth + 1)
  }

  /** The pre-order listing holds every node exactly once. */
  lemma {:induction false} FlattenSize(f: Forest, depth: nat)
    ensures |Flatten(f, depth)| == ForestSize(f)
    decreases f, 1
  {
    if |f| > 0 {
      FlattenNodeSize(f[0], depth);
      FlattenSize(f[1..], depth);
    }
  }

  lemma {:induction false} FlattenNodeSize(o: Option<Requirement>, depth: nat)
    ensures |FlattenNode(o, depth)| == NodeSize(o)
    decreases o, 0
  {
    match o
    case None =>
    case Some(r) => FlattenSize(r.children, depth + 1);
  }

  /** The pre-order listing of a forest whose first slot holds a node: that node, its
      subtree one level deeper, then the later siblings. */
  lemma FlattenFirst(f: Forest, depth: nat)
    requires |f| > 0 && f[0].Some?
    ensures Flatten(f, depth) ==
              [Entry(depth, f[0].value)] + Flatten(f[0].value.children, depth + 1) + Flatten(f[1..], depth)
  {
  }

  /** A forest's size splits into its first slot and the rest. */
  lemma ForestSizeSplit(f: Forest)
    requires |f| > 0
    ensures ForestSize(f) == NodeSize(f[0]) + ForestSize(f[1..])
    ensures f[0].Some? ==> ForestSize(f[0].value.children) < ForestSize(f)
  {
  }

  /** A forest is complete exactly when its first slot and the rest are. */
  lemma CompleteSplit(f: Forest)
    requires |f| > 0
    ensures Complete(f) <==> CompleteSlot(f[0]) && Complete(f[1..])
  {
    if CompleteSlot(f[0]) && Complete(f[1..]) {
      forall i | 0 <= i < |f| ensures CompleteSlot(f[i]) {
        if i > 0 { assert f[i] == f[1..][i - 1]; }
      }
    }
  }

  /** No slot anywhere in the forest is `None`. */
  predicate Complete(f: Forest)
  {
    forall i :: 0 <= i < |f| ==> CompleteSlot(f[i])
  }

  predicate CompleteSlot(o: Option<Requirement>)
  {
    o.Some? && Complete(o.value.children)
  }

  /** Every node still has the values `__init__` gave its three ids. */
  predicate Fresh(f: Forest)
  {
    forall i :: 0 <= i < |f| ==> FreshSlot(f[i])
  }

  predicate FreshSlot(o: Option<Requirement>)
  {
    o.Some? ==> FreshNode(o.value)
  }

  predicate FreshNode(r: Requirement)
  {
    r.parentRqmtId.None? && r.badgeId.None? && r.rqmtId.None? && Fresh(r.children)
  }

  /** A badge as the converter builds it: no id yet, and every requirement fresh. */
  predicate FreshBadge(b: MeritBadge)
  {
    b.badgeId.None? && Fresh(b.requirements)
  }
}
