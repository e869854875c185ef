/** Artifacts, their edges, and what walks, cycles, orders and distances over those edges are
    (crates/aep-domain/src/artifact.rs). A graph is the identifier-keyed map the source keeps. */
module ArtifactGraphs {
  import opened Wrappers
  import opened ArtifactKinds

  datatype ArtifactId = ArtifactId(text: string)

  datatype ArtifactRef = ArtifactRef(id: ArtifactId, version: Option<string>)

  datatype RelationKind =
    | InformedBy | DerivedFrom | Decomposes | Specifies | Designs | Implements | Decides
    | Reviews | Verifies | Blocks | DependsOn | Supersedes | Delivers
  {
    function AsStr(): string {
      match this
      case InformedBy => "informed_by"
      case DerivedFrom => "derived_from"
      case Decomposes => "decomposes"
      case Specifies => "specifies"
      case Designs => "designs"
      case Implements => "implements"
      case Decides => "decides"
      case Reviews => "reviews"
      case Verifies => "verifies"
      case Blocks => "blocks"
      case DependsOn => "depends_on"
      case Supersedes => "supersedes"
      case Delivers => "delivers"
    }
  }

  /** The vocabulary of relations. */
  lemma RelationsAreWritten()
    ensures RelationKind.InformedBy.AsStr() == "informed_by"
    ensures RelationKind.DerivedFrom.AsStr() == "derived_from"
    ensures RelationKind.Decomposes.AsStr() == "decomposes"
    ensures RelationKind.Specifies.AsStr() == "specifies"
    ensures RelationKind.Designs.AsStr() == "designs"
    ensures RelationKind.Implements.AsStr() == "implements"
    ensures RelationKind.Decides.AsStr() == "decides"
    ensures RelationKind.Reviews.AsStr() == "reviews"
    ensures RelationKind.Verifies.AsStr() == "verifies"
    ensures RelationKind.Blocks.AsStr() == "blocks"
    ensures RelationKind.DependsOn.AsStr() == "depends_on"
    ensures RelationKind.Supersedes.AsStr() == "supersedes"
    ensures RelationKind.Delivers.AsStr() == "delivers"
  {
  }

  const ALL_RELATIONS: seq<RelationKind> := [
    InformedBy, DerivedFrom, Decomposes, Specifies, Designs, Implements, Decides,
    Reviews, Verifies, Blocks, DependsOn, Supersedes, Delivers]

  datatype ArtifactRelation = ArtifactRelation(kind: RelationKind, target: ArtifactRef)

  datatype Artifact = Artifact(
    id: ArtifactId,
    kind: ArtifactKind,
    status: ArtifactStatus,
    relations: seq<ArtifactRelation>,
    modelDigest: Option<string>)

  type Graph = map<ArtifactId, Artifact>

  /** Every artifact is filed under its own identifier. */
  ghost predicate WellKeyed(g: Graph) {
    forall id :: id in g ==> g[id].id == id
  }

  /** The targets `relation` names, in declaration order and with repeats. */
  function Targets(relations: seq<ArtifactRelation>, relation: RelationKind): seq<ArtifactRef> {
    if relations == [] then []
    else if relations[0].kind == relation then [relations[0].target] + Targets(relations[1..], relation)
    else Targets(relations[1..], relation)
  }

  /** The artifacts a list of targets resolves to; a dangling target resolves to nothing. */
  function Resolved(g: Graph, targets: seq<ArtifactRef>): seq<Artifact> {
    if targets == [] then []
    else if targets[0].id in g then [g[targets[0].id]] + Resolved(g, targets[1..])
    else Resolved(g, targets[1..])
  }

  /** Artifacts `id` points at with `relation`. */
  function Related(g: Graph, id: ArtifactId, relation: RelationKind): seq<Artifact> {
    if id in g then Resolved(g, Targets(g[id].relations, relation)) else []
  }

  /** Artifacts that point at `id` with `relation`. */
  function Inverse(g: Graph, id: ArtifactId, relation: RelationKind): set<Artifact> {
    set a | a in g.Values && exists t :: t in Targets(a.relations, relation) && t.id == id
  }

  /** Some declared relation of this kind names `to`, pinned or not. */
  ghost predicate Names(relations: seq<ArtifactRelation>, relation: RelationKind, to: ArtifactId) {
    relations != []
    && ((relations[0].kind == relation && relations[0].target.id == to) || Names(relations[1..], relation, to))
  }

  /** A declared edge whose both ends the graph holds. */
  ghost predicate Edge(g: Graph, relation: RelationKind, from: ArtifactId, to: ArtifactId) {
    from in g && to in g && Names(g[from].relations, relation, to)
  }

  lemma {:induction false} NamesIsDeclared(relations: seq<ArtifactRelation>, relation: RelationKind, to: ArtifactId)
    ensures Names(relations, relation, to) <==>
            exists i :: 0 <= i < |relations| && relations[i].kind == relation && relations[i].target.id == to
  {
    if relations != [] {
      NamesIsDeclared(relations[1..], relation, to);
      if i :| 0 <= i < |relations| && relations[i].kind == relation && relations[i].target.id == to {
        if i > 0 { assert relations[1..][i - 1] == relations[i]; }
      }
      if i :| 0 <= i < |relations[1..]| && relations[1..][i].kind == relation && relations[1..][i].target.id == to {
        assert relations[i + 1] == relations[1..][i];
      }
    }
  }

  /** An edge is a declared relation of that kind between two artifacts that are there. */
  lemma EdgeIsDeclared(g: Graph, relation: RelationKind, from: ArtifactId, to: ArtifactId)
    ensures Edge(g, relation, from, to) <==>
            && from in g && to in g
            && exists i :: 0 <= i < |g[from].relations| && g[from].relations[i].kind == relation && g[from].relations[i].target.id == to
  {
    if from in g { NamesIsDeclared(g[from].relations, relation, to); }
  }

  lemma {:induction false} ResolvedIsNamed(g: Graph, relations: seq<ArtifactRelation>, relation: RelationKind)
    requires WellKeyed(g)
    ensures forall a :: a in Resolved(g, Targets(relations, relation)) ==>
                a.id in g && g[a.id] == a && Names(relations, relation, a.id)
    ensures forall to :: to in g && Names(relations, relation, to) ==> g[to] in Resolved(g, Targets(relations, relation))
  {
    if relations != [] {
      ResolvedIsNamed(g, relations[1..], relation);
      if relations[0].kind == relation {
        assert Targets(relations, relation)[1..] == Targets(relations[1..], relation);
      }
    }
  }

  /** `related` returns exactly the artifacts at the far end of a resolved edge. */
  lemma RelatedIsEdges(g: Graph, from: ArtifactId, relation: RelationKind)
    requires WellKeyed(g)
    ensures forall a :: a in Related(g, from, relation) ==> a.id in g && g[a.id] == a && Edge(g, relation, from, a.id)
    ensures forall to :: Edge(g, relation, from, to) ==> g[to] in Related(g, from, relation)
  {
    if from in g { ResolvedIsNamed(g, g[from].relations, relation); }
  }

  lemma {:induction false} TargetsAreNamed(relations: seq<ArtifactRelation>, relation: RelationKind, to: ArtifactId)
    ensures (exists t :: t in Targets(relations, relation) && t.id == to) <==> Names(relations, relation, to)
  {
    if relations != [] {
      TargetsAreNamed(relations[1..], relation, to);
      if relations[0].kind == relation {
        var all, rest := Targets(relations, relation), Targets(relations[1..], relation);
        assert all == [relations[0].target] + rest;
        if relations[0].target.id == to { assert relations[0].target in all; }
        if t :| t in rest && t.id == to { assert t in all; }
      }
    }
  }

  /** `inverse` is the converse of `related` for a declared artifact; for an undeclared one it still
      lists whoever names it, which `related` cannot. */
  lemma InverseIsConverse(g: Graph, id: ArtifactId, relation: RelationKind, other: ArtifactId)
    requires WellKeyed(g) && other in g
    ensures id in g ==> (g[other] in Inverse(g, id, relation) <==> g[id] in Related(g, other, relation))
    ensures g[other] in Inverse(g, id, relation) <==> Names(g[other].relations, relation, id)
  {
    TargetsAreNamed(g[other].relations, relation, id);
    RelatedIsEdges(g, other, relation);
  }

  // ------------------------------------------------------------------ walks and cycles

  ghost predicate IsWalk(g: Graph, relation: RelationKind, walk: seq<ArtifactId>) {
    forall i :: 0 <= i < |walk| - 1 ==> Edge(g, relation, walk[i], walk[i + 1])
  }

  /** A closed walk of at least one edge, ending where it began. */
  ghost predicate IsClosedWalk(g: Graph, relation: RelationKind, walk: seq<ArtifactId>) {
    && |walk| >= 2
    && walk[0] == walk[|walk| - 1]
    && IsWalk(g, relation, walk)
  }

  ghost predicate Acyclic(g: Graph, relation: RelationKind) {
    forall walk: seq<ArtifactId> :: !IsClosedWalk(g, relation, walk)
  }

  ghost predicate Distinct<T>(items: seq<T>) {
    forall i, j :: 0 <= i < j < |items| ==> items[i] != items[j]
  }

  /** Every edge out of a listed artifact leads to one listed earlier. */
  ghost predicate TargetsFirst(g: Graph, relation: RelationKind, order: seq<ArtifactId>) {
    forall i, to :: 0 <= i < |order| && Edge(g, relation, order[i], to) ==> to in order[..i]
  }

  /** A topological order of the whole graph, targets before sources. */
  ghost predicate IsTopological(g: Graph, relation: RelationKind, order: seq<ArtifactId>) {
    && Distinct(order)
    && (forall id :: id in order <==> id in g)
    && TargetsFirst(g, relation, order)
  }

  ghost predicate HasOrder(g: Graph, relation: RelationKind) {
    exists order: seq<ArtifactId> :: IsTopological(g, relation, order)
  }

  /** An order in which edges only lead backwards leaves no room for a closed walk. */
  lemma TopologicalMeansAcyclic(g: Graph, relation: RelationKind, order: seq<ArtifactId>)
    requires IsTopological(g, relation, order)
    ensures Acyclic(g, relation)
  {
    forall walk: seq<ArtifactId> | IsClosedWalk(g, relation, walk) ensures false {
      assert Edge(g, relation, walk[0], walk[1]);
      var start: nat :| start < |order| && order[start] == walk[0];
      var end := WalkDescends(g, relation, order, walk, start, |walk| - 1);
    }
  }

  /** Following a walk for `steps` edges lands at an earlier position of the order. */
  lemma {:induction false} WalkDescends(g: Graph, relation: RelationKind, order: seq<ArtifactId>,
                                        walk: seq<ArtifactId>, start: nat, steps: nat)
    returns (position: nat)
    requires IsTopological(g, relation, order) && IsWalk(g, relation, walk)
    requires steps < |walk| && start < |order| && order[start] == walk[0]
    ensures position < |order| && order[position] == walk[steps]
    ensures position + steps <= start
  {
    if steps == 0 {
      position := start;
    } else {
      var before := WalkDescends(g, relation, order, walk, start, steps - 1);
      assert Edge(g, relation, walk[steps - 1], walk[steps - 1 + 1]);
      assert walk[steps] in order[..before];
      position :| position < before && order[position] == walk[steps];
    }
  }

  // ------------------------------------------------------------------ distances

  /** `to` can be reached from `from` over exactly `steps` resolved edges. */
  ghost predicate Reaches(g: Graph, relation: RelationKind, from: ArtifactId, to: ArtifactId, steps: nat)
    decreases steps
  {
    if steps == 0 then from == to
    else exists mid :: Reaches(g, relation, from, mid, steps - 1) && Edge(g, relation, mid, to)
  }

  ghost predicate IsDistance(g: Graph, relation: RelationKind, from: ArtifactId, to: ArtifactId, steps: nat) {
    && Reaches(g, relation, from, to, steps)
    && forall fewer: nat :: fewer < steps ==> !Reaches(g, relation, from, to, fewer)
  }

  ghost predicate Reachable(g: Graph, relation: RelationKind, from: ArtifactId, to: ArtifactId) {
    exists steps: nat :: steps > 0 && Reaches(g, relation, from, to, steps)
  }

  ghost predicate Nondecreasing(depths: seq<nat>) {
    forall i, j :: 0 <= i <= j < |depths| ==> depths[i] <= depths[j]
  }

  /** The listed artifacts come in non-decreasing distance from `from`. */
  ghost predicate NearestFirst(g: Graph, relation: RelationKind, from: ArtifactId, found: seq<Artifact>) {
    exists depths: seq<nat> ::
      && |depths| == |found| && Nondecreasing(depths)
      && forall i :: 0 <= i < |found| ==> IsDistance(g, relation, from, found[i].id, depths[i])
  }
}
