/** The breadth-first closure `ancestors` (crates/aep-domain/src/artifact.rs). */
module Ancestry {
  import opened ArtifactGraphs

  /** `at` says where each identifier is listed in `order`. */
  ghost predicate Indexed(order: seq<ArtifactId>, at: map<ArtifactId, nat>) {
    && (forall i :: 0 <= i < |order| ==> order[i] in at && at[order[i]] == i)
    && (forall x :: x in at ==> at[x] < |order| && order[at[x]] == x)
  }

  /** `parents` says from which earlier position each entry after the first was discovered. */
  ghost predicate Discovered(g: Graph, relation: RelationKind, order: seq<ArtifactId>, parents: seq<nat>) {
    && |order| == |parents| && order != [] && parents[0] == 0
    && Nondecreasing(parents)
    && (forall i {:trigger parents[i]} :: 0 < i < |order| ==> parents[i] < i && Edge(g, relation, order[parents[i]], order[i]))
  }

  /** The first `head` entries have been expanded, their targets listed no later than that. */
  ghost predicate Expanded(g: Graph, relation: RelationKind, order: seq<ArtifactId>,
                           at: map<ArtifactId, nat>, parents: seq<nat>, head: nat)
    requires |order| == |parents| && head <= |order| && Indexed(order, at)
  {
    forall i, to :: 0 <= i < head && Edge(g, relation, order[i], to) ==> to in at && parents[at[to]] <= i
  }

  ghost predicate Explored(g: Graph, relation: RelationKind, from: ArtifactId, order: seq<ArtifactId>,
                           at: map<ArtifactId, nat>, parents: seq<nat>, head: nat) {
    && Indexed(order, at)
    && Discovered(g, relation, order, parents)
    && order[0] == from && head <= |order|
    && Expanded(g, relation, order, at, parents, head)
  }

  /** Nothing listed was discovered later than the entry now being expanded. */
  ghost predicate UpTo(parents: seq<nat>, head: nat) {
    forall i :: 0 <= i < |parents| ==> parents[i] <= head
  }

  /** The discovered part of a walk, as identifiers: the start and then everything found. */
  ghost function Order(from: ArtifactId, found: seq<Artifact>): (order: seq<ArtifactId>)
    ensures |order| == |found| + 1 && order[0] == from
    ensures forall i :: 0 <= i < |found| ==> order[i + 1] == found[i].id
  {
    [from] + seq(|found|, i requires 0 <= i < |found| => found[i].id)
  }

  ghost predicate HeldBy(g: Graph, found: seq<Artifact>) {
    forall a :: a in found ==> a.id in g && g[a.id] == a
  }

  lemma AppendDiscovered(g: Graph, relation: RelationKind, order: seq<ArtifactId>, parents: seq<nat>,
                         head: nat, to: ArtifactId)
    requires Discovered(g, relation, order, parents) && UpTo(parents, head)
    requires head < |order| && Edge(g, relation, order[head], to)
    ensures Discovered(g, relation, order + [to], parents + [head])
    ensures UpTo(parents + [head], head)
  {
  }

  lemma AppendIndexed(order: seq<ArtifactId>, at: map<ArtifactId, nat>, to: ArtifactId)
    requires Indexed(order, at) && to !in at
    ensures Indexed(order + [to], at[to := |order|])
  {
  }

  lemma AppendExpanded(g: Graph, relation: RelationKind, order: seq<ArtifactId>, at: map<ArtifactId, nat>,
                       parents: seq<nat>, head: nat, to: ArtifactId)
    requires |order| == |parents| && head < |order| && to !in at
    requires Indexed(order, at) && Indexed(order + [to], at[to := |order|]) && Expanded(g, relation, order, at, parents, head)
    ensures Expanded(g, relation, order + [to], at[to := |order|], parents + [head], head)
  {
    hide Edge;
  }

  lemma AppendFresh(g: Graph, relation: RelationKind, from: ArtifactId, order: seq<ArtifactId>,
                    at: map<ArtifactId, nat>, parents: seq<nat>, head: nat, to: ArtifactId)
    requires Explored(g, relation, from, order, at, parents, head) && UpTo(parents, head)
    requires head < |order| && to !in at && Edge(g, relation, order[head], to)
    ensures Explored(g, relation, from, order + [to], at[to := |order|], parents + [head], head)
    ensures UpTo(parents + [head], head)
  {
    hide Edge, UpTo, Indexed, Expanded, Nondecreasing;
    AppendDiscovered(g, relation, order, parents, head, to);
    AppendIndexed(order, at, to);
    AppendExpanded(g, relation, order, at, parents, head, to);
  }

  lemma TargetIsSeen(g: Graph, relation: RelationKind, from: ArtifactId, at: map<ArtifactId, nat>, related: seq<Artifact>, to: ArtifactId)
    requires WellKeyed(g) && related == Related(g, from, relation) && forall k :: 0 <= k < |related| ==> related[k].id in at
    requires Edge(g, relation, from, to)
    ensures to in at
  {
    hide Related, Names;
    RelatedIsEdges(g, from, relation);
    assert g[to] in related && g[to].id == to;
  }

  lemma HeadDone(g: Graph, relation: RelationKind, from: ArtifactId, order: seq<ArtifactId>,
                 at: map<ArtifactId, nat>, parents: seq<nat>, head: nat, related: seq<Artifact>)
    requires WellKeyed(g)
    requires Explored(g, relation, from, order, at, parents, head) && UpTo(parents, head) && head < |order|
    requires related == Related(g, order[head], relation)
    requires forall k :: 0 <= k < |related| ==> related[k].id in at
    ensures Explored(g, relation, from, order, at, parents, head + 1) && UpTo(parents, head + 1)
  {
    hide Edge, Related, Nondecreasing;
    forall to | Edge(g, relation, order[head], to) ensures to in at && parents[at[to]] <= head {
      TargetIsSeen(g, relation, order[head], at, related, to);
    }
  }

  /** The walk between two steps: `found` is what was discovered after the start. */
  ghost predicate Walking(g: Graph, relation: RelationKind, id: ArtifactId, found: seq<Artifact>,
                          at: map<ArtifactId, nat>, parents: seq<nat>, head: nat) {
    && Explored(g, relation, id, Order(id, found), at, parents, head) && UpTo(parents, head)
    && HeldBy(g, found) && at.Keys <= g.Keys + {id}
  }

  lemma Discover(g: Graph, relation: RelationKind, id: ArtifactId, found: seq<Artifact>,
                 at: map<ArtifactId, nat>, parents: seq<nat>, head: nat, artifact: Artifact)
    requires WellKeyed(g)
    requires Walking(g, relation, id, found, at, parents, head) && head <= |found|
    requires artifact in Related(g, Order(id, found)[head], relation) && artifact.id !in at
    ensures Walking(g, relation, id, found + [artifact], at[artifact.id := |found| + 1], parents + [head], head)
    ensures Order(id, found + [artifact]) == Order(id, found) + [artifact.id]
  {
    hide Explored, UpTo, Related;
    assert artifact.id in g && g[artifact.id] == artifact && Edge(g, relation, Order(id, found)[head], artifact.id) by {
      RelatedIsEdges(g, Order(id, found)[head], relation);
    }
    hide Edge;
    AppendFresh(g, relation, id, Order(id, found), at, parents, head, artifact.id);
    assert Order(id, found + [artifact]) == Order(id, found) + [artifact.id];
  }

  /** The body of the outer loop: lists and queues every unseen target of the entry just taken. */
  method Expand(g: Graph, id: ArtifactId, relation: RelationKind, current: ArtifactId,
                queue0: seq<ArtifactId>, seen0: set<ArtifactId>, found0: seq<Artifact>,
                ghost at0: map<ArtifactId, nat>, ghost parents0: seq<nat>, ghost head: nat)
    returns (queue: seq<ArtifactId>, seen: set<ArtifactId>, found: seq<Artifact>,
             ghost at: map<ArtifactId, nat>, ghost parents: seq<nat>)
    requires WellKeyed(g)
    requires Walking(g, relation, id, found0, at0, parents0, head) && seen0 == at0.Keys
    requires head <= |found0| && Order(id, found0)[head] == current
    requires queue0 == Order(id, found0)[head + 1..]
    ensures Walking(g, relation, id, found, at, parents, head + 1) && seen == at.Keys
    ensures head <= |found| && queue == Order(id, found)[head + 1..]
    ensures if seen == seen0 then queue == queue0 else seen0 < seen
  {
    hide Explored, HeldBy, UpTo, WellKeyed;
    queue, seen, found, at, parents := queue0, seen0, found0, at0, parents0;
    var related := Related(g, current, relation);
    var i := 0;
    while i < |related|
      invariant 0 <= i <= |related|
      invariant Walking(g, relation, id, found, at, parents, head) && seen == at.Keys
      invariant head <= |found| && Order(id, found)[head] == current
      invariant queue == Order(id, found)[head + 1..]
      invariant if seen == seen0 then queue == queue0 else seen0 < seen
      invariant forall k :: 0 <= k < i ==> related[k].id in seen
    {
      var artifact := related[i];
      if artifact.id !in seen {
        Discover(g, relation, id, found, at, parents, head, artifact);
        at, parents := at[artifact.id := |found| + 1], parents + [head];
        seen := seen + {artifact.id};
        found := found + [artifact];
        queue := queue + [artifact.id];
      }
      i := i + 1;
    }
    HeadDone(g, relation, id, Order(id, found), at, parents, head, related);
  }

  /** Everything reachable over `relation` from `id` except `id` itself, each once, nearest first;
      it ends on cyclic graphs too. */
  method Ancestors(g: Graph, id: ArtifactId, relation: RelationKind) returns (found: seq<Artifact>)
    requires WellKeyed(g)
    ensures HeldBy(g, found)
    ensures Distinct(Order(id, found))
    ensures forall to :: to in g && g[to] in found <==> to != id && Reachable(g, relation, id, to)
    ensures NearestFirst(g, relation, id, found)
  {
    var seen: set<ArtifactId> := {id};
    var queue: seq<ArtifactId> := [id];
    found := [];
    ghost var at: map<ArtifactId, nat>, parents: seq<nat>, head: nat := map[id := 0], [0], 0;
    while queue != []
      invariant Walking(g, relation, id, found, at, parents, head) && seen == at.Keys
      invariant head <= |found| + 1 && queue == Order(id, found)[head..]
      decreases g.Keys + {id} - seen, |queue|
    {
      var current := queue[0];
      queue := queue[1..];
      queue, seen, found, at, parents := Expand(g, id, relation, current, queue, seen, found, at, parents, head);
      head := head + 1;
    }
    Finish(g, id, relation, found, at, parents);
  }

  // ------------------------------------------------------------------ from discovery to distance

  /** How many discoveries lie between the start and position `i`. */
  ghost function Depth(parents: seq<nat>, i: nat): nat
    requires i < |parents| && forall k :: 0 < k < |parents| ==> parents[k] < k
  {
    if i == 0 then 0 else 1 + Depth(parents, parents[i])
  }

  lemma {:induction false} DepthGrows(parents: seq<nat>, i: nat, j: nat)
    requires i <= j < |parents| && Nondecreasing(parents)
    requires forall k :: 0 < k < |parents| ==> parents[k] < k
    ensures Depth(parents, i) <= Depth(parents, j)
    decreases j
  {
    if i > 0 { DepthGrows(parents, parents[i], parents[j]); }
  }

  /** What the invariant says of the discovery order alone. */
  lemma ExploredShape(g: Graph, relation: RelationKind, from: ArtifactId, order: seq<ArtifactId>,
                      at: map<ArtifactId, nat>, parents: seq<nat>)
    requires Explored(g, relation, from, order, at, parents, |order|)
    ensures |order| == |parents| > 0 && order[0] == from && Indexed(order, at) && Nondecreasing(parents)
    ensures forall k :: 0 < k < |parents| ==> parents[k] < k
  {
    hide Edge, Indexed, Expanded, Nondecreasing;
  }

  lemma DiscoveredBy(g: Graph, relation: RelationKind, from: ArtifactId, order: seq<ArtifactId>,
                     at: map<ArtifactId, nat>, parents: seq<nat>, i: nat)
    requires Explored(g, relation, from, order, at, parents, |order|) && 0 < i < |order|
    ensures |order| == |parents| && parents[i] < i && Edge(g, relation, order[parents[i]], order[i])
  {
    hide Edge, Indexed, Expanded, Nondecreasing;
  }

  lemma TargetIsListed(g: Graph, relation: RelationKind, from: ArtifactId, order: seq<ArtifactId>,
                       at: map<ArtifactId, nat>, parents: seq<nat>, i: nat, to: ArtifactId)
    requires Explored(g, relation, from, order, at, parents, |order|) && i < |order| && Edge(g, relation, order[i], to)
    ensures to in at && at[to] < |parents| && parents[at[to]] <= i
  {
    hide Edge, Nondecreasing;
  }

  lemma ListedAt(order: seq<ArtifactId>, at: map<ArtifactId, nat>, x: ArtifactId)
    requires Indexed(order, at) && x in at
    ensures at[x] < |order| && order[at[x]] == x
  {
  }

  lemma IndexOf(order: seq<ArtifactId>, at: map<ArtifactId, nat>, i: nat)
    requires Indexed(order, at) && i < |order|
    ensures order[i] in at && at[order[i]] == i
  {
  }

  lemma {:induction false} DepthIsReached(g: Graph, relation: RelationKind, from: ArtifactId, order: seq<ArtifactId>,
                                          at: map<ArtifactId, nat>, parents: seq<nat>, i: nat)
    requires Explored(g, relation, from, order, at, parents, |order|) && i < |order|
    requires i < |parents| && forall k :: 0 < k < |parents| ==> parents[k] < k
    ensures Reaches(g, relation, from, order[i], Depth(parents, i))
    decreases i
  {
    hide Explored, Edge;
    ExploredShape(g, relation, from, order, at, parents);
    if i > 0 {
      DepthIsReached(g, relation, from, order, at, parents, parents[i]);
      DiscoveredBy(g, relation, from, order, at, parents, i);
    }
  }

  /** Whatever is reachable in `steps` was listed at a depth of at most `steps`. */
  lemma {:induction false} ReachedIsListed(g: Graph, relation: RelationKind, from: ArtifactId, order: seq<ArtifactId>,
                                           at: map<ArtifactId, nat>, parents: seq<nat>, to: ArtifactId, steps: nat)
    requires Explored(g, relation, from, order, at, parents, |order|)
    requires |order| == |parents| && forall k :: 0 < k < |parents| ==> parents[k] < k
    requires Reaches(g, relation, from, to, steps)
    ensures to in at && at[to] < |parents| && Depth(parents, at[to]) <= steps
    decreases steps
  {
    hide Explored, Edge, Indexed, Nondecreasing;
    ExploredShape(g, relation, from, order, at, parents);
    if steps == 0 {
      IndexOf(order, at, 0);
    } else {
      var mid :| Reaches(g, relation, from, mid, steps - 1) && Edge(g, relation, mid, to);
      ReachedIsListed(g, relation, from, order, at, parents, mid, steps - 1);
      ListedAt(order, at, mid);
      TargetIsListed(g, relation, from, order, at, parents, at[mid], to);
      if at[to] > 0 { DepthGrows(parents, parents[at[to]], at[mid]); }
    }
  }

  lemma DepthIsDistance(g: Graph, relation: RelationKind, from: ArtifactId, order: seq<ArtifactId>,
                        at: map<ArtifactId, nat>, parents: seq<nat>, i: nat)
    requires Explored(g, relation, from, order, at, parents, |order|) && i < |order|
    requires |order| == |parents| && forall k :: 0 < k < |parents| ==> parents[k] < k
    ensures IsDistance(g, relation, from, order[i], Depth(parents, i))
  {
    hide Explored, Reaches, Indexed, Nondecreasing, Depth;
    ExploredShape(g, relation, from, order, at, parents);
    IndexOf(order, at, i);
    DepthIsReached(g, relation, from, order, at, parents, i);
    forall fewer: nat | fewer < Depth(parents, i) ensures !Reaches(g, relation, from, order[i], fewer) {
      if Reaches(g, relation, from, order[i], fewer) {
        ReachedIsListed(g, relation, from, order, at, parents, order[i], fewer);
        assert false;
      }
    }
  }

  lemma FoundIsReached(g: Graph, id: ArtifactId, relation: RelationKind, found: seq<Artifact>,
                       at: map<ArtifactId, nat>, parents: seq<nat>, i: nat)
    requires Explored(g, relation, id, Order(id, found), at, parents, |found| + 1) && i < |found|
    ensures found[i].id != id && Reachable(g, relation, id, found[i].id)
  {
    hide Explored, Reaches, Indexed, Nondecreasing, Order;
    var order := Order(id, found);
    ExploredShape(g, relation, id, order, at, parents);
    DepthIsReached(g, relation, id, order, at, parents, i + 1);
    IndexOf(order, at, 0);
    IndexOf(order, at, i + 1);
    assert order[i + 1] == found[i].id;
  }

  lemma ReachedIsFound(g: Graph, id: ArtifactId, relation: RelationKind, found: seq<Artifact>,
                       at: map<ArtifactId, nat>, parents: seq<nat>, to: ArtifactId) returns (i: nat)
    requires Explored(g, relation, id, Order(id, found), at, parents, |found| + 1)
    requires to != id && Reachable(g, relation, id, to)
    ensures i < |found| && found[i].id == to
  {
    hide Explored, Reaches, Indexed, Nondecreasing, Order;
    var order := Order(id, found);
    ExploredShape(g, relation, id, order, at, parents);
    var steps: nat :| steps > 0 && Reaches(g, relation, id, to, steps);
    ReachedIsListed(g, relation, id, order, at, parents, to, steps);
    ListedAt(order, at, to);
    i := at[to] - 1;
    assert order[i + 1] == found[i].id;
  }

  lemma FoundIsReachable(g: Graph, id: ArtifactId, relation: RelationKind, found: seq<Artifact>,
                         at: map<ArtifactId, nat>, parents: seq<nat>, to: ArtifactId)
    requires WellKeyed(g) && HeldBy(g, found)
    requires Explored(g, relation, id, Order(id, found), at, parents, |found| + 1)
    ensures to in g && g[to] in found <==> to != id && Reachable(g, relation, id, to)
  {
    hide Explored, Reachable, Order;
    if to in g && g[to] in found {
      var i :| 0 <= i < |found| && found[i] == g[to];
      FoundIsReached(g, id, relation, found, at, parents, i);
    }
    if to != id && Reachable(g, relation, id, to) {
      var i := ReachedIsFound(g, id, relation, found, at, parents, to);
      assert found[i] in found;
    }
  }

  lemma Finish(g: Graph, id: ArtifactId, relation: RelationKind, found: seq<Artifact>,
               at: map<ArtifactId, nat>, parents: seq<nat>)
    requires WellKeyed(g) && HeldBy(g, found)
    requires Explored(g, relation, id, Order(id, found), at, parents, |found| + 1)
    ensures Distinct(Order(id, found))
    ensures forall to :: to in g && g[to] in found <==> to != id && Reachable(g, relation, id, to)
    ensures NearestFirst(g, relation, id, found)
  {
    hide Explored, Reachable, Order, NearestFirst, HeldBy, WellKeyed, Nondecreasing;
    forall to ensures to in g && g[to] in found <==> to != id && Reachable(g, relation, id, to) {
      FoundIsReachable(g, id, relation, found, at, parents, to);
    }
    ExploredShape(g, relation, id, Order(id, found), at, parents);
    FoundNearestFirst(g, id, relation, found, at, parents);
  }

  /** The depths of everything after the start. */
  ghost function Depths(parents: seq<nat>): (depths: seq<nat>)
    requires parents != [] && forall k :: 0 < k < |parents| ==> parents[k] < k
    ensures |depths| == |parents| - 1
    ensures forall i :: 0 <= i < |depths| ==> depths[i] == Depth(parents, i + 1)
  {
    seq(|parents| - 1, i requires 0 <= i < |parents| - 1 => Depth(parents, i + 1))
  }

  lemma DepthsGrow(parents: seq<nat>)
    requires parents != [] && Nondecreasing(parents)
    requires forall k :: 0 < k < |parents| ==> parents[k] < k
    ensures Nondecreasing(Depths(parents))
  {
    hide Depth;
    forall i, j | 0 <= i <= j < |parents| - 1 ensures Depths(parents)[i] <= Depths(parents)[j] {
      DepthGrows(parents, i + 1, j + 1);
    }
  }

  lemma NearestFirstBy(g: Graph, relation: RelationKind, from: ArtifactId, found: seq<Artifact>, depths: seq<nat>)
    requires |depths| == |found| && Nondecreasing(depths)
    requires forall i :: 0 <= i < |found| ==> IsDistance(g, relation, from, found[i].id, depths[i])
    ensures NearestFirst(g, relation, from, found)
  {
    hide IsDistance, Nondecreasing;
  }

  lemma FoundNearestFirst(g: Graph, id: ArtifactId, relation: RelationKind, found: seq<Artifact>,
                          at: map<ArtifactId, nat>, parents: seq<nat>)
    requires Explored(g, relation, id, Order(id, found), at, parents, |found| + 1)
    ensures NearestFirst(g, relation, id, found)
  {
    hide Explored, IsDistance, Indexed, Nondecreasing, NearestFirst, Order, Depth;
    var order := Order(id, found);
    ExploredShape(g, relation, id, order, at, parents);
    DepthsGrow(parents);
    forall i | 0 <= i < |found| ensures IsDistance(g, relation, id, found[i].id, Depths(parents)[i]) {
      DepthIsDistance(g, relation, id, order, at, parents, i + 1);
      assert order[i + 1] == found[i].id;
    }
    NearestFirstBy(g, relation, id, found, Depths(parents));
  }
}
