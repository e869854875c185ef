/** The depth-first cycle finder (`find_cycle` and its inner `walk`,
    crates/aep-domain/src/artifact.rs). `marks` and `stack` are the two variables the recursion
    updates in place. */
module CycleSearch {
  import opened Wrappers
  import opened ArtifactGraphs

  datatype Mark = Open | Done

  class Search {
    const g: Graph
    const relation: RelationKind
    var marks: map<ArtifactId, Mark>
    var stack: seq<ArtifactId>
    /** The identifiers marked `Done`, in the order they were: a topological order in the making. */
    ghost var finished: seq<ArtifactId>

    ghost predicate Valid()
      reads this
    {
      && WellKeyed(g)
      && marks.Keys <= g.Keys
      && (forall id :: id in stack <==> id in marks && marks[id] == Open)
      && (forall id :: id in finished <==> id in marks && marks[id] == Done)
      && Distinct(stack) && Distinct(finished)
      && IsWalk(g, relation, stack)
      && TargetsFirst(g, relation, finished)
    }

    constructor (g: Graph, relation: RelationKind)
      requires WellKeyed(g)
      ensures Valid() && this.g == g && this.relation == relation
      ensures marks == map[] && stack == [] && finished == []
    {
      this.g, this.relation := g, relation;
      marks, stack, finished := map[], [], [];
    }

    /** Where `id` sits on the stack, or none. */
    method Position(id: ArtifactId) returns (position: Option<nat>)
      ensures position.Some? ==> position.value < |stack| && stack[position.value] == id
      ensures position.None? ==> id !in stack
    {
      var i := 0;
      while i < |stack|
        invariant 0 <= i <= |stack|
        invariant id !in stack[..i]
      {
        if stack[i] == id { return Some(i); }
        i := i + 1;
      }
      return None;
    }

    /** Marks `id` open and pushes it. */
    method Enter(id: ArtifactId)
      requires Valid()
      requires id in g && id !in marks
      requires stack != [] ==> Edge(g, relation, stack[|stack| - 1], id)
      modifies this
      ensures Valid() && stack == old(stack) + [id] && finished == old(finished)
      ensures marks == old(marks)[id := Open]
    {
      marks := marks[id := Open];
      stack := stack + [id];
    }

    /** Pops `id`, every target of which is finished, and marks it done. */
    method Leave(id: ArtifactId, ghost next: seq<Artifact>)
      requires Valid()
      requires stack != [] && stack[|stack| - 1] == id
      requires id in g && next == Related(g, id, relation)
      requires forall k :: 0 <= k < |next| ==> next[k].id in finished
      modifies this
      ensures Valid() && stack == old(stack)[..|old(stack)| - 1] && finished == old(finished) + [id]
      ensures marks == old(marks)[id := Done]
    {
      Finish(next, id);
      assert id in stack;
      stack := stack[..|stack| - 1];
      marks := marks[id := Done];
      finished := finished + [id];
    }

    /** The cycle an edge back to an open artifact closes. The source falls back to position 0 when
        the artifact is not on the stack; that fallback is never taken. */
    method CloseCycle(target: ArtifactId) returns (cycle: seq<ArtifactId>)
      requires Valid()
      requires stack != [] && Edge(g, relation, stack[|stack| - 1], target)
      requires target in marks && marks[target] == Open
      ensures IsClosedWalk(g, relation, cycle) && Distinct(cycle[1..])
    {
      var position := Position(target);
      var start := if position.Some? then position.value else 0;
      assert position.Some?;
      ClosingTheStack(start, target);
      cycle := stack[start..] + [target];
    }

    /** Explores everything behind `id`. Either it finds a closed walk, or it leaves `id` done, the
        stack as it was and every edge out of a finished artifact leading to an earlier one. */
    method Walk(id: ArtifactId) returns (cycle: Option<seq<ArtifactId>>)
      requires Valid()
      requires id in g && id !in marks
      requires stack != [] ==> Edge(g, relation, stack[|stack| - 1], id)
      modifies this
      ensures cycle.Some? ==> IsClosedWalk(g, relation, cycle.value) && Distinct(cycle.value[1..])
      ensures cycle.None? ==> Valid() && stack == old(stack) && id in finished
      ensures cycle.None? ==> old(finished) <= finished
      ensures cycle.None? ==> old(marks).Keys <= marks.Keys
      decreases g.Keys - marks.Keys
    {
      hide Edge, Related, IsClosedWalk, Distinct;
      ghost var before := stack;
      Enter(id);
      var next := Related(g, id, relation);
      var i := 0;
      while i < |next|
        invariant 0 <= i <= |next|
        invariant Valid() && stack == before + [id]
        invariant old(finished) <= finished
        invariant old(marks).Keys <= marks.Keys && id in marks
        invariant forall k :: 0 <= k < i ==> next[k].id in finished
      {
        var target := next[i].id;
        assert target in g && Edge(g, relation, id, target) by {
          RelatedIsEdges(g, id, relation);
          assert next[i] in next;
        }
        if target in marks && marks[target] == Open {
          var closed := CloseCycle(target);
          return Some(closed);
        } else if target !in marks {
          var found := Walk(target);
          if found.Some? { return found; }
        }
        i := i + 1;
      }
      Leave(id, next);
      assert stack == before;
      return None;
    }

    /** The stack from an open entry on, closed by an edge back to it, is a cycle that repeats
        nothing else. */
    lemma ClosingTheStack(start: nat, target: ArtifactId)
      requires Valid() && start < |stack| && stack[start] == target
      requires Edge(g, relation, stack[|stack| - 1], target)
      ensures IsClosedWalk(g, relation, stack[start..] + [target])
      ensures Distinct((stack[start..] + [target])[1..])
    {
      var closed := stack[start..] + [target];
      forall i | 0 <= i < |closed| - 1 ensures Edge(g, relation, closed[i], closed[i + 1]) {
        assert closed[i] == stack[start + i];
        if i + 1 < |closed| - 1 { assert closed[i + 1] == stack[start + i + 1]; }
      }
      forall i, j | 0 <= i < j < |closed[1..]| ensures closed[1..][i] != closed[1..][j] {
        if j < |closed[1..]| - 1 {
          assert closed[1..][j] == stack[start + 1 + j];
        }
        assert closed[1..][i] == stack[start + 1 + i];
      }
    }

    /** Once every target is finished, the artifact itself can be listed next. */
    lemma Finish(next: seq<Artifact>, id: ArtifactId)
      requires WellKeyed(g) && id in g && next == Related(g, id, relation)
      requires TargetsFirst(g, relation, finished)
      requires forall k :: 0 <= k < |next| ==> next[k].id in finished
      ensures TargetsFirst(g, relation, finished + [id])
    {
      RelatedIsEdges(g, id, relation);
      var longer := finished + [id];
      forall i, to | 0 <= i < |longer| && Edge(g, relation, longer[i], to) ensures to in longer[..i] {
        if i < |finished| {
          assert longer[..i] == finished[..i];
        } else {
          assert longer[..i] == finished;
          assert g[to] in next && g[to].id == to;
        }
      }
    }
  }

  /** Finds one cycle among `relation` edges, if any: none exactly when the resolved edges admit a
      topological order, and whatever is returned is a real closed walk that repeats only its end. */
  method FindCycle(g: Graph, relation: RelationKind) returns (cycle: Option<seq<ArtifactId>>)
    requires WellKeyed(g)
    ensures cycle.Some? ==> IsClosedWalk(g, relation, cycle.value) && Distinct(cycle.value[1..])
    ensures cycle.None? ==> HasOrder(g, relation)
    ensures cycle.None? <==> Acyclic(g, relation)
  {
    var search := new Search(g, relation);
    var pending := g.Keys;
    while pending != {}
      invariant fresh(search) && search.Valid() && search.g == g && search.relation == relation
      invariant search.stack == []
      invariant pending <= g.Keys
      invariant forall id :: id in g.Keys - pending ==> id in search.marks
      decreases pending
    {
      var id :| id in pending;
      pending := pending - {id};
      if id !in search.marks {
        var found := search.Walk(id);
        if found.Some? {
          return found;
        }
      }
    }
    assert forall id :: id in g.Keys ==> id in search.marks;
    assert IsTopological(g, relation, search.finished);
    TopologicalMeansAcyclic(g, relation, search.finished);
    return None;
  }
}
