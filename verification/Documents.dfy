/** Moving a planning document through its lifecycle and adding edges to it
    (crates/aep-backend-markdown/src/document.rs:115-164). */
module Documents {
  import opened Wrappers
  import opened ArtifactKinds
  import opened ArtifactGraphs

  const U64_MAX: nat := 0xFFFF_FFFF_FFFF_FFFF

  /** What the two operations read and change of a document. */
  datatype State = State(kind: ArtifactKind, status: ArtifactStatus, relations: seq<ArtifactRelation>, revision: nat) {
    predicate Valid() { revision <= U64_MAX }
  }

  datatype MoveRefusal = MoveRefusal(kind: ArtifactKind, from: ArtifactStatus, target: ArtifactStatus, legal: set<ArtifactStatus>)

  /** The lifecycle that governs a kind: the nearest registered, the fallback, or one permitting all. */
  function Governing(lifecycles: LifecycleRegistry, kind: ArtifactKind): ArtifactLifecycle {
    match lifecycles.ForKind(kind)
    case Some(lifecycle) => lifecycle
    case None => PERMISSIVE
  }

  /** The nearest lifecycle registered up the climb from the kind lists the move; or none is registered and
      the fallback lists it; or there is no fallback either. */
  ghost predicate Legal(lifecycles: LifecycleRegistry, kind: ArtifactKind, from: ArtifactStatus, target: ArtifactStatus) {
    if exists c :: lifecycles.NearestRegistered(kind, c) then
      exists c :: lifecycles.NearestRegistered(kind, c) && Lists(lifecycles.lifecycles[c], from, target)
    else lifecycles.fallback.None? || Lists(lifecycles.fallback.value, from, target)
  }

  ghost predicate Lists(lifecycle: ArtifactLifecycle, from: ArtifactStatus, target: ArtifactStatus) {
    from in lifecycle.transitions && target in lifecycle.transitions[from]
  }

  /** The governing lifecycle permits exactly the legal moves. */
  lemma PermittedIsLegal(lifecycles: LifecycleRegistry, kind: ArtifactKind, from: ArtifactStatus, target: ArtifactStatus)
    ensures Governing(lifecycles, kind).PermitsTransition(from, target) <==> Legal(lifecycles, kind, from, target)
  {
    hide Lineage, LifecycleRegistry.NearestRegistered, LifecycleRegistry.ForKind;
    lifecycles.FallbackOnlyWithoutLineage(kind);
    if c :| lifecycles.NearestRegistered(kind, c) {
      forall d | lifecycles.NearestRegistered(kind, d)
        ensures d in lifecycles.lifecycles && lifecycles.ForKind(kind) == Some(lifecycles.lifecycles[d])
      {
        NearestIsThere(lifecycles, kind, d);
        lifecycles.ForKindIsNearest(kind, d);
      }
    }
    EveryStatusIsThere(from);
    EveryStatusIsThere(target);
  }

  lemma NearestIsThere(lifecycles: LifecycleRegistry, kind: ArtifactKind, c: ArtifactKind)
    requires lifecycles.NearestRegistered(kind, c)
    ensures c in lifecycles.lifecycles
  {
  }

  lemma EveryStatusIsThere(status: ArtifactStatus)
    ensures status in ALL_STATUSES
  {
  }

  function Bumped(revision: nat): nat { if revision < U64_MAX then revision + 1 else revision }

  class PlanningDocument {
    const kind: ArtifactKind
    var status: ArtifactStatus
    var relations: seq<ArtifactRelation>
    var revision: nat

    function View(): State
      reads this
    {
      State(kind, status, relations, revision)
    }

    constructor (kind: ArtifactKind, status: ArtifactStatus, relations: seq<ArtifactRelation>, revision: nat)
      ensures View() == State(kind, status, relations, revision)
    {
      this.kind, this.status, this.relations, this.revision := kind, status, relations, revision;
    }

    /** Records that this document has been written again. */
    method Bump()
      modifies this`revision
      ensures revision == Bumped(old(revision))
    {
      if revision < U64_MAX { revision := revision + 1; }
    }

    /** Moves the artifact, or says what it could have moved to instead. */
    method MoveStatus(target: ArtifactStatus, lifecycles: LifecycleRegistry) returns (answer: Result<(), MoveRefusal>)
      modifies this
      ensures View() == Step(old(View()), Move(target), lifecycles)
      ensures answer.Ok? <==> Legal(lifecycles, kind, old(status), target)
      ensures answer.Err? ==> forall s :: s in answer.error.legal <==> Legal(lifecycles, kind, old(status), s)
      ensures answer.Err? ==> answer.error.from == old(status) && answer.error.target == target && answer.error.kind == kind
    {
      hide Legal;
      forall s { PermittedIsLegal(lifecycles, kind, status, s); }
      var registered := lifecycles.ForKind(kind);
      var lifecycle := if registered.Some? then registered.value else PERMISSIVE;
      if !lifecycle.PermitsTransition(status, target) {
        var legal: set<ArtifactStatus> := if status in lifecycle.transitions then lifecycle.transitions[status] else {};
        return Err(MoveRefusal(kind, status, target, legal));
      }
      status := target;
      Bump();
      return Ok(());
    }

    /** Adds an outgoing edge, and says whether anything changed. */
    method AddRelation(relation: ArtifactRelation) returns (added: bool)
      modifies this
      ensures View() == Step(old(View()), Add(relation), LifecycleRegistry(map[], None))
      ensures added <==> relation !in old(relations)
    {
      if relation in relations { return false; }
      relations := relations + [relation];
      Bump();
      return true;
    }
  }

  // ------------------------------------------------------------------ runs

  datatype Operation = Move(target: ArtifactStatus) | Add(relation: ArtifactRelation)

  /** Whether an operation goes through. */
  predicate Accepted(s: State, op: Operation, lifecycles: LifecycleRegistry) {
    match op
    case Move(target) => Governing(lifecycles, s.kind).PermitsTransition(s.status, target)
    case Add(relation) => relation !in s.relations
  }

  function Step(s: State, op: Operation, lifecycles: LifecycleRegistry): State {
    match op
    case Move(target) =>
      if Governing(lifecycles, s.kind).PermitsTransition(s.status, target)
      then s.(status := target, revision := Bumped(s.revision)) else s
    case Add(relation) =>
      if relation in s.relations then s
      else s.(relations := s.relations + [relation], revision := Bumped(s.revision))
  }

  function After(s: State, run: seq<Operation>, lifecycles: LifecycleRegistry): State {
    if run == [] then s else Step(After(s, run[..|run| - 1], lifecycles), run[|run| - 1], lifecycles)
  }

  /** How many operations of a run go through. */
  function Changes(s: State, run: seq<Operation>, lifecycles: LifecycleRegistry): nat {
    if run == [] then 0
    else
      var earlier, last := run[..|run| - 1], run[|run| - 1];
      Changes(s, earlier, lifecycles) + if Accepted(After(s, earlier, lifecycles), last, lifecycles) then 1 else 0
  }

  /** The relations a run adds, in order. */
  function Added(s: State, run: seq<Operation>, lifecycles: LifecycleRegistry): seq<ArtifactRelation> {
    if run == [] then []
    else
      var earlier, last := run[..|run| - 1], run[|run| - 1];
      Added(s, earlier, lifecycles)
      + if last.Add? && Accepted(After(s, earlier, lifecycles), last, lifecycles) then [last.relation] else []
  }

  /** The statuses a document passes through, the first included. */
  function Passed(s: State, run: seq<Operation>, lifecycles: LifecycleRegistry): (path: seq<ArtifactStatus>)
    ensures path != []
  {
    if run == [] then [s.status]
    else
      var earlier, last := run[..|run| - 1], run[|run| - 1];
      Passed(s, earlier, lifecycles)
      + if last.Move? && Accepted(After(s, earlier, lifecycles), last, lifecycles) then [last.target] else []
  }

  /** Each status a document passes through leads to the next by an edge of the governing lifecycle, and
      the last one is where it stands; the kind never changes. */
  lemma {:induction false} EveryMoveIsAnEdge(s: State, run: seq<Operation>, lifecycles: LifecycleRegistry)
    ensures After(s, run, lifecycles).kind == s.kind
    ensures var path := Passed(s, run, lifecycles);
            && path[0] == s.status && path[|path| - 1] == After(s, run, lifecycles).status
            && forall i :: 0 <= i < |path| - 1 ==> Legal(lifecycles, s.kind, path[i], path[i + 1])
  {
    hide Governing, ArtifactLifecycle.PermitsTransition, Legal;
    if run != [] {
      var before := After(s, run[..|run| - 1], lifecycles);
      EveryMoveIsAnEdge(s, run[..|run| - 1], lifecycles);
      forall target { PermittedIsLegal(lifecycles, s.kind, before.status, target); }
    }
  }

  /** A refused operation changes nothing. */
  lemma RefusalChangesNothing(s: State, op: Operation, lifecycles: LifecycleRegistry)
    ensures !Accepted(s, op, lifecycles) ==> Step(s, op, lifecycles) == s
    ensures Accepted(s, op, lifecycles) && s.revision < U64_MAX ==> Step(s, op, lifecycles) != s
  {
    hide Governing;
  }

  /** The revision grows by exactly the number of changes, and stops at the largest number there is. */
  lemma {:induction false} RevisionCountsChanges(s: State, run: seq<Operation>, lifecycles: LifecycleRegistry)
    requires s.Valid()
    ensures After(s, run, lifecycles).revision ==
            if s.revision + Changes(s, run, lifecycles) <= U64_MAX then s.revision + Changes(s, run, lifecycles) else U64_MAX
  {
    hide Governing;
    if run != [] { RevisionCountsChanges(s, run[..|run| - 1], lifecycles); }
  }

  /** A run's relations are the first ones and then the added ones, none of which was declared before. */
  lemma {:induction false} RelationsOnlyGrow(s: State, run: seq<Operation>, lifecycles: LifecycleRegistry)
    ensures After(s, run, lifecycles).relations == s.relations + Added(s, run, lifecycles)
    ensures forall i, j :: 0 <= i < j < |s.relations + Added(s, run, lifecycles)| && j >= |s.relations| ==>
              (s.relations + Added(s, run, lifecycles))[i] != (s.relations + Added(s, run, lifecycles))[j]
  {
    hide Governing;
    if run != [] {
      var earlier, last := run[..|run| - 1], run[|run| - 1];
      RelationsOnlyGrow(s, earlier, lifecycles);
      var before := s.relations + Added(s, earlier, lifecycles);
      if last.Add? && last.relation !in before {
        var all := before + [last.relation];
        assert s.relations + Added(s, run, lifecycles) == all;
        forall i, j | 0 <= i < j < |all| && j >= |s.relations| ensures all[i] != all[j] {
          assert all[i] == before[i] && before[i] in before;
        }
      } else {
        assert Added(s, run, lifecycles) == Added(s, earlier, lifecycles);
      }
    }
  }
}
