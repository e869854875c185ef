/** Building and validating an artifact graph (`build`, `insert`, `validate_edges`,
    crates/aep-domain/src/artifact.rs). */
module GraphBuild {
  import opened Wrappers
  import opened ArtifactKinds
  import opened ArtifactGraphs
  import CycleSearch

  datatype ValidationError =
    | DuplicateDeclaration(id: ArtifactId)
    | ConflictingDeclaration(id: ArtifactId)
    | UndeclaredReference(id: ArtifactId, index: nat)
    | SelfReference(id: ArtifactId, index: nat)
    | CyclicRelation(relation: RelationKind, path: seq<ArtifactId>)

  // ------------------------------------------------------------------ what is wrong with an edge

  function RelationErrors(g: Graph, a: Artifact, index: nat): seq<ValidationError>
    requires index < |a.relations|
  {
    var target := a.relations[index].target.id;
    (if target !in g then [UndeclaredReference(a.id, index)] else [])
    + (if target == a.id then [SelfReference(a.id, index)] else [])
  }

  function RelationErrorsUpTo(g: Graph, a: Artifact, count: nat): seq<ValidationError>
    requires count <= |a.relations|
  {
    if count == 0 then [] else RelationErrorsUpTo(g, a, count - 1) + RelationErrors(g, a, count - 1)
  }

  function DigestErrors(a: Artifact): seq<ValidationError> {
    if a.modelDigest.Some? && !a.kind.CarriesModelDigest() then [ConflictingDeclaration(a.id)] else []
  }

  function ArtifactErrors(g: Graph, a: Artifact): seq<ValidationError> {
    DigestErrors(a) + RelationErrorsUpTo(g, a, |a.relations|)
  }

  /** Whether `e` reports something that is wrong with `a` itself or with one of its edges. */
  ghost predicate Defect(g: Graph, a: Artifact, e: ValidationError) {
    match e
    case ConflictingDeclaration(id) => id == a.id && a.modelDigest.Some? && a.kind != ExecutableSystemSpecification
    case UndeclaredReference(id, index) => id == a.id && index < |a.relations| && a.relations[index].target.id !in g
    case SelfReference(id, index) => id == a.id && index < |a.relations| && a.relations[index].target.id == a.id
    case _ => false
  }

  lemma {:induction false} RelationErrorsAreDefects(g: Graph, a: Artifact, count: nat, e: ValidationError)
    requires count <= |a.relations|
    ensures e in RelationErrorsUpTo(g, a, count) <==>
            (e.UndeclaredReference? || e.SelfReference?) && e.index < count && Defect(g, a, e)
  {
    if count > 0 {
      RelationErrorsAreDefects(g, a, count - 1, e);
    }
  }

  /** Every defect of an artifact is reported, and nothing else is. */
  lemma ArtifactErrorsAreDefects(g: Graph, a: Artifact, e: ValidationError)
    ensures e in ArtifactErrors(g, a) <==> Defect(g, a, e)
  {
    RelationErrorsAreDefects(g, a, |a.relations|, e);
  }

  /** An artifact without defects: its digest is in scope and its edges resolve, none to itself. */
  ghost predicate Clean(g: Graph, a: Artifact) {
    && (a.modelDigest.Some? ==> a.kind == ExecutableSystemSpecification)
    && (forall i :: 0 <= i < |a.relations| ==> a.relations[i].target.id in g && a.relations[i].target.id != a.id)
  }

  lemma CleanMeansNoErrors(g: Graph, a: Artifact)
    ensures ArtifactErrors(g, a) == [] <==> Clean(g, a)
  {
    if Clean(g, a) && ArtifactErrors(g, a) != [] {
      ArtifactErrorsAreDefects(g, a, ArtifactErrors(g, a)[0]);
      assert false;
    }
    if !Clean(g, a) {
      if a.modelDigest.Some? && !a.kind.CarriesModelDigest() {
        ArtifactErrorsAreDefects(g, a, ConflictingDeclaration(a.id));
      } else {
        var i :| 0 <= i < |a.relations| && (a.relations[i].target.id !in g || a.relations[i].target.id == a.id);
        ArtifactErrorsAreDefects(g, a, UndeclaredReference(a.id, i));
        ArtifactErrorsAreDefects(g, a, SelfReference(a.id, i));
      }
    }
  }

  lemma ClosedWalkRefutes(g: Graph, relation: RelationKind, path: seq<ArtifactId>)
    requires IsClosedWalk(g, relation, path)
    ensures !Acyclic(g, relation)
  {
  }

  ghost predicate Listed(relation: RelationKind) {
    exists i :: 0 <= i < |ALL_RELATIONS| && ALL_RELATIONS[i] == relation
  }

  lemma EveryRelationIsListed(relation: RelationKind)
    ensures Listed(relation)
  {
    match relation
    case InformedBy => assert ALL_RELATIONS[0] == relation;
    case DerivedFrom => assert ALL_RELATIONS[1] == relation;
    case Decomposes => assert ALL_RELATIONS[2] == relation;
    case Specifies => assert ALL_RELATIONS[3] == relation;
    case Designs => assert ALL_RELATIONS[4] == relation;
    case Implements => assert ALL_RELATIONS[5] == relation;
    case Decides => assert ALL_RELATIONS[6] == relation;
    case Reviews => assert ALL_RELATIONS[7] == relation;
    case Verifies => assert ALL_RELATIONS[8] == relation;
    case Blocks => assert ALL_RELATIONS[9] == relation;
    case DependsOn => assert ALL_RELATIONS[10] == relation;
    case Supersedes => assert ALL_RELATIONS[11] == relation;
    case Delivers => assert ALL_RELATIONS[12] == relation;
  }

  // ------------------------------------------------------------------ declared lists

  /** The map a list of declarations ends up as: a later record replaces an earlier one. */
  function Filed(artifacts: seq<Artifact>): (g: Graph)
    ensures WellKeyed(g)
    ensures forall id :: id in g <==> exists i :: 0 <= i < |artifacts| && artifacts[i].id == id
  {
    if artifacts == [] then map[]
    else
      var last := artifacts[|artifacts| - 1];
      assert artifacts == artifacts[..|artifacts| - 1] + [last];
      Filed(artifacts[..|artifacts| - 1])[last.id := last]
  }

  ghost predicate DistinctIds(artifacts: seq<Artifact>) {
    forall i, j :: 0 <= i < j < |artifacts| ==> artifacts[i].id != artifacts[j].id
  }

  /** With distinct identifiers nothing is replaced: every declaration is in the map as written. */
  lemma {:induction false} DistinctKeepsAll(artifacts: seq<Artifact>)
    requires DistinctIds(artifacts)
    ensures forall i :: 0 <= i < |artifacts| ==> artifacts[i].id in Filed(artifacts) && Filed(artifacts)[artifacts[i].id] == artifacts[i]
    ensures |Filed(artifacts)| == |artifacts|
  {
    if artifacts != [] {
      var most := artifacts[..|artifacts| - 1];
      var last := artifacts[|artifacts| - 1];
      DistinctKeepsAll(most);
      assert last.id !in Filed(most);
      assert Filed(artifacts).Keys == Filed(most).Keys + {last.id};
      forall i | 0 <= i < |artifacts| ensures artifacts[i].id in Filed(artifacts) && Filed(artifacts)[artifacts[i].id] == artifacts[i] {
        if i < |most| { assert most[i] == artifacts[i]; }
      }
    }
  }

  lemma FiledStep(declared: seq<Artifact>, i: nat)
    requires i < |declared|
    ensures Filed(declared[..i + 1]) == Filed(declared[..i])[declared[i].id := declared[i]]
    ensures DistinctIds(declared[..i + 1]) <==> DistinctIds(declared[..i]) && declared[i].id !in Filed(declared[..i])
  {
    assert declared[..i + 1][..i] == declared[..i];
    DistinctStep(declared[..i], declared[i]);
    assert declared[..i + 1] == declared[..i] + [declared[i]];
  }

  lemma DistinctStep(declared: seq<Artifact>, next: Artifact)
    ensures DistinctIds(declared + [next]) <==> DistinctIds(declared) && next.id !in Filed(declared)
  {
    hide Filed;
    var all := declared + [next];
    assert all[|declared|] == next && forall i :: 0 <= i < |declared| ==> all[i] == declared[i];
  }

  /** An identifier is declared more than once. */
  ghost predicate Repeated(declared: seq<Artifact>, id: ArtifactId) {
    exists i, j :: 0 <= i < j < |declared| && declared[i].id == id && declared[j].id == id
  }

  lemma RepeatedStep(declared: seq<Artifact>, n: nat, id: ArtifactId)
    requires n < |declared|
    ensures Repeated(declared[..n + 1], id) <==>
            Repeated(declared[..n], id) || (id == declared[n].id && id in Filed(declared[..n]))
  {
    var before, now := declared[..n], declared[..n + 1];
    assert now[..n] == before && now[n] == declared[n];
    if i, j :| 0 <= i < j < |before| && before[i].id == id && before[j].id == id { assert now[i].id == id && now[j].id == id; }
    if id == declared[n].id && id in Filed(before) {
      var i :| 0 <= i < |before| && before[i].id == id;
      assert now[i].id == id && now[n].id == id;
    }
    if i, j :| 0 <= i < j < |now| && now[i].id == id && now[j].id == id {
      assert before[i].id == id;
      if j < n { assert before[j].id == id; }
    }
  }

  /** What is reported of the edges of a graph: each defect of each artifact, and for each relation kind that
      cycles a closed walk. */
  ghost predicate ReportsEdges(g: Graph, errors: seq<ValidationError>) {
    && (forall id, e :: id in g && Defect(g, g[id], e) ==> e in errors)
    && (forall relation :: Acyclic(g, relation) <==> forall path :: CyclicRelation(relation, path) !in errors)
    && forall e :: e in errors ==>
         if e.CyclicRelation? then IsClosedWalk(g, e.relation, e.path) else exists id :: id in g && Defect(g, g[id], e)
  }

  /** What is reported of a list of declarations: each identifier declared more than once, and what is wrong
      with the graph of the last declaration of each. */
  ghost predicate ReportsAll(declared: seq<Artifact>, errors: seq<ValidationError>) {
    exists repeats: seq<ValidationError>, edges: seq<ValidationError> ::
      && errors == repeats + edges && ReportsEdges(Filed(declared), edges)
      && (forall e :: e in repeats ==> e.DuplicateDeclaration?)
      && forall id :: DuplicateDeclaration(id) in repeats <==> Repeated(declared, id)
  }

  /** What `build` promises of a graph it hands out. */
  ghost predicate Sound(g: Graph) {
    && WellKeyed(g)
    && (forall id :: id in g ==> Clean(g, g[id]))
    && (forall relation :: Acyclic(g, relation))
  }

  lemma DigestKindIsWritten(kind: ArtifactKind)
    requires Canonical(kind)
    ensures kind == ExecutableSystemSpecification <==> kind.AsStr() == "executable-system-specification"
  {
    if kind.AsStr() == "executable-system-specification" { CanonicalNamesDiffer(kind, ExecutableSystemSpecification); }
  }

  /** What is accepted, spelled out: identifiers are distinct, every edge leads to another artifact that is
      there, no relation kind cycles, and a digest is only on the one kind that is compiled from a model. */
  lemma AcceptedExactly(declared: seq<Artifact>)
    ensures DistinctIds(declared) && Sound(Filed(declared)) <==>
            && (forall i, j :: 0 <= i < j < |declared| ==> declared[i].id != declared[j].id)
            && (forall i, k :: 0 <= i < |declared| && 0 <= k < |declared[i].relations| ==>
                  && (exists j :: 0 <= j < |declared| && declared[j].id == declared[i].relations[k].target.id)
                  && declared[i].relations[k].target.id != declared[i].id)
            && (forall relation :: Acyclic(Filed(declared), relation))
            && (forall i :: 0 <= i < |declared| && declared[i].modelDigest.Some? ==> declared[i].kind == ExecutableSystemSpecification)
  {
    hide Acyclic;
    var g := Filed(declared);
    if DistinctIds(declared) {
      DistinctKeepsAll(declared);
      forall i | 0 <= i < |declared| ensures g[declared[i].id] == declared[i] {}
    }
  }

  lemma EdgesAreReported(g: Graph, perArtifact: seq<ValidationError>, cycles: seq<ValidationError>)
    requires forall id :: id in g ==> forall e :: e in ArtifactErrors(g, g[id]) ==> e in perArtifact
    requires forall e :: e in perArtifact ==> exists id :: id in g && Defect(g, g[id], e)
    requires forall e :: e in cycles ==> e.CyclicRelation? && IsClosedWalk(g, e.relation, e.path)
    requires forall relation :: Acyclic(g, relation) <==> forall path :: CyclicRelation(relation, path) !in cycles
    ensures ReportsEdges(g, perArtifact + cycles)
  {
    hide Acyclic, IsClosedWalk, ArtifactErrors;
    forall id, e | id in g && Defect(g, g[id], e) ensures e in perArtifact + cycles { ArtifactErrorsAreDefects(g, g[id], e); }
    forall relation ensures Acyclic(g, relation) <==> forall path :: CyclicRelation(relation, path) !in perArtifact + cycles {
      forall path ensures CyclicRelation(relation, path) in perArtifact + cycles <==> CyclicRelation(relation, path) in cycles {}
    }
  }

  /** A graph that passes can be laid out, relation kind by relation kind, targets first. */
  ghost predicate Sortable(g: Graph) {
    forall relation :: HasOrder(g, relation)
  }

  class ArtifactGraph {
    var artifacts: Graph

    constructor ()
      ensures artifacts == map[]
    {
      artifacts := map[];
    }

    /** Adds an artifact, replacing any previous record with the same id. */
    method Insert(artifact: Artifact)
      modifies this
      ensures artifacts == old(artifacts)[artifact.id := artifact]
    {
      artifacts := artifacts[artifact.id := artifact];
    }

    /** The per-artifact pass: the reports of every artifact, and of nothing else. */
    method ValidateArtifacts() returns (errors: seq<ValidationError>)
      ensures errors == [] <==> forall id :: id in artifacts ==> Clean(artifacts, artifacts[id])
      ensures forall id :: id in artifacts ==> forall e :: e in ArtifactErrors(artifacts, artifacts[id]) ==> e in errors
      ensures forall e :: e in errors ==> exists id :: id in artifacts && Defect(artifacts, artifacts[id], e)
    {
      errors := [];
      var pending := artifacts.Keys;
      while pending != {}
        invariant pending <= artifacts.Keys
        invariant forall id :: id in artifacts.Keys - pending ==>
                    forall e :: e in ArtifactErrors(artifacts, artifacts[id]) ==> e in errors
        invariant forall e :: e in errors ==> exists id :: id in artifacts && Defect(artifacts, artifacts[id], e)
        invariant errors == [] <==> forall id :: id in artifacts.Keys - pending ==> Clean(artifacts, artifacts[id])
        decreases pending
      {
        var id :| id in pending;
        pending := pending - {id};
        var found := ErrorsOf(artifacts[id]);
        ghost var before := errors;
        errors := errors + found;
        CleanMeansNoErrors(artifacts, artifacts[id]);
        forall e | e in found ensures Defect(artifacts, artifacts[id], e) {
          ArtifactErrorsAreDefects(artifacts, artifacts[id], e);
        }
      }
    }

    method ErrorsOf(artifact: Artifact) returns (errors: seq<ValidationError>)
      ensures errors == ArtifactErrors(artifacts, artifact)
    {
      errors := [];
      if artifact.modelDigest.Some? && !artifact.kind.CarriesModelDigest() {
        errors := errors + [ConflictingDeclaration(artifact.id)];
      }
      var index := 0;
      while index < |artifact.relations|
        invariant 0 <= index <= |artifact.relations|
        invariant errors == DigestErrors(artifact) + RelationErrorsUpTo(artifacts, artifact, index)
      {
        var target := artifact.relations[index].target.id;
        ghost var before := errors;
        if target !in artifacts {
          errors := errors + [UndeclaredReference(artifact.id, index)];
        }
        if target == artifact.id {
          errors := errors + [SelfReference(artifact.id, index)];
        }
        assert errors == before + RelationErrors(artifacts, artifact, index);
        index := index + 1;
      }
    }

    /** One report for each relation kind that cycles, naming a closed walk. */
    method FindCycles() returns (errors: seq<ValidationError>)
      requires WellKeyed(artifacts)
      ensures forall e :: e in errors ==> e.CyclicRelation? && IsClosedWalk(artifacts, e.relation, e.path)
      ensures forall relation :: Acyclic(artifacts, relation) <==> forall path :: CyclicRelation(relation, path) !in errors
      ensures errors == [] ==> Sortable(artifacts)
    {
      hide HasOrder, Acyclic, IsClosedWalk;
      errors := [];
      var i := 0;
      while i < |ALL_RELATIONS|
        invariant 0 <= i <= |ALL_RELATIONS|
        invariant forall e :: e in errors ==> e.CyclicRelation? && IsClosedWalk(artifacts, e.relation, e.path)
        invariant forall k :: 0 <= k < i ==>
                    (Acyclic(artifacts, ALL_RELATIONS[k]) || exists path :: CyclicRelation(ALL_RELATIONS[k], path) in errors)
        invariant errors == [] ==> forall k :: 0 <= k < i ==> HasOrder(artifacts, ALL_RELATIONS[k])
      {
        var relation := ALL_RELATIONS[i];
        var cycle := CycleSearch.FindCycle(artifacts, relation);
        if cycle.Some? {
          errors := errors + [CyclicRelation(relation, cycle.value)];
          assert CyclicRelation(relation, cycle.value) in errors;
        }
        i := i + 1;
      }
      forall relation
        ensures Acyclic(artifacts, relation) <==> forall path :: CyclicRelation(relation, path) !in errors
        ensures errors == [] ==> HasOrder(artifacts, relation)
      {
        EveryRelationIsListed(relation);
        var k :| 0 <= k < |ALL_RELATIONS| && ALL_RELATIONS[k] == relation;
        forall path | CyclicRelation(relation, path) in errors ensures !Acyclic(artifacts, relation) {
          ClosedWalkRefutes(artifacts, relation, path);
        }
      }
    }

    /** Checks every edge resolves, nothing points at itself, and no relation kind cycles. */
    method ValidateEdges() returns (errors: seq<ValidationError>)
      requires WellKeyed(artifacts)
      ensures errors == [] <==> Sound(artifacts)
      ensures errors == [] ==> Sortable(artifacts)
      ensures ReportsEdges(artifacts, errors)
    {
      hide Clean;
      var perArtifact := ValidateArtifacts();
      var cycles := FindCycles();
      errors := perArtifact + cycles;
      EdgesAreReported(artifacts, perArtifact, cycles);
      if cycles != [] {
        assert cycles[0] in cycles;
        ClosedWalkRefutes(artifacts, cycles[0].relation, cycles[0].path);
      }
      assert errors == [] <==> perArtifact == [] && cycles == [];
      forall relation | cycles == [] ensures Acyclic(artifacts, relation) {
        assert forall path :: CyclicRelation(relation, path) !in cycles;
      }
    }

    static lemma NothingDeclared(declared: seq<Artifact>)
      ensures DistinctIds(declared[..0]) && Filed(declared[..0]) == map[]
    {
    }

    static lemma NothingRepeated(declared: seq<Artifact>)
      ensures forall id :: !Repeated(declared[..0], id)
    {
    }

    /** Builds and validates a graph: handed out exactly when no identifier repeats and the graph is
        sound, and then every relation kind has a topological order. */
    static method Build(declared: seq<Artifact>) returns (built: Result<ArtifactGraph, seq<ValidationError>>)
      ensures built.Ok? <==> DistinctIds(declared) && Sound(Filed(declared))
      ensures built.Ok? ==> fresh(built.value) && built.value.artifacts == Filed(declared)
      ensures built.Ok? ==> Sortable(Filed(declared))
      ensures built.Err? ==> built.error != [] && ReportsAll(declared, built.error)
    {
      hide Sound, Sortable, DistinctIds, Filed, Repeated, ReportsEdges;
      NothingDeclared(declared);
      NothingRepeated(declared);
      var graph := new ArtifactGraph();
      var errors: seq<ValidationError> := [];
      var i := 0;
      while i < |declared|
        invariant 0 <= i <= |declared|
        invariant graph.artifacts == Filed(declared[..i])
        invariant errors == [] <==> DistinctIds(declared[..i])
        invariant forall e :: e in errors ==> e.DuplicateDeclaration?
        invariant forall id :: DuplicateDeclaration(id) in errors <==> Repeated(declared[..i], id)
        invariant fresh(graph)
      {
        var artifact := declared[i];
        forall id { RepeatedStep(declared, i, id); }
        FiledStep(declared, i);
        if artifact.id in graph.artifacts {
          errors := errors + [DuplicateDeclaration(artifact.id)];
        }
        graph.Insert(artifact);
        i := i + 1;
      }
      assert declared[..i] == declared;
      var edges := graph.ValidateEdges();
      ghost var repeats := errors;
      errors := errors + edges;
      if errors == [] { return Ok(graph); } else { return Err(errors); }
    }
  }
}
