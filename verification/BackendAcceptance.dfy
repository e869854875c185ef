/** When a command is accepted, and which error answers it otherwise, for every store a run can reach
    (crates/aep-backend-memory/src/command.rs:30-103, 113-347, 410-517, crates/aep-domain/src/command.rs). */
module BackendAcceptance {
  import opened Wrappers
  import opened Entities
  import opened Commands
  import opened Stores
  import opened Backend
  import opened BackendInvariant
  import opened BackendSteps

  // ------------------------------------------------------------------ what a command asks of the store

  ghost predicate LocatorFree(s: State, locator: EntityLocator) {
    forall id :: id in s.entities ==> s.entities[id].metadata.locator != locator
  }

  ghost predicate IsReviewResult(s: State, id: EntityId) {
    && id in s.entities && s.entities[id].metadata.entityType.namespace == "aep"
    && s.entities[id].metadata.entityType.name == "review-result" && s.entities[id].metadata.entityType.version == 1
  }

  /** At this revision, where one is asserted. */
  ghost predicate StandsAt(s: State, id: EntityId, revision: Option<nat>) {
    id in s.entities && (revision.Some? ==> s.entities[id].metadata.revision == revision.value)
  }

  ghost predicate Meets(s: State, e: CommandEnvelope) {
    match e.payload
    case CreateEntity(_, locator, _) => LocatorFree(s, locator)
    case UpdateEntity(target, changes) =>
      changes.Keys != {} && StandsAt(s, target.id, e.expectedRevision) && !IsReviewResult(s, target.id)
    case CreateRelation(_, source, to) => source.id != to.id && source.id in s.entities && to.id in s.entities
    case RemoveRelation(relation) => relation in s.relations
    case ArchiveEntity(target, _) => StandsAt(s, target.id, e.expectedRevision)
    case SupersedeEntity(target, successor, _) =>
      target.id != successor.id && successor.id in s.entities && StandsAt(s, target.id, e.expectedRevision)
    case SubmitDesignReview(design, _) => StandsAt(s, design.id, Some(design.revision)) && StandsAt(s, design.id, e.expectedRevision)
    case ApproveDesign(design, review) =>
      review.id in s.entities && StandsAt(s, design.id, Some(design.revision)) && StandsAt(s, design.id, e.expectedRevision)
    case AcceptAdr(adr, supersedes) =>
      && StandsAt(s, adr.id, Some(adr.revision)) && StandsAt(s, adr.id, e.expectedRevision)
      && (supersedes.Some? ==> supersedes.value.id in s.entities)
  }

  // ------------------------------------------------------------------ what it is told otherwise

  ghost function Absent(s: State, id: EntityId): seq<CommandError> {
    if id in s.entities then [] else [NotFound(EntityRef(id))]
  }

  ghost function Stale(s: State, id: EntityId, revision: Option<nat>): seq<CommandError> {
    if id !in s.entities || StandsAt(s, id, revision) then []
    else [RevisionConflict(EntityRef(id), revision.value, s.entities[id].metadata.revision)]
  }

  ghost function Unless(holds: bool, error: CommandError): seq<CommandError> { if holds then [] else [error] }

  /** Everything that stands in a command's way, in the order in which it is looked for. */
  ghost function Complaints(s: State, e: CommandEnvelope): seq<CommandError> {
    match e.payload
    case CreateEntity(_, locator, _) => Unless(LocatorFree(s, locator), Conflict(LocatorTaken(locator)))
    case UpdateEntity(target, changes) =>
      Unless(changes.Keys != {}, Invalid([EmptyChange])) + Absent(s, target.id)
      + Unless(!IsReviewResult(s, target.id), Conflict(ImmutableType(target))) + Stale(s, target.id, e.expectedRevision)
    case CreateRelation(_, source, to) =>
      Unless(source.id != to.id, Invalid([SelfReference])) + Absent(s, source.id) + Absent(s, to.id)
    case RemoveRelation(relation) => Unless(relation in s.relations, Conflict(NoSuchRelation(relation)))
    case ArchiveEntity(target, _) => Absent(s, target.id) + Stale(s, target.id, e.expectedRevision)
    case SupersedeEntity(target, successor, _) =>
      Unless(target.id != successor.id, Invalid([SelfReference])) + Absent(s, successor.id) + Absent(s, target.id)
      + Stale(s, target.id, e.expectedRevision)
    case SubmitDesignReview(design, _) =>
      Absent(s, design.id) + Stale(s, design.id, Some(design.revision)) + Stale(s, design.id, e.expectedRevision)
    case ApproveDesign(design, review) =>
      Absent(s, review.id) + Absent(s, design.id) + Stale(s, design.id, Some(design.revision)) + Stale(s, design.id, e.expectedRevision)
    case AcceptAdr(adr, supersedes) =>
      Absent(s, adr.id) + Stale(s, adr.id, Some(adr.revision)) + Stale(s, adr.id, e.expectedRevision)
      + if supersedes.Some? then Absent(s, supersedes.value.id) else []
  }

  /** There, and at the asserted revision: neither missing nor stale. */
  lemma StandsExactly(s: State, id: EntityId, revision: Option<nat>)
    ensures StandsAt(s, id, revision) <==> Absent(s, id) == [] && Stale(s, id, revision) == []
    ensures Absent(s, id) == [] <==> id in s.entities
  {
  }

  /** Nothing stands in the way of exactly the commands that ask for what the store holds. */
  lemma NothingToComplain(s: State, e: CommandEnvelope)
    ensures Complaints(s, e) == [] <==> Meets(s, e)
  {
    hide LocatorFree, IsReviewResult, Absent, Stale, StandsAt;
    match e.payload {
      case CreateEntity(_, _, _) =>
      case UpdateEntity(target, changes) =>
        StandsExactly(s, target.id, e.expectedRevision);
      case CreateRelation(_, source, to) =>
        StandsExactly(s, source.id, None);
        StandsExactly(s, to.id, None);
      case RemoveRelation(_) =>
      case ArchiveEntity(target, _) =>
        StandsExactly(s, target.id, e.expectedRevision);
      case SupersedeEntity(target, successor, _) =>
        StandsExactly(s, successor.id, None);
        StandsExactly(s, target.id, e.expectedRevision);
      case SubmitDesignReview(design, _) =>
        StandsExactly(s, design.id, Some(design.revision));
        StandsExactly(s, design.id, e.expectedRevision);
      case ApproveDesign(design, review) =>
        StandsExactly(s, review.id, None);
        StandsExactly(s, design.id, Some(design.revision));
        StandsExactly(s, design.id, e.expectedRevision);
      case AcceptAdr(adr, supersedes) =>
        if supersedes.Some? { StandsExactly(s, supersedes.value.id, None); }
        StandsExactly(s, adr.id, Some(adr.revision));
        StandsExactly(s, adr.id, e.expectedRevision);
    }
  }

  /** The index of locators tells which are free. */
  lemma FreeExactly(s: State, locator: EntityLocator)
    requires Inv(s)
    ensures LocatorFree(s, locator) <==> locator.Render() !in s.locators
  {
    hide HistoryOk, RelationsOk, EntityIdsOk, RelationIdsOk, AuditIdsOk, EventIdsOk, AuditOk, LocatorParts.Render;
    if locator.Render() in s.locators {
      var id := s.locators[locator.Render()];
      RenderIsInjective(s.entities[id].metadata.locator, locator);
    }
  }

  /** The first thing in the way. */
  ghost predicate FirstOf(complaints: seq<CommandError>, answer: Result<Affected, CommandError>) {
    if complaints == [] then answer.Ok? else answer == Err(complaints[0])
  }

  lemma GenericAnswers(s: State, e: CommandEnvelope)
    requires Inv(s) && e.payload.Validate() == []
    requires e.payload.CreateEntity? || e.payload.UpdateEntity? || e.payload.ArchiveEntity? || e.payload.SupersedeEntity?
    ensures FirstOf(Complaints(s, e), Arm(s, e).answer)
  {
    hide Mutated, Emitted, Linked, LocatorFree, WithEntity, WithRevision, Inv, EntityIdAt, LocatorParts.Render;
    if e.payload.CreateEntity? { FreeExactly(s, e.payload.locator); }
  }

  lemma RelationAnswers(s: State, e: CommandEnvelope)
    requires e.payload.Validate() == [] && (e.payload.CreateRelation? || e.payload.RemoveRelation?)
    ensures FirstOf(Complaints(s, e), Arm(s, e).answer)
  {
    hide Linked;
  }

  lemma DesignAnswers(s: State, e: CommandEnvelope)
    requires e.payload.SubmitDesignReview? || e.payload.ApproveDesign?
    ensures FirstOf(Complaints(s, e), Arm(s, e).answer)
  {
    hide Mutated, Emitted, ActorText;
  }

  lemma AcceptAnswers(s: State, e: CommandEnvelope)
    requires e.payload.AcceptAdr?
    ensures FirstOf(Complaints(s, e), Arm(s, e).answer)
  {
    hide Mutated, Emitted, Linked;
    if e.payload.adr.id in s.entities { MutatedKeepsKeys(s, e, e.payload.adr.Unversioned(), Status("accepted")); }
  }

  lemma InvalidFirst(s: State, e: CommandEnvelope)
    requires e.payload.Validate() != []
    ensures Complaints(s, e) != [] && Complaints(s, e)[0] == Invalid(e.payload.Validate())
  {
    hide Absent, Stale, IsReviewResult;
  }

  /** Under a key not used before, a command goes through exactly when nothing stands in its way, and is
      otherwise answered with the first thing that does. */
  lemma AnsweredExactly(s: State, e: CommandEnvelope)
    requires Inv(s) && e.context.idempotencyKey !in s.applied
    ensures Apply(s, e).answer.Ok? <==> Complaints(s, e) == []
    ensures Complaints(s, e) != [] ==> Apply(s, e).answer == Err(Complaints(s, e)[0])
  {
    hide Inv, Arm, Complaints, WithAcceptance, WithRejection, AcceptedResult;
    if e.payload.Validate() != [] {
      InvalidFirst(s, e);
    } else if e.payload.AcceptAdr? {
      AcceptAnswers(s, e);
    } else if e.payload.SubmitDesignReview? || e.payload.ApproveDesign? {
      DesignAnswers(s, e);
    } else if e.payload.CreateRelation? || e.payload.RemoveRelation? {
      RelationAnswers(s, e);
    } else {
      GenericAnswers(s, e);
    }
  }

  /** A command is accepted exactly when it is a replay, or its key is new and the store meets what it asks. */
  lemma AcceptedExactly(s: State, e: CommandEnvelope)
    requires Inv(s)
    ensures var key := e.context.idempotencyKey;
            Apply(s, e).answer.Ok? <==>
            if key in s.applied then s.applied[key].commandId == e.commandId else Meets(s, e)
  {
    hide Inv, Meets, Complaints, Apply;
    var key := e.context.idempotencyKey;
    if key !in s.applied {
      AnsweredExactly(s, e);
      NothingToComplain(s, e);
    } else if s.applied[key].commandId == e.commandId {
      ReplayStandsStill(s, e);
    } else {
      MismatchRefuses(s, e);
    }
  }

  // ------------------------------------------------------------------ what a command says of itself

  /** A command names as its target what it changes or starts from, and as its expected revision the one
      its payload pins; only a store that holds the target, at that revision, meets what it asks. */
  lemma TargetIsAsked(s: State, e: CommandEnvelope)
    ensures e.payload.Target().None? <==> e.payload.CreateEntity? || e.payload.RemoveRelation?
    ensures e.payload.ExpectedRevision().Some? <==> e.payload.SubmitDesignReview? || e.payload.ApproveDesign? || e.payload.AcceptAdr?
    ensures e.payload.Target().Some? && Meets(s, e) ==>
              StandsAt(s, e.payload.Target().value.id, e.payload.ExpectedRevision())
    ensures e.payload.CreateRelation? ==> e.payload.Target() == Some(e.payload.source)
    ensures e.payload.SupersedeEntity? ==> e.payload.Target() == Some(e.payload.target)
  {
  }

  /** The vocabulary of commands. */
  lemma CommandsAreWritten(command: Command)
    ensures command.CreateEntity? ==> command.CommandType() == "aep.entity.create/v1"
    ensures command.UpdateEntity? ==> command.CommandType() == "aep.entity.update/v1"
    ensures command.CreateRelation? ==> command.CommandType() == "aep.relation.create/v1"
    ensures command.RemoveRelation? ==> command.CommandType() == "aep.relation.remove/v1"
    ensures command.ArchiveEntity? ==> command.CommandType() == "aep.entity.archive/v1"
    ensures command.SupersedeEntity? ==> command.CommandType() == "aep.entity.supersede/v1"
    ensures command.SubmitDesignReview? ==> command.CommandType() == "aep.design.submit-review/v1"
    ensures command.ApproveDesign? ==> command.CommandType() == "aep.design.approve/v1"
    ensures command.AcceptAdr? ==> command.CommandType() == "aep.adr.accept/v1"
  {
  }
}
