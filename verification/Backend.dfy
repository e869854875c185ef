/** Applying one command (crates/aep-backend-memory/src/command.rs): as a function from the state
    before to the state after and the answer, and as the method that updates a store in place. */
module Backend {
  import opened Wrappers
  import opened ArtifactGraphs
  import opened Entities
  import opened Commands
  import opened Audit
  import opened Stores

  /** A state, and what came of reaching it. */
  datatype Step<+T> = Step(state: State, answer: Result<T, CommandError>)

  type Affected = seq<VersionedEntityRef>

  // ------------------------------------------------------------------ bodies

  /** `set_status`: the conventional key, wrapping a body that is not a mapping. */
  function SetStatus(data: Node, status: string): Node {
    match data
    case Map(entries) => Map(entries["status" := Text(status)])
    case other => Map(map["value" := other]["status" := Text(status)])
  }

  function Merge(data: Node, changes: map<string, Node>): Node {
    match data
    case Map(entries) => Map(entries + changes)
    case other => Map(map["value" := other] + changes)
  }

  /** The edits the command arms make to an entity before its revision advances. */
  datatype Change = Fields(changes: map<string, Node>) | Archive | Status(status: string)

  function Changed(entity: StoredEntity, change: Change): StoredEntity {
    match change
    case Fields(changes) => entity.(data := Merge(entity.data, changes))
    case Archive => entity.(archived := true, data := SetStatus(entity.data, "archived"))
    case Status(status) => entity.(data := SetStatus(entity.data, status))
  }

  // ------------------------------------------------------------------ checks that only read

  /** A review result records what someone concluded; it alone may not be edited. */
  predicate IsMutable(entityType: EntityType) {
    entityType != EntityType("aep", "review-result", 1)
  }

  function RequireEntity(s: State, reference: EntityRef): Option<CommandError> {
    if reference.id in s.entities then None else Some(NotFound(reference))
  }

  function RequireMutable(s: State, reference: EntityRef): Option<CommandError> {
    if reference.id !in s.entities then Some(NotFound(reference))
    else if IsMutable(s.entities[reference.id].metadata.entityType) then None
    else Some(Conflict(ImmutableType(reference)))
  }

  function RequireRevision(s: State, reference: VersionedEntityRef): Option<CommandError> {
    if reference.id !in s.entities then Some(NotFound(reference.Unversioned()))
    else if s.entities[reference.id].metadata.revision != reference.revision then
      Some(RevisionConflict(reference.Unversioned(), reference.revision, s.entities[reference.id].metadata.revision))
    else None
  }

  function RequireExpected(s: State, e: CommandEnvelope, target: EntityRef): Option<CommandError> {
    if target.id !in s.entities then Some(NotFound(target))
    else if e.expectedRevision.Some? && s.entities[target.id].metadata.revision != e.expectedRevision.value then
      Some(RevisionConflict(target, e.expectedRevision.value, s.entities[target.id].metadata.revision))
    else None
  }

  // ------------------------------------------------------------------ recording

  function HistoryRecord(e: CommandEnvelope, reference: VersionedEntityRef): RevisionRecord {
    RevisionRecord(reference.revision, e.context.issuedAt, e.context.actor, e.context.executor, Some(e.commandId))
  }

  function EventFor(e: CommandEnvelope, id: EventId, eventType: string, payload: Node, subject: VersionedEntityRef): DomainEvent {
    DomainEvent(id, eventType, subject.Unversioned(), subject.revision, payload, e.commandId, e.context.correlationId,
                e.context.executionId, e.context.issuedAt, e.context.actor)
  }

  function Emitted(s: State, e: CommandEnvelope, eventType: string, payload: Node, subject: VersionedEntityRef): State {
    WithEvent(Ticked(s), EventFor(e, EventIdAt(s.sequence + 1), eventType, payload, subject))
  }

  function Linked(s: State, e: CommandEnvelope, kind: RelationKind, source: EntityRef, target: EntityRef): State {
    WithRelation(Ticked(s), Relation(RelationIdAt(s.sequence + 1), kind, source, target, e.context.issuedAt, e.context.actor))
  }

  /** The revision before `revision`, or `None` for a creation. */
  function PreviousRevision(revision: nat): Option<nat> {
    if revision <= 1 then None else Some(revision - 1)
  }

  /** What a command says caused it, read back as a record's identifier or a placeholder. */
  function CauseOf(e: CommandEnvelope): Option<AuditId> {
    match e.context.causation
    case None => None
    case Some(text) => Some(AuditId(if LooseId(text) then text else "aud-unknown"))
  }

  function AcceptedRecord(e: CommandEnvelope, id: AuditId, affected: Affected): AuditRecord {
    var subject := if affected == [] then None else Some(affected[0].Unversioned());
    var change := if affected == [] then None
                  else Some(ChangeRecord(affected[0].Unversioned(), PreviousRevision(affected[0].revision),
                                         Some(affected[0].revision), Some(e.commandType), None, false, None));
    AuditRecord(id, CommandAccepted, e.context.issuedAt, e.context.actor, e.context.executor, subject,
                Some(e.context.requestId), Some(e.commandId), e.context.correlationId, CauseOf(e),
                e.context.executionId, e.context.task, None, change)
  }

  function RejectedRecord(e: CommandEnvelope, id: AuditId, error: CommandError): AuditRecord {
    AuditRecord(id, CommandRejected, e.context.issuedAt, e.context.actor, e.context.executor, e.target,
                Some(e.context.requestId), Some(e.commandId), e.context.correlationId, None,
                e.context.executionId, e.context.task, Some(DecisionRecord(false, e.payload, Some(error))), None)
  }

  function WithAcceptance(s: State, e: CommandEnvelope, affected: Affected): State {
    WithAudit(Ticked(s), AcceptedRecord(e, AuditIdAt(s.sequence + 1), affected))
  }

  /** A refusal that leaves state alone still ticks the counter and leaves one audit record. */
  function WithRejection(s: State, e: CommandEnvelope, error: CommandError): State {
    WithAudit(Ticked(s), RejectedRecord(e, AuditIdAt(s.sequence + 1), error))
  }

  // ------------------------------------------------------------------ the command arms

  function Mutated(s: State, e: CommandEnvelope, target: EntityRef, change: Change): State
    requires target.id in s.entities
  {
    var entity := Changed(s.entities[target.id], change);
    var metadata := entity.metadata.Advance(e.context.issuedAt, e.context.actor, e.context.executor);
    WithRevision(s.(entities := s.entities[target.id := entity.(metadata := metadata)]),
                 metadata.VersionedReference().id, HistoryRecord(e, metadata.VersionedReference()))
  }

  /** The reference a mutation answers with. */
  function Advanced(s: State, target: EntityRef): VersionedEntityRef
    requires target.id in s.entities
  {
    VersionedEntityRef(s.entities[target.id].metadata.id, s.entities[target.id].metadata.revision + 1)
  }

  function CreateArm(s: State, e: CommandEnvelope, entityType: EntityType, locator: EntityLocator, data: Node): Step<Affected> {
    if locator.Render() in s.locators then Step(s, Err(Conflict(LocatorTaken(locator))))
    else
      var id := EntityIdAt(s.sequence + 1);
      var metadata := NewMetadata(id, locator, entityType, e.context.issuedAt, e.context.actor);
      var stored := WithEntity(Ticked(s), StoredEntity(metadata, data, false));
      var recorded := WithRevision(stored, id, HistoryRecord(e, metadata.VersionedReference()));
      Step(Emitted(recorded, e, "aep.entity.created/v1", data, metadata.VersionedReference()),
           Ok([metadata.VersionedReference()]))
  }

  function UpdateArm(s: State, e: CommandEnvelope, target: EntityRef, changes: map<string, Node>): Step<Affected> {
    match RequireMutable(s, target)
    case Some(error) => Step(s, Err(error))
    case None =>
      match RequireExpected(s, e, target)
      case Some(error) => Step(s, Err(error))
      case None =>
        Step(Emitted(Mutated(s, e, target, Fields(changes)), e, "aep.entity.updated/v1", Map(changes), Advanced(s, target)),
             Ok([Advanced(s, target)]))
  }

  function RelateArm(s: State, e: CommandEnvelope, kind: RelationKind, source: EntityRef, target: EntityRef): Step<Affected> {
    match RequireEntity(s, source)
    case Some(error) => Step(s, Err(error))
    case None =>
      match RequireEntity(s, target)
      case Some(error) => Step(s, Err(error))
      case None => Step(Linked(s, e, kind, source, target), Ok([]))
  }

  function UnrelateArm(s: State, relation: RelationId): Step<Affected> {
    if relation !in s.relations then Step(s, Err(Conflict(NoSuchRelation(relation))))
    else Step(s.(relations := s.relations - {relation}), Ok([]))
  }

  function ArchiveArm(s: State, e: CommandEnvelope, target: EntityRef): Step<Affected> {
    match RequireExpected(s, e, target)
    case Some(error) => Step(s, Err(error))
    case None => Step(Mutated(s, e, target, Archive), Ok([Advanced(s, target)]))
  }

  function SupersedeArm(s: State, e: CommandEnvelope, target: EntityRef, successor: EntityRef): Step<Affected> {
    match RequireEntity(s, successor)
    case Some(error) => Step(s, Err(error))
    case None =>
      match RequireExpected(s, e, target)
      case Some(error) => Step(s, Err(error))
      case None =>
        Step(Linked(Mutated(s, e, target, Status("superseded")), e, Supersedes, successor, target),
             Ok([Advanced(s, target)]))
  }

  function SubmitArm(s: State, e: CommandEnvelope, design: VersionedEntityRef, reviewer: ActorRef): Step<Affected> {
    match RequireRevision(s, design)
    case Some(error) => Step(s, Err(error))
    case None =>
      match RequireExpected(s, e, design.Unversioned())
      case Some(error) => Step(s, Err(error))
      case None =>
        Step(Emitted(Mutated(s, e, design.Unversioned(), Status("in_review")), e,
                     "aep.design.submitted-for-review/v1", Text(ActorText(reviewer)), Advanced(s, design.Unversioned())),
             Ok([Advanced(s, design.Unversioned())]))
  }

  function ActorText(actor: ActorRef): string {
    match actor
    case Human(name) => "human:" + name
    case Agent(name) => "agent:" + name
    case Service(name) => "service:" + name
    case System => "system"
  }

  function ApproveArm(s: State, e: CommandEnvelope, design: VersionedEntityRef, review: EntityRef): Step<Affected> {
    match RequireEntity(s, review)
    case Some(error) => Step(s, Err(error))
    case None =>
      match RequireRevision(s, design)
      case Some(error) => Step(s, Err(error))
      case None =>
        match RequireExpected(s, e, design.Unversioned())
        case Some(error) => Step(s, Err(error))
        case None =>
          Step(Emitted(Mutated(s, e, design.Unversioned(), Status("approved")), e,
                       "aep.design.approved/v1", Text(review.id.text), Advanced(s, design.Unversioned())),
               Ok([Advanced(s, design.Unversioned())]))
  }

  /** The arm that changes the decision record before it looks for the superseded one. */
  function AcceptArm(s: State, e: CommandEnvelope, adr: VersionedEntityRef, supersedes: Option<EntityRef>): Step<Affected> {
    match RequireRevision(s, adr)
    case Some(error) => Step(s, Err(error))
    case None =>
      match RequireExpected(s, e, adr.Unversioned())
      case Some(error) => Step(s, Err(error))
      case None =>
        var accepted := Mutated(s, e, adr.Unversioned(), Status("accepted"));
        var reference := Advanced(s, adr.Unversioned());
        match supersedes
        case None => Step(Emitted(accepted, e, "aep.adr.accepted/v1", Null, reference), Ok([reference]))
        case Some(superseded) =>
          match RequireEntity(accepted, superseded)
          case Some(error) => Step(accepted, Err(error))
          case None =>
            Step(Emitted(Linked(accepted, e, Supersedes, adr.Unversioned(), superseded), e,
                         "aep.adr.accepted/v1", Null, reference),
                 Ok([reference]))
  }

  function Arm(s: State, e: CommandEnvelope): Step<Affected> {
    match e.payload
    case CreateEntity(entityType, locator, data) => CreateArm(s, e, entityType, locator, data)
    case UpdateEntity(target, changes) => UpdateArm(s, e, target, changes)
    case CreateRelation(kind, source, to) => RelateArm(s, e, kind, source, to)
    case RemoveRelation(relation) => UnrelateArm(s, relation)
    case ArchiveEntity(target, _) => ArchiveArm(s, e, target)
    case SupersedeEntity(target, successor, _) => SupersedeArm(s, e, target, successor)
    case SubmitDesignReview(design, reviewer) => SubmitArm(s, e, design, reviewer)
    case ApproveDesign(design, review) => ApproveArm(s, e, design, review)
    case AcceptAdr(adr, supersedes) => AcceptArm(s, e, adr, supersedes)
  }

  // ------------------------------------------------------------------ one command

  function AcceptedResult(s: State, e: CommandEnvelope, affected: Affected): CommandResult {
    CommandResult(e.commandId, Accepted, affected,
                  if s.events == [] then [] else [s.events[|s.events| - 1].eventId],
                  [AuditIdAt(s.sequence)], TokenAt(s.sequence))
  }

  function ApplyValid(s: State, e: CommandEnvelope): Step<CommandResult> {
    var arm := Arm(s, e);
    match arm.answer
    case Err(error) => Step(arm.state, Err(error))
    case Ok(affected) =>
      var recorded := WithAcceptance(arm.state, e, affected);
      Step(recorded, Ok(AcceptedResult(recorded, e, affected)))
  }

  function Apply(s: State, e: CommandEnvelope): Step<CommandResult> {
    var key := e.context.idempotencyKey;
    if key in s.applied then
      if s.applied[key].commandId == e.commandId then
        Step(s, Ok(s.applied[key].result.(outcome := Replayed)))
      else
        var error := IdempotencyMismatch(key, s.applied[key].commandId);
        Step(WithRejection(s, e, error), Err(error))
    else if e.payload.Validate() != [] then
      var error := Invalid(e.payload.Validate());
      Step(WithRejection(s, e, error), Err(error))
    else
      var valid := ApplyValid(s, e);
      match valid.answer
      case Ok(result) => Step(Remembering(valid.state, key, AppliedCommand(e.commandId, result)), Ok(result))
      case Err(error) => Step(WithRejection(valid.state, e, error), Err(error))
  }

  // ------------------------------------------------------------------ the same, in place

  method RecordHistory(store: Store, reference: VersionedEntityRef, e: CommandEnvelope)
    modifies store
    ensures store.View() == WithRevision(old(store.View()), reference.id, HistoryRecord(e, reference))
  {
    store.RecordRevision(reference.id, HistoryRecord(e, reference));
  }

  method Emit(store: Store, e: CommandEnvelope, eventType: string, payload: Node, subject: VersionedEntityRef)
    modifies store
    ensures store.View() == Emitted(old(store.View()), e, eventType, payload, subject)
  {
    var id := store.NextEventId();
    store.RecordEvent(EventFor(e, id, eventType, payload, subject));
  }

  method Relate(store: Store, e: CommandEnvelope, kind: RelationKind, source: EntityRef, target: EntityRef)
    modifies store
    ensures store.View() == Linked(old(store.View()), e, kind, source, target)
  {
    var id := store.NextRelationId();
    store.InsertRelation(Relation(id, kind, source, target, e.context.issuedAt, e.context.actor));
  }

  /** Applies a change to an entity, after checking existence and the asserted revision. */
  method Mutate(store: Store, e: CommandEnvelope, target: EntityRef, change: Change)
    returns (answer: Result<VersionedEntityRef, CommandError>)
    modifies store
    ensures RequireExpected(old(store.View()), e, target).Some? ==>
              store.View() == old(store.View()) && answer == Err(RequireExpected(old(store.View()), e, target).value)
    ensures RequireExpected(old(store.View()), e, target).None? ==>
              store.View() == Mutated(old(store.View()), e, target, change)
              && answer == Ok(Advanced(old(store.View()), target))
  {
    if target.id !in store.entities { return Err(NotFound(target)); }
    var entity := store.entities[target.id];
    if e.expectedRevision.Some? && entity.metadata.revision != e.expectedRevision.value {
      return Err(RevisionConflict(target, e.expectedRevision.value, entity.metadata.revision));
    }
    entity := Changed(entity, change);
    entity := entity.(metadata := entity.metadata.Advance(e.context.issuedAt, e.context.actor, e.context.executor));
    store.entities := store.entities[target.id := entity];
    var reference := entity.metadata.VersionedReference();
    RecordHistory(store, reference, e);
    return Ok(reference);
  }

  method CreateEntity(store: Store, e: CommandEnvelope, entityType: EntityType, locator: EntityLocator, data: Node)
    returns (answer: Result<Affected, CommandError>)
    modifies store
    ensures Step(store.View(), answer) == CreateArm(old(store.View()), e, entityType, locator, data)
  {
    if locator.Render() in store.locators { return Err(Conflict(LocatorTaken(locator))); }
    var id := store.NextEntityId();
    var metadata := NewMetadata(id, locator, entityType, e.context.issuedAt, e.context.actor);
    var reference := metadata.VersionedReference();
    store.InsertEntity(StoredEntity(metadata, data, false));
    RecordHistory(store, reference, e);
    Emit(store, e, "aep.entity.created/v1", data, reference);
    return Ok([reference]);
  }

  method UpdateEntity(store: Store, e: CommandEnvelope, target: EntityRef, changes: map<string, Node>)
    returns (answer: Result<Affected, CommandError>)
    modifies store
    ensures Step(store.View(), answer) == UpdateArm(old(store.View()), e, target, changes)
  {
    var immutable := RequireMutable(store.View(), target);
    if immutable.Some? { return Err(immutable.value); }
    var reference := Mutate(store, e, target, Fields(changes));
    if reference.Err? { return Err(reference.error); }
    Emit(store, e, "aep.entity.updated/v1", Map(changes), reference.value);
    return Ok([reference.value]);
  }

  method CreateRelation(store: Store, e: CommandEnvelope, kind: RelationKind, source: EntityRef, target: EntityRef)
    returns (answer: Result<Affected, CommandError>)
    modifies store
    ensures Step(store.View(), answer) == RelateArm(old(store.View()), e, kind, source, target)
  {
    var missing := RequireEntity(store.View(), source);
    if missing.Some? { return Err(missing.value); }
    missing := RequireEntity(store.View(), target);
    if missing.Some? { return Err(missing.value); }
    Relate(store, e, kind, source, target);
    return Ok([]);
  }

  method RemoveRelation(store: Store, relation: RelationId) returns (answer: Result<Affected, CommandError>)
    modifies store
    ensures Step(store.View(), answer) == UnrelateArm(old(store.View()), relation)
  {
    var removed := store.TakeRelation(relation);
    if !removed {
      assert store.relations == old(store.relations);
      return Err(Conflict(NoSuchRelation(relation)));
    }
    return Ok([]);
  }

  method ArchiveEntity(store: Store, e: CommandEnvelope, target: EntityRef)
    returns (answer: Result<Affected, CommandError>)
    modifies store
    ensures Step(store.View(), answer) == ArchiveArm(old(store.View()), e, target)
  {
    var reference := Mutate(store, e, target, Archive);
    if reference.Err? { return Err(reference.error); }
    return Ok([reference.value]);
  }

  method SupersedeEntity(store: Store, e: CommandEnvelope, target: EntityRef, successor: EntityRef)
    returns (answer: Result<Affected, CommandError>)
    modifies store
    ensures Step(store.View(), answer) == SupersedeArm(old(store.View()), e, target, successor)
  {
    var missing := RequireEntity(store.View(), successor);
    if missing.Some? { return Err(missing.value); }
    var reference := Mutate(store, e, target, Status("superseded"));
    if reference.Err? { return Err(reference.error); }
    Relate(store, e, Supersedes, successor, target);
    return Ok([reference.value]);
  }

  method SubmitDesignReview(store: Store, e: CommandEnvelope, design: VersionedEntityRef, reviewer: ActorRef)
    returns (answer: Result<Affected, CommandError>)
    modifies store
    ensures Step(store.View(), answer) == SubmitArm(old(store.View()), e, design, reviewer)
  {
    var stale := RequireRevision(store.View(), design);
    if stale.Some? { return Err(stale.value); }
    var reference := Mutate(store, e, design.Unversioned(), Status("in_review"));
    if reference.Err? { return Err(reference.error); }
    Emit(store, e, "aep.design.submitted-for-review/v1", Text(ActorText(reviewer)), reference.value);
    return Ok([reference.value]);
  }

  method ApproveDesign(store: Store, e: CommandEnvelope, design: VersionedEntityRef, review: EntityRef)
    returns (answer: Result<Affected, CommandError>)
    modifies store
    ensures Step(store.View(), answer) == ApproveArm(old(store.View()), e, design, review)
  {
    var missing := RequireEntity(store.View(), review);
    if missing.Some? { return Err(missing.value); }
    var stale := RequireRevision(store.View(), design);
    if stale.Some? { return Err(stale.value); }
    var reference := Mutate(store, e, design.Unversioned(), Status("approved"));
    if reference.Err? { return Err(reference.error); }
    Emit(store, e, "aep.design.approved/v1", Text(review.id.text), reference.value);
    return Ok([reference.value]);
  }

  method AcceptAdr(store: Store, e: CommandEnvelope, adr: VersionedEntityRef, supersedes: Option<EntityRef>)
    returns (answer: Result<Affected, CommandError>)
    modifies store
    ensures Step(store.View(), answer) == AcceptArm(old(store.View()), e, adr, supersedes)
  {
    var stale := RequireRevision(store.View(), adr);
    if stale.Some? { return Err(stale.value); }
    var reference := Mutate(store, e, adr.Unversioned(), Status("accepted"));
    if reference.Err? { return Err(reference.error); }
    if supersedes.Some? {
      var missing := RequireEntity(store.View(), supersedes.value);
      if missing.Some? { return Err(missing.value); }
      Relate(store, e, Supersedes, adr.Unversioned(), supersedes.value);
    }
    Emit(store, e, "aep.adr.accepted/v1", Null, reference.value);
    return Ok([reference.value]);
  }

  /** Applies a command that has passed idempotency and validation. */
  method ApplyArm(store: Store, e: CommandEnvelope) returns (answer: Result<Affected, CommandError>)
    modifies store
    ensures Step(store.View(), answer) == Arm(old(store.View()), e)
  {
    match e.payload {
      case CreateEntity(entityType, locator, data) => answer := CreateEntity(store, e, entityType, locator, data);
      case UpdateEntity(target, changes) => answer := UpdateEntity(store, e, target, changes);
      case CreateRelation(kind, source, to) => answer := CreateRelation(store, e, kind, source, to);
      case RemoveRelation(relation) => answer := RemoveRelation(store, relation);
      case ArchiveEntity(target, _) => answer := ArchiveEntity(store, e, target);
      case SupersedeEntity(target, successor, _) => answer := SupersedeEntity(store, e, target, successor);
      case SubmitDesignReview(design, reviewer) => answer := SubmitDesignReview(store, e, design, reviewer);
      case ApproveDesign(design, review) => answer := ApproveDesign(store, e, design, review);
      case AcceptAdr(adr, supersedes) => answer := AcceptAdr(store, e, adr, supersedes);
    }
  }

  method RecordRejection(store: Store, e: CommandEnvelope, error: CommandError)
    modifies store
    ensures store.View() == WithRejection(old(store.View()), e, error)
  {
    var id := store.NextAuditId();
    store.RecordAudit(RejectedRecord(e, id, error));
  }

  method ApplyValidInPlace(store: Store, e: CommandEnvelope) returns (answer: Result<CommandResult, CommandError>)
    modifies store
    ensures Step(store.View(), answer) == ApplyValid(old(store.View()), e)
  {
    hide Arm, AcceptedRecord;
    var affected := ApplyArm(store, e);
    if affected.Err? { return Err(affected.error); }
    var id := store.NextAuditId();
    store.RecordAudit(AcceptedRecord(e, id, affected.value));
    var events := if store.events == [] then [] else [store.events[|store.events| - 1].eventId];
    return Ok(CommandResult(e.commandId, Accepted, affected.value, events, [id], store.Token()));
  }

  /** Applies one command, recording what happened either way. */
  method Execute(store: Store, e: CommandEnvelope) returns (answer: Result<CommandResult, CommandError>)
    modifies store
    ensures Step(store.View(), answer) == Apply(old(store.View()), e)
  {
    var key := e.context.idempotencyKey;
    if key in store.applied {
      if store.applied[key].commandId == e.commandId {
        return Ok(store.applied[key].result.(outcome := Replayed));
      }
      var error := IdempotencyMismatch(key, store.applied[key].commandId);
      RecordRejection(store, e, error);
      return Err(error);
    }
    if e.payload.Validate() != [] {
      var error := Invalid(e.payload.Validate());
      RecordRejection(store, e, error);
      return Err(error);
    }
    answer := ApplyValidInPlace(store, e);
    match answer {
      case Ok(result) => store.Remember(key, AppliedCommand(e.commandId, result));
      case Err(error) => RecordRejection(store, e, error);
    }
  }
}
