/** Commands, their envelopes, results and refusals (crates/aep-domain/src/command.rs,
    crates/aep-contract/src/command.rs, crates/aep-contract/src/error.rs). */
module Commands {
  import opened Wrappers
  import opened Entities
  import opened ArtifactGraphs

  datatype Command =
    | CreateEntity(entityType: EntityType, locator: EntityLocator, data: Node)
    | UpdateEntity(target: EntityRef, changes: map<string, Node>)
    | CreateRelation(kind: RelationKind, source: EntityRef, to: EntityRef)
    | RemoveRelation(relation: RelationId)
    | ArchiveEntity(target: EntityRef, reason: Option<string>)
    | SupersedeEntity(target: EntityRef, successor: EntityRef, reason: Option<string>)
    | SubmitDesignReview(design: VersionedEntityRef, reviewer: ActorRef)
    | ApproveDesign(design: VersionedEntityRef, review: EntityRef)
    | AcceptAdr(adr: VersionedEntityRef, supersedes: Option<EntityRef>)
  {
    /** The entity this command mutates, where it mutates an existing one. */
    function Target(): Option<EntityRef> {
      match this
      case CreateEntity(_, _, _) => None
      case RemoveRelation(_) => None
      case UpdateEntity(target, _) => Some(target)
      case ArchiveEntity(target, _) => Some(target)
      case SupersedeEntity(target, _, _) => Some(target)
      case CreateRelation(_, source, _) => Some(source)
      case SubmitDesignReview(design, _) => Some(design.Unversioned())
      case ApproveDesign(design, _) => Some(design.Unversioned())
      case AcceptAdr(adr, _) => Some(adr.Unversioned())
    }

    /** The revision this command asserts the target is at, where it asserts one. */
    function ExpectedRevision(): Option<nat> {
      match this
      case SubmitDesignReview(design, _) => Some(design.revision)
      case ApproveDesign(design, _) => Some(design.revision)
      case AcceptAdr(adr, _) => Some(adr.revision)
      case _ => None
    }

    /** The contradictions visible in the command itself. */
    function Validate(): seq<ValidationCode> {
      match this
      case UpdateEntity(_, changes) => if changes == map[] then [EmptyChange] else []
      case CreateRelation(_, source, to) => if source == to then [SelfReference] else []
      case SupersedeEntity(target, successor, _) => if target == successor then [SelfReference] else []
      case _ => []
    }

    function CommandType(): string {
      match this
      case CreateEntity(_, _, _) => "aep.entity.create/v1"
      case UpdateEntity(_, _) => "aep.entity.update/v1"
      case CreateRelation(_, _, _) => "aep.relation.create/v1"
      case RemoveRelation(_) => "aep.relation.remove/v1"
      case ArchiveEntity(_, _) => "aep.entity.archive/v1"
      case SupersedeEntity(_, _, _) => "aep.entity.supersede/v1"
      case SubmitDesignReview(_, _) => "aep.design.submit-review/v1"
      case ApproveDesign(_, _) => "aep.design.approve/v1"
      case AcceptAdr(_, _) => "aep.adr.accept/v1"
    }
  }

  datatype ValidationCode = EmptyChange | SelfReference

  datatype CommandContext = CommandContext(
    requestId: string,
    idempotencyKey: IdempotencyKey,
    actor: ActorRef,
    executor: Option<ActorRef>,
    correlationId: string,
    causation: Option<string>,
    executionId: Option<string>,
    task: Option<string>,
    issuedAt: Timestamp)

  datatype CommandEnvelope = CommandEnvelope(
    commandId: CommandId,
    commandType: string,
    target: Option<EntityRef>,
    expectedRevision: Option<nat>,
    payload: Command,
    context: CommandContext)

  datatype CommandOutcome = Accepted | Replayed | NoOp

  /** A token for a later read to demand; only the backend that issued it reads it. */
  datatype ConsistencyToken = ConsistencyToken(text: string)

  datatype CommandResult = CommandResult(
    commandId: CommandId,
    outcome: CommandOutcome,
    affected: seq<VersionedEntityRef>,
    events: seq<EventId>,
    audit: seq<AuditId>,
    consistency: ConsistencyToken)

  datatype ConflictReason =
    | LocatorTaken(locator: EntityLocator)
    | ImmutableType(entity: EntityRef)
    | NoSuchRelation(relation: RelationId)
    | UnusableLocator(text: string)
    | UnusableName(name: string)
    | UndeclaredTarget(text: string)
    | NothingAffected(text: string)

  datatype CommandError =
    | RevisionConflict(entity: EntityRef, expected: nat, actual: nat)
    | NotFound(missing: EntityRef)
    | Invalid(errors: seq<ValidationCode>)
    | IdempotencyMismatch(key: IdempotencyKey, original: CommandId)
    | Conflict(why: ConflictReason)
}
