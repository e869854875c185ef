/** Audit records and the rules a record must satisfy (crates/aep-domain/src/audit.rs). */
module Audit {
  import opened Wrappers
  import opened Entities
  import opened Commands

  datatype AuditKind =
    | CommandAttempted | CommandAccepted | CommandRejected
    | EntityCreated | EntityUpdated | EntityArchived | EntitySuperseded
    | RelationCreated | RelationRemoved | ProtocolDecision
    | ApprovalRequested | ApprovalGranted | ApprovalDenied
    | TransitionPerformed | TransitionBlocked | EvidenceRecorded | VerificationCompleted
  {
    predicate IsRefusal() { CommandRejected? || ApprovalDenied? || TransitionBlocked? }
    predicate RecordsAMutation() { EntityCreated? || EntityUpdated? || EntityArchived? || EntitySuperseded? }
  }

  /** Why something was refused: the command attempted and the error it met. */
  datatype DecisionRecord = DecisionRecord(allowed: bool, operation: Command, error: Option<CommandError>)

  datatype ChangeRecord = ChangeRecord(
    entity: EntityRef,
    before: Option<nat>,
    after: Option<nat>,
    command: Option<string>,
    payload: Option<Node>,
    redacted: bool,
    redactionReason: Option<string>)

  datatype AuditRecord = AuditRecord(
    auditId: AuditId,
    kind: AuditKind,
    occurredAt: Timestamp,
    actor: ActorRef,
    executor: Option<ActorRef>,
    subject: Option<EntityRef>,
    requestId: Option<string>,
    commandId: Option<CommandId>,
    correlationId: string,
    causation: Option<AuditId>,
    executionId: Option<string>,
    task: Option<string>,
    decision: Option<DecisionRecord>,
    change: Option<ChangeRecord>)
  {
    predicate IsRejection() {
      kind.IsRefusal() || (decision.Some? && !decision.value.allowed)
    }
  }

  datatype AuditDefect = RefusalMutatedState | UnexplainedDecision | UnreconstructableChange | RedactionInconsistent

  /** The kinds of record that tell of something refused, and those that tell of an entity changed. */
  ghost predicate RefusalKind(kind: AuditKind) { kind in {CommandRejected, ApprovalDenied, TransitionBlocked} }

  ghost predicate MutationKind(kind: AuditKind) { kind in {EntityCreated, EntityUpdated, EntityArchived, EntitySuperseded} }

  ghost predicate Refuses(record: AuditRecord) {
    RefusalKind(record.kind) || (record.decision.Some? && !record.decision.value.allowed)
  }

  /** `AuditRecord::validate`: every defect found, in the order the checks run. */
  method Validate(record: AuditRecord) returns (errors: seq<AuditDefect>)
    ensures errors == [] <==> Consistent(record)
    ensures RefusalMutatedState in errors <==>
            (Refuses(record) && record.change.Some?)
            || (RefusalKind(record.kind) && record.decision.Some? && record.decision.value.allowed)
    ensures UnexplainedDecision in errors <==> record.kind == ProtocolDecision && record.decision.None?
    ensures UnreconstructableChange in errors <==>
            if record.change.Some? then record.change.value.before.None? && record.change.value.after.None?
            else MutationKind(record.kind)
    ensures RedactionInconsistent in errors <==>
            record.change.Some? && if record.change.value.redacted then record.change.value.payload.Some?
                                   else record.change.value.redactionReason.Some?
  {
    errors := [];
    if record.IsRejection() && record.change.Some? {
      errors := errors + [RefusalMutatedState];
    }
    if record.decision.Some? {
      if record.kind.IsRefusal() && record.decision.value.allowed {
        errors := errors + [RefusalMutatedState];
      }
    } else if record.kind == ProtocolDecision {
      errors := errors + [UnexplainedDecision];
    }
    if record.change.Some? {
      var change := record.change.value;
      if change.before.None? && change.after.None? {
        errors := errors + [UnreconstructableChange];
      }
      if change.redacted && change.payload.Some? {
        errors := errors + [RedactionInconsistent];
      }
      if !change.redacted && change.redactionReason.Some? {
        errors := errors + [RedactionInconsistent];
      }
    } else if record.kind.RecordsAMutation() {
      errors := errors + [UnreconstructableChange];
    }
  }

  /** A refusal changes nothing and says so; a mutation names its revisions; a redaction is whole. */
  ghost predicate Consistent(record: AuditRecord) {
    && (Refuses(record) ==> record.change.None?)
    && (RefusalKind(record.kind) && record.decision.Some? ==> !record.decision.value.allowed)
    && (record.kind == ProtocolDecision ==> record.decision.Some?)
    && (MutationKind(record.kind) ==> record.change.Some?)
    && (record.change.Some? ==>
          var change := record.change.value;
          && (change.before.Some? || change.after.Some?)
          && (change.redacted ==> change.payload.None?)
          && (change.redactionReason.Some? ==> change.redacted))
  }
}
