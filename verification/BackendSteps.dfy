/** What one command does to a reachable store: it keeps the invariant, a refusal changes nothing but
    the audit trail unless it strands an accepted decision record, and the audit trail follows the
    history (crates/aep-backend-memory/src/command.rs). */
module BackendSteps {
  import opened Wrappers
  import opened ArtifactGraphs
  import opened Entities
  import opened Commands
  import opened Audit
  import opened Stores
  import opened Backend
  import opened BackendInvariant

  // ------------------------------------------------------------------ every arm keeps the invariant

  lemma ThenKeeps(a: State, b: State, c: State)
    requires Keeps(a, b) && Keeps(b, c)
    ensures Keeps(a, c)
  {
    hide Inv;
    GrowsIsTransitive(a, b, c);
  }

  lemma StandingStill(s: State)
    requires Inv(s)
    ensures Keeps(s, s)
  {
    hide Inv;
    NothingShrinks(s);
  }

  lemma CreateArmKeeps(s: State, e: CommandEnvelope, entityType: EntityType, locator: EntityLocator, data: Node)
    requires Inv(s)
    ensures Keeps(s, CreateArm(s, e, entityType, locator, data).state)
  {
    hide Inv, Grows, Emitted, EntityIdAt, WithRevision, WithEntity, Ticked, HistoryRecord;
    StandingStill(s);
    if locator.Render() !in s.locators {
      var metadata := NewMetadata(EntityIdAt(s.sequence + 1), locator, entityType, e.context.issuedAt, e.context.actor);
      var created := Created(s, e, StoredEntity(metadata, data, false));
      CreatedKeeps(s, e, StoredEntity(metadata, data, false));
      EmittedKeeps(created, e, "aep.entity.created/v1", data, metadata.VersionedReference());
      ThenKeeps(s, created, CreateArm(s, e, entityType, locator, data).state);
    }
  }

  lemma MutatedThenEmitted(s: State, e: CommandEnvelope, target: EntityRef, change: Change, eventType: string, payload: Node)
    requires Inv(s) && target.id in s.entities
    ensures Keeps(s, Emitted(Mutated(s, e, target, change), e, eventType, payload, Advanced(s, target)))
  {
    hide Inv, Grows, Emitted, Mutated, Advanced;
    var mutated := Mutated(s, e, target, change);
    MutatedKeeps(s, e, target, change);
    EmittedKeeps(mutated, e, eventType, payload, Advanced(s, target));
    ThenKeeps(s, mutated, Emitted(mutated, e, eventType, payload, Advanced(s, target)));
  }

  lemma MutatedThenLinked(s: State, e: CommandEnvelope, target: EntityRef, change: Change, source: EntityRef, to: EntityRef)
    requires Inv(s) && target.id in s.entities && source.id in s.entities && to.id in s.entities
    ensures Keeps(s, Linked(Mutated(s, e, target, change), e, Supersedes, source, to))
  {
    hide Inv, EntitiesGrow, Linked, Mutated, OneAdvanced;
    var mutated := Mutated(s, e, target, change);
    MutatedKeeps(s, e, target, change);
    MutatedKeepsKeys(s, e, target, change);
    LinkedKeeps(mutated, e, Supersedes, source, to);
    ThenKeeps(s, mutated, Linked(mutated, e, Supersedes, source, to));
  }

  lemma MutatedKeepsKeys(s: State, e: CommandEnvelope, target: EntityRef, change: Change)
    requires target.id in s.entities
    ensures Mutated(s, e, target, change).entities.Keys == s.entities.Keys
  {
  }

  lemma UpdateArmKeeps(s: State, e: CommandEnvelope, target: EntityRef, changes: map<string, Node>)
    requires Inv(s)
    ensures Keeps(s, UpdateArm(s, e, target, changes).state)
  {
    hide Inv, Keeps, Emitted, Mutated, Advanced;
    StandingStill(s);
    if target.id in s.entities {
      MutatedThenEmitted(s, e, target, Fields(changes), "aep.entity.updated/v1", Map(changes));
    }
  }

  lemma RelateArmKeeps(s: State, e: CommandEnvelope, kind: RelationKind, source: EntityRef, target: EntityRef)
    requires Inv(s)
    ensures Keeps(s, RelateArm(s, e, kind, source, target).state)
  {
    hide Inv, Keeps, Linked;
    StandingStill(s);
    if source.id in s.entities && target.id in s.entities {
      LinkedKeeps(s, e, kind, source, target);
    }
  }

  lemma UnrelateArmKeeps(s: State, relation: RelationId)
    requires Inv(s)
    ensures Keeps(s, UnrelateArm(s, relation).state)
  {
    hide Inv, Keeps;
    StandingStill(s);
    UnlinkedKeeps(s, relation);
  }

  lemma ArchiveArmKeeps(s: State, e: CommandEnvelope, target: EntityRef)
    requires Inv(s)
    ensures Keeps(s, ArchiveArm(s, e, target).state)
  {
    hide Inv, Keeps, Mutated, Advanced;
    StandingStill(s);
    if target.id in s.entities {
      MutatedKeeps(s, e, target, Archive);
    }
  }

  lemma SupersedeArmKeeps(s: State, e: CommandEnvelope, target: EntityRef, successor: EntityRef)
    requires Inv(s)
    ensures Keeps(s, SupersedeArm(s, e, target, successor).state)
  {
    hide Inv, Keeps, Mutated, Advanced, Linked;
    StandingStill(s);
    if target.id in s.entities && successor.id in s.entities {
      MutatedThenLinked(s, e, target, Status("superseded"), successor, target);
    }
  }

  lemma SubmitArmKeeps(s: State, e: CommandEnvelope, design: VersionedEntityRef, reviewer: ActorRef)
    requires Inv(s)
    ensures Keeps(s, SubmitArm(s, e, design, reviewer).state)
  {
    hide Inv, Keeps, Mutated, Advanced, Emitted, ActorText;
    StandingStill(s);
    if design.id in s.entities {
      MutatedThenEmitted(s, e, design.Unversioned(), Status("in_review"), "aep.design.submitted-for-review/v1",
                         Text(ActorText(reviewer)));
    }
  }

  lemma ApproveArmKeeps(s: State, e: CommandEnvelope, design: VersionedEntityRef, review: EntityRef)
    requires Inv(s)
    ensures Keeps(s, ApproveArm(s, e, design, review).state)
  {
    hide Inv, Keeps, Mutated, Advanced, Emitted;
    StandingStill(s);
    if design.id in s.entities {
      MutatedThenEmitted(s, e, design.Unversioned(), Status("approved"), "aep.design.approved/v1", Text(review.id.text));
    }
  }

  lemma AcceptArmKeeps(s: State, e: CommandEnvelope, adr: VersionedEntityRef, supersedes: Option<EntityRef>)
    requires Inv(s)
    ensures Keeps(s, AcceptArm(s, e, adr, supersedes).state)
  {
    hide Inv, Keeps, Mutated, Advanced, Emitted, Linked;
    StandingStill(s);
    if adr.id in s.entities {
      var target := adr.Unversioned();
      var reference := Advanced(s, target);
      MutatedKeeps(s, e, target, Status("accepted"));
      MutatedKeepsKeys(s, e, target, Status("accepted"));
      MutatedThenEmitted(s, e, target, Status("accepted"), "aep.adr.accepted/v1", Null);
      if supersedes.Some? && supersedes.value.id in s.entities {
        MutatedThenLinked(s, e, target, Status("accepted"), target, supersedes.value);
        var linked := Linked(Mutated(s, e, target, Status("accepted")), e, Supersedes, target, supersedes.value);
        KeepsReaches(s, linked);
        EmittedKeeps(linked, e, "aep.adr.accepted/v1", Null, reference);
        ThenKeeps(s, linked, Emitted(linked, e, "aep.adr.accepted/v1", Null, reference));
      }
    }
  }

  lemma KeepsReaches(before: State, after: State)
    requires Keeps(before, after)
    ensures Inv(after)
  {
  }

  lemma ArmKeeps(s: State, e: CommandEnvelope)
    requires Inv(s)
    ensures Keeps(s, Arm(s, e).state)
  {
    hide Inv, Keeps, CreateArm, UpdateArm, RelateArm, UnrelateArm, ArchiveArm, SupersedeArm, SubmitArm, ApproveArm, AcceptArm;
    match e.payload {
      case CreateEntity(entityType, locator, data) => CreateArmKeeps(s, e, entityType, locator, data);
      case UpdateEntity(target, changes) => UpdateArmKeeps(s, e, target, changes);
      case CreateRelation(kind, source, to) => RelateArmKeeps(s, e, kind, source, to);
      case RemoveRelation(relation) => UnrelateArmKeeps(s, relation);
      case ArchiveEntity(target, _) => ArchiveArmKeeps(s, e, target);
      case SupersedeEntity(target, successor, _) => SupersedeArmKeeps(s, e, target, successor);
      case SubmitDesignReview(design, reviewer) => SubmitArmKeeps(s, e, design, reviewer);
      case ApproveDesign(design, review) => ApproveArmKeeps(s, e, design, review);
      case AcceptAdr(adr, supersedes) => AcceptArmKeeps(s, e, adr, supersedes);
    }
  }

  // ------------------------------------------------------------------ the records a command leaves

  lemma RecordsAreConsistent(e: CommandEnvelope, id: AuditId, affected: Affected, error: CommandError)
    ensures Consistent(AcceptedRecord(e, id, affected))
    ensures Consistent(RejectedRecord(e, id, error))
  {
  }

  lemma RejectionKeeps(s: State, e: CommandEnvelope, error: CommandError)
    requires Inv(s)
    ensures Keeps(s, WithRejection(s, e, error))
  {
    hide Inv, Keeps, Consistent, AuditIdAt;
    RecordsAreConsistent(e, AuditIdAt(s.sequence + 1), [], error);
    AuditedKeeps(s, RejectedRecord(e, AuditIdAt(s.sequence + 1), error));
  }

  lemma AcceptanceKeeps(s: State, e: CommandEnvelope, affected: Affected)
    requires Inv(s)
    ensures Keeps(s, WithAcceptance(s, e, affected))
  {
    hide Inv, Keeps, Consistent, AuditIdAt, AcceptedRecord;
    RecordsAreConsistent(e, AuditIdAt(s.sequence + 1), affected, Invalid([]));
    assert AcceptedRecord(e, AuditIdAt(s.sequence + 1), affected).auditId == AuditIdAt(s.sequence + 1) by {
      AcceptedRecordIsNamed(e, AuditIdAt(s.sequence + 1), affected);
    }
    AuditedKeeps(s, AcceptedRecord(e, AuditIdAt(s.sequence + 1), affected));
  }

  lemma AcceptedRecordIsNamed(e: CommandEnvelope, id: AuditId, affected: Affected)
    ensures AcceptedRecord(e, id, affected).auditId == id
  {
  }

  // ------------------------------------------------------------------ what an arm records, and what a refusal leaves

  /** The histories after a command affected what it says it affected. */
  function Recorded(s: State, e: CommandEnvelope, affected: Affected): map<EntityId, seq<RevisionRecord>> {
    if affected == [] then s.history
    else s.history[affected[0].id := HistoryOf(s, affected[0].id) + [HistoryRecord(e, affected[0])]]
  }

  /** The decision record passes its own checks, but the record it supersedes is not there. */
  predicate Stranded(s: State, e: CommandEnvelope) {
    && e.payload.AcceptAdr? && e.payload.supersedes.Some?
    && RequireRevision(s, e.payload.adr).None?
    && RequireExpected(s, e, e.payload.adr.Unversioned()).None?
    && e.payload.supersedes.value.id !in s.entities
  }

  /** What a refused arm leaves behind. */
  function AfterRefusal(s: State, e: CommandEnvelope): State {
    if Stranded(s, e) then Mutated(s, e, e.payload.adr.Unversioned(), Status("accepted")) else s
  }

  /** An accepted arm leaves the trail to its caller and appends exactly one revision, to the entity it
      answers with; a refused one leaves `AfterRefusal`. */
  ghost predicate ArmEffect(s: State, e: CommandEnvelope, arm: Step<Affected>) {
    && arm.state.audit == s.audit && arm.state.applied == s.applied
    && (arm.answer.Ok? ==> |arm.answer.value| <= 1 && arm.state.history == Recorded(s, e, arm.answer.value))
    && (arm.answer.Err? ==> arm.state == AfterRefusal(s, e))
    && (Stranded(s, e) ==> arm.answer == Err(NotFound(e.payload.supersedes.value)))
  }

  lemma MutatedRecords(s: State, e: CommandEnvelope, target: EntityRef, change: Change)
    requires HistoryOk(s.entities, s.history) && target.id in s.entities
    ensures Mutated(s, e, target, change).history == Recorded(s, e, [Advanced(s, target)])
    ensures Mutated(s, e, target, change).audit == s.audit && Mutated(s, e, target, change).applied == s.applied
  {
  }

  lemma CreateArmEffect(s: State, e: CommandEnvelope)
    requires HistoryOk(s.entities, s.history) && e.payload.CreateEntity?
    ensures ArmEffect(s, e, CreateArm(s, e, e.payload.entityType, e.payload.locator, e.payload.data))
  {
    hide EntityIdAt, Emitted, HistoryRecord, Recorded, WithRevision, WithEntity, Ticked, HistoryOk;
    var locator := e.payload.locator;
    if locator.Render() !in s.locators {
      var metadata := NewMetadata(EntityIdAt(s.sequence + 1), locator, e.payload.entityType, e.context.issuedAt, e.context.actor);
      var reference := metadata.VersionedReference();
      var entity := StoredEntity(metadata, e.payload.data, false);
      CreatedRecords(s, e, entity);
      EmittedRecords(Created(s, e, entity), e, "aep.entity.created/v1", e.payload.data, reference);
    }
  }

  lemma CreatedRecords(s: State, e: CommandEnvelope, entity: StoredEntity)
    ensures Created(s, e, entity).history == Recorded(s, e, [entity.metadata.VersionedReference()])
    ensures Created(s, e, entity).audit == s.audit && Created(s, e, entity).applied == s.applied
  {
    hide HistoryRecord;
  }

  lemma EmittedRecords(s: State, e: CommandEnvelope, eventType: string, payload: Node, subject: VersionedEntityRef)
    ensures var after := Emitted(s, e, eventType, payload, subject);
            after.history == s.history && after.audit == s.audit && after.applied == s.applied
  {
    hide EventIdAt, EventFor;
  }

  lemma UpdateArmEffect(s: State, e: CommandEnvelope)
    requires HistoryOk(s.entities, s.history) && e.payload.UpdateEntity?
    ensures ArmEffect(s, e, UpdateArm(s, e, e.payload.target, e.payload.changes))
  {
    hide Mutated, EventIdAt, Recorded;
    if e.payload.target.id in s.entities { MutatedRecords(s, e, e.payload.target, Fields(e.payload.changes)); }
  }

  lemma ArchiveArmEffect(s: State, e: CommandEnvelope)
    requires HistoryOk(s.entities, s.history) && e.payload.ArchiveEntity?
    ensures ArmEffect(s, e, ArchiveArm(s, e, e.payload.target))
  {
    hide Mutated, Recorded;
    if e.payload.target.id in s.entities { MutatedRecords(s, e, e.payload.target, Archive); }
  }

  lemma SupersedeArmEffect(s: State, e: CommandEnvelope)
    requires HistoryOk(s.entities, s.history) && e.payload.SupersedeEntity?
    ensures ArmEffect(s, e, SupersedeArm(s, e, e.payload.target, e.payload.successor))
  {
    hide Mutated, RelationIdAt, Recorded;
    if e.payload.target.id in s.entities { MutatedRecords(s, e, e.payload.target, Status("superseded")); }
  }

  lemma SubmitArmEffect(s: State, e: CommandEnvelope)
    requires HistoryOk(s.entities, s.history) && e.payload.SubmitDesignReview?
    ensures ArmEffect(s, e, SubmitArm(s, e, e.payload.design, e.payload.reviewer))
  {
    hide Mutated, EventIdAt, Recorded, ActorText;
    if e.payload.design.id in s.entities { MutatedRecords(s, e, e.payload.design.Unversioned(), Status("in_review")); }
  }

  lemma ApproveArmEffect(s: State, e: CommandEnvelope)
    requires HistoryOk(s.entities, s.history) && e.payload.ApproveDesign?
    ensures ArmEffect(s, e, ApproveArm(s, e, e.payload.design, e.payload.review))
  {
    hide Mutated, EventIdAt, Recorded;
    if e.payload.design.id in s.entities { MutatedRecords(s, e, e.payload.design.Unversioned(), Status("approved")); }
  }

  lemma AcceptArmEffect(s: State, e: CommandEnvelope)
    requires HistoryOk(s.entities, s.history) && e.payload.AcceptAdr?
    ensures ArmEffect(s, e, AcceptArm(s, e, e.payload.adr, e.payload.supersedes))
  {
    hide HistoryOk, Mutated, Advanced, Emitted, Linked, Recorded;
    if e.payload.adr.id in s.entities {
      var target := e.payload.adr.Unversioned();
      var mutated, reference := Mutated(s, e, target, Status("accepted")), Advanced(s, target);
      MutatedRecords(s, e, target, Status("accepted"));
      MutatedKeepsKeys(s, e, target, Status("accepted"));
      EmittedRecords(mutated, e, "aep.adr.accepted/v1", Null, reference);
      if e.payload.supersedes.Some? {
        var linked := Linked(mutated, e, Supersedes, target, e.payload.supersedes.value);
        LinkedRecords(mutated, e, target, e.payload.supersedes.value);
        EmittedRecords(linked, e, "aep.adr.accepted/v1", Null, reference);
      }
    }
  }

  lemma LinkedRecords(s: State, e: CommandEnvelope, source: EntityRef, target: EntityRef)
    ensures var after := Linked(s, e, Supersedes, source, target);
            after.history == s.history && after.audit == s.audit && after.applied == s.applied
  {
    hide RelationIdAt;
  }

  lemma RelationArmsEffect(s: State, e: CommandEnvelope)
    requires e.payload.CreateRelation? || e.payload.RemoveRelation?
    ensures ArmEffect(s, e, Arm(s, e))
  {
    hide RelationIdAt;
  }

  lemma ArmHasEffect(s: State, e: CommandEnvelope)
    requires HistoryOk(s.entities, s.history)
    ensures ArmEffect(s, e, Arm(s, e))
  {
    hide ArmEffect, CreateArm, UpdateArm, RelateArm, UnrelateArm, ArchiveArm, SupersedeArm, SubmitArm, ApproveArm, AcceptArm;
    match e.payload {
      case CreateEntity(_, _, _) => CreateArmEffect(s, e);
      case UpdateEntity(_, _) => UpdateArmEffect(s, e);
      case CreateRelation(_, _, _) => RelationArmsEffect(s, e);
      case RemoveRelation(_) => RelationArmsEffect(s, e);
      case ArchiveEntity(_, _) => ArchiveArmEffect(s, e);
      case SupersedeEntity(_, _, _) => SupersedeArmEffect(s, e);
      case SubmitDesignReview(_, _) => SubmitArmEffect(s, e);
      case ApproveDesign(_, _) => ApproveArmEffect(s, e);
      case AcceptAdr(_, _) => AcceptArmEffect(s, e);
    }
  }

  // ------------------------------------------------------------------ the refusal frame

  /** This command, sent now, strands a decision record. */
  predicate Strands(s: State, e: CommandEnvelope) {
    e.context.idempotencyKey !in s.applied && Stranded(s, e)
  }

  /** Only the audit trail and the counter moved, by one refusal. */
  ghost predicate OnlyRefused(before: State, after: State, e: CommandEnvelope, error: CommandError) {
    && after.entities == before.entities && after.locators == before.locators && after.relations == before.relations
    && after.history == before.history && after.events == before.events && after.applied == before.applied
    && after.sequence == before.sequence + 1
    && |after.audit| == |before.audit| + 1 && after.audit[..|before.audit|] == before.audit
    && var last := after.audit[|before.audit|];
       last.kind == CommandRejected && last.change.None? && last.commandId == Some(e.commandId)
       && last.decision == Some(DecisionRecord(false, e.payload, Some(error)))
  }

  lemma RefusalState(s: State, e: CommandEnvelope)
    requires HistoryOk(s.entities, s.history) && Apply(s, e).answer.Err?
    ensures Apply(s, e).state == WithRejection(if Strands(s, e) then AfterRefusal(s, e) else s, e, Apply(s, e).answer.error)
  {
    hide HistoryOk, Arm, WithAcceptance, AcceptedResult, WithRejection, RequireExpected, RequireRevision;
    ArmHasEffect(s, e);
  }

  lemma StrandingAnswers(s: State, e: CommandEnvelope)
    requires HistoryOk(s.entities, s.history) && Strands(s, e)
    ensures Apply(s, e).answer == Err(NotFound(e.payload.supersedes.value))
  {
    hide HistoryOk, Arm, WithAcceptance, AcceptedResult, WithRejection, RequireExpected, RequireRevision;
    ArmHasEffect(s, e);
  }

  /** A refusal leaves everything but the audit trail and the counter as it was exactly when the
      command does not strand a decision record. */
  lemma RefusalFrame(s: State, e: CommandEnvelope)
    requires HistoryOk(s.entities, s.history) && Apply(s, e).answer.Err?
    ensures OnlyRefused(s, Apply(s, e).state, e, Apply(s, e).answer.error) <==> !Strands(s, e)
  {
    hide HistoryOk, Apply, Mutated, RequireExpected, RequireRevision;
    RefusalState(s, e);
    if Strands(s, e) {
      var target := e.payload.adr.Unversioned();
      assert target.id in s.entities by { StrandedIsThere(s, e); }
      MutatedAdvancesOne(s, e, target, Status("accepted"));
      var after := AfterRefusal(s, e);
      assert after.entities[target.id] != s.entities[target.id];
    }
  }

  lemma StrandedIsThere(s: State, e: CommandEnvelope)
    requires Stranded(s, e)
    ensures e.payload.adr.id in s.entities
  {
  }

  /** What the one exception leaves: the record accepted and one revision on, the refusal in the audit
      trail, and nothing else. */
  lemma WhatStrandingLeaves(s: State, e: CommandEnvelope)
    requires HistoryOk(s.entities, s.history) && Strands(s, e)
    ensures e.payload.adr.id in s.entities
    ensures AcceptedWithoutRecord(s, Apply(s, e).state, e)
  {
    hide Apply, HistoryOk, RejectedRecord, AuditIdAt, OneAdvanced, Mutated, Strands;
    StrandedShape(s, e);
    var target := e.payload.adr.Unversioned();
    StrandingAnswers(s, e);
    RefusalState(s, e);
    MutatedAdvancesOne(s, e, target, Status("accepted"));
    MutatedShape(s, e, target, Status("accepted"));
    MutatedSetsStatus(s, e, target, "accepted");
    MutatedIdentity(s, target);
  }

  lemma StrandedShape(s: State, e: CommandEnvelope)
    requires Strands(s, e)
    ensures e.payload.AcceptAdr? && e.payload.supersedes.Some? && e.payload.adr.id in s.entities
    ensures AfterRefusal(s, e) == Mutated(s, e, e.payload.adr.Unversioned(), Status("accepted"))
    ensures s.entities[e.payload.adr.id].metadata.revision == e.payload.adr.revision
  {
  }

  lemma MutatedIdentity(s: State, target: EntityRef)
    requires HistoryOk(s.entities, s.history) && target.id in s.entities
    ensures s.entities[target.id].metadata.id == target.id && target.id in s.history
  {
  }

  lemma MutatedSetsStatus(s: State, e: CommandEnvelope, target: EntityRef, status: string)
    requires target.id in s.entities
    ensures target.id in Mutated(s, e, target, Status(status)).entities
    ensures Mutated(s, e, target, Status(status)).entities[target.id].data == SetStatus(s.entities[target.id].data, status)
  {
  }

  ghost predicate AcceptedWithoutRecord(s: State, after: State, e: CommandEnvelope)
    requires e.payload.AcceptAdr? && e.payload.supersedes.Some? && e.payload.adr.id in s.entities
  {
    var id := e.payload.adr.id;
    && OneAdvanced(s.entities, after.entities, id)
    && after.entities[id].data == SetStatus(s.entities[id].data, "accepted")
    && id in s.history
    && after.history == s.history[id := s.history[id] + [HistoryRecord(e, VersionedEntityRef(id, e.payload.adr.revision + 1))]]
    && after.relations == s.relations && after.locators == s.locators
    && after.events == s.events && after.applied == s.applied && after.sequence == s.sequence + 1
    && after.audit == s.audit + [RejectedRecord(e, AuditIdAt(s.sequence + 1), NotFound(e.payload.supersedes.value))]
  }

  // ------------------------------------------------------------------ and so does the whole command

  lemma AcceptedState(s: State, e: CommandEnvelope)
    requires e.context.idempotencyKey !in s.applied && Apply(s, e).answer.Ok?
    ensures Arm(s, e).answer.Ok?
    ensures var recorded := WithAcceptance(Arm(s, e).state, e, Arm(s, e).answer.value);
            var result := AcceptedResult(recorded, e, Arm(s, e).answer.value);
            Apply(s, e) == Step(Remembering(recorded, e.context.idempotencyKey, AppliedCommand(e.commandId, result)), Ok(result))
  {
    hide Arm, WithAcceptance, AcceptedResult, Remembering, WithRejection;
  }

  /** A command sent under a key that was accepted for the same command: the answer is the first one,
      marked as a replay, and nothing changes. */
  lemma ReplayStandsStill(s: State, e: CommandEnvelope)
    requires e.context.idempotencyKey in s.applied && s.applied[e.context.idempotencyKey].commandId == e.commandId
    ensures Apply(s, e) == Step(s, Ok(s.applied[e.context.idempotencyKey].result.(outcome := Replayed)))
  {
  }

  lemma AcceptanceLeavesApplied(s: State, e: CommandEnvelope)
    requires HistoryOk(s.entities, s.history) && Arm(s, e).answer.Ok?
    ensures WithAcceptance(Arm(s, e).state, e, Arm(s, e).answer.value).applied == s.applied
  {
    hide Arm, AcceptedRecord, AuditIdAt;
    ArmHasEffect(s, e);
  }

  lemma RefusalKeeps(s: State, e: CommandEnvelope)
    requires Inv(s) && Apply(s, e).answer.Err?
    ensures Keeps(s, Apply(s, e).state)
  {
    hide Keeps, Inv, Apply, Mutated, WithRejection;
    InvHasHistory(s);
    RefusalState(s, e);
    var before := if Strands(s, e) then AfterRefusal(s, e) else s;
    StandingStill(s);
    if Strands(s, e) {
      StrandedIsThere(s, e);
      MutatedKeeps(s, e, e.payload.adr.Unversioned(), Status("accepted"));
    }
    KeepsReaches(s, before);
    RejectionKeeps(before, e, Apply(s, e).answer.error);
    ThenKeeps(s, before, Apply(s, e).state);
  }

  lemma InvHasHistory(s: State)
    requires Inv(s)
    ensures HistoryOk(s.entities, s.history)
  {
    hide HistoryOk;
  }

  lemma AcceptedKeeps(s: State, e: CommandEnvelope)
    requires Inv(s) && e.context.idempotencyKey !in s.applied && Apply(s, e).answer.Ok?
    ensures Keeps(s, Apply(s, e).state)
  {
    hide Keeps, Inv, Apply, Arm, WithAcceptance, AcceptedResult, Remembering;
    AcceptedState(s, e);
    var arm := Arm(s, e);
    var recorded := WithAcceptance(arm.state, e, arm.answer.value);
    ArmKeeps(s, e);
    KeepsReaches(s, arm.state);
    AcceptanceKeeps(arm.state, e, arm.answer.value);
    ThenKeeps(s, arm.state, recorded);
    KeepsReaches(s, recorded);
    InvHasHistory(s);
    AcceptanceLeavesApplied(s, e);
    RememberingKeeps(recorded, e.context.idempotencyKey, AppliedCommand(e.commandId, AcceptedResult(recorded, e, arm.answer.value)));
    ThenKeeps(s, recorded, Apply(s, e).state);
  }

  lemma MismatchRefuses(s: State, e: CommandEnvelope)
    requires e.context.idempotencyKey in s.applied && s.applied[e.context.idempotencyKey].commandId != e.commandId
    ensures Apply(s, e).answer == Err(IdempotencyMismatch(e.context.idempotencyKey, s.applied[e.context.idempotencyKey].commandId))
  {
    hide WithRejection;
  }

  /** Every command, accepted, refused or replayed, keeps the invariant and only grows the store. */
  lemma ApplyKeeps(s: State, e: CommandEnvelope)
    requires Inv(s)
    ensures Keeps(s, Apply(s, e).state)
  {
    hide Keeps, Inv, Apply;
    var key := e.context.idempotencyKey;
    if Apply(s, e).answer.Err? {
      RefusalKeeps(s, e);
    } else if key !in s.applied {
      AcceptedKeeps(s, e);
    } else if s.applied[key].commandId == e.commandId {
      ReplayStandsStill(s, e);
      StandingStill(s);
    } else {
      MismatchRefuses(s, e);
    }
  }
}
