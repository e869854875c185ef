/** Generated identifiers: every one is minted from a value of the counter that no other one of any kind
    ever uses, even after what it named is gone (crates/aep-backend-memory/src/store.rs:64-112). */
module BackendIdentities {
  import opened ArtifactGraphs
  import opened Entities
  import opened Commands
  import opened Audit
  import opened Stores
  import opened Backend
  import opened BackendInvariant
  import opened BackendSteps
  import opened BackendRuns

  datatype Generated =
    | OfEntity(entity: EntityId)
    | OfRelation(relation: RelationId)
    | OfAudit(record: AuditId)
    | OfEvent(event: EventId)

  ghost function NumberOf(g: Generated): nat {
    match g
    case OfEntity(id) => EntityNumber(id)
    case OfRelation(id) => RelationNumber(id)
    case OfAudit(id) => AuditNumber(id)
    case OfEvent(id) => EventNumber(id)
  }

  /** Something in this state bears the identifier. */
  ghost predicate Held(s: State, g: Generated) {
    match g
    case OfEntity(id) => id in s.entities
    case OfRelation(id) => id in s.relations
    case OfAudit(id) => exists i :: 0 <= i < |s.audit| && s.audit[i].auditId == id
    case OfEvent(id) => exists i :: 0 <= i < |s.events| && s.events[i].eventId == id
  }

  ghost predicate Issued(before: State, after: State, g: Generated) { Held(after, g) && !Held(before, g) }

  /** What is new after bears numbers the counter passed on the way, each its own. */
  ghost predicate IssuesApart(before: State, after: State) {
    && before.sequence <= after.sequence
    && (forall g :: Issued(before, after, g) ==> before.sequence < NumberOf(g) <= after.sequence)
    && (forall g, h :: Issued(before, after, g) && Issued(before, after, h) && NumberOf(g) == NumberOf(h) ==> g == h)
  }

  lemma IssuesInTurn(a: State, b: State, c: State)
    requires IssuesApart(a, b) && IssuesApart(b, c)
    ensures IssuesApart(a, c)
  {
    hide Held, NumberOf;
    forall g | Issued(a, c, g) ensures Issued(a, b, g) || Issued(b, c, g) {}
  }

  lemma OneIssued(before: State, after: State, only: Generated)
    requires after.sequence == before.sequence + 1 == NumberOf(only)
    requires forall g :: Issued(before, after, g) ==> g == only
    ensures IssuesApart(before, after)
  {
    hide Held, NumberOf;
  }

  lemma NoneIssued(before: State, after: State)
    requires before.sequence <= after.sequence
    requires forall g :: Held(after, g) ==> Held(before, g)
    ensures IssuesApart(before, after)
  {
    hide Held, NumberOf;
  }

  // ------------------------------------------------------------------ the steps an arm is made of

  lemma CreatedIssues(s: State, e: CommandEnvelope, entity: StoredEntity)
    requires entity.metadata.id == EntityIdAt(s.sequence + 1)
    ensures IssuesApart(s, Created(s, e, entity))
  {
    hide EntityIdAt, EntityNumber, LocatorParts.Render;
    EntityNumberSurvives(s.sequence + 1);
    OneIssued(s, Created(s, e, entity), OfEntity(entity.metadata.id));
  }

  lemma LinkedIssues(s: State, e: CommandEnvelope, kind: RelationKind, source: EntityRef, target: EntityRef)
    ensures IssuesApart(s, Linked(s, e, kind, source, target))
  {
    hide RelationIdAt, RelationNumber;
    RelationNumberSurvives(s.sequence + 1);
    OneIssued(s, Linked(s, e, kind, source, target), OfRelation(RelationIdAt(s.sequence + 1)));
  }

  lemma EmittedIssues(s: State, e: CommandEnvelope, eventType: string, payload: Node, subject: VersionedEntityRef)
    ensures IssuesApart(s, Emitted(s, e, eventType, payload, subject))
  {
    hide EventIdAt, EventNumber, IssuesApart;
    EventNumberSurvives(s.sequence + 1);
    OneIssued(s, Emitted(s, e, eventType, payload, subject), OfEvent(EventIdAt(s.sequence + 1)));
  }

  lemma AuditedIssues(s: State, record: AuditRecord)
    requires record.auditId == AuditIdAt(s.sequence + 1)
    ensures IssuesApart(s, WithAudit(Ticked(s), record))
  {
    hide AuditIdAt, AuditNumber, IssuesApart;
    AuditNumberSurvives(s.sequence + 1);
    OneIssued(s, WithAudit(Ticked(s), record), OfAudit(record.auditId));
  }

  lemma MutatedIssues(s: State, e: CommandEnvelope, target: EntityRef, change: Change)
    requires target.id in s.entities
    ensures IssuesApart(s, Mutated(s, e, target, change))
  {
    hide IssuesApart, Changed;
    NoneIssued(s, Mutated(s, e, target, change));
  }

  lemma UnrelatedIssues(s: State, relation: RelationId)
    ensures IssuesApart(s, s.(relations := s.relations - {relation}))
  {
    hide IssuesApart;
    NoneIssued(s, s.(relations := s.relations - {relation}));
  }

  lemma SameIssues(s: State, key: IdempotencyKey, applied: AppliedCommand)
    ensures IssuesApart(s, s) && IssuesApart(s, Remembering(s, key, applied))
  {
    hide IssuesApart;
    NoneIssued(s, s);
    NoneIssued(s, Remembering(s, key, applied));
  }

  // ------------------------------------------------------------------ the arms

  lemma MutatedThenEmittedIssues(s: State, e: CommandEnvelope, target: EntityRef, change: Change, eventType: string, payload: Node)
    requires target.id in s.entities
    ensures IssuesApart(s, Emitted(Mutated(s, e, target, change), e, eventType, payload, Advanced(s, target)))
  {
    hide IssuesApart, Mutated, Emitted;
    var mutated := Mutated(s, e, target, change);
    MutatedIssues(s, e, target, change);
    EmittedIssues(mutated, e, eventType, payload, Advanced(s, target));
    IssuesInTurn(s, mutated, Emitted(mutated, e, eventType, payload, Advanced(s, target)));
  }

  lemma CreateIssues(s: State, e: CommandEnvelope)
    requires e.payload.CreateEntity?
    ensures IssuesApart(s, Arm(s, e).state)
  {
    hide IssuesApart, EntityIdAt, EventIdAt, LocatorParts.Render, HistoryRecord, Emitted;
    if Arm(s, e).answer.Ok? {
      var id := EntityIdAt(s.sequence + 1);
      var metadata := NewMetadata(id, e.payload.locator, e.payload.entityType, e.context.issuedAt, e.context.actor);
      var entity := StoredEntity(metadata, e.payload.data, false);
      var created := Created(s, e, entity);
      CreatedIssues(s, e, entity);
      EmittedIssues(created, e, "aep.entity.created/v1", e.payload.data, metadata.VersionedReference());
      IssuesInTurn(s, created, Arm(s, e).state);
    } else {
      NoneIssued(s, s);
    }
  }

  lemma ChangeIssues(s: State, e: CommandEnvelope)
    requires e.payload.UpdateEntity? || e.payload.ArchiveEntity? || e.payload.SubmitDesignReview? || e.payload.ApproveDesign?
    ensures IssuesApart(s, Arm(s, e).state)
  {
    hide IssuesApart, Mutated, Emitted, Advanced, RequireMutable, RequireRevision, ActorText;
    NoneIssued(s, s);
    match e.payload
    case UpdateEntity(target, changes) =>
      if target.id in s.entities { MutatedThenEmittedIssues(s, e, target, Fields(changes), "aep.entity.updated/v1", Map(changes)); }
    case ArchiveEntity(target, _) =>
      if target.id in s.entities { MutatedIssues(s, e, target, Archive); }
    case SubmitDesignReview(design, reviewer) =>
      if design.id in s.entities {
        MutatedThenEmittedIssues(s, e, design.Unversioned(), Status("in_review"), "aep.design.submitted-for-review/v1",
                                 Text(ActorText(reviewer)));
      }
    case ApproveDesign(design, review) =>
      if design.id in s.entities {
        MutatedThenEmittedIssues(s, e, design.Unversioned(), Status("approved"), "aep.design.approved/v1", Text(review.id.text));
      }
  }

  lemma RelationIssues(s: State, e: CommandEnvelope)
    requires e.payload.CreateRelation? || e.payload.RemoveRelation? || e.payload.SupersedeEntity?
    ensures IssuesApart(s, Arm(s, e).state)
  {
    hide IssuesApart, Mutated, Linked, Advanced;
    NoneIssued(s, s);
    match e.payload
    case CreateRelation(kind, source, to) => LinkedIssues(s, e, kind, source, to);
    case RemoveRelation(relation) => UnrelatedIssues(s, relation);
    case SupersedeEntity(target, successor, _) =>
      if target.id in s.entities {
        var mutated := Mutated(s, e, target, Status("superseded"));
        MutatedIssues(s, e, target, Status("superseded"));
        LinkedIssues(mutated, e, Supersedes, successor, target);
        IssuesInTurn(s, mutated, Linked(mutated, e, Supersedes, successor, target));
      }
  }

  lemma AcceptIssues(s: State, e: CommandEnvelope)
    requires e.payload.AcceptAdr?
    ensures IssuesApart(s, Arm(s, e).state)
  {
    hide IssuesApart, Mutated, Linked, Emitted, Advanced, RequireRevision, RequireEntity;
    var adr, supersedes := e.payload.adr, e.payload.supersedes;
    NoneIssued(s, s);
    if adr.id in s.entities {
      var accepted, reference := Mutated(s, e, adr.Unversioned(), Status("accepted")), Advanced(s, adr.Unversioned());
      MutatedIssues(s, e, adr.Unversioned(), Status("accepted"));
      EmittedIssues(accepted, e, "aep.adr.accepted/v1", Null, reference);
      IssuesInTurn(s, accepted, Emitted(accepted, e, "aep.adr.accepted/v1", Null, reference));
      if supersedes.Some? {
        var linked := Linked(accepted, e, Supersedes, adr.Unversioned(), supersedes.value);
        LinkedIssues(accepted, e, Supersedes, adr.Unversioned(), supersedes.value);
        EmittedIssues(linked, e, "aep.adr.accepted/v1", Null, reference);
        IssuesInTurn(s, accepted, linked);
        IssuesInTurn(s, linked, Emitted(linked, e, "aep.adr.accepted/v1", Null, reference));
      }
    }
  }

  lemma ArmIssues(s: State, e: CommandEnvelope)
    ensures IssuesApart(s, Arm(s, e).state)
  {
    hide IssuesApart, Arm;
    match e.payload
    case CreateEntity(_, _, _) => CreateIssues(s, e);
    case UpdateEntity(_, _) => ChangeIssues(s, e);
    case CreateRelation(_, _, _) => RelationIssues(s, e);
    case RemoveRelation(_) => RelationIssues(s, e);
    case ArchiveEntity(_, _) => ChangeIssues(s, e);
    case SupersedeEntity(_, _, _) => RelationIssues(s, e);
    case SubmitDesignReview(_, _) => ChangeIssues(s, e);
    case ApproveDesign(_, _) => ChangeIssues(s, e);
    case AcceptAdr(_, _) => AcceptIssues(s, e);
  }

  lemma RejectionIssues(s: State, t: State, e: CommandEnvelope, error: CommandError)
    requires IssuesApart(s, t)
    ensures IssuesApart(s, WithRejection(t, e, error))
  {
    hide IssuesApart, AuditIdAt;
    AuditedIssues(t, RejectedRecord(e, AuditIdAt(t.sequence + 1), error));
    IssuesInTurn(s, t, WithRejection(t, e, error));
  }

  /** Every command issues numbers of its own, accepted, refused or replayed. */
  lemma ApplyIssues(s: State, e: CommandEnvelope)
    ensures IssuesApart(s, Apply(s, e).state)
  {
    hide IssuesApart, Arm, WithRejection, AuditIdAt, WithAudit, Ticked, AcceptedResult, Remembering;
    var key, arm, after := e.context.idempotencyKey, Arm(s, e), Apply(s, e);
    NoneIssued(s, s);
    ArmIssues(s, e);
    if after.answer.Err? {
      RejectionIssues(s, s, e, after.answer.error);
      RejectionIssues(s, arm.state, e, after.answer.error);
    } else if key !in s.applied {
      var affected := arm.answer.value;
      var recorded := WithAcceptance(arm.state, e, affected);
      AcceptedRecordIsNamed(e, AuditIdAt(arm.state.sequence + 1), affected);
      AuditedIssues(arm.state, AcceptedRecord(e, AuditIdAt(arm.state.sequence + 1), affected));
      IssuesInTurn(s, arm.state, recorded);
      SameIssues(recorded, key, AppliedCommand(e.commandId, after.answer.value));
      IssuesInTurn(s, recorded, after.state);
    }
  }

  // ------------------------------------------------------------------ over a whole run

  ghost predicate IssuedAt(run: Run, i: nat, g: Generated)
    requires i < |run|
  {
    Issued(StateAt(run, i), StateAt(run, i + 1), g)
  }

  /** In a run, no identifier is issued twice, whatever became of what it named, and no two of whatever
      kind share a value of the counter. */
  lemma IssuedOnce(run: Run, i: nat, j: nat, g: Generated, h: Generated)
    requires i < |run| && j < |run| && IssuedAt(run, i, g) && IssuedAt(run, j, h)
    requires NumberOf(g) == NumberOf(h)
    ensures i == j && g == h
  {
    hide StateAt, Apply, Issued, NumberOf, EntitiesGrow, HistoryGrows, AppliedGrows;
    StateAtNext(run, i);
    StateAtNext(run, j);
    ApplyIssues(StateAt(run, i), run[i]);
    ApplyIssues(StateAt(run, j), run[j]);
    if i < j { NothingIsLost(run, i + 1, j); }
    if j < i { NothingIsLost(run, j + 1, i); }
  }
}
