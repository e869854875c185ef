/** What accepted commands do to relations and revisions, and that no two of them can be built on the
    same revision (crates/aep-backend-memory/src/command.rs:105-347, 414-517). */
module BackendEffects {
  import opened Wrappers
  import opened ArtifactGraphs
  import opened Entities
  import opened Commands
  import opened Stores
  import opened Backend
  import opened BackendInvariant
  import opened BackendSteps
  import opened BackendRuns

  // ------------------------------------------------------------------ relations

  /** The relation a command is to record. */
  datatype Triple = Triple(kind: RelationKind, source: EntityRef, target: EntityRef)

  function ToRecord(command: Command): Option<Triple> {
    match command
    case CreateRelation(kind, source, to) => Some(Triple(kind, source, to))
    case SupersedeEntity(target, successor, _) => Some(Triple(Supersedes, successor, target))
    case AcceptAdr(adr, Some(superseded)) => Some(Triple(Supersedes, adr.Unversioned(), superseded))
    case _ => None
  }

  /** One relation more, from where to where the triple says. */
  ghost predicate OneRelation(before: map<RelationId, Relation>, after: map<RelationId, Relation>, triple: Triple) {
    exists id, r: Relation :: Adds(before, after, triple, id, r)
  }

  ghost predicate Adds(before: map<RelationId, Relation>, after: map<RelationId, Relation>, triple: Triple, id: RelationId, r: Relation) {
    id !in before && after == before[id := r] && r.kind == triple.kind && r.source == triple.source && r.target == triple.target
  }

  ghost predicate RelationEffect(s: State, e: CommandEnvelope, after: State) {
    if ToRecord(e.payload).Some? then OneRelation(s.relations, after.relations, ToRecord(e.payload).value)
    else if e.payload.RemoveRelation? then e.payload.relation in s.relations && after.relations == s.relations - {e.payload.relation}
    else after.relations == s.relations
  }

  lemma LinkedAdds(s: State, t: State, e: CommandEnvelope, kind: RelationKind, source: EntityRef, target: EntityRef)
    requires RelationIdsOk(s.relations, s.sequence) && t.relations == s.relations && t.sequence == s.sequence
    ensures OneRelation(s.relations, Linked(t, e, kind, source, target).relations, Triple(kind, source, target))
  {
    hide RelationIdAt, RelationIdsOk;
    var id := RelationIdAt(s.sequence + 1);
    var r := Relation(id, kind, source, target, e.context.issuedAt, e.context.actor);
    NewRelationIsFresh(s.relations, s.sequence);
    assert Adds(s.relations, Linked(t, e, kind, source, target).relations, Triple(kind, source, target), id, r);
  }

  lemma NewRelationIsFresh(relations: map<RelationId, Relation>, sequence: nat)
    requires RelationIdsOk(relations, sequence)
    ensures RelationIdAt(sequence + 1) !in relations
  {
    hide RelationIdAt, RelationNumber;
    RelationNumberSurvives(sequence + 1);
  }

  lemma MutatedLinksNothing(s: State, e: CommandEnvelope, target: EntityRef, change: Change)
    requires target.id in s.entities
    ensures Mutated(s, e, target, change).relations == s.relations && Mutated(s, e, target, change).sequence == s.sequence
  {
  }

  lemma EmittedLinksNothing(s: State, e: CommandEnvelope, eventType: string, payload: Node, subject: VersionedEntityRef)
    ensures Emitted(s, e, eventType, payload, subject).relations == s.relations
  {
    hide EventIdAt, EventFor;
  }

  lemma AcceptRelation(s: State, e: CommandEnvelope)
    requires RelationIdsOk(s.relations, s.sequence) && e.payload.AcceptAdr? && Arm(s, e).answer.Ok?
    ensures RelationEffect(s, e, Arm(s, e).state)
  {
    hide Mutated, Emitted, Linked, Advanced, RelationIdsOk, OneRelation;
    var target, supersedes := e.payload.adr.Unversioned(), e.payload.supersedes;
    var accepted, reference := Mutated(s, e, target, Status("accepted")), Advanced(s, target);
    MutatedLinksNothing(s, e, target, Status("accepted"));
    EmittedLinksNothing(accepted, e, "aep.adr.accepted/v1", Null, reference);
    if supersedes.Some? {
      LinkedAdds(s, accepted, e, Supersedes, target, supersedes.value);
      EmittedLinksNothing(Linked(accepted, e, Supersedes, target, supersedes.value), e, "aep.adr.accepted/v1", Null, reference);
    }
  }

  lemma SupersedeRelation(s: State, e: CommandEnvelope)
    requires RelationIdsOk(s.relations, s.sequence) && e.payload.SupersedeEntity? && Arm(s, e).answer.Ok?
    ensures RelationEffect(s, e, Arm(s, e).state)
  {
    hide Mutated, Linked, Advanced, RelationIdsOk, OneRelation;
    MutatedLinksNothing(s, e, e.payload.target, Status("superseded"));
    LinkedAdds(s, Mutated(s, e, e.payload.target, Status("superseded")), e, Supersedes, e.payload.successor, e.payload.target);
  }

  lemma CreateRelationEffect(s: State, e: CommandEnvelope)
    requires RelationIdsOk(s.relations, s.sequence) && e.payload.CreateRelation? && Arm(s, e).answer.Ok?
    ensures RelationEffect(s, e, Arm(s, e).state)
  {
    hide Linked, RelationIdsOk, OneRelation;
    LinkedAdds(s, s, e, e.payload.kind, e.payload.source, e.payload.to);
  }

  lemma CreateLinksNothing(s: State, e: CommandEnvelope)
    requires e.payload.CreateEntity? && Arm(s, e).answer.Ok?
    ensures Arm(s, e).state.relations == s.relations
  {
    hide EntityIdAt, EventIdAt, HistoryRecord, EventFor;
  }

  lemma OtherRelations(s: State, e: CommandEnvelope)
    requires ToRecord(e.payload).None? && !e.payload.AcceptAdr? && Arm(s, e).answer.Ok?
    ensures RelationEffect(s, e, Arm(s, e).state)
  {
    hide Emitted, Mutated, CreateArm, Advanced, ActorText;
    match e.payload {
      case CreateEntity(_, _, _) => CreateLinksNothing(s, e);
      case UpdateEntity(target, changes) =>
        MutatedLinksNothing(s, e, target, Fields(changes));
        EmittedLinksNothing(Mutated(s, e, target, Fields(changes)), e, "aep.entity.updated/v1", Map(changes), Advanced(s, target));
      case ArchiveEntity(target, _) => MutatedLinksNothing(s, e, target, Archive);
      case SubmitDesignReview(design, reviewer) =>
        var target := design.Unversioned();
        MutatedLinksNothing(s, e, target, Status("in_review"));
        EmittedLinksNothing(Mutated(s, e, target, Status("in_review")), e, "aep.design.submitted-for-review/v1",
                            Text(ActorText(reviewer)), Advanced(s, target));
      case ApproveDesign(design, review) =>
        var target := design.Unversioned();
        MutatedLinksNothing(s, e, target, Status("approved"));
        EmittedLinksNothing(Mutated(s, e, target, Status("approved")), e, "aep.design.approved/v1", Text(review.id.text), Advanced(s, target));
      case RemoveRelation(_) =>
    }
  }

  /** An accepted command adds the one relation it names, removes the one it names, or touches none. */
  lemma RelationsChangeAsNamed(s: State, e: CommandEnvelope)
    requires Inv(s) && Arm(s, e).answer.Ok?
    ensures RelationEffect(s, e, Arm(s, e).state)
  {
    hide Arm, RelationEffect, HistoryOk, LocatorsOk, RelationsOk, EntityIdsOk, RelationIdsOk, AuditIdsOk, EventIdsOk, AuditOk;
    if e.payload.AcceptAdr? {
      AcceptRelation(s, e);
    } else if e.payload.SupersedeEntity? {
      SupersedeRelation(s, e);
    } else if e.payload.CreateRelation? {
      CreateRelationEffect(s, e);
    } else {
      OtherRelations(s, e);
    }
  }

  // ------------------------------------------------------------------ optimistic concurrency

  /** The entity a command gives a new revision. */
  function Advances(command: Command): Option<EntityId> {
    match command
    case UpdateEntity(target, _) => Some(target.id)
    case ArchiveEntity(target, _) => Some(target.id)
    case SupersedeEntity(target, _, _) => Some(target.id)
    case SubmitDesignReview(design, _) => Some(design.id)
    case ApproveDesign(design, _) => Some(design.id)
    case AcceptAdr(adr, _) => Some(adr.id)
    case _ => None
  }

  /** This command says the entity is at this revision, in its envelope or in its payload. */
  predicate AssertsRevision(e: CommandEnvelope, id: EntityId, revision: nat) {
    && Advances(e.payload) == Some(id)
    && (e.expectedRevision == Some(revision) || e.payload.ExpectedRevision() == Some(revision))
  }

  /** What an arm that goes through says of the entity it advances. */
  ghost predicate AdvancesOne(s: State, e: CommandEnvelope, id: EntityId, arm: Step<Affected>) {
    && id in s.entities && arm.answer == Ok([VersionedEntityRef(id, s.entities[id].metadata.revision + 1)])
    && forall revision :: AssertsRevision(e, id, revision) ==> s.entities[id].metadata.revision == revision
  }

  lemma GenericArmAdvances(s: State, e: CommandEnvelope, id: EntityId)
    requires HistoryOk(s.entities, s.history) && Arm(s, e).answer.Ok? && Advances(e.payload) == Some(id)
    requires e.payload.UpdateEntity? || e.payload.ArchiveEntity? || e.payload.SupersedeEntity?
    ensures AdvancesOne(s, e, id, Arm(s, e))
  {
    hide Mutated, Emitted, Linked;
  }

  lemma DesignArmAdvances(s: State, e: CommandEnvelope, id: EntityId)
    requires HistoryOk(s.entities, s.history) && Arm(s, e).answer.Ok? && Advances(e.payload) == Some(id)
    requires e.payload.SubmitDesignReview? || e.payload.ApproveDesign?
    ensures AdvancesOne(s, e, id, Arm(s, e))
  {
    hide Mutated, Emitted;
  }

  lemma AdrArmAdvances(s: State, e: CommandEnvelope, id: EntityId)
    requires HistoryOk(s.entities, s.history) && Arm(s, e).answer.Ok? && Advances(e.payload) == Some(id)
    requires e.payload.AcceptAdr?
    ensures AdvancesOne(s, e, id, Arm(s, e))
  {
    hide Mutated, Emitted, Linked;
  }

  /** An arm goes through only at the revision its command asserts, and leaves the next one. */
  lemma ArmAdvances(s: State, e: CommandEnvelope, id: EntityId)
    requires HistoryOk(s.entities, s.history) && Arm(s, e).answer.Ok? && Advances(e.payload) == Some(id)
    ensures AdvancesOne(s, e, id, Arm(s, e))
  {
    hide Arm, AdvancesOne, HistoryOk;
    if e.payload.AcceptAdr? {
      AdrArmAdvances(s, e, id);
    } else if e.payload.SubmitDesignReview? || e.payload.ApproveDesign? {
      DesignArmAdvances(s, e, id);
    } else {
      GenericArmAdvances(s, e, id);
    }
  }

  lemma AcceptanceAdvances(s: State, e: CommandEnvelope, id: EntityId)
    requires Inv(s) && Apply(s, e).answer.Ok? && !IsReplay(s, e) && Advances(e.payload) == Some(id)
    ensures id in s.entities && id in Apply(s, e).state.entities
    ensures forall revision :: AssertsRevision(e, id, revision) ==> s.entities[id].metadata.revision == revision
    ensures Apply(s, e).state.entities[id].metadata.revision == s.entities[id].metadata.revision + 1
  {
    hide Apply, Arm, LocatorsOk, RelationsOk, EntityIdsOk, RelationIdsOk, AuditIdsOk, EventIdsOk, AuditOk;
    hide Grows, AcceptedRecord, AuditIdAt, AcceptedResult, AssertsRevision;
    if e.context.idempotencyKey in s.applied { MismatchRefuses(s, e); }
    AcceptedState(s, e);
    ArmAdvances(s, e, id);
    ArmHasEffect(s, e);
    ApplyKeeps(s, e);
  }

  /** No update is lost: of two commands built on the same revision of an entity, at most one is ever
      accepted. */
  lemma NoUpdateIsLost(run: Run, i: nat, j: nat, id: EntityId, revision: nat)
    requires i < |run| && j < |run| && AcceptedAt(run, i) && AcceptedAt(run, j)
    requires AssertsRevision(run[i], id, revision) && AssertsRevision(run[j], id, revision)
    ensures i == j
  {
    hide Apply, StateAt, IsReplay, Inv;
    if i != j {
      var first, second := if i < j then i else j, if i < j then j else i;
      EveryReachableStateIsSound(run, first);
      EveryReachableStateIsSound(run, second);
      AcceptanceAdvances(StateAt(run, first), run[first], id);
      AcceptanceAdvances(StateAt(run, second), run[second], id);
      StateAtNext(run, first);
      NothingIsLost(run, first + 1, second);
      RevisionsOnlyGrow(StateAt(run, first + 1), StateAt(run, second), id);
      assert false;
    }
  }

  lemma RevisionsOnlyGrow(before: State, after: State, id: EntityId)
    requires Grows(before, after) && id in before.entities
    ensures id in after.entities && before.entities[id].metadata.revision <= after.entities[id].metadata.revision
  {
    hide SameOrigin, HistoryGrows, AppliedGrows;
  }
}
