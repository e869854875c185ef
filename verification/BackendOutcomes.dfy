/** What an accepted command leaves of a store, part by part: the entity it advances or creates, the
    relation, the revision, the event and the record it adds, and everything it leaves alone
    (crates/aep-backend-memory/src/command.rs:54-103, 113-409, 520-611, crates/aep-backend-memory/src/store.rs). */
module BackendOutcomes {
  import opened Wrappers
  import opened ArtifactGraphs
  import opened Entities
  import opened Commands
  import opened Audit
  import opened Stores
  import opened Backend
  import opened BackendInvariant
  import opened BackendSteps
  import opened BackendRuns
  import opened BackendEvents
  import opened BackendEffects
  import Decimal

  // ------------------------------------------------------------------ generated names

  /** How each kind of generated name is written. */
  lemma NamesAreWritten(n: nat)
    ensures EntityIdAt(n).text == "01MEM" + Decimal.Pad(n, 16)
    ensures RelationIdAt(n).text == "rel-" + Decimal.Pad(n, 12)
    ensures AuditIdAt(n).text == "aud-" + Decimal.Pad(n, 12)
    ensures EventIdAt(n).text == "evt-" + Decimal.Pad(n, 12)
    ensures TokenAt(n).text == "seq-" + Decimal.Pad(n, 12)
  {
  }

  // ------------------------------------------------------------------ what a command says it does

  /** What an advancing command sets in the body of the entity it advances. */
  function SetBy(command: Command): map<string, Node> {
    match command
    case UpdateEntity(_, changes) => changes
    case ArchiveEntity(_, _) => map["status" := Text("archived")]
    case SupersedeEntity(_, _, _) => map["status" := Text("superseded")]
    case SubmitDesignReview(_, _) => map["status" := Text("in_review")]
    case ApproveDesign(_, _) => map["status" := Text("approved")]
    case AcceptAdr(_, _) => map["status" := Text("accepted")]
    case _ => map[]
  }

  datatype Notice = Notice(eventType: string, payload: Node)

  function Named(actor: ActorRef): string {
    match actor
    case Human(name) => "human:" + name
    case Agent(name) => "agent:" + name
    case Service(name) => "service:" + name
    case System => "system"
  }

  /** The event a command emits, where it emits one. */
  function NoticeOf(command: Command): Option<Notice> {
    match command
    case CreateEntity(_, _, data) => Some(Notice("aep.entity.created/v1", data))
    case UpdateEntity(_, changes) => Some(Notice("aep.entity.updated/v1", Map(changes)))
    case SubmitDesignReview(_, reviewer) => Some(Notice("aep.design.submitted-for-review/v1", Text(Named(reviewer))))
    case ApproveDesign(_, review) => Some(Notice("aep.design.approved/v1", Text(review.id.text)))
    case AcceptAdr(_, _) => Some(Notice("aep.adr.accepted/v1", Null))
    case _ => None
  }

  /** How many names a command draws before its audit record's. */
  function Draws(command: Command): nat {
    match command
    case CreateEntity(_, _, _) => 2
    case UpdateEntity(_, _) => 1
    case CreateRelation(_, _, _) => 1
    case RemoveRelation(_) => 0
    case ArchiveEntity(_, _) => 0
    case SupersedeEntity(_, _, _) => 1
    case SubmitDesignReview(_, _) => 1
    case ApproveDesign(_, _) => 1
    case AcceptAdr(_, supersedes) => if supersedes.Some? then 2 else 1
  }

  // ------------------------------------------------------------------ entities and their histories

  ghost predicate MetadataAdvances(was: EntityMetadata, now: EntityMetadata, e: CommandEnvelope) {
    && now.id == was.id && now.locator == was.locator && now.entityType == was.entityType && now.createdAt == was.createdAt
    && now.provenance.createdBy == was.provenance.createdBy && now.provenance.createdExecutor == was.provenance.createdExecutor
    && now.revision == was.revision + 1 && now.updatedAt == e.context.issuedAt
    && now.provenance.updatedBy == e.context.actor && now.provenance.updatedExecutor == e.context.executor
  }

  ghost predicate BodyChanges(was: Node, now: Node, changes: map<string, Node>) {
    now.Map? && forall key :: Held(now, key) == if key in changes then Some(changes[key]) else Held(was, key)
  }

  /** The next revision of one entity, and no other entity touched. */
  ghost predicate EntityAdvances(s: State, after: State, e: CommandEnvelope, id: EntityId) {
    && id in s.entities && id in after.entities && after.entities == s.entities[id := after.entities[id]]
    && MetadataAdvances(s.entities[id].metadata, after.entities[id].metadata, e)
    && BodyChanges(s.entities[id].data, after.entities[id].data, SetBy(e.payload))
    && after.entities[id].archived == (s.entities[id].archived || e.payload.ArchiveEntity?)
    && after.locators == s.locators
  }

  /** A new entity under a new name, at its first revision, by whom and when the command says. */
  ghost predicate EntityAppears(s: State, after: State, e: CommandEnvelope)
    requires e.payload.CreateEntity?
  {
    var id := EntityIdAt(s.sequence + 1);
    && id !in s.entities && id in after.entities && after.entities == s.entities[id := after.entities[id]]
    && after.locators == s.locators[e.payload.locator.Render() := id]
    && after.entities[id].data == e.payload.data && !after.entities[id].archived
    && var made := after.entities[id].metadata;
       && made.id == id && made.locator == e.payload.locator && made.entityType == e.payload.entityType
       && made.revision == 1 && made.createdAt == e.context.issuedAt && made.updatedAt == e.context.issuedAt
       && made.provenance.createdBy == e.context.actor && made.provenance.createdExecutor == None
       && made.provenance.updatedBy == e.context.actor && made.provenance.updatedExecutor == None
  }

  /** One more revision in one history. */
  ghost predicate RevisionAppears(s: State, after: State, e: CommandEnvelope, id: EntityId, revision: nat) {
    && after.history.Keys == s.history.Keys + {id}
    && (forall other :: other in s.history && other != id ==> after.history[other] == s.history[other])
    && |after.history[id]| == revision && (id in s.history ==> s.history[id] <= after.history[id])
    && revision > 0
    && var last := after.history[id][revision - 1];
       && last.revision == revision && last.at == e.context.issuedAt && last.actor == e.context.actor
       && last.executor == e.context.executor && last.commandId == Some(e.commandId)
  }

  /** What a command affects, at the revision it leaves it at. */
  ghost function AffectedBy(s: State, e: CommandEnvelope): Affected {
    if e.payload.CreateEntity? then [VersionedEntityRef(EntityIdAt(s.sequence + 1), 1)]
    else
      match Advances(e.payload)
      case None => []
      case Some(id) => if id in s.entities then [VersionedEntityRef(id, s.entities[id].metadata.revision + 1)] else []
  }

  ghost predicate EntitiesAsSaid(s: State, after: State, e: CommandEnvelope) {
    if e.payload.CreateEntity? then
      EntityAppears(s, after, e) && RevisionAppears(s, after, e, EntityIdAt(s.sequence + 1), 1)
    else
      match Advances(e.payload)
      case None => after.entities == s.entities && after.locators == s.locators && after.history == s.history
      case Some(id) =>
        && EntityAdvances(s, after, e, id)
        && RevisionAppears(s, after, e, id, s.entities[id].metadata.revision + 1)
  }

  // ------------------------------------------------------------------ relations and events

  ghost predicate RelationsAsSaid(s: State, after: State, e: CommandEnvelope) {
    match ToRecord(e.payload)
    case Some(triple) =>
      var id := RelationIdAt(s.sequence + 1);
      && id !in s.relations && id in after.relations && after.relations == s.relations[id := after.relations[id]]
      && var made := after.relations[id];
         && made.id == id && made.kind == triple.kind && made.source == triple.source && made.target == triple.target
         && made.createdAt == e.context.issuedAt && made.createdBy == e.context.actor
    case None =>
      if e.payload.RemoveRelation? then
        && after.relations.Keys == s.relations.Keys - {e.payload.relation}
        && forall id :: id in after.relations ==> after.relations[id] == s.relations[id]
      else after.relations == s.relations
  }

  ghost predicate EventsAsSaid(s: State, after: State, e: CommandEnvelope) {
    match NoticeOf(e.payload)
    case None => after.events == s.events
    case Some(notice) =>
      && |after.events| == |s.events| + 1 && after.events[..|s.events|] == s.events
      && |AffectedBy(s, e)| == 1
      && var event := after.events[|s.events|];
         && event.eventId == EventIdAt(s.sequence + Draws(e.payload))
         && event.eventType == notice.eventType && event.payload == notice.payload
         && event.subject.id == AffectedBy(s, e)[0].id && event.entityRevision == AffectedBy(s, e)[0].revision
         && event.commandId == e.commandId && event.correlationId == e.context.correlationId
         && event.executionId == e.context.executionId && event.occurredAt == e.context.issuedAt && event.actor == e.context.actor
  }

  // ------------------------------------------------------------------ the arms

  ghost predicate ArmDoes(s: State, e: CommandEnvelope, arm: Step<Affected>) {
    && arm.answer == Ok(AffectedBy(s, e)) && EntitiesAsSaid(s, arm.state, e)
    && RelationsAsSaid(s, arm.state, e) && EventsAsSaid(s, arm.state, e)
    && arm.state.audit == s.audit && arm.state.applied == s.applied && arm.state.sequence == s.sequence + Draws(e.payload)
  }

  lemma ChangedBody(entity: StoredEntity, change: Change, changes: map<string, Node>)
    requires forall key :: SetTo(change, key) == if key in changes then Some(changes[key]) else None
    ensures BodyChanges(entity.data, Changed(entity, change).data, changes)
  {
    hide Held, SetTo, Changed;
    forall key ensures Held(Changed(entity, change).data, key) == if key in changes then Some(changes[key]) else Held(entity.data, key) {
      ChangedHolds(entity, change, key);
    }
    ChangedIsMap(entity, change);
  }

  lemma ChangedIsMap(entity: StoredEntity, change: Change)
    ensures Changed(entity, change).data.Map?
  {
  }

  lemma MutatedMetadata(s: State, e: CommandEnvelope, target: EntityRef, change: Change)
    requires target.id in s.entities
    ensures var after := Mutated(s, e, target, change).entities;
            && after == s.entities[target.id := after[target.id]]
            && MetadataAdvances(s.entities[target.id].metadata, after[target.id].metadata, e)
            && after[target.id].data == Changed(s.entities[target.id], change).data
            && after[target.id].archived == (s.entities[target.id].archived || change == Archive)
  {
  }

  lemma MutatedRevision(s: State, e: CommandEnvelope, target: EntityRef, change: Change)
    requires HistoryOk(s.entities, s.history) && target.id in s.entities
    ensures RevisionAppears(s, Mutated(s, e, target, change), e, target.id, s.entities[target.id].metadata.revision + 1)
  {
    hide HistoryOk, Mutated;
    MutatedShape(s, e, target, change);
    HistoryIsThere(s, target.id);
  }

  lemma HistoryIsThere(s: State, id: EntityId)
    requires HistoryOk(s.entities, s.history) && id in s.entities
    ensures id in s.history && |s.history[id]| == s.entities[id].metadata.revision && s.entities[id].metadata.id == id
  {
  }

  ghost predicate IsChange(e: CommandEnvelope, change: Change) {
    && (forall key :: SetTo(change, key) == if key in SetBy(e.payload) then Some(SetBy(e.payload)[key]) else None)
    && (change == Archive <==> e.payload.ArchiveEntity?)
  }

  /** A mutation with the command's own change advances the entity as said. */
  lemma MutatedAsSaid(s: State, e: CommandEnvelope, target: EntityRef, change: Change)
    requires HistoryOk(s.entities, s.history) && target.id in s.entities && Advances(e.payload) == Some(target.id) && IsChange(e, change)
    ensures EntitiesAsSaid(s, Mutated(s, e, target, change), e)
    ensures [Advanced(s, target)] == AffectedBy(s, e)
    ensures var after := Mutated(s, e, target, change);
            after.relations == s.relations && after.events == s.events && after.audit == s.audit
            && after.applied == s.applied && after.sequence == s.sequence
  {
    hide HistoryOk, Mutated, BodyChanges, MetadataAdvances, RevisionAppears, SetTo, Changed;
    MutatedMetadata(s, e, target, change);
    MutatedRevision(s, e, target, change);
    MutatedShape(s, e, target, change);
    ChangedBody(s.entities[target.id], change, SetBy(e.payload));
    HistoryIsThere(s, target.id);
  }

  lemma EntitiesStay(s: State, t: State, after: State, e: CommandEnvelope)
    requires EntitiesAsSaid(s, t, e) && t.entities == after.entities && t.locators == after.locators && t.history == after.history
    ensures EntitiesAsSaid(s, after, e)
  {
    hide MetadataAdvances, BodyChanges, SetBy;
  }

  lemma RelationsStay(s: State, t: State, after: State, e: CommandEnvelope)
    requires RelationsAsSaid(s, t, e) && t.relations == after.relations
    ensures RelationsAsSaid(s, after, e)
  {
    hide ToRecord, RelationIdAt;
  }

  lemma EventsStay(s: State, t: State, after: State, e: CommandEnvelope)
    requires EventsAsSaid(s, t, e) && t.events == after.events
    ensures EventsAsSaid(s, after, e)
  {
    hide NoticeOf, AffectedBy, Draws, EventIdAt;
  }

  /** What an arm does that mutates and then emits, when it links nothing. */
  lemma EmittedDoes(s: State, t: State, e: CommandEnvelope, reference: VersionedEntityRef)
    requires EntitiesAsSaid(s, t, e) && RelationsAsSaid(s, t, e) && t.events == s.events && t.audit == s.audit && t.applied == s.applied
    requires NoticeOf(e.payload).Some? && [reference] == AffectedBy(s, e) && t.sequence + 1 == s.sequence + Draws(e.payload)
    ensures var notice := NoticeOf(e.payload).value;
            ArmDoes(s, e, Step(Emitted(t, e, notice.eventType, notice.payload, reference), Ok([reference])))
  {
    hide Emitted, EntitiesAsSaid, RelationsAsSaid, EventsAsSaid, NoticeOf, AffectedBy, Draws;
    var notice := NoticeOf(e.payload).value;
    assert reference == AffectedBy(s, e)[0];
    var after := Emitted(t, e, notice.eventType, notice.payload, reference);
    EmittedAsSaid(s, t, e);
    EntitiesStay(s, t, after, e);
    RelationsStay(s, t, after, e);
  }

  lemma EmittedAsSaid(s: State, t: State, e: CommandEnvelope)
    requires NoticeOf(e.payload).Some? && |AffectedBy(s, e)| == 1 && t.events == s.events && t.sequence + 1 == s.sequence + Draws(e.payload)
    ensures var notice := NoticeOf(e.payload).value;
            var after := Emitted(t, e, notice.eventType, notice.payload, AffectedBy(s, e)[0]);
            && EventsAsSaid(s, after, e) && after == t.(events := after.events, sequence := s.sequence + Draws(e.payload))
  {
    hide AffectedBy, NoticeOf, EventIdAt;
  }

  lemma LinkedAsSaid(s: State, t: State, e: CommandEnvelope)
    requires RelationIdsOk(s.relations, s.sequence) && ToRecord(e.payload).Some? && t.relations == s.relations && t.sequence == s.sequence
    ensures var triple := ToRecord(e.payload).value;
            var after := Linked(t, e, triple.kind, triple.source, triple.target);
            && RelationsAsSaid(s, after, e) && after == t.(relations := after.relations, sequence := s.sequence + 1)
  {
    hide RelationIdsOk, RelationIdAt, ToRecord;
    NewRelationIsFresh(s.relations, s.sequence);
  }

  lemma NewEntityIsFresh(s: State)
    requires EntityIdsOk(s.entities, s.sequence)
    ensures EntityIdAt(s.sequence + 1) !in s.entities
  {
    hide EntityIdAt, EntityNumber;
    EntityNumberSurvives(s.sequence + 1);
  }

  ghost predicate Parts(s: State) { HistoryOk(s.entities, s.history) && EntityIdsOk(s.entities, s.sequence) && RelationIdsOk(s.relations, s.sequence) }

  lemma LinksNothing(s: State, t: State, e: CommandEnvelope)
    requires ToRecord(e.payload).None? && !e.payload.RemoveRelation? && t.relations == s.relations
    ensures RelationsAsSaid(s, t, e)
  {
  }

  lemma CreatedAsSaid(s: State, e: CommandEnvelope)
    requires Parts(s) && e.payload.CreateEntity?
    ensures var metadata := NewMetadata(EntityIdAt(s.sequence + 1), e.payload.locator, e.payload.entityType, e.context.issuedAt, e.context.actor);
            var created := Created(s, e, StoredEntity(metadata, e.payload.data, false));
            && EntitiesAsSaid(s, created, e) && RelationsAsSaid(s, created, e) && created.events == s.events && created.audit == s.audit
            && created.applied == s.applied && created.sequence == s.sequence + 1
            && [metadata.VersionedReference()] == AffectedBy(s, e)
  {
    hide HistoryOk, EntityIdsOk, RelationIdsOk, EntityIdAt, LocatorParts.Render, Created;
    var id := EntityIdAt(s.sequence + 1);
    NewEntityIsFresh(s);
    FreshEntityHasNoHistory(s, id);
    NoHistoryElsewhere(s);
    var metadata := NewMetadata(id, e.payload.locator, e.payload.entityType, e.context.issuedAt, e.context.actor);
    CreatedShape(s, e, StoredEntity(metadata, e.payload.data, false));
  }

  lemma NoHistoryElsewhere(s: State)
    requires HistoryOk(s.entities, s.history)
    ensures s.history.Keys == s.entities.Keys
  {
  }

  lemma CreateDoes(s: State, e: CommandEnvelope)
    requires Parts(s) && e.payload.CreateEntity? && Arm(s, e).answer.Ok?
    ensures ArmDoes(s, e, Arm(s, e))
  {
    hide HistoryOk, EntityIdsOk, RelationIdsOk, EntityIdAt, Emitted, LocatorParts.Render, EventsAsSaid, EntitiesAsSaid, ArmDoes;
    var id := EntityIdAt(s.sequence + 1);
    var metadata := NewMetadata(id, e.payload.locator, e.payload.entityType, e.context.issuedAt, e.context.actor);
    var created := Created(s, e, StoredEntity(metadata, e.payload.data, false));
    CreatedAsSaid(s, e);
    EmittedDoes(s, created, e, metadata.VersionedReference());
  }

  lemma UpdateDoes(s: State, e: CommandEnvelope)
    requires Parts(s) && e.payload.UpdateEntity? && Arm(s, e).answer.Ok?
    ensures ArmDoes(s, e, Arm(s, e))
  {
    hide HistoryOk, EntityIdsOk, RelationIdsOk, Emitted, Linked, Mutated, Advanced, EntitiesAsSaid, RelationsAsSaid, EventsAsSaid, AffectedBy, ArmDoes;
    var change := Fields(e.payload.changes);
    MutatedAsSaid(s, e, e.payload.target, change);
    LinksNothing(s, Mutated(s, e, e.payload.target, change), e);
    EmittedDoes(s, Mutated(s, e, e.payload.target, change), e, Advanced(s, e.payload.target));
  }

  lemma ArchiveDoes(s: State, e: CommandEnvelope)
    requires Parts(s) && e.payload.ArchiveEntity? && Arm(s, e).answer.Ok?
    ensures ArmDoes(s, e, Arm(s, e))
  {
    hide HistoryOk, EntityIdsOk, RelationIdsOk, Emitted, Mutated, Advanced, EntitiesAsSaid, AffectedBy;
    MutatedAsSaid(s, e, e.payload.target, Archive);
  }

  lemma SupersedeDoes(s: State, e: CommandEnvelope)
    requires Parts(s) && e.payload.SupersedeEntity? && Arm(s, e).answer.Ok?
    ensures ArmDoes(s, e, Arm(s, e))
  {
    hide HistoryOk, EntityIdsOk, RelationIdsOk, Emitted, Linked, Mutated, Advanced, EntitiesAsSaid, RelationsAsSaid, AffectedBy;
    var mutated := Mutated(s, e, e.payload.target, Status("superseded"));
    MutatedAsSaid(s, e, e.payload.target, Status("superseded"));
    LinkedAsSaid(s, mutated, e);
    EntitiesStay(s, mutated, Linked(mutated, e, Supersedes, e.payload.successor, e.payload.target), e);
  }

  lemma SubmitDoes(s: State, e: CommandEnvelope)
    requires Parts(s) && e.payload.SubmitDesignReview? && Arm(s, e).answer.Ok?
    ensures ArmDoes(s, e, Arm(s, e))
  {
    hide HistoryOk, EntityIdsOk, RelationIdsOk, Emitted, Linked, Mutated, Advanced, EntitiesAsSaid, RelationsAsSaid, EventsAsSaid, AffectedBy, ArmDoes;
    var target := e.payload.design.Unversioned();
    assert ActorText(e.payload.reviewer) == Named(e.payload.reviewer);
    MutatedAsSaid(s, e, target, Status("in_review"));
    LinksNothing(s, Mutated(s, e, target, Status("in_review")), e);
    EmittedDoes(s, Mutated(s, e, target, Status("in_review")), e, Advanced(s, target));
  }

  lemma ApproveDoes(s: State, e: CommandEnvelope)
    requires Parts(s) && e.payload.ApproveDesign? && Arm(s, e).answer.Ok?
    ensures ArmDoes(s, e, Arm(s, e))
  {
    hide HistoryOk, EntityIdsOk, RelationIdsOk, Emitted, Linked, Mutated, Advanced, EntitiesAsSaid, RelationsAsSaid, EventsAsSaid, AffectedBy, ArmDoes;
    var target := e.payload.design.Unversioned();
    MutatedAsSaid(s, e, target, Status("approved"));
    LinksNothing(s, Mutated(s, e, target, Status("approved")), e);
    EmittedDoes(s, Mutated(s, e, target, Status("approved")), e, Advanced(s, target));
  }

  lemma AcceptDoes(s: State, e: CommandEnvelope)
    requires Parts(s) && e.payload.AcceptAdr? && Arm(s, e).answer.Ok?
    ensures ArmDoes(s, e, Arm(s, e))
  {
    hide HistoryOk, EntityIdsOk, RelationIdsOk, Emitted, Linked, Mutated, Advanced, EntitiesAsSaid, RelationsAsSaid, EventsAsSaid, AffectedBy, ArmDoes;
    var target := e.payload.adr.Unversioned();
    var accepted := Mutated(s, e, target, Status("accepted"));
    MutatedAsSaid(s, e, target, Status("accepted"));
    if e.payload.supersedes.None? {
      LinksNothing(s, accepted, e);
      EmittedDoes(s, accepted, e, Advanced(s, target));
    } else {
      var linked := Linked(accepted, e, Supersedes, target, e.payload.supersedes.value);
      LinkedAsSaid(s, accepted, e);
      EntitiesStay(s, accepted, linked, e);
      EmittedDoes(s, linked, e, Advanced(s, target));
    }
  }

  lemma RelationCommandsDo(s: State, e: CommandEnvelope)
    requires Parts(s) && (e.payload.CreateRelation? || e.payload.RemoveRelation?) && Arm(s, e).answer.Ok?
    ensures ArmDoes(s, e, Arm(s, e))
  {
    hide HistoryOk, EntityIdsOk, RelationIdsOk, Linked;
    if e.payload.CreateRelation? { LinkedAsSaid(s, s, e); }
  }

  lemma EveryArmDoes(s: State, e: CommandEnvelope)
    requires Parts(s) && Arm(s, e).answer.Ok?
    ensures ArmDoes(s, e, Arm(s, e))
  {
    hide Parts, Arm, ArmDoes;
    match e.payload {
      case CreateEntity(_, _, _) => CreateDoes(s, e);
      case UpdateEntity(_, _) => UpdateDoes(s, e);
      case CreateRelation(_, _, _) => RelationCommandsDo(s, e);
      case RemoveRelation(_) => RelationCommandsDo(s, e);
      case ArchiveEntity(_, _) => ArchiveDoes(s, e);
      case SupersedeEntity(_, _, _) => SupersedeDoes(s, e);
      case SubmitDesignReview(_, _) => SubmitDoes(s, e);
      case ApproveDesign(_, _) => ApproveDoes(s, e);
      case AcceptAdr(_, _) => AcceptDoes(s, e);
    }
  }

  // ------------------------------------------------------------------ the whole command

  /** What the audit trail says of an accepted command. */
  ghost predicate RecordAsSaid(s: State, e: CommandEnvelope, record: AuditRecord) {
    var affected := AffectedBy(s, e);
    && record.kind == CommandAccepted && record.occurredAt == e.context.issuedAt && record.actor == e.context.actor
    && record.executor == e.context.executor && record.requestId == Some(e.context.requestId) && record.commandId == Some(e.commandId)
    && record.correlationId == e.context.correlationId && record.executionId == e.context.executionId && record.task == e.context.task
    && record.decision == None && (record.causation.Some? <==> e.context.causation.Some?)
    && (record.causation.Some? ==> record.causation.value.text == if LooseId(e.context.causation.value) then e.context.causation.value else "aud-unknown")
    && (affected == [] ==> record.subject == None && record.change == None)
    && (affected != [] ==>
          && record.subject == Some(EntityRef(affected[0].id)) && record.change.Some?
          && var change := record.change.value;
             && change.entity.id == affected[0].id && change.after == Some(affected[0].revision)
             && change.before == (if e.payload.CreateEntity? then None else Some(affected[0].revision - 1))
             && change.command == Some(e.commandType) && change.payload == None && !change.redacted && change.redactionReason == None)
  }

  /** What is answered: the command, accepted, with what it affected and the names of the records made. */
  ghost predicate ResultAsSaid(s: State, after: State, e: CommandEnvelope, result: CommandResult) {
    && result.commandId == e.commandId && result.outcome == Accepted && result.affected == AffectedBy(s, e)
    && result.audit == [AuditIdAt(s.sequence + Draws(e.payload) + 1)]
    && result.consistency == TokenAt(s.sequence + Draws(e.payload) + 1)
    && result.events == if after.events == [] then [] else [after.events[|after.events| - 1].eventId]
  }

  ghost predicate Leaves(s: State, after: State, e: CommandEnvelope, result: CommandResult) {
    && EntitiesAsSaid(s, after, e) && RelationsAsSaid(s, after, e) && EventsAsSaid(s, after, e)
    && after.sequence == s.sequence + Draws(e.payload) + 1
    && |after.audit| == |s.audit| + 1 && after.audit[..|s.audit|] == s.audit
    && after.audit[|s.audit|].auditId == AuditIdAt(after.sequence) && RecordAsSaid(s, e, after.audit[|s.audit|])
    && after.applied == s.applied[e.context.idempotencyKey := AppliedCommand(e.commandId, result)]
    && ResultAsSaid(s, after, e, result)
  }

  lemma RecordSays(s: State, e: CommandEnvelope, id: AuditId)
    requires HistoryOk(s.entities, s.history)
    ensures RecordAsSaid(s, e, AcceptedRecord(e, id, AffectedBy(s, e)))
  {
    hide EntityIdAt;
  }

  /** An accepted command that is no replay leaves the store as its words say, part by part. */
  lemma AcceptedLeaves(s: State, e: CommandEnvelope)
    requires Inv(s) && Apply(s, e).answer.Ok? && !IsReplay(s, e)
    ensures Leaves(s, Apply(s, e).state, e, Apply(s, e).answer.value)
  {
    hide Arm, Apply, HistoryOk, LocatorsOk, RelationsOk, EntityIdsOk, RelationIdsOk, AuditIdsOk, EventIdsOk, AuditOk;
    hide EntitiesAsSaid, RelationsAsSaid, EventsAsSaid, RecordAsSaid, AffectedBy, AcceptedRecord, AuditIdAt, TokenAt, Draws;
    if e.context.idempotencyKey in s.applied { MismatchRefuses(s, e); }
    AcceptedState(s, e);
    EveryArmDoes(s, e);
    var arm, after := Arm(s, e).state, Apply(s, e).state;
    RecordSays(s, e, AuditIdAt(arm.sequence + 1));
    AcceptedRecordIsNamed(e, AuditIdAt(arm.sequence + 1), AffectedBy(s, e));
    EntitiesStay(s, arm, after, e);
    RelationsStay(s, arm, after, e);
    EventsStay(s, arm, after, e);
  }

  /** What the audit trail says of a refused one: what was attempted, and the error it met. */
  lemma RefusedLeaves(s: State, e: CommandEnvelope)
    requires Inv(s) && Apply(s, e).answer.Err?
    ensures var after := Apply(s, e).state;
            && |after.audit| == |s.audit| + 1 && after.audit[..|s.audit|] == s.audit
            && var record := after.audit[|s.audit|];
               && record.auditId == AuditIdAt(s.sequence + 1) && record.kind == CommandRejected && record.occurredAt == e.context.issuedAt
               && record.actor == e.context.actor && record.executor == e.context.executor && record.subject == e.target
               && record.requestId == Some(e.context.requestId) && record.commandId == Some(e.commandId)
               && record.correlationId == e.context.correlationId && record.causation == None
               && record.executionId == e.context.executionId && record.task == e.context.task && record.change == None
               && record.decision == Some(DecisionRecord(false, e.payload, Some(Apply(s, e).answer.error)))
  {
    hide Apply, HistoryOk, LocatorsOk, RelationsOk, EntityIdsOk, RelationIdsOk, AuditIdsOk, EventIdsOk, AuditOk, Mutated, AuditIdAt;
    RefusalState(s, e);
    if Strands(s, e) { StrandedKeepsTrail(s, e); }
  }

  lemma StrandedKeepsTrail(s: State, e: CommandEnvelope)
    requires HistoryOk(s.entities, s.history) && Strands(s, e)
    ensures AfterRefusal(s, e).audit == s.audit && AfterRefusal(s, e).sequence == s.sequence
  {
    hide HistoryOk, Mutated;
    StrandedShape(s, e);
    MutatedShape(s, e, e.payload.adr.Unversioned(), Status("accepted"));
  }
}
