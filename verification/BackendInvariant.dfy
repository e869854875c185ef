/** What every command keeps: the reachable-store invariant, and what never changes or shrinks from
    one state to the next (crates/aep-backend-memory/src/command.rs). */
module BackendInvariant {
  import opened ArtifactGraphs
  import opened Entities
  import opened Commands
  import opened Audit
  import opened Stores
  import opened Backend
  import Decimal

  // ------------------------------------------------------------------ numbers inside identifiers

  /** The number a generated identifier carries after its prefix, or 0. */
  ghost function NumberIn(text: string, prefix: nat): nat {
    if |text| >= prefix && Decimal.AllDigits(text[prefix..]) then Decimal.Value(text[prefix..]) else 0
  }

  ghost function EntityNumber(id: EntityId): nat { NumberIn(id.text, 5) }
  ghost function RelationNumber(id: RelationId): nat { NumberIn(id.text, 4) }
  ghost function AuditNumber(id: AuditId): nat { NumberIn(id.text, 4) }
  ghost function EventNumber(id: EventId): nat { NumberIn(id.text, 4) }

  /** Every generated identifier carries back the number it was made from. */
  lemma EntityNumberSurvives(n: nat)
    ensures EntityNumber(EntityIdAt(n)) == n
  {
    hide Decimal.Pad, Decimal.Value;
    Decimal.PadSpells(n, 16);
    assert ("01MEM" + Decimal.Pad(n, 16))[5..] == Decimal.Pad(n, 16);
  }

  lemma RelationNumberSurvives(n: nat)
    ensures RelationNumber(RelationIdAt(n)) == n
  {
    hide Decimal.Pad, Decimal.Value;
    Decimal.PadSpells(n, 12);
    assert ("rel-" + Decimal.Pad(n, 12))[4..] == Decimal.Pad(n, 12);
  }

  lemma AuditNumberSurvives(n: nat)
    ensures AuditNumber(AuditIdAt(n)) == n
  {
    hide Decimal.Pad, Decimal.Value;
    Decimal.PadSpells(n, 12);
    assert ("aud-" + Decimal.Pad(n, 12))[4..] == Decimal.Pad(n, 12);
  }

  lemma EventNumberSurvives(n: nat)
    ensures EventNumber(EventIdAt(n)) == n
  {
    hide Decimal.Pad, Decimal.Value;
    Decimal.PadSpells(n, 12);
    assert ("evt-" + Decimal.Pad(n, 12))[4..] == Decimal.Pad(n, 12);
  }

  // ------------------------------------------------------------------ the invariant, part by part

  /** Each entity is filed under its own identity, and its history is revisions 1..revision. */
  ghost predicate HistoryOk(entities: map<EntityId, StoredEntity>, history: map<EntityId, seq<RevisionRecord>>) {
    && history.Keys == entities.Keys
    && forall id :: id in entities ==>
         && entities[id].metadata.id == id
         && entities[id].metadata.revision == |history[id]| >= 1
         && forall i :: 0 <= i < |history[id]| ==> history[id][i].revision == i + 1
  }

  /** The locator index leads to an entity at that address, and every entity is in it. */
  ghost predicate LocatorsOk(entities: map<EntityId, StoredEntity>, locators: map<string, EntityId>) {
    && (forall text :: text in locators ==>
          locators[text] in entities && entities[locators[text]].metadata.locator.Render() == text)
    && (forall id :: id in entities ==>
          entities[id].metadata.locator.Render() in locators && locators[entities[id].metadata.locator.Render()] == id)
  }

  ghost predicate RelationsOk(entities: map<EntityId, StoredEntity>, relations: map<RelationId, Relation>) {
    forall id :: id in relations ==>
      relations[id].id == id && relations[id].source.id in entities && relations[id].target.id in entities
  }

  ghost predicate EntityIdsOk(entities: map<EntityId, StoredEntity>, sequence: nat) {
    forall id :: id in entities ==> id == EntityIdAt(EntityNumber(id)) && 1 <= EntityNumber(id) <= sequence
  }

  ghost predicate RelationIdsOk(relations: map<RelationId, Relation>, sequence: nat) {
    forall id :: id in relations ==> id == RelationIdAt(RelationNumber(id)) && 1 <= RelationNumber(id) <= sequence
  }

  /** Audit identifiers carry strictly increasing numbers, so no two are the same. */
  ghost predicate AuditIdsMinted(audit: seq<AuditRecord>, sequence: nat) {
    forall i :: 0 <= i < |audit| ==>
      audit[i].auditId == AuditIdAt(AuditNumber(audit[i].auditId)) && 1 <= AuditNumber(audit[i].auditId) <= sequence
  }

  ghost predicate AuditIdsIncrease(audit: seq<AuditRecord>) {
    forall i, j :: 0 <= i < j < |audit| ==> AuditNumber(audit[i].auditId) < AuditNumber(audit[j].auditId)
  }

  ghost predicate AuditIdsOk(audit: seq<AuditRecord>, sequence: nat) {
    AuditIdsMinted(audit, sequence) && AuditIdsIncrease(audit)
  }

  ghost predicate EventIdsMinted(events: seq<DomainEvent>, sequence: nat) {
    forall i :: 0 <= i < |events| ==>
      events[i].eventId == EventIdAt(EventNumber(events[i].eventId)) && 1 <= EventNumber(events[i].eventId) <= sequence
  }

  ghost predicate EventIdsIncrease(events: seq<DomainEvent>) {
    forall i, j :: 0 <= i < j < |events| ==> EventNumber(events[i].eventId) < EventNumber(events[j].eventId)
  }

  ghost predicate EventIdsOk(events: seq<DomainEvent>, sequence: nat) {
    EventIdsMinted(events, sequence) && EventIdsIncrease(events)
  }

  ghost predicate AuditOk(audit: seq<AuditRecord>) {
    forall i :: 0 <= i < |audit| ==> Consistent(audit[i])
  }

  ghost predicate Inv(s: State) {
    && HistoryOk(s.entities, s.history)
    && LocatorsOk(s.entities, s.locators)
    && RelationsOk(s.entities, s.relations)
    && EntityIdsOk(s.entities, s.sequence)
    && RelationIdsOk(s.relations, s.sequence)
    && AuditIdsOk(s.audit, s.sequence)
    && EventIdsOk(s.events, s.sequence)
    && AuditOk(s.audit)
  }

  /** The index is a bijection: a locator resolves to an identity exactly when an entity has that
      locator, and then to that entity. */
  lemma ResolvesExactly(s: State, locator: EntityLocator, id: EntityId)
    requires Inv(s)
    ensures (locator.Render() in s.locators && s.locators[locator.Render()] == id) <==>
            (id in s.entities && s.entities[id].metadata.locator == locator)
  {
    hide HistoryOk, RelationsOk, EntityIdsOk, RelationIdsOk, AuditIdsOk, EventIdsOk, AuditOk;
    if locator.Render() in s.locators && s.locators[locator.Render()] == id {
      RenderIsInjective(locator, s.entities[id].metadata.locator);
    }
  }

  // ------------------------------------------------------------------ what never changes

  ghost predicate SameOrigin(a: EntityMetadata, b: EntityMetadata) {
    && a.id == b.id && a.locator == b.locator && a.entityType == b.entityType
    && a.createdAt == b.createdAt
    && a.provenance.createdBy == b.provenance.createdBy
    && a.provenance.createdExecutor == b.provenance.createdExecutor
  }

  ghost predicate EntitiesGrow(before: map<EntityId, StoredEntity>, after: map<EntityId, StoredEntity>) {
    forall id :: id in before ==>
      && id in after
      && SameOrigin(before[id].metadata, after[id].metadata)
      && before[id].metadata.revision <= after[id].metadata.revision
  }

  ghost predicate HistoryGrows(before: map<EntityId, seq<RevisionRecord>>, after: map<EntityId, seq<RevisionRecord>>) {
    forall id :: id in before ==> id in after && before[id] <= after[id]
  }

  ghost predicate AppliedGrows(before: map<IdempotencyKey, AppliedCommand>, after: map<IdempotencyKey, AppliedCommand>) {
    forall key :: key in before ==> key in after && after[key] == before[key]
  }

  /** Entities never disappear and keep their origin; histories, audit and events only get longer;
      what was applied stays applied. */
  ghost predicate Grows(before: State, after: State) {
    && EntitiesGrow(before.entities, after.entities)
    && HistoryGrows(before.history, after.history)
    && before.audit <= after.audit
    && before.events <= after.events
    && AppliedGrows(before.applied, after.applied)
    && before.sequence <= after.sequence
  }

  lemma GrowsIsTransitive(a: State, b: State, c: State)
    requires Grows(a, b) && Grows(b, c)
    ensures Grows(a, c)
  {
    forall id | id in a.entities
      ensures id in c.entities && SameOrigin(a.entities[id].metadata, c.entities[id].metadata)
              && a.entities[id].metadata.revision <= c.entities[id].metadata.revision
    {
      assert id in b.entities;
    }
    forall id | id in a.history ensures id in c.history && a.history[id] <= c.history[id] {
      assert id in b.history;
    }
  }

  ghost predicate Keeps(before: State, after: State) {
    Inv(after) && Grows(before, after)
  }

  // ------------------------------------------------------------------ step by step

  lemma WidenEntityIds(entities: map<EntityId, StoredEntity>, sequence: nat, later: nat)
    requires EntityIdsOk(entities, sequence) && sequence <= later
    ensures EntityIdsOk(entities, later)
  {
  }

  lemma WidenRelationIds(relations: map<RelationId, Relation>, sequence: nat, later: nat)
    requires RelationIdsOk(relations, sequence) && sequence <= later
    ensures RelationIdsOk(relations, later)
  {
  }

  lemma WidenAuditIds(audit: seq<AuditRecord>, sequence: nat, later: nat)
    requires AuditIdsOk(audit, sequence) && sequence <= later
    ensures AuditIdsOk(audit, later)
  {
  }

  lemma WidenEventIds(events: seq<DomainEvent>, sequence: nat, later: nat)
    requires EventIdsOk(events, sequence) && sequence <= later
    ensures EventIdsOk(events, later)
  {
  }

  lemma EventIdsStayMinted(older: seq<DomainEvent>, sequence: nat, last: DomainEvent)
    requires EventIdsMinted(older, sequence) && last.eventId == EventIdAt(sequence + 1)
    ensures EventIdsMinted(older + [last], sequence + 1)
  {
    hide EventIdAt, EventNumber;
    EventNumberSurvives(sequence + 1);
    var all := older + [last];
    forall i | 0 <= i < |all|
      ensures all[i].eventId == EventIdAt(EventNumber(all[i].eventId)) && 1 <= EventNumber(all[i].eventId) <= sequence + 1
    {
      if i < |older| { assert all[i] == older[i]; }
    }
  }

  lemma EventIdsStillIncrease(older: seq<DomainEvent>, sequence: nat, last: DomainEvent)
    requires EventIdsOk(older, sequence) && last.eventId == EventIdAt(sequence + 1)
    ensures EventIdsIncrease(older + [last])
  {
    hide EventIdAt, EventNumber;
    EventNumberSurvives(sequence + 1);
    var all := older + [last];
    forall i, j | 0 <= i < j < |all| ensures EventNumber(all[i].eventId) < EventNumber(all[j].eventId) {
      assert all[i] == older[i];
      if j < |older| { assert all[j] == older[j]; }
    }
  }

  lemma AppendEventId(older: seq<DomainEvent>, sequence: nat, last: DomainEvent)
    requires EventIdsOk(older, sequence) && last.eventId == EventIdAt(sequence + 1)
    ensures EventIdsOk(older + [last], sequence + 1)
  {
    EventIdsStayMinted(older, sequence, last);
    EventIdsStillIncrease(older, sequence, last);
  }

  lemma AuditIdsStayMinted(older: seq<AuditRecord>, sequence: nat, last: AuditRecord)
    requires AuditIdsMinted(older, sequence) && last.auditId == AuditIdAt(sequence + 1)
    ensures AuditIdsMinted(older + [last], sequence + 1)
  {
    hide AuditIdAt, AuditNumber;
    AuditNumberSurvives(sequence + 1);
    var all := older + [last];
    forall i | 0 <= i < |all|
      ensures all[i].auditId == AuditIdAt(AuditNumber(all[i].auditId)) && 1 <= AuditNumber(all[i].auditId) <= sequence + 1
    {
      if i < |older| { assert all[i] == older[i]; }
    }
  }

  lemma AuditIdsStillIncrease(older: seq<AuditRecord>, sequence: nat, last: AuditRecord)
    requires AuditIdsOk(older, sequence) && last.auditId == AuditIdAt(sequence + 1)
    ensures AuditIdsIncrease(older + [last])
  {
    hide AuditIdAt, AuditNumber;
    AuditNumberSurvives(sequence + 1);
    var all := older + [last];
    forall i, j | 0 <= i < j < |all| ensures AuditNumber(all[i].auditId) < AuditNumber(all[j].auditId) {
      assert all[i] == older[i];
      if j < |older| { assert all[j] == older[j]; }
    }
  }

  lemma AppendAuditId(older: seq<AuditRecord>, sequence: nat, last: AuditRecord)
    requires AuditIdsOk(older, sequence) && last.auditId == AuditIdAt(sequence + 1)
    ensures AuditIdsOk(older + [last], sequence + 1)
  {
    AuditIdsStayMinted(older, sequence, last);
    AuditIdsStillIncrease(older, sequence, last);
  }

  lemma NothingShrinks(s: State)
    ensures EntitiesGrow(s.entities, s.entities) && HistoryGrows(s.history, s.history) && AppliedGrows(s.applied, s.applied)
  {
  }

  lemma EmittedKeeps(s: State, e: CommandEnvelope, eventType: string, payload: Node, subject: VersionedEntityRef)
    requires Inv(s)
    ensures Keeps(s, Emitted(s, e, eventType, payload, subject))
  {
    hide HistoryOk, LocatorsOk, RelationsOk, AuditOk, EntityIdsOk, RelationIdsOk, AuditIdsOk, EventIdsOk;
    hide EntitiesGrow, HistoryGrows, AppliedGrows, EventIdAt;
    var after := Emitted(s, e, eventType, payload, subject);
    WidenEntityIds(s.entities, s.sequence, s.sequence + 1);
    WidenRelationIds(s.relations, s.sequence, s.sequence + 1);
    WidenAuditIds(s.audit, s.sequence, s.sequence + 1);
    AppendEventId(s.events, s.sequence, EventFor(e, EventIdAt(s.sequence + 1), eventType, payload, subject));
    NothingShrinks(s);
  }

  lemma AddRelationEnds(entities: map<EntityId, StoredEntity>, relations: map<RelationId, Relation>, relation: Relation)
    requires RelationsOk(entities, relations)
    requires relation.source.id in entities && relation.target.id in entities
    ensures RelationsOk(entities, relations[relation.id := relation])
  {
  }

  lemma AddRelationId(relations: map<RelationId, Relation>, sequence: nat, relation: Relation)
    requires RelationIdsOk(relations, sequence) && relation.id == RelationIdAt(sequence + 1)
    ensures RelationIdsOk(relations[relation.id := relation], sequence + 1)
    ensures relation.id !in relations
  {
    hide RelationIdAt, RelationNumber;
    RelationNumberSurvives(sequence + 1);
  }

  lemma LinkedKeeps(s: State, e: CommandEnvelope, kind: RelationKind, source: EntityRef, target: EntityRef)
    requires Inv(s) && source.id in s.entities && target.id in s.entities
    ensures Keeps(s, Linked(s, e, kind, source, target))
    ensures RelationIdAt(s.sequence + 1) !in s.relations
  {
    hide HistoryOk, LocatorsOk, RelationsOk, AuditOk, EntityIdsOk, RelationIdsOk, AuditIdsOk, EventIdsOk;
    hide EntitiesGrow, HistoryGrows, AppliedGrows, RelationIdAt;
    var after := Linked(s, e, kind, source, target);
    WidenEntityIds(s.entities, s.sequence, s.sequence + 1);
    WidenEventIds(s.events, s.sequence, s.sequence + 1);
    WidenAuditIds(s.audit, s.sequence, s.sequence + 1);
    var relation := Relation(RelationIdAt(s.sequence + 1), kind, source, target, e.context.issuedAt, e.context.actor);
    AddRelationEnds(s.entities, s.relations, relation);
    AddRelationId(s.relations, s.sequence, relation);
    NothingShrinks(s);
  }

  lemma DropRelation(entities: map<EntityId, StoredEntity>, relations: map<RelationId, Relation>, sequence: nat, id: RelationId)
    requires RelationsOk(entities, relations) && RelationIdsOk(relations, sequence)
    ensures RelationsOk(entities, relations - {id}) && RelationIdsOk(relations - {id}, sequence)
  {
  }

  lemma UnlinkedKeeps(s: State, relation: RelationId)
    requires Inv(s)
    ensures Keeps(s, s.(relations := s.relations - {relation}))
  {
    hide HistoryOk, LocatorsOk, RelationsOk, AuditOk, EntityIdsOk, RelationIdsOk, AuditIdsOk, EventIdsOk;
    hide EntitiesGrow, HistoryGrows, AppliedGrows;
    DropRelation(s.entities, s.relations, s.sequence, relation);
    NothingShrinks(s);
  }

  lemma AppendConsistent(audit: seq<AuditRecord>, record: AuditRecord)
    requires AuditOk(audit) && Consistent(record)
    ensures AuditOk(audit + [record])
  {
    hide Consistent;
  }

  lemma AuditedKeeps(s: State, record: AuditRecord)
    requires Inv(s) && record.auditId == AuditIdAt(s.sequence + 1) && Consistent(record)
    ensures Keeps(s, WithAudit(Ticked(s), record))
  {
    hide HistoryOk, LocatorsOk, RelationsOk, AuditOk, EntityIdsOk, RelationIdsOk, AuditIdsOk, EventIdsOk;
    hide EntitiesGrow, HistoryGrows, AppliedGrows, AuditIdAt, Consistent;
    WidenEntityIds(s.entities, s.sequence, s.sequence + 1);
    WidenRelationIds(s.relations, s.sequence, s.sequence + 1);
    WidenEventIds(s.events, s.sequence, s.sequence + 1);
    AppendAuditId(s.audit, s.sequence, record);
    AppendConsistent(s.audit, record);
    NothingShrinks(s);
  }

  lemma RememberingKeeps(s: State, key: IdempotencyKey, applied: AppliedCommand)
    requires Inv(s) && key !in s.applied
    ensures Keeps(s, Remembering(s, key, applied))
  {
    hide HistoryOk, LocatorsOk, RelationsOk, EntityIdsOk, RelationIdsOk, AuditIdsOk, EventIdsOk, AuditOk;
  }

  // ------------------------------------------------------------------ changing and creating entities

  /** `after` differs from `before` at `id` only, and there keeps everything but the revision, which
      is one higher, and what may be edited. */
  ghost predicate OneAdvanced(before: map<EntityId, StoredEntity>, after: map<EntityId, StoredEntity>, id: EntityId) {
    && after.Keys == before.Keys && id in before
    && SameOrigin(before[id].metadata, after[id].metadata)
    && after[id].metadata.revision == before[id].metadata.revision + 1
    && forall other :: other in before && other != id ==> after[other] == before[other]
  }

  lemma AdvancedKeepsHistory(before: map<EntityId, StoredEntity>, after: map<EntityId, StoredEntity>,
                             history: map<EntityId, seq<RevisionRecord>>, id: EntityId, record: RevisionRecord)
    requires HistoryOk(before, history) && OneAdvanced(before, after, id)
    requires record.revision == before[id].metadata.revision + 1
    ensures id in history
    ensures HistoryOk(after, history[id := history[id] + [record]])
    ensures HistoryGrows(history, history[id := history[id] + [record]])
  {
    hide SameOrigin, HistoryOk;
    HistoryAt(before, history, id);
    var longer: map<EntityId, seq<RevisionRecord>> := history[id := history[id] + [record]];
    OriginKeepsIdentity(before[id].metadata, after[id].metadata);
    forall other | other in after
      ensures other in longer && after[other].metadata.id == other && after[other].metadata.revision == |longer[other]| >= 1
      ensures forall i :: 0 <= i < |longer[other]| ==> longer[other][i].revision == i + 1
    {
      HistoryAt(before, history, other);
    }
    HistoryBy(after, longer);
  }

  lemma HistoryAt(entities: map<EntityId, StoredEntity>, history: map<EntityId, seq<RevisionRecord>>, id: EntityId)
    requires HistoryOk(entities, history)
    ensures history.Keys == entities.Keys
    ensures id in entities ==>
              && entities[id].metadata.id == id && entities[id].metadata.revision == |history[id]| >= 1
              && forall i :: 0 <= i < |history[id]| ==> history[id][i].revision == i + 1
  {
  }

  lemma HistoryBy(entities: map<EntityId, StoredEntity>, history: map<EntityId, seq<RevisionRecord>>)
    requires history.Keys == entities.Keys
    requires forall id :: id in entities ==>
               && entities[id].metadata.id == id && entities[id].metadata.revision == |history[id]| >= 1
               && forall i :: 0 <= i < |history[id]| ==> history[id][i].revision == i + 1
    ensures HistoryOk(entities, history)
  {
  }

  lemma OriginKeepsIdentity(a: EntityMetadata, b: EntityMetadata)
    requires SameOrigin(a, b)
    ensures a.id == b.id
  {
  }

  lemma AdvancedKeepsIndex(before: map<EntityId, StoredEntity>, after: map<EntityId, StoredEntity>,
                           locators: map<string, EntityId>, id: EntityId)
    requires LocatorsOk(before, locators) && OneAdvanced(before, after, id)
    ensures LocatorsOk(after, locators)
  {
  }

  lemma AdvancedKeepsRest(before: map<EntityId, StoredEntity>, after: map<EntityId, StoredEntity>,
                          relations: map<RelationId, Relation>, sequence: nat, id: EntityId)
    requires RelationsOk(before, relations) && EntityIdsOk(before, sequence) && OneAdvanced(before, after, id)
    ensures RelationsOk(after, relations) && EntityIdsOk(after, sequence) && EntitiesGrow(before, after)
  {
    hide EntityNumber, EntityIdAt;
  }

  lemma MutatedAdvancesOne(s: State, e: CommandEnvelope, target: EntityRef, change: Change)
    requires HistoryOk(s.entities, s.history) && target.id in s.entities
    ensures OneAdvanced(s.entities, Mutated(s, e, target, change).entities, target.id)
  {
  }

  /** The history entry a mutation appends. */
  function NewRevision(s: State, e: CommandEnvelope, target: EntityRef): RevisionRecord
    requires target.id in s.entities
  {
    HistoryRecord(e, Advanced(s, target))
  }

  lemma MutatedShape(s: State, e: CommandEnvelope, target: EntityRef, change: Change)
    requires HistoryOk(s.entities, s.history) && target.id in s.entities
    ensures NewRevision(s, e, target).revision == s.entities[target.id].metadata.revision + 1
    ensures Mutated(s, e, target, change) ==
            s.(entities := Mutated(s, e, target, change).entities,
               history := s.history[target.id := s.history[target.id] + [NewRevision(s, e, target)]])
  {
  }

  lemma MutatedKeeps(s: State, e: CommandEnvelope, target: EntityRef, change: Change)
    requires Inv(s) && target.id in s.entities
    ensures Keeps(s, Mutated(s, e, target, change))
  {
    hide HistoryOk, LocatorsOk, RelationsOk, AuditOk, EntityIdsOk, RelationIdsOk, AuditIdsOk, EventIdsOk;
    hide EntitiesGrow, HistoryGrows, AppliedGrows, Mutated, OneAdvanced, NewRevision;
    MutatedAdvancesOne(s, e, target, change);
    MutatedShape(s, e, target, change);
    var after := Mutated(s, e, target, change);
    AdvancedKeepsHistory(s.entities, after.entities, s.history, target.id, NewRevision(s, e, target));
    AdvancedKeepsIndex(s.entities, after.entities, s.locators, target.id);
    AdvancedKeepsRest(s.entities, after.entities, s.relations, s.sequence, target.id);
    NothingShrinks(s);
  }

  lemma NewEntityKeepsHistory(entities: map<EntityId, StoredEntity>, history: map<EntityId, seq<RevisionRecord>>,
                              entity: StoredEntity, record: RevisionRecord)
    requires HistoryOk(entities, history) && entity.metadata.id !in entities
    requires entity.metadata.revision == 1 == record.revision
    ensures HistoryOk(entities[entity.metadata.id := entity], history[entity.metadata.id := [record]])
    ensures HistoryGrows(history, history[entity.metadata.id := [record]])
    ensures EntitiesGrow(entities, entities[entity.metadata.id := entity])
  {
  }

  lemma NewEntityKeepsIndex(entities: map<EntityId, StoredEntity>, locators: map<string, EntityId>, entity: StoredEntity)
    requires LocatorsOk(entities, locators) && entity.metadata.id !in entities
    requires entity.metadata.locator.Render() !in locators
    ensures LocatorsOk(entities[entity.metadata.id := entity], locators[entity.metadata.locator.Render() := entity.metadata.id])
  {
  }

  lemma NewEntityKeepsIds(entities: map<EntityId, StoredEntity>, sequence: nat, entity: StoredEntity)
    requires EntityIdsOk(entities, sequence) && entity.metadata.id == EntityIdAt(sequence + 1)
    ensures entity.metadata.id !in entities
    ensures EntityIdsOk(entities[entity.metadata.id := entity], sequence + 1)
  {
    hide EntityIdAt, EntityNumber;
    EntityNumberSurvives(sequence + 1);
    var more := entities[entity.metadata.id := entity];
    forall id | id in more ensures id == EntityIdAt(EntityNumber(id)) && 1 <= EntityNumber(id) <= sequence + 1 {
      assert id == entity.metadata.id || id in entities;
    }
  }

  lemma NewEntityKeepsRelations(entities: map<EntityId, StoredEntity>, relations: map<RelationId, Relation>, entity: StoredEntity)
    requires RelationsOk(entities, relations)
    ensures RelationsOk(entities[entity.metadata.id := entity], relations)
  {
  }

  /** A state with one more entity, before its creation event. */
  function Created(s: State, e: CommandEnvelope, entity: StoredEntity): State {
    WithRevision(WithEntity(Ticked(s), entity), entity.metadata.id, HistoryRecord(e, entity.metadata.VersionedReference()))
  }

  lemma CreatedShape(s: State, e: CommandEnvelope, entity: StoredEntity)
    requires entity.metadata.id !in s.history
    ensures Created(s, e, entity) ==
            s.(entities := s.entities[entity.metadata.id := entity],
               locators := s.locators[entity.metadata.locator.Render() := entity.metadata.id],
               history := s.history[entity.metadata.id := [HistoryRecord(e, entity.metadata.VersionedReference())]],
               sequence := s.sequence + 1)
  {
    var record := HistoryRecord(e, entity.metadata.VersionedReference());
    assert [] + [record] == [record];
  }

  lemma FreshEntityHasNoHistory(s: State, id: EntityId)
    requires HistoryOk(s.entities, s.history) && id !in s.entities
    ensures id !in s.history
  {
  }

  lemma CreatedKeeps(s: State, e: CommandEnvelope, entity: StoredEntity)
    requires Inv(s) && entity.metadata.id == EntityIdAt(s.sequence + 1) && entity.metadata.revision == 1
    requires entity.metadata.locator.Render() !in s.locators
    ensures Keeps(s, Created(s, e, entity))
  {
    hide HistoryOk, LocatorsOk, RelationsOk, AuditOk, EntityIdsOk, RelationIdsOk, AuditIdsOk, EventIdsOk;
    hide EntitiesGrow, HistoryGrows, AppliedGrows, EntityIdAt, Created;
    var record := HistoryRecord(e, entity.metadata.VersionedReference());
    NewEntityKeepsIds(s.entities, s.sequence, entity);
    FreshEntityHasNoHistory(s, entity.metadata.id);
    CreatedShape(s, e, entity);
    NewEntityKeepsHistory(s.entities, s.history, entity, record);
    NewEntityKeepsIndex(s.entities, s.locators, entity);
    NewEntityKeepsRelations(s.entities, s.relations, entity);
    CreatedWidens(s);
    NothingShrinks(s);
  }

  lemma CreatedWidens(s: State)
    requires Inv(s)
    ensures RelationIdsOk(s.relations, s.sequence + 1)
    ensures AuditIdsOk(s.audit, s.sequence + 1)
    ensures EventIdsOk(s.events, s.sequence + 1)
  {
    hide HistoryOk, LocatorsOk, RelationsOk, AuditOk, EntityIdsOk, RelationIdsOk, AuditIdsOk, EventIdsOk;
    WidenRelationIds(s.relations, s.sequence, s.sequence + 1);
    WidenAuditIds(s.audit, s.sequence, s.sequence + 1);
    WidenEventIds(s.events, s.sequence, s.sequence + 1);
  }
}
