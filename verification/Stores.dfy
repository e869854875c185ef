/** Everything the in-memory backend holds (crates/aep-backend-memory/src/store.rs): the value a
    store is at a moment, what each store method makes of that value, and the store itself. */
module Stores {
  import opened Wrappers
  import opened ArtifactGraphs
  import opened Entities
  import opened Commands
  import opened Audit
  import opened Decimal

  datatype Relation = Relation(
    id: RelationId,
    kind: RelationKind,
    source: EntityRef,
    target: EntityRef,
    createdAt: Timestamp,
    createdBy: ActorRef)

  datatype RevisionRecord = RevisionRecord(
    revision: nat,
    at: Timestamp,
    actor: ActorRef,
    executor: Option<ActorRef>,
    commandId: Option<CommandId>)

  datatype DomainEvent = DomainEvent(
    eventId: EventId,
    eventType: string,
    subject: EntityRef,
    entityRevision: nat,
    payload: Node,
    commandId: CommandId,
    correlationId: string,
    executionId: Option<string>,
    occurredAt: Timestamp,
    actor: ActorRef)

  /** What a previously-applied command produced. */
  datatype AppliedCommand = AppliedCommand(commandId: CommandId, result: CommandResult)

  datatype State = State(
    entities: map<EntityId, StoredEntity>,
    locators: map<string, EntityId>,
    relations: map<RelationId, Relation>,
    history: map<EntityId, seq<RevisionRecord>>,
    audit: seq<AuditRecord>,
    events: seq<DomainEvent>,
    applied: map<IdempotencyKey, AppliedCommand>,
    sequence: nat)

  const EMPTY := State(map[], map[], map[], map[], [], [], map[], 0)

  // ------------------------------------------------------------------ generated identifiers

  function EntityIdAt(n: nat): EntityId { EntityId("01MEM" + Pad(n, 16)) }
  function RelationIdAt(n: nat): RelationId { RelationId("rel-" + Pad(n, 12)) }
  function AuditIdAt(n: nat): AuditId { AuditId("aud-" + Pad(n, 12)) }
  function EventIdAt(n: nat): EventId { EventId("evt-" + Pad(n, 12)) }
  function TokenAt(n: nat): ConsistencyToken { ConsistencyToken("seq-" + Pad(n, 12)) }

  /** `has_reached`, from the store's counter. */
  predicate TokenReached(sequence: nat, token: ConsistencyToken) {
    && |token.text| >= 4 && token.text[..4] == "seq-"
    && ParseU64(token.text[4..]).Some?
    && ParseU64(token.text[4..]).value <= sequence
  }

  // ------------------------------------------------------------------ what each method makes of a state

  function Ticked(s: State): State { s.(sequence := s.sequence + 1) }

  function WithEntity(s: State, entity: StoredEntity): State {
    s.(locators := s.locators[entity.metadata.locator.Render() := entity.metadata.id],
       entities := s.entities[entity.metadata.id := entity])
  }

  function WithRelation(s: State, relation: Relation): State {
    s.(relations := s.relations[relation.id := relation])
  }

  function HistoryOf(s: State, id: EntityId): seq<RevisionRecord> {
    if id in s.history then s.history[id] else []
  }

  function WithRevision(s: State, id: EntityId, record: RevisionRecord): State {
    s.(history := s.history[id := HistoryOf(s, id) + [record]])
  }

  function WithAudit(s: State, record: AuditRecord): State { s.(audit := s.audit + [record]) }

  function WithEvent(s: State, event: DomainEvent): State { s.(events := s.events + [event]) }

  function Remembering(s: State, key: IdempotencyKey, applied: AppliedCommand): State {
    s.(applied := s.applied[key := applied])
  }

  // ------------------------------------------------------------------ the store

  class Store {
    var entities: map<EntityId, StoredEntity>
    var locators: map<string, EntityId>
    var relations: map<RelationId, Relation>
    var history: map<EntityId, seq<RevisionRecord>>
    var audit: seq<AuditRecord>
    var events: seq<DomainEvent>
    var applied: map<IdempotencyKey, AppliedCommand>
    var sequence: nat

    /** The value the store is right now. */
    function View(): State
      reads this
    {
      State(entities, locators, relations, history, audit, events, applied, sequence)
    }

    constructor ()
      ensures View() == EMPTY
    {
      entities, locators, relations, history := map[], map[], map[], map[];
      audit, events, applied, sequence := [], [], map[], 0;
    }

    /** Advances the sequence and returns the new value, which every generated identifier uses. */
    method Tick() returns (n: nat)
      modifies this`sequence
      ensures View() == Ticked(old(View())) && n == sequence
    {
      sequence := sequence + 1;
      n := sequence;
    }

    method NextEntityId() returns (id: EntityId)
      modifies this`sequence
      ensures View() == Ticked(old(View())) && id == EntityIdAt(sequence)
    {
      var n := Tick();
      id := EntityId("01MEM" + Pad(n, 16));
    }

    method NextRelationId() returns (id: RelationId)
      modifies this`sequence
      ensures View() == Ticked(old(View())) && id == RelationIdAt(sequence)
    {
      var n := Tick();
      id := RelationId("rel-" + Pad(n, 12));
    }

    method NextAuditId() returns (id: AuditId)
      modifies this`sequence
      ensures View() == Ticked(old(View())) && id == AuditIdAt(sequence)
    {
      var n := Tick();
      id := AuditId("aud-" + Pad(n, 12));
    }

    method NextEventId() returns (id: EventId)
      modifies this`sequence
      ensures View() == Ticked(old(View())) && id == EventIdAt(sequence)
    {
      var n := Tick();
      id := EventId("evt-" + Pad(n, 12));
    }

    /** The token describing the store's current point in history. */
    function Token(): ConsistencyToken
      reads this
    {
      TokenAt(sequence)
    }

    predicate HasReached(token: ConsistencyToken)
      reads this
    {
      TokenReached(sequence, token)
    }

    method InsertEntity(entity: StoredEntity)
      modifies this`locators, this`entities
      ensures View() == WithEntity(old(View()), entity)
    {
      locators := locators[entity.metadata.locator.Render() := entity.metadata.id];
      entities := entities[entity.metadata.id := entity];
    }

    method InsertRelation(relation: Relation)
      modifies this`relations
      ensures View() == WithRelation(old(View()), relation)
    {
      relations := relations[relation.id := relation];
    }

    /** Removes a relation, and says whether there was one. */
    method TakeRelation(id: RelationId) returns (removed: bool)
      modifies this`relations
      ensures removed == (id in old(relations))
      ensures View() == old(View()).(relations := old(relations) - {id})
    {
      removed := id in relations;
      relations := relations - {id};
    }

    method RecordRevision(id: EntityId, record: RevisionRecord)
      modifies this`history
      ensures View() == WithRevision(old(View()), id, record)
    {
      history := history[id := (if id in history then history[id] else []) + [record]];
    }

    method RecordAudit(record: AuditRecord)
      modifies this`audit
      ensures View() == WithAudit(old(View()), record)
    {
      audit := audit + [record];
    }

    method RecordEvent(event: DomainEvent)
      modifies this`events
      ensures View() == WithEvent(old(View()), event)
    {
      events := events + [event];
    }

    method Remember(key: IdempotencyKey, command: AppliedCommand)
      modifies this`applied
      ensures View() == Remembering(old(View()), key, command)
    {
      applied := applied[key := command];
    }
  }
}
