/** What the domain events and the stored bodies say after a command
    (crates/aep-backend-memory/src/command.rs:105-347, 388-392, 460-543, 580-611). */
module BackendEvents {
  import opened Wrappers
  import opened ArtifactGraphs
  import opened Entities
  import opened Commands
  import opened Stores
  import opened Backend
  import opened BackendInvariant
  import opened BackendSteps
  import opened BackendRuns

  // ------------------------------------------------------------------ events are grounded in histories

  /** This revision is the one the event tells of: made by the same command, then, by the same actor. */
  predicate Records(record: RevisionRecord, event: DomainEvent) {
    && record.revision == event.entityRevision && record.at == event.occurredAt
    && record.actor == event.actor && record.commandId == Some(event.commandId)
  }

  predicate IsGrounded(event: DomainEvent, history: map<EntityId, seq<RevisionRecord>>) {
    && event.subject.id in history
    && 1 <= event.entityRevision <= |history[event.subject.id]|
    && Records(history[event.subject.id][event.entityRevision - 1], event)
  }

  ghost predicate AllGrounded(events: seq<DomainEvent>, history: map<EntityId, seq<RevisionRecord>>) {
    forall i :: 0 <= i < |events| ==> IsGrounded(events[i], history)
  }

  /** The commands that emit an event when they go through. */
  predicate Emits(command: Command) {
    command.CreateEntity? || command.UpdateEntity? || command.SubmitDesignReview? || command.ApproveDesign? || command.AcceptAdr?
  }

  /** One event more, of this command, about what it affected. */
  ghost predicate OneEvent(before: seq<DomainEvent>, after: seq<DomainEvent>, e: CommandEnvelope, affected: Affected) {
    && |after| == |before| + 1 && after[..|before|] == before && affected != []
    && var event := after[|before|];
       && event.subject == affected[0].Unversioned() && event.entityRevision == affected[0].revision
       && event.commandId == e.commandId && event.occurredAt == e.context.issuedAt && event.actor == e.context.actor
  }

  ghost predicate EventEffect(s: State, e: CommandEnvelope, arm: Step<Affected>) {
    arm.answer.Ok? ==> if Emits(e.payload) then OneEvent(s.events, arm.state.events, e, arm.answer.value)
                       else arm.state.events == s.events
  }

  lemma EmittedOnce(s: State, e: CommandEnvelope, eventType: string, payload: Node, subject: VersionedEntityRef)
    ensures OneEvent(s.events, Emitted(s, e, eventType, payload, subject).events, e, [subject])
  {
    hide EventIdAt;
  }

  lemma MutatedEmitsNothing(s: State, e: CommandEnvelope, target: EntityRef, change: Change)
    requires target.id in s.entities
    ensures Mutated(s, e, target, change).events == s.events
  {
  }

  lemma CreateEvent(s: State, e: CommandEnvelope)
    requires e.payload.CreateEntity?
    ensures EventEffect(s, e, CreateArm(s, e, e.payload.entityType, e.payload.locator, e.payload.data))
  {
    hide EntityIdAt, Emitted, WithEntity, OneEvent, HistoryRecord;
    var metadata := NewMetadata(EntityIdAt(s.sequence + 1), e.payload.locator, e.payload.entityType, e.context.issuedAt, e.context.actor);
    var created := Created(s, e, StoredEntity(metadata, e.payload.data, false));
    CreatedEmitsNothing(s, e, StoredEntity(metadata, e.payload.data, false));
    EmittedOnce(created, e, "aep.entity.created/v1", e.payload.data, metadata.VersionedReference());
  }

  lemma CreatedEmitsNothing(s: State, e: CommandEnvelope, entity: StoredEntity)
    ensures Created(s, e, entity).events == s.events
  {
    hide HistoryRecord;
  }

  lemma UpdateEvent(s: State, e: CommandEnvelope)
    requires e.payload.UpdateEntity?
    ensures EventEffect(s, e, UpdateArm(s, e, e.payload.target, e.payload.changes))
  {
    hide Mutated, Emitted, Advanced, OneEvent;
    if e.payload.target.id in s.entities {
      MutatedEmitsNothing(s, e, e.payload.target, Fields(e.payload.changes));
      EmittedOnce(Mutated(s, e, e.payload.target, Fields(e.payload.changes)), e, "aep.entity.updated/v1", Map(e.payload.changes),
                  Advanced(s, e.payload.target));
    }
  }

  lemma DesignEvent(s: State, e: CommandEnvelope)
    requires e.payload.SubmitDesignReview? || e.payload.ApproveDesign?
    ensures EventEffect(s, e, Arm(s, e))
  {
    hide Mutated, Emitted, Advanced, OneEvent, ActorText;
    var target := e.payload.design.Unversioned();
    if target.id in s.entities {
      var status := Status(if e.payload.SubmitDesignReview? then "in_review" else "approved");
      MutatedEmitsNothing(s, e, target, status);
      if e.payload.SubmitDesignReview? {
        EmittedOnce(Mutated(s, e, target, status), e, "aep.design.submitted-for-review/v1", Text(ActorText(e.payload.reviewer)), Advanced(s, target));
      } else {
        EmittedOnce(Mutated(s, e, target, status), e, "aep.design.approved/v1", Text(e.payload.review.id.text), Advanced(s, target));
      }
    }
  }

  lemma LinkedEmitsNothing(s: State, e: CommandEnvelope, source: EntityRef, target: EntityRef)
    ensures Linked(s, e, Supersedes, source, target).events == s.events
  {
    hide RelationIdAt;
  }

  lemma AcceptEvent(s: State, e: CommandEnvelope)
    requires e.payload.AcceptAdr?
    ensures EventEffect(s, e, AcceptArm(s, e, e.payload.adr, e.payload.supersedes))
  {
    hide Mutated, Emitted, Advanced, OneEvent, Linked;
    var target := e.payload.adr.Unversioned();
    if target.id in s.entities {
      var accepted := Mutated(s, e, target, Status("accepted"));
      MutatedEmitsNothing(s, e, target, Status("accepted"));
      EmittedOnce(accepted, e, "aep.adr.accepted/v1", Null, Advanced(s, target));
      if e.payload.supersedes.Some? {
        LinkedEmitsNothing(accepted, e, target, e.payload.supersedes.value);
        EmittedOnce(Linked(accepted, e, Supersedes, target, e.payload.supersedes.value), e, "aep.adr.accepted/v1", Null, Advanced(s, target));
      }
    }
  }

  lemma SilentArms(s: State, e: CommandEnvelope)
    requires !Emits(e.payload)
    ensures EventEffect(s, e, Arm(s, e))
  {
    hide Mutated, Advanced, RelationIdAt;
    if (e.payload.ArchiveEntity? || e.payload.SupersedeEntity?) && e.payload.target.id in s.entities {
      MutatedEmitsNothing(s, e, e.payload.target, if e.payload.ArchiveEntity? then Archive else Status("superseded"));
    }
  }

  lemma ArmEvents(s: State, e: CommandEnvelope)
    ensures EventEffect(s, e, Arm(s, e))
  {
    hide EventEffect, CreateArm, UpdateArm, RelateArm, UnrelateArm, ArchiveArm, SupersedeArm, SubmitArm, ApproveArm, AcceptArm;
    match e.payload {
      case CreateEntity(_, _, _) => CreateEvent(s, e);
      case UpdateEntity(_, _) => UpdateEvent(s, e);
      case SubmitDesignReview(_, _) => DesignEvent(s, e);
      case ApproveDesign(_, _) => DesignEvent(s, e);
      case AcceptAdr(_, _) => AcceptEvent(s, e);
      case _ => SilentArms(s, e);
    }
  }

  // ------------------------------------------------------------------ over whole runs

  lemma StaysGrounded(event: DomainEvent, before: map<EntityId, seq<RevisionRecord>>, after: map<EntityId, seq<RevisionRecord>>)
    requires IsGrounded(event, before) && HistoryGrows(before, after)
    ensures IsGrounded(event, after)
  {
    hide Records;
    var id := event.subject.id;
    assert before[id] <= after[id];
  }

  lemma NewEventIsGrounded(s: State, after: State, e: CommandEnvelope, affected: Affected)
    requires HistoryOk(after.entities, after.history) && OneEvent(s.events, after.events, e, affected)
    requires after.history == Recorded(s, e, affected)
    ensures IsGrounded(after.events[|s.events|], after.history)
  {
    var id, held := affected[0].id, HistoryOf(s, affected[0].id) + [HistoryRecord(e, affected[0])];
    assert after.history[id] == held && held[|held| - 1] == HistoryRecord(e, affected[0]);
    assert id in after.entities && after.history[id][|held| - 1].revision == |held|;
  }

  lemma AcceptedEvents(s: State, e: CommandEnvelope)
    requires HistoryOk(s.entities, s.history) && Apply(s, e).answer.Ok? && !IsReplay(s, e)
    ensures Arm(s, e).answer.Ok?
    ensures if Emits(e.payload) then OneEvent(s.events, Apply(s, e).state.events, e, Arm(s, e).answer.value)
            else Apply(s, e).state.events == s.events
    ensures Apply(s, e).state.history == Recorded(s, e, Arm(s, e).answer.value)
    ensures Apply(s, e).answer.value.events ==
            if Apply(s, e).state.events == [] then [] else [Apply(s, e).state.events[|Apply(s, e).state.events| - 1].eventId]
  {
    hide Apply, Arm, HistoryOk, AcceptedRecord, AuditIdAt, TokenAt, OneEvent, Recorded, Emits;
    if e.context.idempotencyKey in s.applied { MismatchRefuses(s, e); }
    AcceptedState(s, e);
    ArmEvents(s, e);
    ArmHasEffect(s, e);
  }

  lemma RefusedEvents(s: State, e: CommandEnvelope)
    requires HistoryOk(s.entities, s.history) && Apply(s, e).answer.Err?
    ensures Apply(s, e).state.events == s.events
  {
    hide Apply, HistoryOk, Mutated, RejectedRecord, AuditIdAt;
    RefusalState(s, e);
    if Strands(s, e) {
      StrandedShape(s, e);
      MutatedEmitsNothing(s, e, e.payload.adr.Unversioned(), Status("accepted"));
    }
  }

  lemma ApplyGrounds(s: State, e: CommandEnvelope)
    requires Inv(s) && AllGrounded(s.events, s.history)
    ensures AllGrounded(Apply(s, e).state.events, Apply(s, e).state.history)
  {
    hide Apply, Arm, HistoryOk, LocatorsOk, RelationsOk, EntityIdsOk, RelationIdsOk, AuditIdsOk, EventIdsOk, AuditOk;
    hide IsGrounded, EntitiesGrow, HistoryGrows, AppliedGrows, IsReplay, Recorded;
    var after := Apply(s, e).state;
    ApplyKeeps(s, e);
    forall i | 0 <= i < |s.events| ensures IsGrounded(s.events[i], after.history) {
      StaysGrounded(s.events[i], s.history, after.history);
    }
    if Apply(s, e).answer.Err? {
      RefusedEvents(s, e);
    } else if IsReplay(s, e) {
      ReplayIsStill(s, e);
    } else {
      AcceptedEvents(s, e);
      if Emits(e.payload) {
        NewEventIsGrounded(s, after, e, Arm(s, e).answer.value);
        forall i | 0 <= i < |after.events| ensures IsGrounded(after.events[i], after.history) {
          if i < |s.events| { assert after.events[i] == after.events[..|s.events|][i]; }
        }
      }
    }
  }

  /** Every event of a run tells of a revision its subject went through, made by that command. */
  lemma {:induction false} EveryEventIsGrounded(run: Run)
    ensures AllGrounded(After(EMPTY, run).events, After(EMPTY, run).history)
  {
    hide Apply, Inv, IsGrounded;
    if run != [] {
      var earlier := run[..|run| - 1];
      EveryEventIsGrounded(earlier);
      EveryReachableStateIsSound(earlier, |earlier|);
      assert earlier[..|earlier|] == earlier;
      ApplyGrounds(After(EMPTY, earlier), run[|run| - 1]);
    }
  }

  /** An accepted command of a kind that emits an event reports that one; any other reports the last event
      there was, whoever emitted it, or none. */
  lemma ReportedEvent(s: State, e: CommandEnvelope)
    requires Inv(s) && Apply(s, e).answer.Ok? && !IsReplay(s, e)
    ensures Emits(e.payload) ==>
              && |Apply(s, e).state.events| == |s.events| + 1
              && Apply(s, e).answer.value.events == [Apply(s, e).state.events[|s.events|].eventId]
              && Apply(s, e).state.events[|s.events|].commandId == e.commandId
    ensures !Emits(e.payload) ==>
              Apply(s, e).answer.value.events == if s.events == [] then [] else [s.events[|s.events| - 1].eventId]
  {
    hide Apply, Arm, HistoryOk, LocatorsOk, RelationsOk, EntityIdsOk, RelationIdsOk, AuditIdsOk, EventIdsOk, AuditOk;
    hide IsReplay, Recorded, Emits;
    AcceptedEvents(s, e);
  }

  /** The exception happens: archiving what was just created reports the event of its creation. */
  lemma ArchivingReportsTheCreation(create: CommandEnvelope, archive: CommandEnvelope)
    requires create.payload.CreateEntity? && archive.payload.ArchiveEntity? && archive.payload.target.id == EntityIdAt(1)
    requires archive.context.idempotencyKey != create.context.idempotencyKey && archive.expectedRevision == None
    ensures var created := Apply(EMPTY, create); var archived := Apply(created.state, archive);
            && created.answer.Ok? && archived.answer.Ok?
            && archived.answer.value.events == created.answer.value.events == [EventIdAt(2)]
            && created.state.events[0].commandId == create.commandId
  {
    hide EntityIdAt, EventIdAt, AuditIdAt, TokenAt, AcceptedRecord, LocatorParts.Render, Changed;
    var arm := Arm(EMPTY, create).state;
    assert arm.entities.Keys == {EntityIdAt(1)} && |arm.events| == 1 && arm.events[0].eventId == EventIdAt(2);
    var created := Apply(EMPTY, create).state;
    assert created.entities == arm.entities && created.events == arm.events;
    assert created.applied.Keys == {create.context.idempotencyKey};
  }

  // ------------------------------------------------------------------ what a change does to a body

  /** The value a body holds under a key; a body that is not a mapping is the value of one. */
  function Held(data: Node, key: string): Option<Node> {
    match data
    case Map(entries) => if key in entries then Some(entries[key]) else None
    case other => if key == "value" then Some(other) else None
  }

  /** What a change sets a key to, if it sets it. */
  function SetTo(change: Change, key: string): Option<Node> {
    match change
    case Fields(changes) => if key in changes then Some(changes[key]) else None
    case Archive => if key == "status" then Some(Text("archived")) else None
    case Status(status) => if key == "status" then Some(Text(status)) else None
  }

  /** A mutation sets what its command names and nothing else of the body, archives only when that is the
      command, and leaves every other entity as it was. */
  lemma MutationTouchesWhatItNames(s: State, e: CommandEnvelope, target: EntityRef, change: Change, key: string)
    requires HistoryOk(s.entities, s.history) && target.id in s.entities
    ensures var after := Mutated(s, e, target, change).entities;
            && OneAdvanced(s.entities, after, target.id)
            && Held(after[target.id].data, key)
               == (if SetTo(change, key).Some? then SetTo(change, key) else Held(s.entities[target.id].data, key))
            && after[target.id].archived == (s.entities[target.id].archived || change == Archive)
  {
    hide OneAdvanced, Held, HistoryOk;
    MutatedAdvancesOne(s, e, target, change);
    ChangedHolds(s.entities[target.id], change, key);
  }

  lemma ChangedHolds(entity: StoredEntity, change: Change, key: string)
    ensures Held(Changed(entity, change).data, key)
            == if SetTo(change, key).Some? then SetTo(change, key) else Held(entity.data, key)
  {
  }
}
