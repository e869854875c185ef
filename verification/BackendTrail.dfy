/** The audit trail against the histories: in every run they tell the same story about an entity,
    except for the decision records a refusal stranded
    (crates/aep-backend-memory/src/command.rs:302-382). */
module BackendTrail {
  import opened Wrappers
  import opened Entities
  import opened Commands
  import opened Audit
  import opened Stores
  import opened Backend
  import opened BackendInvariant
  import opened BackendSteps
  import opened BackendRuns

  /** An accepted record of a change to this entity. */
  predicate IsChangeOf(record: AuditRecord, id: EntityId) {
    record.kind == CommandAccepted && record.change.Some? && record.change.value.entity.id == id
  }

  /** An entity's accepted change records, in audit order. */
  function ChangesOf(audit: seq<AuditRecord>, id: EntityId): (changes: seq<AuditRecord>)
    ensures forall i :: 0 <= i < |changes| ==> IsChangeOf(changes[i], id)
  {
    if audit == [] then []
    else
      var earlier, last := ChangesOf(audit[..|audit| - 1], id), audit[|audit| - 1];
      if IsChangeOf(last, id) then earlier + [last] else earlier
  }

  /** This audit record tells of this revision: the same step from the revision before, by the same
      command, at the same time, in the same hands. */
  ghost predicate Tells(record: AuditRecord, revision: RevisionRecord) {
    && record.change.Some?
    && record.change.value.before == PreviousRevision(revision.revision)
    && record.change.value.after == Some(revision.revision)
    && record.commandId == revision.commandId && record.occurredAt == revision.at
    && record.actor == revision.actor && record.executor == revision.executor
  }

  /** The trail tells of every revision of the history, in order, and of nothing else. */
  ghost predicate Explains(changes: seq<AuditRecord>, history: seq<RevisionRecord>) {
    |changes| == |history| && forall i :: 0 <= i < |changes| ==> Tells(changes[i], history[i])
  }

  /** How many commands of a run stranded this decision record. */
  function StrandCount(s: State, run: Run, id: EntityId): nat {
    if run == [] then 0
    else
      var earlier, last := run[..|run| - 1], run[|run| - 1];
      StrandCount(s, earlier, id) + if StrandsThis(After(s, earlier), last, id) then 1 else 0
  }

  predicate StrandsThis(s: State, e: CommandEnvelope, id: EntityId) {
    Strands(s, e) && e.payload.adr.id == id
  }

  lemma ChangesOfOneMore(audit: seq<AuditRecord>, record: AuditRecord, id: EntityId)
    ensures ChangesOf(audit + [record], id) == ChangesOf(audit, id) + if IsChangeOf(record, id) then [record] else []
  {
    assert (audit + [record])[..|audit|] == audit;
  }

  // ------------------------------------------------------------------ one command

  /** A command adds to trail and history together, to the history alone, or to neither. */
  ghost predicate TrailStep(s: State, after: State, id: EntityId, stranded: bool) {
    var changes, changed := ChangesOf(s.audit, id), ChangesOf(after.audit, id);
    var history, longer := HistoryOf(s, id), HistoryOf(after, id);
    if stranded then changed == changes && |longer| == |history| + 1
    else
      || (changed == changes && longer == history)
      || (|changed| == |changes| + 1 && |longer| == |history| + 1
          && changed[..|changes|] == changes && longer[..|history|] == history
          && Tells(changed[|changes|], longer[|history|]))
  }

  lemma ReplayTrail(s: State, e: CommandEnvelope, id: EntityId)
    requires IsReplay(s, e)
    ensures TrailStep(s, Apply(s, e).state, id, StrandsThis(s, e, id))
  {
    hide Apply;
    ReplayIsStill(s, e);
  }

  lemma RejectionTrail(s: State, e: CommandEnvelope, error: CommandError, id: EntityId)
    ensures ChangesOf(WithRejection(s, e, error).audit, id) == ChangesOf(s.audit, id)
    ensures WithRejection(s, e, error).history == s.history
  {
    hide AuditIdAt;
    ChangesOfOneMore(s.audit, RejectedRecord(e, AuditIdAt(s.sequence + 1), error), id);
  }

  lemma RefusalTrail(s: State, e: CommandEnvelope, id: EntityId)
    requires HistoryOk(s.entities, s.history) && Apply(s, e).answer.Err?
    ensures TrailStep(s, Apply(s, e).state, id, StrandsThis(s, e, id))
  {
    hide Apply, HistoryOk, Mutated, WithRejection, Tells, IsChangeOf, HistoryRecord, Advanced;
    RefusalState(s, e);
    if Strands(s, e) {
      StrandedShape(s, e);
      var target := e.payload.adr.Unversioned();
      MutatedRecords(s, e, target, Status("accepted"));
      AdvancedIsTarget(s, target);
      RejectionTrail(AfterRefusal(s, e), e, Apply(s, e).answer.error, id);
    } else {
      RejectionTrail(s, e, Apply(s, e).answer.error, id);
    }
  }

  lemma AdvancedIsTarget(s: State, target: EntityRef)
    requires HistoryOk(s.entities, s.history) && target.id in s.entities
    ensures Advanced(s, target).id == target.id
  {
  }

  lemma AcceptedTrail(s: State, e: CommandEnvelope, id: EntityId)
    requires HistoryOk(s.entities, s.history) && Apply(s, e).answer.Ok? && !IsReplay(s, e)
    ensures TrailStep(s, Apply(s, e).state, id, StrandsThis(s, e, id))
  {
    hide Apply, HistoryOk, Arm, AuditIdAt, HistoryRecord, AcceptedRecord, IsChangeOf, Tells, AcceptedResult;
    if e.context.idempotencyKey in s.applied { MismatchRefuses(s, e); }
    AcceptedState(s, e);
    ArmHasEffect(s, e);
    assert !Strands(s, e) by { if Strands(s, e) { StrandingAnswers(s, e); } }
    var arm := Arm(s, e);
    var record := AcceptedRecord(e, AuditIdAt(arm.state.sequence + 1), arm.answer.value);
    ChangesOfOneMore(s.audit, record, id);
    AcceptedTells(e, AuditIdAt(arm.state.sequence + 1), arm.answer.value, id);
  }

  lemma AcceptedTells(e: CommandEnvelope, auditId: AuditId, affected: Affected, id: EntityId)
    ensures IsChangeOf(AcceptedRecord(e, auditId, affected), id) <==> affected != [] && affected[0].id == id
    ensures affected != [] ==> Tells(AcceptedRecord(e, auditId, affected), HistoryRecord(e, affected[0]))
  {
  }

  lemma ApplyTrail(s: State, e: CommandEnvelope, id: EntityId)
    requires HistoryOk(s.entities, s.history)
    ensures TrailStep(s, Apply(s, e).state, id, StrandsThis(s, e, id))
  {
    hide Apply, HistoryOk, TrailStep, IsReplay, StrandsThis;
    if IsReplay(s, e) {
      ReplayTrail(s, e, id);
    } else if Apply(s, e).answer.Ok? {
      AcceptedTrail(s, e, id);
    } else {
      RefusalTrail(s, e, id);
    }
  }

  // ------------------------------------------------------------------ whole runs

  /** The history runs ahead of the trail by exactly the stranded revisions, and until the first of
      those the trail explains it. */
  lemma {:induction false} TrailFollows(run: Run, id: EntityId)
    ensures |HistoryOf(After(EMPTY, run), id)| == |ChangesOf(After(EMPTY, run).audit, id)| + StrandCount(EMPTY, run, id)
    ensures StrandCount(EMPTY, run, id) == 0 ==>
              Explains(ChangesOf(After(EMPTY, run).audit, id), HistoryOf(After(EMPTY, run), id))
  {
    hide Apply, StrandsThis, IsChangeOf, Tells, Inv;
    if run != [] {
      var earlier, last := run[..|run| - 1], run[|run| - 1];
      var s := After(EMPTY, earlier);
      TrailFollows(earlier, id);
      EveryReachableStateIsSound(earlier, |earlier|);
      assert earlier[..|earlier|] == earlier;
      InvHasHistory(s);
      ApplyTrail(s, last, id);
      OneStepFurther(s, Apply(s, last).state, id, StrandsThis(s, last, id));
    }
  }

  lemma OneStepFurther(s: State, after: State, id: EntityId, stranded: bool)
    requires TrailStep(s, after, id, stranded)
    ensures |HistoryOf(after, id)| - |ChangesOf(after.audit, id)|
            == |HistoryOf(s, id)| - |ChangesOf(s.audit, id)| + if stranded then 1 else 0
    ensures !stranded && Explains(ChangesOf(s.audit, id), HistoryOf(s, id))
            ==> Explains(ChangesOf(after.audit, id), HistoryOf(after, id))
  {
    hide HistoryOf, ChangesOf, Tells;
    var changes, changed := ChangesOf(s.audit, id), ChangesOf(after.audit, id);
    var history, longer := HistoryOf(s, id), HistoryOf(after, id);
    if !stranded && Explains(changes, history) && |changed| == |changes| + 1 && |longer| == |history| + 1 {
      forall i | 0 <= i < |changed| ensures Tells(changed[i], longer[i]) {
        if i < |changes| { assert changed[i] == changed[..|changes|][i] && longer[i] == longer[..|history|][i]; }
      }
    }
  }

  /** The trail explains an entity's history exactly when the run never stranded it. */
  lemma TrailExplainsExactly(run: Run, id: EntityId)
    ensures Explains(ChangesOf(After(EMPTY, run).audit, id), HistoryOf(After(EMPTY, run), id))
            <==> StrandCount(EMPTY, run, id) == 0
  {
    hide After, StrandCount, ChangesOf, HistoryOf, Tells;
    TrailFollows(run, id);
  }

  /** In a run that strands nothing, an entity's change records are the unbroken chain from nothing to
      1, from 1 to 2, and on to its current revision. */
  lemma ChainIsUnbroken(run: Run, id: EntityId)
    requires StrandCount(EMPTY, run, id) == 0 && id in After(EMPTY, run).entities
    ensures var s := After(EMPTY, run);
            var changes := ChangesOf(s.audit, id);
            && |changes| == s.entities[id].metadata.revision
            && forall i :: 0 <= i < |changes| ==>
                 && changes[i].change.value.after == Some(i + 1)
                 && changes[i].change.value.before == if i == 0 then None else Some(i)
  {
    hide After, StrandCount, ChangesOf, Inv, IsChangeOf;
    EveryReachableStateIsSound(run, |run|);
    assert run[..|run|] == run;
    InvHasHistory(After(EMPTY, run));
    TrailFollows(run, id);
    var changes, history := ChangesOf(After(EMPTY, run).audit, id), HistoryOf(After(EMPTY, run), id);
    forall i | 0 <= i < |changes|
      ensures changes[i].change.value.after == Some(i + 1)
      ensures changes[i].change.value.before == if i == 0 then None else Some(i)
    {
      assert Tells(changes[i], history[i]) && history[i].revision == i + 1;
    }
  }

  /** Every record the backend ever writes passes the audit record's own validation. */
  lemma EveryRecordIsConsistent(run: Run, i: nat)
    requires i < |After(EMPTY, run).audit|
    ensures Consistent(After(EMPTY, run).audit[i])
  {
    hide After, Consistent, HistoryOk, LocatorsOk, RelationsOk, EntityIdsOk, RelationIdsOk, AuditIdsOk, EventIdsOk;
    EveryReachableStateIsSound(run, |run|);
    assert run[..|run|] == run;
  }

  /** The exception happens: after any creation, accepting what it created in place of something that
      is not there is refused, and accepted all the same, with no record of the change. */
  lemma RefusedYetAccepted(create: CommandEnvelope, accept: CommandEnvelope, missing: EntityRef)
    requires create.payload.CreateEntity? && accept.context.idempotencyKey != create.context.idempotencyKey
    requires accept.payload == Command.AcceptAdr(VersionedEntityRef(EntityIdAt(1), 1), Some(missing))
    requires missing.id != EntityIdAt(1) && (accept.expectedRevision == None || accept.expectedRevision == Some(1))
    ensures var run, id := [create, accept], EntityIdAt(1);
            && AnswerAt(run, 1) == Err(NotFound(missing))
            && StrandCount(EMPTY, run, id) == 1
            && !OnlyRefused(StateAt(run, 1), StateAt(run, 2), accept, NotFound(missing))
            && !Explains(ChangesOf(StateAt(run, 2).audit, id), HistoryOf(StateAt(run, 2), id))
  {
    hide Apply, EntityIdAt, Explains, ChangesOf, HistoryOf, OnlyRefused, StateAt, AnswerAt, StrandCount, Inv, Keeps, HistoryOk;
    hide RequireRevision, RequireExpected;
    var created := Apply(EMPTY, create).state;
    TwoCommands(create, accept, EntityIdAt(1));
    FirstCreation(create);
    EmptyIsReachable();
    ApplyKeeps(EMPTY, create);
    KeepsReaches(EMPTY, created);
    InvHasHistory(created);
    FirstIsStranded(create, accept, missing);
    StrandingAnswers(created, accept);
    RefusalFrame(created, accept);
    TrailExplainsExactly([create, accept], EntityIdAt(1));
  }

  lemma TwoCommands(first: CommandEnvelope, second: CommandEnvelope, id: EntityId)
    ensures var run := [first, second];
            && StateAt(run, 1) == Apply(EMPTY, first).state
            && StateAt(run, 2) == Apply(StateAt(run, 1), second).state == After(EMPTY, run)
            && AnswerAt(run, 1) == Apply(StateAt(run, 1), second).answer
            && StrandCount(EMPTY, run, id) == (if StrandsThis(EMPTY, first, id) then 1 else 0)
                                              + (if StrandsThis(StateAt(run, 1), second, id) then 1 else 0)
  {
    hide Apply, StrandsThis;
    var run := [first, second];
    assert run[..0] == [] && run[..1] == [first] && run[..2] == run && [first][..0] == [];
    assert After(EMPTY, []) == EMPTY && After(EMPTY, [first]) == Apply(EMPTY, first).state;
    assert StrandCount(EMPTY, [], id) == 0;
    assert StrandCount(EMPTY, [first], id) == if StrandsThis(EMPTY, first, id) then 1 else 0;
  }

  lemma FirstIsStranded(create: CommandEnvelope, accept: CommandEnvelope, missing: EntityRef)
    requires create.payload.CreateEntity? && accept.context.idempotencyKey != create.context.idempotencyKey
    requires accept.payload == Command.AcceptAdr(VersionedEntityRef(EntityIdAt(1), 1), Some(missing))
    requires missing.id != EntityIdAt(1) && (accept.expectedRevision == None || accept.expectedRevision == Some(1))
    ensures Strands(Apply(EMPTY, create).state, accept)
  {
    hide Apply, EntityIdAt;
    FirstCreation(create);
  }

  lemma FirstCreation(create: CommandEnvelope)
    requires create.payload.CreateEntity?
    ensures var created := Apply(EMPTY, create).state;
            && created.entities.Keys == {EntityIdAt(1)}
            && created.entities[EntityIdAt(1)].metadata.revision == 1
            && created.applied.Keys == {create.context.idempotencyKey}
  {
    hide EntityIdAt, EventIdAt, AuditIdAt, TokenAt, AcceptedRecord;
    assert Arm(EMPTY, create).state.entities.Keys == {EntityIdAt(1)};
  }
}
