/** Whole runs of commands: the invariant holds at every point, each command is applied exactly once,
    tokens name points of the run, and the audit trail explains every history
    (crates/aep-backend-memory/src/command.rs, crates/aep-backend-memory/src/store.rs). */
module BackendRuns {
  import opened Wrappers
  import opened Entities
  import opened Commands
  import opened Audit
  import opened Stores
  import opened Backend
  import opened BackendInvariant
  import opened BackendSteps
  import Decimal

  type Run = seq<CommandEnvelope>

  /** The state after a run of commands. */
  function After(s: State, run: Run): State {
    if run == [] then s else Apply(After(s, run[..|run| - 1]), run[|run| - 1]).state
  }

  /** The state a fresh backend is in before command `i` of a run, and its answer to that command. */
  function StateAt(run: Run, i: nat): State
    requires i <= |run|
  {
    After(EMPTY, run[..i])
  }

  function AnswerAt(run: Run, i: nat): Result<CommandResult, CommandError>
    requires i < |run|
  {
    Apply(StateAt(run, i), run[i]).answer
  }

  lemma StateAtNext(run: Run, i: nat)
    requires i < |run|
    ensures StateAt(run, i + 1) == Apply(StateAt(run, i), run[i]).state
  {
    hide Apply;
    assert run[..i + 1][..i] == run[..i];
  }

  // ------------------------------------------------------------------ the invariant over every run

  lemma EmptyIsReachable()
    ensures Inv(EMPTY)
  {
  }

  lemma {:induction false} RunKeeps(s: State, run: Run)
    requires Inv(s)
    ensures Keeps(s, After(s, run))
  {
    hide Inv, Keeps, Apply;
    if run == [] {
      StandingStill(s);
    } else {
      var before := After(s, run[..|run| - 1]);
      RunKeeps(s, run[..|run| - 1]);
      KeepsReaches(s, before);
      ApplyKeeps(before, run[|run| - 1]);
      ThenKeeps(s, before, After(s, run));
    }
  }

  /** Every state a fresh backend can reach satisfies the invariant. */
  lemma EveryReachableStateIsSound(run: Run, i: nat)
    requires i <= |run|
    ensures Inv(StateAt(run, i))
  {
    hide Inv, Keeps, After;
    EmptyIsReachable();
    RunKeeps(EMPTY, run[..i]);
    KeepsReaches(EMPTY, StateAt(run, i));
  }

  /** Between two points of a run nothing is lost, and no entity changes its identity, address, type,
      creator or time of creation. */
  lemma {:induction false} NothingIsLost(run: Run, i: nat, j: nat)
    requires i <= j <= |run|
    ensures Grows(StateAt(run, i), StateAt(run, j))
    decreases j - i
  {
    hide Inv, Grows, Apply, StateAt;
    EveryReachableStateIsSound(run, i);
    if i == j {
      StandingStill(StateAt(run, i));
    } else {
      StateAtNext(run, i);
      ApplyKeeps(StateAt(run, i), run[i]);
      NothingIsLost(run, i + 1, j);
      GrowsIsTransitive(StateAt(run, i), StateAt(run, i + 1), StateAt(run, j));
    }
  }

  // ------------------------------------------------------------------ exactly once

  /** This command was already accepted, under the same key. */
  predicate IsReplay(s: State, e: CommandEnvelope) {
    e.context.idempotencyKey in s.applied && s.applied[e.context.idempotencyKey].commandId == e.commandId
  }

  /** A run with every replay taken out. */
  function WithoutReplays(s: State, run: Run): Run {
    if run == [] then []
    else
      var earlier, last := run[..|run| - 1], run[|run| - 1];
      if IsReplay(After(s, earlier), last) then WithoutReplays(s, earlier)
      else WithoutReplays(s, earlier) + [last]
  }

  /** Taking every replay out of a run changes nothing about where it ends. */
  lemma {:induction false} ReplaysDoNotMatter(s: State, run: Run)
    ensures After(s, WithoutReplays(s, run)) == After(s, run)
  {
    hide Apply;
    if run != [] {
      var earlier, last := run[..|run| - 1], run[|run| - 1];
      ReplaysDoNotMatter(s, earlier);
      if IsReplay(After(s, earlier), last) {
        ReplayStandsStill(After(s, earlier), last);
      } else {
        var kept := WithoutReplays(s, earlier) + [last];
        assert kept[..|kept| - 1] == WithoutReplays(s, earlier);
      }
    }
  }

  /** Command `i` was accepted, and not as a replay. */
  predicate AcceptedAt(run: Run, i: nat)
    requires i < |run|
  {
    AnswerAt(run, i).Ok? && !IsReplay(StateAt(run, i), run[i])
  }

  /** What accepting command `i` leaves remembered. */
  function RememberedAt(run: Run, i: nat): AppliedCommand
    requires i < |run| && AnswerAt(run, i).Ok?
  {
    AppliedCommand(run[i].commandId, AnswerAt(run, i).value)
  }

  lemma AcceptanceIsRemembered(s: State, e: CommandEnvelope)
    requires HistoryOk(s.entities, s.history) && Apply(s, e).answer.Ok? && !IsReplay(s, e)
    ensures e.context.idempotencyKey !in s.applied
    ensures Apply(s, e).state.applied == s.applied[e.context.idempotencyKey := AppliedCommand(e.commandId, Apply(s, e).answer.value)]
  {
    hide Apply, Arm, WithAcceptance, AcceptedResult, HistoryOk;
    if e.context.idempotencyKey in s.applied { MismatchRefuses(s, e); }
    AcceptedState(s, e);
    AcceptanceLeavesApplied(s, e);
  }

  lemma RefusalIsNotRemembered(s: State, e: CommandEnvelope)
    requires HistoryOk(s.entities, s.history) && Apply(s, e).answer.Err?
    ensures Apply(s, e).state.applied == s.applied
  {
    hide Apply, HistoryOk, Mutated, RejectedRecord, AuditIdAt;
    RefusalState(s, e);
    if Strands(s, e) {
      StrandedShape(s, e);
      MutatedRecords(s, e, e.payload.adr.Unversioned(), Status("accepted"));
    }
  }

  /** Whatever is remembered under a key was put there by one accepted command of the run. */
  lemma {:induction false} RememberedWasAccepted(run: Run, j: nat, key: IdempotencyKey) returns (i: nat)
    requires j <= |run| && key in StateAt(run, j).applied
    ensures i < j && AcceptedAt(run, i) && run[i].context.idempotencyKey == key
    ensures StateAt(run, j).applied[key] == RememberedAt(run, i)
  {
    hide Apply, IsReplay, StateAt;
    if j == 0 {
      assert StateAt(run, 0) == EMPTY by { StateAtStart(run); }
      assert false;
    }
    var s, e := StateAt(run, j - 1), run[j - 1];
    StateAtNext(run, j - 1);
    EveryReachableStateIsSound(run, j - 1);
    InvHasHistory(s);
    i := j - 1;
    if Apply(s, e).answer.Err? {
      RefusalIsNotRemembered(s, e);
      i := RememberedWasAccepted(run, j - 1, key);
    } else if IsReplay(s, e) {
      ReplayIsStill(s, e);
      i := RememberedWasAccepted(run, j - 1, key);
    } else {
      AcceptanceIsRemembered(s, e);
      if key != e.context.idempotencyKey { i := RememberedWasAccepted(run, j - 1, key); }
    }
  }

  lemma StateAtStart(run: Run)
    ensures StateAt(run, 0) == EMPTY
  {
  }

  lemma ReplayIsStill(s: State, e: CommandEnvelope)
    requires IsReplay(s, e)
    ensures Apply(s, e).state == s
  {
  }

  /** An accepted command stays remembered, with its own answer, for the rest of the run. */
  lemma AcceptanceStaysRemembered(run: Run, i: nat, j: nat)
    requires i < j <= |run| && AcceptedAt(run, i)
    ensures run[i].context.idempotencyKey in StateAt(run, j).applied
    ensures StateAt(run, j).applied[run[i].context.idempotencyKey] == RememberedAt(run, i)
  {
    hide Apply, IsReplay, StateAt, EntitiesGrow, HistoryGrows, Inv;
    EveryReachableStateIsSound(run, i);
    InvHasHistory(StateAt(run, i));
    AcceptanceIsRemembered(StateAt(run, i), run[i]);
    StateAtNext(run, i);
    NothingIsLost(run, i + 1, j);
  }

  /** Once a command is accepted, sending it again answers what it answered first, marked as a replay,
      and changes nothing. */
  lemma ReplayAnswersTheSame(run: Run, i: nat, j: nat)
    requires i < j < |run| && AcceptedAt(run, i)
    requires run[j].context.idempotencyKey == run[i].context.idempotencyKey && run[j].commandId == run[i].commandId
    ensures AnswerAt(run, j) == Ok(AnswerAt(run, i).value.(outcome := Replayed))
    ensures StateAt(run, j + 1) == StateAt(run, j)
  {
    hide Apply, StateAt;
    AcceptanceStaysRemembered(run, i, j);
    ReplayStandsStill(StateAt(run, j), run[j]);
    StateAtNext(run, j);
  }

  /** A key an accepted command used is refused to every other command, for ever. */
  lemma KeyIsNotReused(run: Run, i: nat, j: nat)
    requires i < j < |run| && AcceptedAt(run, i)
    requires run[j].context.idempotencyKey == run[i].context.idempotencyKey && run[j].commandId != run[i].commandId
    ensures AnswerAt(run, j) == Err(IdempotencyMismatch(run[i].context.idempotencyKey, run[i].commandId))
  {
    hide Apply, StateAt;
    AcceptanceStaysRemembered(run, i, j);
    MismatchRefuses(StateAt(run, j), run[j]);
  }

  /** So a key is accepted at most once in a run. */
  lemma AcceptedAtMostOnce(run: Run, i: nat, j: nat)
    requires i < |run| && j < |run| && AcceptedAt(run, i) && AcceptedAt(run, j)
    requires run[i].context.idempotencyKey == run[j].context.idempotencyKey
    ensures i == j
  {
    hide Apply, StateAt;
    if i < j { AcceptanceStaysRemembered(run, i, j); } else if j < i { AcceptanceStaysRemembered(run, j, i); }
    var first, second := if i < j then i else j, if i < j then j else i;
    if first < second && run[first].commandId != run[second].commandId { KeyIsNotReused(run, first, second); }
  }

  /** A command whose key nobody was accepted under is judged on its own merits, however often the key
      was refused before: it is a replay of nothing, and never refused for its key. */
  lemma RefusedKeyMayBeRetried(run: Run, j: nat)
    requires j < |run|
    requires forall i :: 0 <= i < j && run[i].context.idempotencyKey == run[j].context.idempotencyKey ==> AnswerAt(run, i).Err?
    ensures !IsReplay(StateAt(run, j), run[j])
    ensures AnswerAt(run, j).Ok? <==> run[j].payload.Validate() == [] && Arm(StateAt(run, j), run[j]).answer.Ok?
    ensures AnswerAt(run, j).Err? ==> !AnswerAt(run, j).error.IdempotencyMismatch?
  {
    hide StateAt, Arm, WithRejection, WithAcceptance;
    var key := run[j].context.idempotencyKey;
    if key in StateAt(run, j).applied {
      var i := RememberedWasAccepted(run, j, key);
      assert false;
    }
    ArmNeverBlamesTheKey(StateAt(run, j), run[j]);
  }

  lemma ArmNeverBlamesTheKey(s: State, e: CommandEnvelope)
    ensures Arm(s, e).answer.Err? ==> !Arm(s, e).answer.error.IdempotencyMismatch?
  {
    hide Mutated, Emitted, Linked, WithEntity, WithRevision;
  }

  // ------------------------------------------------------------------ consistency tokens

  lemma AcceptedToken(s: State, e: CommandEnvelope)
    requires Apply(s, e).answer.Ok? && !IsReplay(s, e)
    ensures Apply(s, e).answer.value.consistency == TokenAt(Apply(s, e).state.sequence)
    ensures Arm(s, e).state.sequence < Apply(s, e).state.sequence
  {
    hide Arm, AcceptedRecord, TokenAt, AuditIdAt;
    if e.context.idempotencyKey in s.applied { MismatchRefuses(s, e); }
    AcceptedState(s, e);
  }

  /** The token of an accepted command is reached in its own and every later state of the run, and in
      no earlier one. */
  lemma TokenNamesItsPoint(run: Run, i: nat, j: nat)
    requires i < |run| && j <= |run| && AcceptedAt(run, i)
    requires StateAt(run, |run|).sequence <= Decimal.U64_MAX
    ensures TokenReached(StateAt(run, j).sequence, AnswerAt(run, i).value.consistency) <==> i < j
  {
    hide Apply, StateAt, Arm, IsReplay, EntitiesGrow, HistoryGrows, AppliedGrows, Decimal.ParseU64, Decimal.Pad;
    var s := StateAt(run, i);
    EveryReachableStateIsSound(run, i);
    ArmKeeps(s, run[i]);
    AcceptedToken(s, run[i]);
    StateAtNext(run, i);
    NothingIsLost(run, i + 1, |run|);
    TokenReadsBack(StateAt(run, i + 1).sequence, StateAt(run, j).sequence);
    if i < j { NothingIsLost(run, i + 1, j); } else { NothingIsLost(run, j, i); }
  }

  /** A token is reached exactly by the counters at or beyond the one it was made from. */
  lemma TokenReadsBack(n: nat, sequence: nat)
    requires n <= Decimal.U64_MAX
    ensures TokenReached(sequence, TokenAt(n)) <==> n <= sequence
  {
    hide Decimal.ParseU64, Decimal.Pad;
    Decimal.PrintedIsParsed(n, 12);
    var text := "seq-" + Decimal.Pad(n, 12);
    assert text[..4] == "seq-" && text[4..] == Decimal.Pad(n, 12);
  }

  /** How fresh a read has to be. */
  datatype QueryConsistency = Current | AtLeast(token: ConsistencyToken)

  datatype QueryError = ConsistencyTimeout(token: string)

  /** What a read this fresh is answered with in place of a result, or nothing. */
  function Refusal(s: State, consistency: QueryConsistency): Option<QueryError> {
    match consistency
    case Current => None
    case AtLeast(token) => if TokenReached(s.sequence, token) then None else Some(ConsistencyTimeout(token.text))
  }

  /** `check_consistency`: refuses a read that demands a point this store has not reached. */
  method CheckConsistency(store: Store, consistency: QueryConsistency) returns (refused: Option<QueryError>)
    ensures refused == Refusal(store.View(), consistency)
  {
    match consistency {
      case Current => return None;
      case AtLeast(token) =>
        if store.HasReached(token) { return None; }
        return Some(ConsistencyTimeout(token.text));
    }
  }

  /** A read with the token of an accepted command is refused at every point of the run before that command
      was applied, and at none from then on. */
  lemma OwnWritesAreRead(run: Run, i: nat, j: nat)
    requires i < |run| && j <= |run| && AcceptedAt(run, i)
    requires StateAt(run, |run|).sequence <= Decimal.U64_MAX
    ensures var token := AnswerAt(run, i).value.consistency;
            Refusal(StateAt(run, j), AtLeast(token)) == if i < j then None else Some(ConsistencyTimeout(token.text))
  {
    hide StateAt, AnswerAt, TokenReached;
    TokenNamesItsPoint(run, i, j);
  }
}
