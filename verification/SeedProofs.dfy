/** What seeding guarantees: seeding again changes nothing, whatever happened in between, and a fresh
    store gains one entity per artifact and one relation per edge exactly when the derived command
    names are pairwise distinct (crates/aep-backend-memory/src/seed.rs). */
module SeedProofs {
  import opened Wrappers
  import opened ArtifactKinds
  import opened ArtifactGraphs
  import opened Entities
  import opened Commands
  import opened Stores
  import opened Backend
  import opened BackendInvariant
  import opened BackendSteps
  import opened BackendRuns
  import opened Seed

  // ------------------------------------------------------------------ one command

  lemma IssueKeeps(s: State, name: string, payload: Command, seeding: Seeding)
    requires Inv(s)
    ensures Keeps(s, Issue(s, name, payload, seeding).state)
  {
    hide Inv, Keeps, Apply;
    StandingStill(s);
    var e := Envelope(name, payload, seeding);
    if e.Ok? { ApplyKeeps(s, e.value); }
  }

  /** An accepted seeding command is remembered under its own name, with what it affected. */
  ghost predicate RemembersName(s: State, name: string, affected: Affected) {
    var key := IdempotencyKey(name);
    key in s.applied && s.applied[key].commandId == CommandId(name) && s.applied[key].result.affected == affected
  }

  lemma IssueIsRemembered(s: State, name: string, payload: Command, seeding: Seeding)
    requires HistoryOk(s.entities, s.history) && Issue(s, name, payload, seeding).answer.Ok?
    ensures RemembersName(Issue(s, name, payload, seeding).state, name, Issue(s, name, payload, seeding).answer.value.affected)
  {
    hide HistoryOk, Apply;
    var e := Envelope(name, payload, seeding).value;
    if IsReplay(s, e) { ReplayStandsStill(s, e); } else { AcceptanceIsRemembered(s, e); }
  }

  /** Issued again, a remembered command answers as before and changes nothing. */
  lemma IssueAgain(s: State, t: State, name: string, payload: Command, seeding: Seeding)
    requires HistoryOk(s.entities, s.history) && Issue(s, name, payload, seeding).answer.Ok?
    requires AppliedGrows(Issue(s, name, payload, seeding).state.applied, t.applied)
    ensures var first, again := Issue(s, name, payload, seeding), Issue(t, name, payload, seeding);
            again.state == t && again.answer.Ok? && again.answer.value.affected == first.answer.value.affected
  {
    hide HistoryOk, Apply;
    IssueIsRemembered(s, name, payload, seeding);
    ReplayStandsStill(t, Envelope(name, payload, seeding).value);
  }

  lemma CreateAgain(s: State, t: State, entry: Entry, seeding: Seeding)
    requires HistoryOk(s.entities, s.history) && CreateStep(s, entry, seeding).answer.Ok?
    requires AppliedGrows(CreateStep(s, entry, seeding).state.applied, t.applied)
    ensures CreateStep(t, entry, seeding) == Step(t, CreateStep(s, entry, seeding).answer)
  {
    hide HistoryOk, Issue, AppliedGrows, Creation, EntityName;
    IssueAgain(s, t, EntityName(entry.Id()), Creation(entry, seeding), seeding);
  }

  lemma LinkAgain(s: State, t: State, byId: map<ArtifactId, EntityId>, link: Link, seeding: Seeding)
    requires link.source in byId
    requires HistoryOk(s.entities, s.history) && LinkStep(s, byId, link, seeding).answer.Ok?
    requires AppliedGrows(LinkStep(s, byId, link, seeding).state.applied, t.applied)
    ensures LinkStep(t, byId, link, seeding).state == t && LinkStep(t, byId, link, seeding).answer.Ok?
  {
    hide HistoryOk, Issue, AppliedGrows, Relating, LinkName;
    IssueAgain(s, t, LinkName(link), Relating(byId, link), seeding);
  }

  lemma CreateKeeps(s: State, entry: Entry, seeding: Seeding)
    requires Inv(s)
    ensures Keeps(s, CreateStep(s, entry, seeding).state)
  {
    hide Inv, Keeps, Issue, Creation, EntityName;
    StandingStill(s);
    if Address(entry, seeding).WellFormed() { IssueKeeps(s, EntityName(entry.Id()), Creation(entry, seeding), seeding); }
  }

  lemma LinkKeeps(s: State, byId: map<ArtifactId, EntityId>, link: Link, seeding: Seeding)
    requires Inv(s) && link.source in byId
    ensures Keeps(s, LinkStep(s, byId, link, seeding).state)
  {
    hide Inv, Keeps, Issue, Relating, LinkName;
    StandingStill(s);
    if link.target in byId { IssueKeeps(s, LinkName(link), Relating(byId, link), seeding); }
  }

  // ------------------------------------------------------------------ seeding again

  lemma {:induction false} EntitiesPassKeeps(s: State, manifest: Manifest, seeding: Seeding)
    requires Inv(s)
    ensures Keeps(s, EntitiesPass(s, manifest, seeding).state)
  {
    hide Inv, Keeps, CreateStep;
    if manifest == [] {
      StandingStill(s);
    } else {
      var before := EntitiesPass(s, manifest[..|manifest| - 1], seeding);
      EntitiesPassKeeps(s, manifest[..|manifest| - 1], seeding);
      if before.answer.Ok? {
        KeepsReaches(s, before.state);
        CreateKeeps(before.state, manifest[|manifest| - 1], seeding);
        ThenKeeps(s, before.state, EntitiesPass(s, manifest, seeding).state);
      }
    }
  }

  lemma {:induction false} LinksPassKeeps(s: State, byId: map<ArtifactId, EntityId>, links: seq<Link>, seeding: Seeding)
    requires Inv(s) && forall i :: 0 <= i < |links| ==> links[i].source in byId
    ensures Keeps(s, LinksPass(s, byId, links, seeding).state)
  {
    hide Inv, Keeps, LinkStep;
    if links == [] {
      StandingStill(s);
    } else {
      var before := LinksPass(s, byId, links[..|links| - 1], seeding);
      LinksPassKeeps(s, byId, links[..|links| - 1], seeding);
      if before.answer.Ok? {
        KeepsReaches(s, before.state);
        LinkKeeps(before.state, byId, links[|links| - 1], seeding);
        ThenKeeps(s, before.state, LinksPass(s, byId, links, seeding).state);
      }
    }
  }

  lemma KeepsWhatWasApplied(before: State, after: State)
    requires Keeps(before, after)
    ensures AppliedGrows(before.applied, after.applied)
  {
    hide Inv, AppliedGrows, EntitiesGrow, HistoryGrows;
  }

  lemma AppliedGrowsOn(a: State, b: State, c: State)
    requires AppliedGrows(a.applied, b.applied) && AppliedGrows(b.applied, c.applied)
    ensures AppliedGrows(a.applied, c.applied)
  {
  }

  lemma {:induction false} EntitiesPassAgain(s: State, t: State, manifest: Manifest, seeding: Seeding)
    requires Inv(s) && EntitiesPass(s, manifest, seeding).answer.Ok?
    requires AppliedGrows(EntitiesPass(s, manifest, seeding).state.applied, t.applied)
    ensures EntitiesPass(t, manifest, seeding) == Step(t, EntitiesPass(s, manifest, seeding).answer)
  {
    hide Inv, Keeps, CreateStep, AppliedGrows;
    if manifest != [] {
      var last := manifest[|manifest| - 1];
      var before := EntitiesPass(s, manifest[..|manifest| - 1], seeding);
      EntitiesPassKeeps(s, manifest[..|manifest| - 1], seeding);
      KeepsReaches(s, before.state);
      CreateKeeps(before.state, last, seeding);
      KeepsWhatWasApplied(before.state, CreateStep(before.state, last, seeding).state);
      AppliedGrowsOn(before.state, CreateStep(before.state, last, seeding).state, t);
      EntitiesPassAgain(s, t, manifest[..|manifest| - 1], seeding);
      InvHasHistory(before.state);
      CreateAgain(before.state, t, last, seeding);
    }
  }

  lemma {:induction false} LinksPassAgain(s: State, t: State, byId: map<ArtifactId, EntityId>, links: seq<Link>, seeding: Seeding)
    requires Inv(s) && forall i :: 0 <= i < |links| ==> links[i].source in byId
    requires LinksPass(s, byId, links, seeding).answer.Ok?
    requires AppliedGrows(LinksPass(s, byId, links, seeding).state.applied, t.applied)
    ensures LinksPass(t, byId, links, seeding) == Step(t, LinksPass(s, byId, links, seeding).answer)
  {
    hide Inv, Keeps, LinkStep, AppliedGrows;
    if links != [] {
      var last := links[|links| - 1];
      var before := LinksPass(s, byId, links[..|links| - 1], seeding);
      LinksPassKeeps(s, byId, links[..|links| - 1], seeding);
      KeepsReaches(s, before.state);
      LinkKeeps(before.state, byId, last, seeding);
      KeepsWhatWasApplied(before.state, LinkStep(before.state, byId, last, seeding).state);
      AppliedGrowsOn(before.state, LinkStep(before.state, byId, last, seeding).state, t);
      LinksPassAgain(s, t, byId, links[..|links| - 1], seeding);
      InvHasHistory(before.state);
      LinkAgain(before.state, t, byId, last, seeding);
    }
  }

  /** A manifest that seeded once seeds again, after any further commands, to the same report, and the
      second seeding changes nothing. */
  lemma SeedingAgainChangesNothing(s: State, manifest: Manifest, seeding: Seeding, run: Run)
    requires Inv(s) && FromManifest(s, manifest, seeding).answer.Ok?
    ensures var later := After(FromManifest(s, manifest, seeding).state, run);
            FromManifest(later, manifest, seeding) == Step(later, FromManifest(s, manifest, seeding).answer)
  {
    hide Inv, Keeps, AppliedGrows, LinksPass, EntitiesPass, After, Links;
    var entities := EntitiesPass(s, manifest, seeding);
    var byId, all := entities.answer.value, Links(manifest);
    PassNamesEveryEntry(s, manifest, seeding);
    LinksStartInManifest(manifest, byId);
    var links := LinksPass(entities.state, byId, all, seeding);
    var later := After(links.state, run);
    EntitiesPassKeeps(s, manifest, seeding);
    KeepsReaches(s, entities.state);
    LinksPassKeeps(entities.state, byId, all, seeding);
    KeepsReaches(entities.state, links.state);
    RunKeeps(links.state, run);
    KeepsWhatWasApplied(links.state, later);
    KeepsWhatWasApplied(entities.state, links.state);
    AppliedGrowsOn(entities.state, links.state, later);
    EntitiesPassAgain(s, later, manifest, seeding);
    LinksPassAgain(entities.state, later, byId, all, seeding);
  }
}
