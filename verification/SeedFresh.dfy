/** Seeding a fresh store: what each derived command name makes, and when every artifact and every
    edge of the manifest gets something of its own (crates/aep-backend-memory/src/seed.rs). */
module SeedFresh {
  import opened Wrappers
  import opened ArtifactKinds
  import opened ArtifactGraphs
  import opened Entities
  import opened Commands
  import opened Stores
  import opened Backend
  import opened BackendInvariant
  import opened BackendSteps
  import opened BackendRuns
  import opened Seed
  import opened SeedProofs

  // ------------------------------------------------------------------ derived names

  function EntityNames(manifest: Manifest): seq<string> {
    if manifest == [] then []
    else EntityNames(manifest[..|manifest| - 1]) + [EntityName(manifest[|manifest| - 1].Id())]
  }

  function LinkNames(links: seq<Link>): seq<string> {
    if links == [] then [] else LinkNames(links[..|links| - 1]) + [LinkName(links[|links| - 1])]
  }

  /** The name of every command seeding this manifest issues. */
  function DerivedNames(manifest: Manifest): seq<string> {
    EntityNames(manifest) + LinkNames(Links(manifest))
  }

  ghost predicate PairwiseDistinct(names: seq<string>) {
    forall i, j :: 0 <= i < j < |names| ==> names[i] != names[j]
  }

  function KeysFor(names: seq<string>): set<IdempotencyKey> {
    if names == [] then {} else KeysFor(names[..|names| - 1]) + {IdempotencyKey(names[|names| - 1])}
  }

  lemma {:induction false} KeysForMember(names: seq<string>, name: string)
    ensures IdempotencyKey(name) in KeysFor(names) <==> exists i :: 0 <= i < |names| && names[i] == name
  {
    if names != [] {
      var earlier := names[..|names| - 1];
      KeysForMember(earlier, name);
      if i :| 0 <= i < |names| && names[i] == name {
        if i < |names| - 1 { assert earlier[i] == name; }
      }
      if i :| 0 <= i < |earlier| && earlier[i] == name { assert names[i] == name; }
    }
  }

  /** As many keys as names exactly when the names are pairwise distinct. */
  lemma {:induction false} DistinctNamesAreAllKeys(names: seq<string>)
    ensures |KeysFor(names)| <= |names|
    ensures |KeysFor(names)| == |names| <==> PairwiseDistinct(names)
  {
    if names != [] {
      var earlier, last := names[..|names| - 1], names[|names| - 1];
      DistinctNamesAreAllKeys(earlier);
      KeysForMember(earlier, last);
      if PairwiseDistinct(earlier) && IdempotencyKey(last) !in KeysFor(earlier) {
        forall i, j | 0 <= i < j < |names| ensures names[i] != names[j] {
          assert names[i] == earlier[i] && (j < |names| - 1 ==> names[j] == earlier[j]);
        }
      } else if !PairwiseDistinct(earlier) {
        var i, j :| 0 <= i < j < |earlier| && earlier[i] == earlier[j];
        assert names[i] == names[j];
      } else {
        var i :| 0 <= i < |earlier| && earlier[i] == last;
        assert names[i] == names[|names| - 1];
      }
    }
  }

  lemma {:induction false} KeysForBoth(a: seq<string>, b: seq<string>)
    ensures KeysFor(a + b) == KeysFor(a) + KeysFor(b)
  {
    if b == [] {
      assert a + b == a;
    } else {
      KeysForBoth(a, b[..|b| - 1]);
      assert (a + b)[..|a + b| - 1] == a + b[..|b| - 1];
    }
  }

  lemma {:induction false} NameCounts(manifest: Manifest, links: seq<Link>)
    ensures |EntityNames(manifest)| == |manifest| && |LinkNames(links)| == |links|
    ensures forall i :: 0 <= i < |manifest| ==> EntityNames(manifest)[i] == EntityName(manifest[i].Id())
    decreases |manifest| + |links|
  {
    hide EntityName, LinkName;
    if manifest != [] { NameCounts(manifest[..|manifest| - 1], []); }
    if links != [] { NameCounts([], links[..|links| - 1]); }
  }

  // ------------------------------------------------------------------ one command on a fresh key

  /** Every key is remembered for the command of that name. */
  ghost predicate SelfNamed(applied: map<IdempotencyKey, AppliedCommand>) {
    forall key :: key in applied ==> applied[key].commandId == CommandId(key.text)
  }

  /** What an entry is stored as. */
  function Declared(entry: Entry, id: EntityId, seeding: Seeding): StoredEntity
    requires Address(entry, seeding).WellFormed()
  {
    StoredEntity(NewMetadata(id, Address(entry, seeding), EntityType("aep", entry.kind.AsStr(), 1), seeding.at, seeding.actor),
                 Body(entry), false)
  }

  /** One entity more, as declared, and its command remembered. */
  ghost predicate MadeOwn(s: State, after: State, entry: Entry, id: EntityId, seeding: Seeding)
    requires Address(entry, seeding).WellFormed()
  {
    var key := IdempotencyKey(EntityName(entry.Id()));
    && id !in s.entities && after.entities == s.entities[id := Declared(entry, id, seeding)]
    && after.relations == s.relations
    && Remembers(s.applied, after.applied, key)
    && after.applied[key].result.affected != [] && after.applied[key].result.affected[0].id == id
  }

  /** One key more is remembered, for the command of that name. */
  ghost predicate Remembers(before: map<IdempotencyKey, AppliedCommand>, after: map<IdempotencyKey, AppliedCommand>, key: IdempotencyKey) {
    && key !in before && after.Keys == before.Keys + {key} && AppliedGrows(before, after)
    && after[key].commandId == CommandId(key.text)
  }

  lemma CreateNew(s: State, entry: Entry, seeding: Seeding)
    requires Inv(s) && IdempotencyKey(EntityName(entry.Id())) !in s.applied && CreateStep(s, entry, seeding).answer.Ok?
    ensures Address(entry, seeding).WellFormed()
    ensures MadeOwn(s, CreateStep(s, entry, seeding).state, entry, CreateStep(s, entry, seeding).answer.value, seeding)
  {
    hide Apply, Arm, Inv, HistoryOk, EntityName, Body, WithAcceptance, AcceptedResult, EntityIdAt, AppliedGrows;
    var e := Envelope(EntityName(entry.Id()), Creation(entry, seeding), seeding).value;
    InvHasHistory(s);
    AcceptedState(s, e);
    AcceptanceIsRemembered(s, e);
    CreationArm(s, e);
    AcceptanceTouchesTrail(Arm(s, e).state, e, Arm(s, e).answer.value);
    ApplyKeeps(s, e);
    KeepsWhatWasApplied(s, Apply(s, e).state);
  }

  lemma AcceptanceTouchesTrail(s: State, e: CommandEnvelope, affected: Affected)
    ensures WithAcceptance(s, e, affected).entities == s.entities && WithAcceptance(s, e, affected).relations == s.relations
    ensures AcceptedResult(WithAcceptance(s, e, affected), e, affected).affected == affected
  {
    hide AcceptedRecord, AuditIdAt, TokenAt;
  }

  lemma CreationArm(s: State, e: CommandEnvelope)
    requires Inv(s) && e.payload.CreateEntity? && Arm(s, e).answer.Ok?
    ensures var arm, id := Arm(s, e), EntityIdAt(s.sequence + 1);
            && arm.answer.value == [VersionedEntityRef(id, 1)] && id !in s.entities
            && arm.state.entities == s.entities[id :=
                 StoredEntity(NewMetadata(id, e.payload.locator, e.payload.entityType, e.context.issuedAt, e.context.actor),
                              e.payload.data, false)]
            && arm.state.relations == s.relations
  {
    hide HistoryOk, LocatorsOk, RelationsOk, AuditOk, RelationIdsOk, AuditIdsOk, EventIdsOk, EntityIdAt, EventIdAt;
    NewIdIsFresh(s.entities, s.sequence);
  }

  lemma NewIdIsFresh(entities: map<EntityId, StoredEntity>, sequence: nat)
    requires EntityIdsOk(entities, sequence)
    ensures EntityIdAt(sequence + 1) !in entities
  {
    hide EntityIdAt, EntityNumber;
    EntityNumberSurvives(sequence + 1);
  }

  lemma CreateOld(s: State, entry: Entry, seeding: Seeding)
    requires SelfNamed(s.applied) && IdempotencyKey(EntityName(entry.Id())) in s.applied && CreateStep(s, entry, seeding).answer.Ok?
    ensures CreateStep(s, entry, seeding).state == s
    ensures s.applied[IdempotencyKey(EntityName(entry.Id()))].result.affected != []
    ensures CreateStep(s, entry, seeding).answer.value == s.applied[IdempotencyKey(EntityName(entry.Id()))].result.affected[0].id
  {
    hide Apply, EntityName, Body;
    ReplayStandsStill(s, Envelope(EntityName(entry.Id()), Creation(entry, seeding), seeding).value);
  }

  /** One relation more, as declared, and its command remembered. */
  ghost predicate MadeLink(s: State, after: State, byId: map<ArtifactId, EntityId>, link: Link, seeding: Seeding)
    requires link.source in byId && link.target in byId
  {
    var id := RelationIdAt(s.sequence + 1);
    && id !in s.relations && after.relations == s.relations[id := Drawn(byId, link, id, seeding)]
    && after.entities == s.entities
    && Remembers(s.applied, after.applied, IdempotencyKey(LinkName(link)))
  }

  lemma LinkNew(s: State, byId: map<ArtifactId, EntityId>, link: Link, seeding: Seeding)
    requires link.source in byId && Inv(s) && IdempotencyKey(LinkName(link)) !in s.applied
    requires LinkStep(s, byId, link, seeding).answer.Ok?
    ensures link.target in byId
    ensures MadeLink(s, LinkStep(s, byId, link, seeding).state, byId, link, seeding)
  {
    hide Apply, Arm, Inv, HistoryOk, LinkName, WithAcceptance, AcceptedResult, RelationIdAt, AppliedGrows;
    var e := Envelope(LinkName(link), Relating(byId, link), seeding).value;
    InvHasHistory(s);
    AcceptedState(s, e);
    AcceptanceIsRemembered(s, e);
    RelatingArm(s, e);
    AcceptanceTouchesTrail(Arm(s, e).state, e, Arm(s, e).answer.value);
    ApplyKeeps(s, e);
    KeepsWhatWasApplied(s, Apply(s, e).state);
  }

  /** What a link is stored as. */
  function Drawn(byId: map<ArtifactId, EntityId>, link: Link, id: RelationId, seeding: Seeding): Relation
    requires link.source in byId && link.target in byId
  {
    Relation(id, link.kind, EntityRef(byId[link.source]), EntityRef(byId[link.target]), seeding.at, seeding.actor)
  }

  lemma RelatingArm(s: State, e: CommandEnvelope)
    requires Inv(s) && e.payload.CreateRelation? && Arm(s, e).answer.Ok?
    ensures var arm, id := Arm(s, e), RelationIdAt(s.sequence + 1);
            && id !in s.relations && arm.state.entities == s.entities
            && arm.state.relations == s.relations[id :=
                 Relation(id, e.payload.kind, e.payload.source, e.payload.to, e.context.issuedAt, e.context.actor)]
  {
    hide Inv, Grows, RelationIdAt;
    LinkedKeeps(s, e, e.payload.kind, e.payload.source, e.payload.to);
  }

  lemma LinkOld(s: State, byId: map<ArtifactId, EntityId>, link: Link, seeding: Seeding)
    requires link.source in byId && SelfNamed(s.applied) && IdempotencyKey(LinkName(link)) in s.applied
    requires LinkStep(s, byId, link, seeding).answer.Ok?
    ensures LinkStep(s, byId, link, seeding).state == s
  {
    hide Apply, LinkName;
    ReplayStandsStill(s, Envelope(LinkName(link), Relating(byId, link), seeding).value);
  }

  // ------------------------------------------------------------------ the first pass

  ghost predicate MadeEntities(applied: map<IdempotencyKey, AppliedCommand>, entities: map<EntityId, StoredEntity>) {
    forall key :: key in applied ==> applied[key].result.affected != [] && applied[key].result.affected[0].id in entities
  }

  ghost predicate NoneShared(applied: map<IdempotencyKey, AppliedCommand>)
    requires forall key :: key in applied ==> applied[key].result.affected != []
  {
    forall j, k :: j in applied && k in applied && j != k ==>
      applied[j].result.affected[0].id != applied[k].result.affected[0].id
  }

  /** Every remembered command made an entity, and no two made the same one. */
  ghost predicate OneEach(applied: map<IdempotencyKey, AppliedCommand>, entities: map<EntityId, StoredEntity>) {
    SelfNamed(applied) && MadeEntities(applied, entities) && NoneShared(applied) && |applied| == |entities|
  }

  lemma OneMoreNamed(before: map<IdempotencyKey, AppliedCommand>, after: map<IdempotencyKey, AppliedCommand>, key: IdempotencyKey)
    requires SelfNamed(before) && Remembers(before, after, key)
    ensures SelfNamed(after)
    ensures |after| == |before| + 1
  {
    assert |after.Keys| == |before.Keys| + 1;
  }

  lemma OneMoreMade(before: map<IdempotencyKey, AppliedCommand>, after: map<IdempotencyKey, AppliedCommand>,
                    entities: map<EntityId, StoredEntity>, key: IdempotencyKey, id: EntityId, entity: StoredEntity)
    requires MadeEntities(before, entities) && Remembers(before, after, key)
    requires after[key].result.affected != [] && after[key].result.affected[0].id == id
    ensures MadeEntities(after, entities[id := entity])
  {
    forall k | k in after ensures after[k].result.affected != [] && after[k].result.affected[0].id in entities[id := entity] {
      assert k == key || k in before;
    }
  }

  lemma OneMoreUnshared(before: map<IdempotencyKey, AppliedCommand>, after: map<IdempotencyKey, AppliedCommand>,
                        entities: map<EntityId, StoredEntity>, key: IdempotencyKey, id: EntityId)
    requires MadeEntities(before, entities) && NoneShared(before) && Remembers(before, after, key) && id !in entities
    requires after[key].result.affected != [] && after[key].result.affected[0].id == id
    requires forall k :: k in after ==> after[k].result.affected != []
    ensures NoneShared(after)
  {
    hide MadeEntities, NoneShared, Remembers;
    MadeIsAffected(before, entities);
    forall j, k | j in after && k in after && j != k
      ensures after[j].result.affected[0].id != after[k].result.affected[0].id
    {
      OlderOrNew(before, after, entities, key, j);
      OlderOrNew(before, after, entities, key, k);
      if j in before && k in before { StillUnshared(before, j, k); }
    }
    UnsharedByPairs(after);
  }

  lemma OlderOrNew(before: map<IdempotencyKey, AppliedCommand>, after: map<IdempotencyKey, AppliedCommand>,
                   entities: map<EntityId, StoredEntity>, key: IdempotencyKey, k: IdempotencyKey)
    requires MadeEntities(before, entities) && Remembers(before, after, key) && k in after
    ensures k == key || (k in before && after[k] == before[k] && before[k].result.affected != [] && before[k].result.affected[0].id in entities)
  {
  }

  lemma StillUnshared(applied: map<IdempotencyKey, AppliedCommand>, j: IdempotencyKey, k: IdempotencyKey)
    requires forall k :: k in applied ==> applied[k].result.affected != []
    requires NoneShared(applied) && j in applied && k in applied && j != k
    ensures applied[j].result.affected[0].id != applied[k].result.affected[0].id
  {
  }

  lemma UnsharedByPairs(applied: map<IdempotencyKey, AppliedCommand>)
    requires forall k :: k in applied ==> applied[k].result.affected != []
    requires forall j, k :: j in applied && k in applied && j != k ==>
                              applied[j].result.affected[0].id != applied[k].result.affected[0].id
    ensures NoneShared(applied)
  {
  }

  lemma OneMoreEntity(entities: map<EntityId, StoredEntity>, id: EntityId, entity: StoredEntity)
    requires id !in entities
    ensures |entities[id := entity]| == |entities| + 1
  {
    assert entities[id := entity].Keys == entities.Keys + {id};
    assert |entities[id := entity].Keys| == |entities.Keys| + 1;
  }

  lemma MadeIsAffected(applied: map<IdempotencyKey, AppliedCommand>, entities: map<EntityId, StoredEntity>)
    requires MadeEntities(applied, entities)
    ensures forall k :: k in applied ==> applied[k].result.affected != []
  {
  }

  lemma OneMoreEach(s: State, after: State, entry: Entry, id: EntityId, seeding: Seeding)
    requires OneEach(s.applied, s.entities) && Address(entry, seeding).WellFormed() && MadeOwn(s, after, entry, id, seeding)
    ensures OneEach(after.applied, after.entities)
  {
    hide EntityName, Declared, MadeEntities, NoneShared, SelfNamed, Remembers;
    var key := IdempotencyKey(EntityName(entry.Id()));
    OneMoreNamed(s.applied, after.applied, key);
    OneMoreMade(s.applied, after.applied, s.entities, key, id, Declared(entry, id, seeding));
    MadeIsAffected(s.applied, s.entities);
    MadeIsAffected(after.applied, after.entities);
    OneMoreUnshared(s.applied, after.applied, s.entities, key, id);
    OneMoreEntity(s.entities, id, Declared(entry, id, seeding));
  }

  /** Where the pass has put each entry so far. */
  ghost predicate Placed(applied: map<IdempotencyKey, AppliedCommand>, manifest: Manifest, byId: map<ArtifactId, EntityId>) {
    forall i :: 0 <= i < |manifest| ==>
      && manifest[i].Id() in byId && IdempotencyKey(EntityName(manifest[i].Id())) in applied
      && applied[IdempotencyKey(EntityName(manifest[i].Id()))].result.affected != []
      && applied[IdempotencyKey(EntityName(manifest[i].Id()))].result.affected[0].id == byId[manifest[i].Id()]
  }

  lemma PlacedOnce(before: map<IdempotencyKey, AppliedCommand>, after: map<IdempotencyKey, AppliedCommand>,
                   manifest: Manifest, byId: map<ArtifactId, EntityId>, id: EntityId)
    requires manifest != [] && Placed(before, manifest[..|manifest| - 1], byId) && AppliedGrows(before, after)
    requires var key := IdempotencyKey(EntityName(manifest[|manifest| - 1].Id()));
             key in after && after[key].result.affected != [] && after[key].result.affected[0].id == id
    ensures Placed(after, manifest, byId[manifest[|manifest| - 1].Id() := id])
  {
    hide EntityName;
    var earlier := manifest[..|manifest| - 1];
    forall i | 0 <= i < |manifest|
      ensures var now := byId[manifest[|manifest| - 1].Id() := id];
              manifest[i].Id() in now && IdempotencyKey(EntityName(manifest[i].Id())) in after
              && after[IdempotencyKey(EntityName(manifest[i].Id()))].result.affected != []
              && after[IdempotencyKey(EntityName(manifest[i].Id()))].result.affected[0].id == now[manifest[i].Id()]
    {
      if i < |manifest| - 1 { assert earlier[i] == manifest[i]; }
    }
  }

  ghost predicate FreshlySeeded(after: State, manifest: Manifest, byId: map<ArtifactId, EntityId>) {
    && OneEach(after.applied, after.entities) && after.relations == map[]
    && after.applied.Keys == KeysFor(EntityNames(manifest))
    && Placed(after.applied, manifest, byId)
  }

  lemma FreshCreate(s: State, manifest: Manifest, byId: map<ArtifactId, EntityId>, seeding: Seeding)
    requires manifest != [] && Inv(s) && FreshlySeeded(s, manifest[..|manifest| - 1], byId)
    requires CreateStep(s, manifest[|manifest| - 1], seeding).answer.Ok?
    ensures var step := CreateStep(s, manifest[|manifest| - 1], seeding);
            FreshlySeeded(step.state, manifest, byId[manifest[|manifest| - 1].Id() := step.answer.value])
  {
    hide Inv, CreateStep, EntityName, OneEach, Placed, Declared, AppliedGrows, SelfNamed;
    var entry := manifest[|manifest| - 1];
    var step := CreateStep(s, entry, seeding);
    if IdempotencyKey(EntityName(entry.Id())) in s.applied {
      OneEachIsSelfNamed(s);
      CreateOld(s, entry, seeding);
      NothingShrinks(s);
    } else {
      CreateNew(s, entry, seeding);
      OneMoreEach(s, step.state, entry, step.answer.value, seeding);
    }
    PlacedOnce(s.applied, step.state.applied, manifest, byId, step.answer.value);
  }

  lemma OneEachIsSelfNamed(s: State)
    requires OneEach(s.applied, s.entities)
    ensures SelfNamed(s.applied)
  {
  }

  lemma {:induction false} FirstPass(manifest: Manifest, seeding: Seeding)
    requires EntitiesPass(EMPTY, manifest, seeding).answer.Ok?
    ensures FreshlySeeded(EntitiesPass(EMPTY, manifest, seeding).state, manifest, EntitiesPass(EMPTY, manifest, seeding).answer.value)
  {
    hide Inv, Keeps, CreateStep, FreshlySeeded;
    if manifest == [] {
      NothingSeeded();
    } else {
      var before := EntitiesPass(EMPTY, manifest[..|manifest| - 1], seeding);
      FirstPass(manifest[..|manifest| - 1], seeding);
      EmptyIsReachable();
      EntitiesPassKeeps(EMPTY, manifest[..|manifest| - 1], seeding);
      KeepsReaches(EMPTY, before.state);
      FreshCreate(before.state, manifest, before.answer.value, seeding);
    }
  }

  lemma NothingSeeded()
    ensures FreshlySeeded(EMPTY, [], map[])
  {
  }

  /** Two separators collapse alike wherever they stand. */
  lemma {:induction false} CollapsesAlike(before: string, after: string, x: char, y: char)
    requires !Alphanumeric(x) && !Alphanumeric(y)
    ensures Collapsed(before + [x] + after) == Collapsed(before + [y] + after)
  {
    hide Collapsed, Alphanumeric;
    if after == [] {
      SeparatorsCollapseAlike(before, x, y);
      assert before + [x] + after == before + [x] && before + [y] + after == before + [y];
    } else {
      var init, last := after[..|after| - 1], after[|after| - 1];
      CollapsesAlike(before, init, x, y);
      NextCollapsesAlike(before + [x] + init, before + [y] + init, last);
      assert before + [x] + after == (before + [x] + init) + [last];
      assert before + [y] + after == (before + [y] + init) + [last];
    }
  }

  lemma SeparatorsCollapseAlike(before: string, x: char, y: char)
    requires !Alphanumeric(x) && !Alphanumeric(y)
    ensures Collapsed(before + [x]) == Collapsed(before + [y])
  {
    hide Alphanumeric;
    assert (before + [x])[..|before|] == before == (before + [y])[..|before|];
  }

  lemma NextCollapsesAlike(one: string, other: string, c: char)
    requires Collapsed(one) == Collapsed(other)
    ensures Collapsed(one + [c]) == Collapsed(other + [c])
  {
    hide Alphanumeric;
    assert (one + [c])[..|one|] == one && (other + [c])[..|other|] == other;
  }

  // ------------------------------------------------------------------ the second pass

  /** One relation more for every key more. */
  ghost predicate LinkedSoFar(before: State, after: State, names: seq<string>) {
    && SelfNamed(after.applied) && after.entities == before.entities
    && after.applied.Keys == before.applied.Keys + KeysFor(names)
    && |after.relations| - |before.relations| == |after.applied| - |before.applied|
  }

  lemma OneMoreRelation(relations: map<RelationId, Relation>, id: RelationId, relation: Relation)
    requires id !in relations
    ensures |relations[id := relation]| == |relations| + 1
  {
    assert relations[id := relation].Keys == relations.Keys + {id};
    assert |relations[id := relation].Keys| == |relations.Keys| + 1;
  }

  lemma LinkedAgain(start: State, s: State, name: string, names: seq<string>)
    requires LinkedSoFar(start, s, names) && IdempotencyKey(name) in s.applied
    ensures LinkedSoFar(start, s, names + [name])
  {
    hide SelfNamed;
    assert (names + [name])[..|names|] == names;
  }

  lemma LinkedOnce(start: State, s: State, after: State, name: string, names: seq<string>)
    requires LinkedSoFar(start, s, names) && Remembers(s.applied, after.applied, IdempotencyKey(name)) && SelfNamed(after.applied)
    requires |after.applied| == |s.applied| + 1 && |after.relations| == |s.relations| + 1 && after.entities == s.entities
    ensures LinkedSoFar(start, after, names + [name])
  {
    hide SelfNamed, AppliedGrows;
    assert (names + [name])[..|names|] == names;
  }

  lemma FreshLink(start: State, s: State, byId: map<ArtifactId, EntityId>, link: Link, names: seq<string>, seeding: Seeding)
    requires link.source in byId && Inv(s) && LinkedSoFar(start, s, names) && LinkStep(s, byId, link, seeding).answer.Ok?
    ensures LinkedSoFar(start, LinkStep(s, byId, link, seeding).state, names + [LinkName(link)])
  {
    hide Inv, LinkStep, LinkName, SelfNamed, RelationIdAt, Drawn, Remembers, KeysFor;
    var after := LinkStep(s, byId, link, seeding).state;
    if IdempotencyKey(LinkName(link)) in s.applied {
      LinkOld(s, byId, link, seeding);
      LinkedAgain(start, s, LinkName(link), names);
    } else {
      LinkNew(s, byId, link, seeding);
      var id := RelationIdAt(s.sequence + 1);
      OneMoreRelation(s.relations, id, Drawn(byId, link, id, seeding));
      OneMoreNamed(s.applied, after.applied, IdempotencyKey(LinkName(link)));
      LinkedOnce(start, s, after, LinkName(link), names);
    }
  }

  lemma {:induction false} SecondPass(s: State, byId: map<ArtifactId, EntityId>, links: seq<Link>, seeding: Seeding)
    requires Inv(s) && SelfNamed(s.applied) && forall i :: 0 <= i < |links| ==> links[i].source in byId
    requires LinksPass(s, byId, links, seeding).answer.Ok?
    ensures LinkedSoFar(s, LinksPass(s, byId, links, seeding).state, LinkNames(links))
    ensures LinksPass(s, byId, links, seeding).answer.value == |links|
  {
    hide Inv, Keeps, LinkStep, LinkedSoFar, SelfNamed, LinkName;
    if links == [] {
      NothingLinked(s);
    } else {
      var earlier := links[..|links| - 1];
      var before := LinksPass(s, byId, earlier, seeding);
      SecondPass(s, byId, earlier, seeding);
      LinksPassKeeps(s, byId, earlier, seeding);
      KeepsReaches(s, before.state);
      FreshLink(s, before.state, byId, links[|links| - 1], LinkNames(earlier), seeding);
    }
  }

  lemma NothingLinked(s: State)
    requires SelfNamed(s.applied)
    ensures LinkedSoFar(s, s, [])
  {
  }

  // ------------------------------------------------------------------ one of each

  /** A fresh store gains, between entities and relations, one for each derived name; so it gains one
      entity per artifact and one relation per edge exactly when those names are pairwise distinct. */
  lemma OneOfEachExactly(manifest: Manifest, seeding: Seeding)
    requires FromManifest(EMPTY, manifest, seeding).answer.Ok?
    ensures var after := FromManifest(EMPTY, manifest, seeding).state;
            && |after.entities| + |after.relations| == |KeysFor(DerivedNames(manifest))|
            && (|after.entities| == |manifest| && |after.relations| == |Links(manifest)| <==> PairwiseDistinct(DerivedNames(manifest)))
  {
    hide Inv, Keeps, EntitiesPass, LinksPass, Links, KeysFor, PairwiseDistinct, SelfNamed, Placed, MadeEntities, NoneShared;
    var entities := EntitiesPass(EMPTY, manifest, seeding);
    var byId, links := entities.answer.value, Links(manifest);
    EmptyIsReachable();
    EntitiesPassKeeps(EMPTY, manifest, seeding);
    KeepsReaches(EMPTY, entities.state);
    FirstPass(manifest, seeding);
    PassNamesEveryEntry(EMPTY, manifest, seeding);
    LinksStartInManifest(manifest, byId);
    SecondPass(entities.state, byId, links, seeding);
    var after := LinksPass(entities.state, byId, links, seeding).state;
    Bounds(entities.state.applied, after.applied, EntityNames(manifest), LinkNames(links));
    NameCounts(manifest, links);
    DistinctNamesAreAllKeys(DerivedNames(manifest));
  }

  lemma Bounds(first: map<IdempotencyKey, AppliedCommand>, second: map<IdempotencyKey, AppliedCommand>,
               names: seq<string>, more: seq<string>)
    requires first.Keys == KeysFor(names) && second.Keys == first.Keys + KeysFor(more)
    ensures |second| == |KeysFor(names + more)|
    ensures |first| <= |names| && |second| - |first| <= |more|
  {
    hide KeysFor, PairwiseDistinct;
    KeysForBoth(names, more);
    DistinctNamesAreAllKeys(names);
    DistinctNamesAreAllKeys(more);
    assert |second.Keys| == |second| && |first.Keys| == |first|;
    assert second.Keys == first.Keys + (KeysFor(more) - first.Keys);
    SubsetIsNoLarger(KeysFor(more) - first.Keys, KeysFor(more));
  }

  lemma {:induction false} SubsetIsNoLarger(a: set<IdempotencyKey>, b: set<IdempotencyKey>)
    requires a <= b
    ensures |a| <= |b|
  {
    assert b == a + (b - a);
  }

  // ------------------------------------------------------------------ as declared

  /** With distinct names, every artifact's entity is the one its entry declares. */
  lemma {:induction false} EntitiesAreAsDeclared(manifest: Manifest, seeding: Seeding, i: nat)
    requires EntitiesPass(EMPTY, manifest, seeding).answer.Ok? && PairwiseDistinct(EntityNames(manifest)) && i < |manifest|
    ensures Address(manifest[i], seeding).WellFormed()
    ensures var pass, id := EntitiesPass(EMPTY, manifest, seeding), manifest[i].Id();
            && id in pass.answer.value && pass.answer.value[id] in pass.state.entities
            && pass.state.entities[pass.answer.value[id]] == Declared(manifest[i], pass.answer.value[id], seeding)
    decreases |manifest|
  {
    hide Inv, Keeps, CreateStep, EntityName, OneEach, Placed, Declared, AppliedGrows;
    var earlier, last := manifest[..|manifest| - 1], manifest[|manifest| - 1];
    var before := EntitiesPass(EMPTY, earlier, seeding);
    FirstPass(earlier, seeding);
    EmptyIsReachable();
    EntitiesPassKeeps(EMPTY, earlier, seeding);
    KeepsReaches(EMPTY, before.state);
    DistinctPrefix(manifest);
    CreateNew(before.state, last, seeding);
    if i < |manifest| - 1 {
      EntitiesAreAsDeclared(earlier, seeding, i);
      assert earlier[i] == manifest[i];
      OtherIdentity(manifest, i);
    }
  }

  lemma LastIsNew(names: seq<string>)
    requires names != [] && PairwiseDistinct(names)
    ensures PairwiseDistinct(names[..|names| - 1])
    ensures IdempotencyKey(names[|names| - 1]) !in KeysFor(names[..|names| - 1])
  {
    hide KeysFor;
    var earlier, last := names[..|names| - 1], names[|names| - 1];
    forall i | 0 <= i < |earlier| ensures earlier[i] != last { assert names[i] == earlier[i]; }
    forall i, j | 0 <= i < j < |earlier| ensures earlier[i] != earlier[j] {
      assert names[i] == earlier[i] && names[j] == earlier[j];
    }
    KeysForMember(earlier, last);
  }

  lemma DistinctPrefix(manifest: Manifest)
    requires manifest != [] && PairwiseDistinct(EntityNames(manifest))
    ensures PairwiseDistinct(EntityNames(manifest[..|manifest| - 1]))
    ensures IdempotencyKey(EntityName(manifest[|manifest| - 1].Id())) !in KeysFor(EntityNames(manifest[..|manifest| - 1]))
  {
    hide EntityName, KeysFor, PairwiseDistinct;
    var all := EntityNames(manifest);
    assert all[..|all| - 1] == EntityNames(manifest[..|manifest| - 1]);
    LastIsNew(all);
  }

  lemma OtherIdentity(manifest: Manifest, i: nat)
    requires i < |manifest| - 1 && PairwiseDistinct(EntityNames(manifest))
    ensures manifest[i].Id() != manifest[|manifest| - 1].Id()
  {
    hide EntityName;
    NameCounts(manifest, []);
    assert EntityNames(manifest)[i] != EntityNames(manifest)[|manifest| - 1];
  }

  /** With distinct names, each edge has a relation of its own between the entities of its ends, and
      the second pass draws no others. */
  lemma {:induction false} LinksAreAsDeclared(s: State, byId: map<ArtifactId, EntityId>, links: seq<Link>, seeding: Seeding)
    returns (drawn: seq<RelationId>)
    requires Inv(s) && forall i :: 0 <= i < |links| ==> links[i].source in byId
    requires LinksPass(s, byId, links, seeding).answer.Ok? && PairwiseDistinct(LinkNames(links))
    requires KeysFor(LinkNames(links)) !! s.applied.Keys
    ensures forall i :: 0 <= i < |links| ==> links[i].target in byId
    ensures Draws(s.relations, LinksPass(s, byId, links, seeding).state.relations, byId, links, drawn, seeding)
    ensures LinksPass(s, byId, links, seeding).state.applied.Keys == s.applied.Keys + KeysFor(LinkNames(links))
  {
    hide Inv, Keeps, LinkStep, LinkName, RelationIdAt, Drawn, AppliedGrows, Draws;
    if links == [] {
      drawn := [];
      DrawsNothing(s.relations, byId, seeding);
    } else {
      var earlier, last := links[..|links| - 1], links[|links| - 1];
      var before := LinksPass(s, byId, earlier, seeding);
      LinksPassKeeps(s, byId, earlier, seeding);
      KeepsReaches(s, before.state);
      DistinctLinkPrefix(links);
      var first := LinksAreAsDeclared(s, byId, earlier, seeding);
      LinkNew(before.state, byId, last, seeding);
      var id := RelationIdAt(before.state.sequence + 1);
      drawn := first + [id];
      DrawsOneMore(s.relations, before.state.relations, byId, links, first, id, seeding);
    }
  }

  /** The relations drawn, in order, are the links as declared, all different and all new. */
  ghost predicate Draws(before: map<RelationId, Relation>, after: map<RelationId, Relation>, byId: map<ArtifactId, EntityId>,
                        links: seq<Link>, drawn: seq<RelationId>, seeding: Seeding)
    requires forall i :: 0 <= i < |links| ==> links[i].source in byId && links[i].target in byId
  {
    && |drawn| == |links|
    && (forall i, j :: 0 <= i < j < |drawn| ==> drawn[i] != drawn[j])
    && (forall i :: 0 <= i < |drawn| ==> drawn[i] !in before && drawn[i] in after && after[drawn[i]] == Drawn(byId, links[i], drawn[i], seeding))
    && (forall id :: id in before ==> id in after && after[id] == before[id])
    && (forall id :: id in after && id !in before ==> exists i :: 0 <= i < |drawn| && drawn[i] == id)
  }

  lemma DrawsNothing(relations: map<RelationId, Relation>, byId: map<ArtifactId, EntityId>, seeding: Seeding)
    ensures Draws(relations, relations, byId, [], [], seeding)
  {
  }

  lemma DrawsOneMore(start: map<RelationId, Relation>, before: map<RelationId, Relation>, byId: map<ArtifactId, EntityId>,
                     links: seq<Link>, first: seq<RelationId>, id: RelationId, seeding: Seeding)
    requires links != [] && forall i :: 0 <= i < |links| ==> links[i].source in byId && links[i].target in byId
    requires Draws(start, before, byId, links[..|links| - 1], first, seeding) && id !in before
    ensures Draws(start, before[id := Drawn(byId, links[|links| - 1], id, seeding)], byId, links, first + [id], seeding)
  {
    hide Drawn;
    var drawn := first + [id];
    assert drawn[|links| - 1] == id;
    forall k | k in before && k !in start ensures exists i :: 0 <= i < |drawn| && drawn[i] == k {
      var i :| 0 <= i < |first| && first[i] == k;
      assert drawn[i] == k;
    }
  }

  lemma DistinctLinkPrefix(links: seq<Link>)
    requires links != [] && PairwiseDistinct(LinkNames(links))
    ensures PairwiseDistinct(LinkNames(links[..|links| - 1]))
    ensures IdempotencyKey(LinkName(links[|links| - 1])) !in KeysFor(LinkNames(links[..|links| - 1]))
    ensures KeysFor(LinkNames(links)) == KeysFor(LinkNames(links[..|links| - 1])) + {IdempotencyKey(LinkName(links[|links| - 1]))}
  {
    hide LinkName, PairwiseDistinct;
    var all := LinkNames(links);
    assert all[..|all| - 1] == LinkNames(links[..|links| - 1]);
    LastIsNew(all);
  }
}
