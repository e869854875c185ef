/** What becomes of a manifest on a fresh store: which creations and links are refused, which silently
    share what an earlier one made, and so which manifests seed
    (crates/aep-backend-memory/src/seed.rs:66-251). */
module SeedOutcomes {
  import opened Wrappers
  import opened ArtifactKinds
  import opened ArtifactGraphs
  import opened Entities
  import opened Commands
  import opened Stores
  import opened Backend
  import opened BackendInvariant
  import opened BackendSteps
  import opened BackendRuns
  import opened Seed
  import opened SeedProofs
  import opened SeedFresh

  // ------------------------------------------------------------------ names that can be used

  /** A name that makes a command identifier, a key and a request identifier. */
  predicate Usable(name: string) { LooseId(name) && LooseId("req-" + name) }

  /** The loose charset, without its bound on length. */
  ghost predicate Worded(text: string) {
    && text != [] && Alphanumeric(text[0]) && Alphanumeric(text[|text| - 1])
    && (forall i :: 0 <= i < |text| ==> Alphanumeric(text[i]) || Separator(text[i]))
    && (forall i :: 0 <= i < |text| - 1 ==> Alphanumeric(text[i]) || Alphanumeric(text[i + 1]))
  }

  const LONGEST_NAME := 196

  lemma WordedIsUsable(name: string)
    requires Worded(name)
    ensures Usable(name) <==> |name| <= LONGEST_NAME
  {
    hide Worded, LooseId, Alphanumeric;
    LooseIsShort(name);
    ReqIsWorded();
    WordsJoin("req", '-', name);
    assert "req-" + name == "req" + "-" + name;
    LooseIsShort("req-" + name);
  }

  lemma LooseIsShort(text: string)
    requires Worded(text)
    ensures LooseId(text) <==> |text| <= 200
  {
  }

  /** Lower-case letters and nothing else. */
  ghost predicate Lettered(text: string) { text != [] && forall i :: 0 <= i < |text| ==> 'a' <= text[i] <= 'z' }

  lemma LetteredIsWorded(text: string)
    requires Lettered(text)
    ensures Worded(text)
  {
  }

  lemma ReqIsWorded()
    ensures Worded("req") && Worded("seed") && Worded("rel") && Worded("artifact")
  {
    hide Worded;
    LetteredIsWorded("req"); LetteredIsWorded("seed"); LetteredIsWorded("rel"); LetteredIsWorded("artifact");
  }

  lemma WordsJoin(a: string, separator: char, b: string)
    requires Worded(a) && Worded(b) && Separator(separator)
    ensures Worded(a + [separator] + b)
  {
    hide Alphanumeric;
    var all := a + [separator] + b;
    forall i | 0 <= i < |all| ensures Alphanumeric(all[i]) || Separator(all[i]) {
      if i > |a| { assert all[i] == b[i - |a| - 1]; }
    }
    forall i | 0 <= i < |all| - 1 ensures Alphanumeric(all[i]) || Alphanumeric(all[i + 1]) {
      if i > |a| { assert all[i] == b[i - |a| - 1] && all[i + 1] == b[i - |a|]; }
    }
  }

  lemma TokenIsWorded(id: ArtifactId)
    ensures Worded(Token(id))
  {
    hide Alphanumeric, Collapsed, TrimHyphens;
    CollapsedShape(id.text);
    TrimmedShape(Collapsed(id.text));
    ReqIsWorded();
  }

  lemma PairIsWorded(a: string, b: string)
    requires Lettered(a) && Lettered(b)
    ensures Worded(a + "_" + b)
  {
    hide Worded, Lettered;
    LetteredIsWorded(a); LetteredIsWorded(b);
    WordsJoin(a, '_', b);
  }

  lemma PairedKindIsWorded(kind: RelationKind)
    requires kind.InformedBy? || kind.DerivedFrom? || kind.DependsOn?
    ensures Worded(kind.AsStr())
  {
    hide Worded;
    match kind
    case InformedBy => PairIsWorded("informed", "by"); assert kind.AsStr() == "informed" + "_" + "by";
    case DerivedFrom => PairIsWorded("derived", "from"); assert kind.AsStr() == "derived" + "_" + "from";
    case DependsOn => PairIsWorded("depends", "on"); assert kind.AsStr() == "depends" + "_" + "on";
  }

  lemma OtherKindIsLettered(kind: RelationKind)
    requires !kind.InformedBy? && !kind.DerivedFrom? && !kind.DependsOn?
    ensures Lettered(kind.AsStr())
  {
  }

  lemma KindIsWorded(kind: RelationKind)
    ensures Worded(kind.AsStr())
  {
    hide Worded, Lettered, RelationKind.AsStr;
    if kind.InformedBy? || kind.DerivedFrom? || kind.DependsOn? {
      PairedKindIsWorded(kind);
    } else {
      OtherKindIsLettered(kind);
      LetteredIsWorded(kind.AsStr());
    }
  }

  /** A derived name is refused only for its length. */
  lemma EntityNameIsUsable(id: ArtifactId)
    ensures Usable(EntityName(id)) <==> |EntityName(id)| <= LONGEST_NAME
  {
    hide Worded, Usable, Token;
    ReqIsWorded();
    TokenIsWorded(id);
    WordsJoin("seed", '-', Token(id));
    assert EntityName(id) == "seed" + "-" + Token(id);
    WordedIsUsable(EntityName(id));
  }

  lemma LinkNameIsUsable(link: Link)
    ensures Usable(LinkName(link)) <==> |LinkName(link)| <= LONGEST_NAME
  {
    hide Worded, Usable, Token, RelationKind.AsStr;
    var source, kind, target := Token(link.source), link.kind.AsStr(), Token(link.target);
    ReqIsWorded();
    TokenIsWorded(link.source); TokenIsWorded(link.target); KindIsWorded(link.kind);
    WordsJoin(kind, '-', target);
    WordsJoin(source, '-', kind + "-" + target);
    WordsJoin("rel", '-', source + "-" + (kind + "-" + target));
    WordsJoin("seed", '-', "rel" + "-" + (source + "-" + (kind + "-" + target)));
    assert LinkName(link) == "seed" + "-" + ("rel" + "-" + (source + "-" + (kind + "-" + target)));
    WordedIsUsable(LinkName(link));
  }

  // ------------------------------------------------------------------ one creation

  /** A creation under a key not used yet is refused exactly when its address is taken. */
  lemma FreshCreation(s: State, e: CommandEnvelope)
    requires e.payload.CreateEntity? && e.context.idempotencyKey !in s.applied
    ensures var after, text := Apply(s, e), e.payload.locator.Render();
            if text in s.locators then
              after.answer == Err(Conflict(LocatorTaken(e.payload.locator))) && after.state.locators == s.locators
            else
              && after.answer.Ok? && after.answer.value.affected == [VersionedEntityRef(EntityIdAt(s.sequence + 1), 1)]
              && after.state.locators == s.locators[text := EntityIdAt(s.sequence + 1)]
  {
    hide EntityIdAt, EventIdAt, AuditIdAt, TokenAt, LocatorParts.Render, AcceptedRecord, RejectedRecord, HistoryRecord, EventFor, HistoryOf;
  }

  /** What a seeding creation answers, and what it does to the index. */
  lemma CreationAnswers(s: State, entry: Entry, seeding: Seeding)
    requires SelfNamed(s.applied) && MadeEntities(s.applied, s.entities)
    ensures var step, address, name := CreateStep(s, entry, seeding), Address(entry, seeding), EntityName(entry.Id());
            var key := IdempotencyKey(name);
            if !address.WellFormed() then step == Step(s, Err(Conflict(UnusableLocator(entry.Id().text))))
            else if |name| > LONGEST_NAME then step == Step(s, Err(Conflict(UnusableName(name))))
            else if key in s.applied then
              s.applied[key].result.affected != [] && step == Step(s, Ok(s.applied[key].result.affected[0].id))
            else if address.Render() in s.locators then
              step.answer == Err(Conflict(LocatorTaken(address))) && step.state.locators == s.locators
            else
              && step.answer == Ok(EntityIdAt(s.sequence + 1))
              && step.state.locators == s.locators[address.Render() := EntityIdAt(s.sequence + 1)]
  {
    hide Apply, EntityName, Body, Usable, EntityIdAt, LocatorParts.Render, LocatorParts.WellFormed;
    var name := EntityName(entry.Id());
    EntityNameIsUsable(entry.Id());
    if Address(entry, seeding).WellFormed() {
      var envelope := Envelope(name, Creation(entry, seeding), seeding);
      EnvelopeIsUsable(name, Creation(entry, seeding), seeding);
      if envelope.Ok? {
        if IdempotencyKey(name) in s.applied { ReplayStandsStill(s, envelope.value); } else { FreshCreation(s, envelope.value); }
      }
    }
  }

  lemma EnvelopeIsUsable(name: string, payload: Command, seeding: Seeding)
    ensures if Usable(name) then
              && Envelope(name, payload, seeding).Ok? && Envelope(name, payload, seeding).value.payload == payload
              && Envelope(name, payload, seeding).value.context.idempotencyKey == IdempotencyKey(name)
              && Envelope(name, payload, seeding).value.commandId == CommandId(name)
            else Envelope(name, payload, seeding) == Err(Conflict(UnusableName(name)))
  {
  }

  // ------------------------------------------------------------------ a creation after others

  /** No earlier entry has this one's name, so this one's creation is not a replay. */
  ghost predicate Original(manifest: Manifest, j: nat)
    requires j < |manifest|
  {
    forall k :: 0 <= k < j ==> EntityName(manifest[k].Id()) != EntityName(manifest[j].Id())
  }

  ghost predicate Known(manifest: Manifest, name: string) {
    exists j :: 0 <= j < |manifest| && EntityName(manifest[j].Id()) == name
  }

  /** An entry that made an entity of its own has this address. */
  ghost predicate Occupied(manifest: Manifest, address: LocatorParts, seeding: Seeding) {
    exists j :: 0 <= j < |manifest| && Original(manifest, j) && Address(manifest[j], seeding) == address
  }

  /** The index holds the addresses of the entries that made an entity of their own. */
  ghost predicate Indexes(locators: map<string, EntityId>, manifest: Manifest, seeding: Seeding) {
    && (forall j :: 0 <= j < |manifest| ==> Address(manifest[j], seeding).WellFormed())
    && (forall text :: text in locators <==>
          exists j :: 0 <= j < |manifest| && Original(manifest, j) && Address(manifest[j], seeding).Render() == text)
  }

  lemma NothingIndexed(seeding: Seeding)
    ensures Indexes(map[], [], seeding)
  {
  }

  /** An entry is as original in a manifest as in the part that ends with it. */
  lemma OriginalBefore(manifest: Manifest, j: nat)
    requires manifest != [] && j < |manifest| - 1
    ensures Original(manifest, j) <==> Original(manifest[..|manifest| - 1], j)
  {
    hide EntityName;
    var earlier := manifest[..|manifest| - 1];
    forall k | 0 <= k <= j ensures earlier[k] == manifest[k] {}
  }

  lemma LastIsOriginal(manifest: Manifest)
    requires manifest != []
    ensures Original(manifest, |manifest| - 1) <==> !Known(manifest[..|manifest| - 1], EntityName(manifest[|manifest| - 1].Id()))
  {
    hide EntityName;
    var earlier := manifest[..|manifest| - 1];
    forall k | 0 <= k < |earlier| ensures earlier[k] == manifest[k] {}
  }

  lemma IndexesOneMore(locators: map<string, EntityId>, after: map<string, EntityId>, manifest: Manifest, seeding: Seeding)
    requires manifest != [] && Indexes(locators, manifest[..|manifest| - 1], seeding)
    requires var last := manifest[|manifest| - 1];
             && Address(last, seeding).WellFormed()
             && after.Keys == locators.Keys + if Original(manifest, |manifest| - 1) then {Address(last, seeding).Render()} else {}
    ensures Indexes(after, manifest, seeding)
  {
    hide Original, Address, LocatorParts.Render, LocatorParts.WellFormed;
    var earlier, n := manifest[..|manifest| - 1], |manifest| - 1;
    forall j | 0 <= j < n ensures earlier[j] == manifest[j] && (Original(manifest, j) <==> Original(earlier, j)) {
      OriginalBefore(manifest, j);
    }
    forall text ensures text in after <==>
      exists j :: 0 <= j < |manifest| && Original(manifest, j) && Address(manifest[j], seeding).Render() == text
    {
      if j :| 0 <= j < |earlier| && Original(earlier, j) && Address(earlier[j], seeding).Render() == text {
        assert Original(manifest, j) && Address(manifest[j], seeding).Render() == text;
      }
      if j :| 0 <= j < |manifest| && Original(manifest, j) && Address(manifest[j], seeding).Render() == text {
        if j < n { assert Original(earlier, j) && Address(earlier[j], seeding).Render() == text; }
      }
    }
  }

  /** The names a seeded store remembers are those of the entries so far. */
  lemma KnownIsRemembered(manifest: Manifest, applied: map<IdempotencyKey, AppliedCommand>, name: string)
    requires applied.Keys == KeysFor(EntityNames(manifest))
    ensures IdempotencyKey(name) in applied <==> Known(manifest, name)
  {
    hide EntityName, KeysFor, EntityNames;
    NameCounts(manifest, []);
    KeysForMember(EntityNames(manifest), name);
    if Known(manifest, name) {
      var j :| 0 <= j < |manifest| && EntityName(manifest[j].Id()) == name;
      assert EntityNames(manifest)[j] == name;
    }
  }

  lemma SeededShape(after: State, manifest: Manifest, byId: map<ArtifactId, EntityId>)
    requires FreshlySeeded(after, manifest, byId)
    ensures SelfNamed(after.applied) && MadeEntities(after.applied, after.entities)
    ensures after.applied.Keys == KeysFor(EntityNames(manifest)) && Placed(after.applied, manifest, byId)
  {
    hide SelfNamed, MadeEntities, NoneShared, Placed, KeysFor;
  }

  lemma {:induction false} PassIndexes(manifest: Manifest, seeding: Seeding)
    requires EntitiesPass(EMPTY, manifest, seeding).answer.Ok?
    ensures Indexes(EntitiesPass(EMPTY, manifest, seeding).state.locators, manifest, seeding)
  {
    hide CreateStep, FreshlySeeded, SelfNamed, MadeEntities, Placed, KeysFor, Indexes, Original, Known, EntityName;
    if manifest == [] {
      NothingIndexed(seeding);
    } else {
      var earlier, last := manifest[..|manifest| - 1], manifest[|manifest| - 1];
      var before := EntitiesPass(EMPTY, earlier, seeding);
      PassIndexes(earlier, seeding);
      FirstPass(earlier, seeding);
      SeededShape(before.state, earlier, before.answer.value);
      CreationAnswers(before.state, last, seeding);
      KnownIsRemembered(earlier, before.state.applied, EntityName(last.Id()));
      LastIsOriginal(manifest);
      IndexesOneMore(before.state.locators, CreateStep(before.state, last, seeding).state.locators, manifest, seeding);
    }
  }

  lemma OccupiedIsIndexed(locators: map<string, EntityId>, manifest: Manifest, address: LocatorParts, seeding: Seeding)
    requires Indexes(locators, manifest, seeding) && address.WellFormed()
    ensures address.Render() in locators <==> Occupied(manifest, address, seeding)
  {
    hide Original, LocatorParts.Render, LocatorParts.WellFormed, Address;
    if address.Render() in locators {
      var j :| 0 <= j < |manifest| && Original(manifest, j) && Address(manifest[j], seeding).Render() == address.Render();
      RenderIsInjective(address, Address(manifest[j], seeding));
    }
  }

  /** What creating one more artifact answers, over any manifest that went through so far: an unusable
      address or name is refused; a name already used is taken for a replay and shares that entity; of
      the others, exactly those at the address of an entity already made are refused for it. */
  lemma CreationOutcome(manifest: Manifest, entry: Entry, seeding: Seeding)
    requires EntitiesPass(EMPTY, manifest, seeding).answer.Ok?
    ensures var pass, address, name := EntitiesPass(EMPTY, manifest, seeding), Address(entry, seeding), EntityName(entry.Id());
            var answer := CreateStep(pass.state, entry, seeding).answer;
            if !address.WellFormed() then answer == Err(Conflict(UnusableLocator(entry.Id().text)))
            else if |name| > LONGEST_NAME then answer == Err(Conflict(UnusableName(name)))
            else if Known(manifest, name) then
              exists j :: 0 <= j < |manifest| && EntityName(manifest[j].Id()) == name
                          && manifest[j].Id() in pass.answer.value && answer == Ok(pass.answer.value[manifest[j].Id()])
            else if Occupied(manifest, address, seeding) then answer == Err(Conflict(LocatorTaken(address)))
            else answer.Ok? && answer.value !in pass.state.entities
  {
    hide CreateStep, FreshlySeeded, SelfNamed, MadeEntities, KeysFor, Indexes, Original, Occupied, EntityName, EntityIdAt,
         LocatorParts.WellFormed, LocatorParts.Render, EntitiesPass, Inv, Address;
    var pass, address, name := EntitiesPass(EMPTY, manifest, seeding), Address(entry, seeding), EntityName(entry.Id());
    FirstPass(manifest, seeding);
    SeededShape(pass.state, manifest, pass.answer.value);
    PassIndexes(manifest, seeding);
    CreationAnswers(pass.state, entry, seeding);
    KnownIsRemembered(manifest, pass.state.applied, name);
    if address.WellFormed() { OccupiedIsIndexed(pass.state.locators, manifest, address, seeding); }
    EmptyIsReachable();
    EntitiesPassKeeps(EMPTY, manifest, seeding);
    KeepsReaches(EMPTY, pass.state);
    NextIdIsFresh(pass.state);
  }

  lemma NextIdIsFresh(s: State)
    requires Inv(s)
    ensures EntityIdAt(s.sequence + 1) !in s.entities
  {
    hide EntityIdAt, HistoryOk, LocatorsOk, RelationsOk, AuditOk, RelationIdsOk, AuditIdsOk, EventIdsOk;
    NewIdIsFresh(s.entities, s.sequence);
  }

  // ------------------------------------------------------------------ which manifests seed

  /** This artifact can be created once those before it are. */
  ghost predicate Creatable(manifest: Manifest, i: nat, seeding: Seeding)
    requires i < |manifest|
  {
    var name, address := EntityName(manifest[i].Id()), Address(manifest[i], seeding);
    && address.WellFormed() && |name| <= LONGEST_NAME
    && (Known(manifest[..i], name) || !Occupied(manifest[..i], address, seeding))
  }

  /** The first pass goes through exactly when every artifact can be created after those before it. */
  lemma {:induction false} EntitiesGoThroughExactly(manifest: Manifest, seeding: Seeding)
    ensures EntitiesPass(EMPTY, manifest, seeding).answer.Ok? <==>
            forall i :: 0 <= i < |manifest| ==> Creatable(manifest, i, seeding)
  {
    hide CreateStep, Known, Occupied, EntityName, LocatorParts.WellFormed, Address;
    if manifest != [] {
      var n := |manifest| - 1;
      var earlier := manifest[..n];
      EntitiesGoThroughExactly(earlier, seeding);
      forall i | 0 <= i < n ensures Creatable(manifest, i, seeding) <==> Creatable(earlier, i, seeding) {
        assert manifest[..i] == earlier[..i] && manifest[i] == earlier[i];
      }
      assert manifest[..n] == earlier;
      if EntitiesPass(EMPTY, earlier, seeding).answer.Ok? { CreatesExactly(earlier, manifest[n], seeding); }
      assert (forall i :: 0 <= i < |manifest| ==> Creatable(manifest, i, seeding)) <==>
             (forall i :: 0 <= i < |earlier| ==> Creatable(earlier, i, seeding)) && Creatable(manifest, n, seeding);
    }
  }

  lemma CreatesExactly(manifest: Manifest, entry: Entry, seeding: Seeding)
    requires EntitiesPass(EMPTY, manifest, seeding).answer.Ok?
    ensures CreateStep(EntitiesPass(EMPTY, manifest, seeding).state, entry, seeding).answer.Ok? <==>
            && Address(entry, seeding).WellFormed() && |EntityName(entry.Id())| <= LONGEST_NAME
            && (Known(manifest, EntityName(entry.Id())) || !Occupied(manifest, Address(entry, seeding), seeding))
  {
    hide CreateStep, EntitiesPass, Known, Occupied, EntityName, LocatorParts.WellFormed;
    CreationOutcome(manifest, entry, seeding);
  }

  /** A link the manifest's artifacts and the names used so far let through: its target is declared, its
      name is short enough, and its ends are different entities, unless its name was used already. */
  ghost predicate Drawable(manifest: Manifest, links: seq<Link>, k: nat)
    requires k < |links|
  {
    && (exists i :: 0 <= i < |manifest| && manifest[i].Id() == links[k].target)
    && |LinkName(links[k])| <= LONGEST_NAME
    && (EntityName(links[k].source) != EntityName(links[k].target)
        || IdempotencyKey(LinkName(links[k])) in KeysFor(EntityNames(manifest)) + KeysFor(LinkNames(links[..k])))
  }

  /** A link between entities that are there is refused under a fresh key exactly when it is a loop. */
  lemma FreshRelation(s: State, e: CommandEnvelope)
    requires e.payload.CreateRelation? && e.context.idempotencyKey !in s.applied
    requires e.payload.source.id in s.entities && e.payload.to.id in s.entities
    ensures Apply(s, e).answer.Ok? <==> e.payload.source != e.payload.to
  {
    hide RelationIdAt, AuditIdAt, TokenAt, AcceptedRecord, RejectedRecord;
  }

  lemma LinkAnswers(s: State, byId: map<ArtifactId, EntityId>, link: Link, seeding: Seeding)
    requires link.source in byId && SelfNamed(s.applied)
    requires byId[link.source] in s.entities && (link.target in byId ==> byId[link.target] in s.entities)
    ensures LinkStep(s, byId, link, seeding).answer.Ok? <==>
            && link.target in byId && |LinkName(link)| <= LONGEST_NAME
            && (byId[link.source] != byId[link.target] || IdempotencyKey(LinkName(link)) in s.applied)
  {
    hide Apply, LinkName, Usable;
    LinkNameIsUsable(link);
    if link.target in byId {
      EnvelopeIsUsable(LinkName(link), Relating(byId, link), seeding);
      if Usable(LinkName(link)) {
        var e := Envelope(LinkName(link), Relating(byId, link), seeding).value;
        if IdempotencyKey(LinkName(link)) in s.applied { ReplayStandsStill(s, e); } else { FreshRelation(s, e); }
      }
    }
  }

  /** After the first pass: who is placed, where, and who shares. */
  lemma PlacedBySameName(manifest: Manifest, seeding: Seeding, i: nat, j: nat)
    requires EntitiesPass(EMPTY, manifest, seeding).answer.Ok? && i < |manifest| && j < |manifest|
    ensures var byId := EntitiesPass(EMPTY, manifest, seeding).answer.value;
            && manifest[i].Id() in byId && manifest[j].Id() in byId
            && byId[manifest[i].Id()] in EntitiesPass(EMPTY, manifest, seeding).state.entities
            && (byId[manifest[i].Id()] == byId[manifest[j].Id()] <==> EntityName(manifest[i].Id()) == EntityName(manifest[j].Id()))
  {
    hide EntitiesPass, EntityName, SelfNamed, KeysFor;
    FirstPass(manifest, seeding);
  }

  lemma LinkOutcome(manifest: Manifest, seeding: Seeding, t: State, links: seq<Link>, k: nat)
    requires EntitiesPass(EMPTY, manifest, seeding).answer.Ok? && k < |links|
    requires exists i :: 0 <= i < |manifest| && manifest[i].Id() == links[k].source
    requires LinkedSoFar(EntitiesPass(EMPTY, manifest, seeding).state, t, LinkNames(links[..k]))
    ensures links[k].source in EntitiesPass(EMPTY, manifest, seeding).answer.value
    ensures LinkStep(t, EntitiesPass(EMPTY, manifest, seeding).answer.value, links[k], seeding).answer.Ok? <==> Drawable(manifest, links, k)
  {
    hide EntitiesPass, LinkStep, LinkName, EntityName, SelfNamed, KeysFor, LinkNames, EntityNames, FreshlySeeded, MadeEntities, Placed;
    var pass, link := EntitiesPass(EMPTY, manifest, seeding), links[k];
    FirstPass(manifest, seeding);
    SeededShape(pass.state, manifest, pass.answer.value);
    PassNamesEveryEntry(EMPTY, manifest, seeding);
    var i :| 0 <= i < |manifest| && manifest[i].Id() == link.source;
    PlacedBySameName(manifest, seeding, i, i);
    if link.target in pass.answer.value {
      var j :| 0 <= j < |manifest| && manifest[j].Id() == link.target;
      PlacedBySameName(manifest, seeding, i, j);
      PlacedBySameName(manifest, seeding, j, i);
    }
    LinkAnswers(t, pass.answer.value, link, seeding);
  }

  lemma {:induction false} LinksComeFromEntries(manifest: Manifest, k: nat)
    requires k < |Links(manifest)|
    ensures exists i :: 0 <= i < |manifest| && manifest[i].Id() == Links(manifest)[k].source
  {
    if manifest != [] {
      var n := |manifest| - 1;
      var earlier, last := manifest[..n], manifest[n];
      LinksOfSource(last.Id(), last.relations);
      if k < |Links(earlier)| {
        LinksComeFromEntries(earlier, k);
        var i :| 0 <= i < |earlier| && earlier[i].Id() == Links(earlier)[k].source;
        assert manifest[i] == earlier[i];
      } else {
        assert manifest[n].Id() == Links(manifest)[k].source;
      }
    }
  }

  /** Of a second pass that went through so far, the next link goes through exactly when it can be drawn. */
  lemma NextLinkOutcome(manifest: Manifest, seeding: Seeding, n: nat)
    requires EntitiesPass(EMPTY, manifest, seeding).answer.Ok? && n < |Links(manifest)|
    requires forall i :: 0 <= i < |Links(manifest)| ==> Links(manifest)[i].source in EntitiesPass(EMPTY, manifest, seeding).answer.value
    requires var pass := EntitiesPass(EMPTY, manifest, seeding);
             LinksPass(pass.state, pass.answer.value, Links(manifest)[..n], seeding).answer.Ok?
    ensures var pass := EntitiesPass(EMPTY, manifest, seeding);
            var before := LinksPass(pass.state, pass.answer.value, Links(manifest)[..n], seeding).state;
            LinkStep(before, pass.answer.value, Links(manifest)[n], seeding).answer.Ok? <==> Drawable(manifest, Links(manifest), n)
  {
    hide EntitiesPass, LinkStep, LinksPass, Links, Drawable, LinkedSoFar, SelfNamed, MadeEntities, KeysFor, Inv, FreshlySeeded,
         LinkNames, Placed;
    var pass, all := EntitiesPass(EMPTY, manifest, seeding), Links(manifest);
    EmptyIsReachable();
    EntitiesPassKeeps(EMPTY, manifest, seeding);
    KeepsReaches(EMPTY, pass.state);
    FirstPass(manifest, seeding);
    SeededShape(pass.state, manifest, pass.answer.value);
    SecondPass(pass.state, pass.answer.value, all[..n], seeding);
    LinksComeFromEntries(manifest, n);
    LinkOutcome(manifest, seeding, LinksPass(pass.state, pass.answer.value, all[..n], seeding).state, all, n);
  }

  lemma {:induction false} LinksGoThroughExactly(manifest: Manifest, seeding: Seeding, n: nat)
    requires EntitiesPass(EMPTY, manifest, seeding).answer.Ok? && n <= |Links(manifest)|
    requires forall i :: 0 <= i < |Links(manifest)| ==> Links(manifest)[i].source in EntitiesPass(EMPTY, manifest, seeding).answer.value
    ensures var pass := EntitiesPass(EMPTY, manifest, seeding);
            LinksPass(pass.state, pass.answer.value, Links(manifest)[..n], seeding).answer.Ok? <==>
            forall k :: 0 <= k < n ==> Drawable(manifest, Links(manifest), k)
  {
    hide EntitiesPass, LinkStep, Links, Drawable;
    var all := Links(manifest);
    if n > 0 {
      LinksGoThroughExactly(manifest, seeding, n - 1);
      assert all[..n][..n - 1] == all[..n - 1];
      var pass := EntitiesPass(EMPTY, manifest, seeding);
      if LinksPass(pass.state, pass.answer.value, all[..n - 1], seeding).answer.Ok? { NextLinkOutcome(manifest, seeding, n - 1); }
    }
  }

  ghost predicate AllCreatable(manifest: Manifest, seeding: Seeding) {
    forall i :: 0 <= i < |manifest| ==> Creatable(manifest, i, seeding)
  }

  ghost predicate AllDrawable(manifest: Manifest, links: seq<Link>) { forall k :: 0 <= k < |links| ==> Drawable(manifest, links, k) }

  /** Every artifact can be created and every link drawn, each after those before it. */
  ghost predicate Seedable(manifest: Manifest, seeding: Seeding) {
    AllCreatable(manifest, seeding) && AllDrawable(manifest, Links(manifest))
  }

  /** A fresh store takes exactly the seedable manifests. */
  lemma SeedsExactly(manifest: Manifest, seeding: Seeding)
    ensures FromManifest(EMPTY, manifest, seeding).answer.Ok? <==> Seedable(manifest, seeding)
  {
    hide EntitiesPass, LinksPass, Links, Creatable, Drawable;
    EntitiesGoThroughExactly(manifest, seeding);
    var pass := EntitiesPass(EMPTY, manifest, seeding);
    if pass.answer.Ok? {
      PassNamesEveryEntry(EMPTY, manifest, seeding);
      LinksStartInManifest(manifest, pass.answer.value);
      LinksGoThroughExactly(manifest, seeding, |Links(manifest)|);
      assert Links(manifest)[..|Links(manifest)|] == Links(manifest);
    }
  }

  /** Two artifacts of a seedable manifest share an entity exactly when their identifiers collapse to the
      same command name: the second creation is then taken for a replay of the first. */
  lemma SharedEntityIsSharedName(manifest: Manifest, seeding: Seeding, i: nat, j: nat)
    requires Seedable(manifest, seeding) && i < |manifest| && j < |manifest|
    ensures FromManifest(EMPTY, manifest, seeding).answer.Ok?
    ensures var byId := FromManifest(EMPTY, manifest, seeding).answer.value.byId;
            && manifest[i].Id() in byId && manifest[j].Id() in byId
            && (byId[manifest[i].Id()] == byId[manifest[j].Id()]
                <==> EntityName(manifest[i].Id()) == EntityName(manifest[j].Id()))
  {
    hide EntitiesPass, LinksPass, Links, EntityName, Seedable;
    SeedsExactly(manifest, seeding);
    PlacedBySameName(manifest, seeding, i, j);
    PlacedBySameName(manifest, seeding, j, i);
  }

  /** An artifact has an address and a name that can be used, and no earlier one has that address. */
  ghost predicate AddressableAt(manifest: Manifest, i: nat, seeding: Seeding)
    requires i < |manifest|
  {
    && Address(manifest[i], seeding).WellFormed() && |EntityName(manifest[i].Id())| <= LONGEST_NAME
    && forall j :: 0 <= j < i ==> Address(manifest[j], seeding) != Address(manifest[i], seeding)
  }

  ghost predicate Addressable(manifest: Manifest, seeding: Seeding) {
    forall i :: 0 <= i < |manifest| ==> AddressableAt(manifest, i, seeding)
  }

  /** An edge leads to another artifact of the manifest, under a name that can be used. */
  ghost predicate LinkableAt(manifest: Manifest, link: Link) {
    && (exists i :: 0 <= i < |manifest| && manifest[i].Id() == link.target)
    && link.source != link.target && |LinkName(link)| <= LONGEST_NAME
  }

  ghost predicate Linkable(manifest: Manifest) {
    AllLinkable(manifest, Links(manifest))
  }

  ghost predicate AllLinkable(manifest: Manifest, links: seq<Link>) {
    forall k :: 0 <= k < |links| ==> LinkableAt(manifest, links[k])
  }

  /** A manifest gets an entity for each artifact and a relation for each edge exactly when its derived
      names and its addresses are pairwise distinct and usable, and its edges lead to other artifacts of it. */
  lemma EachItsOwnExactly(manifest: Manifest, seeding: Seeding)
    ensures var seeded := FromManifest(EMPTY, manifest, seeding);
            seeded.answer.Ok? && |seeded.state.entities| == |manifest| && |seeded.state.relations| == |Links(manifest)|
            <==> PairwiseDistinct(DerivedNames(manifest)) && Addressable(manifest, seeding) && Linkable(manifest)
  {
    hide FromManifest, Links, DerivedNames, PairwiseDistinct, Addressable, Linkable, AllCreatable, AllDrawable;
    SeedsExactly(manifest, seeding);
    if Seedable(manifest, seeding) { OneOfEachExactly(manifest, seeding); }
    if PairwiseDistinct(DerivedNames(manifest)) {
      CreatableIsAddressable(manifest, seeding);
      DrawableIsLinkable(manifest);
    }
  }

  lemma DistinctParts(manifest: Manifest)
    requires PairwiseDistinct(DerivedNames(manifest))
    ensures forall i, j :: 0 <= i < j < |manifest| ==> EntityName(manifest[i].Id()) != EntityName(manifest[j].Id())
    ensures forall k :: 0 <= k < |Links(manifest)| ==>
              IdempotencyKey(LinkName(Links(manifest)[k])) !in KeysFor(EntityNames(manifest)) + KeysFor(LinkNames(Links(manifest)[..k]))
  {
    hide EntityName, LinkName, KeysFor, Links, EntityNames, LinkNames;
    var links := Links(manifest);
    var names := EntityNames(manifest);
    NameCounts(manifest, links);
    forall i, j | 0 <= i < j < |manifest| ensures EntityName(manifest[i].Id()) != EntityName(manifest[j].Id()) {
      assert DerivedNames(manifest)[i] == names[i] && DerivedNames(manifest)[j] == names[j];
    }
    forall k | 0 <= k < |links|
      ensures IdempotencyKey(LinkName(links[k])) !in KeysFor(names) + KeysFor(LinkNames(links[..k]))
    {
      LinkNamesUpTo(links, k);
      var all := DerivedNames(manifest);
      assert all[|names| + k] == LinkNames(links)[k];
      KeysForMember(names, LinkName(links[k]));
      KeysForMember(LinkNames(links[..k]), LinkName(links[k]));
      forall i | 0 <= i < |names| ensures names[i] != LinkName(links[k]) { assert all[i] == names[i]; }
      forall i | 0 <= i < k ensures LinkNames(links[..k])[i] != LinkName(links[k]) { assert all[|names| + i] == LinkNames(links)[i]; }
    }
  }

  lemma {:induction false} LinkNamesUpTo(links: seq<Link>, k: nat)
    requires k < |links|
    ensures |LinkNames(links)| == |links| && LinkNames(links)[k] == LinkName(links[k]) && LinkNames(links[..k]) == LinkNames(links)[..k]
    decreases |links|
  {
    hide LinkName;
    var n := |links| - 1;
    NameCounts([], links);
    if k < n {
      LinkNamesUpTo(links[..n], k);
      assert links[..n][..k] == links[..k];
    }
  }

  lemma CreatableIsAddressable(manifest: Manifest, seeding: Seeding)
    requires PairwiseDistinct(DerivedNames(manifest))
    ensures AllCreatable(manifest, seeding) <==> Addressable(manifest, seeding)
  {
    hide PairwiseDistinct, DerivedNames, AddressableAt, Creatable, KeysFor;
    DistinctParts(manifest);
    forall i | 0 <= i < |manifest| ensures Creatable(manifest, i, seeding) <==> AddressableAt(manifest, i, seeding) {
      CreatableIsAddressableAt(manifest, i, seeding);
    }
  }

  lemma CreatableIsAddressableAt(manifest: Manifest, i: nat, seeding: Seeding)
    requires i < |manifest|
    requires forall i, j :: 0 <= i < j < |manifest| ==> EntityName(manifest[i].Id()) != EntityName(manifest[j].Id())
    ensures Creatable(manifest, i, seeding) <==> AddressableAt(manifest, i, seeding)
  {
    hide EntityName, Address, LocatorParts.WellFormed;
    var before := manifest[..i];
    forall j | 0 <= j < i ensures before[j] == manifest[j] && Original(before, j) {}
    if j :| 0 <= j < i && Address(manifest[j], seeding) == Address(manifest[i], seeding) {
      assert Address(before[j], seeding) == Address(manifest[i], seeding);
    }
  }

  lemma DrawableIsLinkable(manifest: Manifest)
    requires PairwiseDistinct(DerivedNames(manifest))
    ensures AllDrawable(manifest, Links(manifest)) <==> Linkable(manifest)
  {
    hide EntityName, LinkName, KeysFor, EntityNames, LinkNames, Links, PairwiseDistinct, DerivedNames, Drawable, LinkableAt;
    DistinctParts(manifest);
    var links := Links(manifest);
    forall k | 0 <= k < |links| ensures Drawable(manifest, links, k) <==> LinkableAt(manifest, links[k]) {
      LinksComeFromEntries(manifest, k);
      DrawableIsLinkableAt(manifest, links, k);
    }
  }

  lemma DrawableIsLinkableAt(manifest: Manifest, links: seq<Link>, k: nat)
    requires k < |links|
    requires forall i, j :: 0 <= i < j < |manifest| ==> EntityName(manifest[i].Id()) != EntityName(manifest[j].Id())
    requires IdempotencyKey(LinkName(links[k])) !in KeysFor(EntityNames(manifest)) + KeysFor(LinkNames(links[..k]))
    requires exists i :: 0 <= i < |manifest| && manifest[i].Id() == links[k].source
    ensures Drawable(manifest, links, k) <==> LinkableAt(manifest, links[k])
  {
    hide EntityName, LinkName, KeysFor, EntityNames, LinkNames;
  }

  // ------------------------------------------------------------------ colliding addresses

  lemma {:induction false} KeyAt(name: string, i: nat)
    requires i < |name|
    ensures LocatorKey(name)[i] == if SegmentChar(name[i]) then name[i] else '-'
  {
    if i > 0 { KeyAt(name[1..], i - 1); }
  }

  lemma KeyPrefix(a: string, b: string, n: nat)
    requires LocatorKey(a) == LocatorKey(b) && n <= |a|
    ensures |a| == |b| && LocatorKey(a[..n]) == LocatorKey(b[..n])
  {
    hide LocatorKey, SegmentChar;
    assert |LocatorKey(a)| == |a| && |LocatorKey(b)| == |b|;
    forall i | 0 <= i < n ensures LocatorKey(a[..n])[i] == LocatorKey(b[..n])[i] {
      KeyAt(a, i); KeyAt(b, i); KeyAt(a[..n], i); KeyAt(b[..n], i);
    }
  }

  /** What becomes the same address collapses to the same token after the same namespace: each character
      is kept, or is no alphanumeric in either. */
  lemma {:induction false} SameKeyCollapsesAlike(before: string, a: string, b: string)
    requires LocatorKey(a) == LocatorKey(b)
    ensures Collapsed(before + a) == Collapsed(before + b)
  {
    hide Collapsed, LocatorKey;
    KeyPrefix(a, b, 0);
    if a != [] {
      var n := |a| - 1;
      KeyPrefix(a, b, n);
      SameKeyCollapsesAlike(before, a[..n], b[..n]);
      KeyAt(a, n); KeyAt(b, n);
      assert before + a == before + a[..n] + [a[n]] && before + b == before + b[..n] + [b[n]];
      if a[n] == b[n] {
        NextCollapsesAlike(before + a[..n], before + b[..n], a[n]);
      } else {
        SeparatorsCollapseAlike(before + a[..n], a[n], b[n]);
        NextCollapsesAlike(before + a[..n], before + b[..n], b[n]);
      }
    } else {
      assert b == [];
    }
  }

  /** Within one namespace, whatever collides in its address has one name. */
  lemma OneAddressIsOneName(x: Entry, y: Entry, seeding: Seeding)
    requires x.namespace == y.namespace && Address(x, seeding) == Address(y, seeding)
    ensures EntityName(x.Id()) == EntityName(y.Id())
  {
    hide Collapsed, LocatorKey;
    SameKeyCollapsesAlike(x.namespace + ":", x.name, y.name);
    assert x.Id().text == x.namespace + ":" + x.name && y.Id().text == y.namespace + ":" + y.name;
  }

  /** So within one namespace no artifact is ever refused for its address. */
  lemma OneNamespaceNeverRefuses(manifest: Manifest, entry: Entry, seeding: Seeding)
    requires EntitiesPass(EMPTY, manifest, seeding).answer.Ok?
    requires forall i :: 0 <= i < |manifest| ==> manifest[i].namespace == entry.namespace
    ensures var answer := CreateStep(EntitiesPass(EMPTY, manifest, seeding).state, entry, seeding).answer;
            answer.Err? ==> answer.error.Conflict? && !answer.error.why.LocatorTaken?
  {
    hide EntitiesPass, CreateStep, EntityName, Original, Address;
    CreationOutcome(manifest, entry, seeding);
    if Occupied(manifest, Address(entry, seeding), seeding) {
      var j :| 0 <= j < |manifest| && Original(manifest, j) && Address(manifest[j], seeding) == Address(entry, seeding);
      OneAddressIsOneName(manifest[j], entry, seeding);
    }
  }

  // ------------------------------------------------------------------ three pairs of artifacts

  function Plain(namespace: string, name: string, status: ArtifactStatus): Entry {
    Entry(namespace, name, ArchitectureDecisionRecord, status, None, None, None, None, [])
  }

  /** Two artifacts under one name seed, are both reported, and share one entity. */
  lemma TwoOfOneName(x: Entry, y: Entry, seeding: Seeding)
    requires x.relations == y.relations == [] && EntityName(x.Id()) == EntityName(y.Id()) && |EntityName(x.Id())| <= LONGEST_NAME
    requires Address(x, seeding).WellFormed() && Address(y, seeding).WellFormed()
    ensures var seeded := FromManifest(EMPTY, [x, y], seeding);
            seeded.answer.Ok? && seeded.answer.value.entities == 2 && |seeded.state.entities| == 1
  {
    hide EntitiesPass, LinksPass, EntityName, Address, LocatorParts.WellFormed, MadeEntities, Placed, NoneShared, SelfNamed;
    var manifest := [x, y];
    assert manifest[..1] == [x] && manifest[..0] == [];
    assert [x][..0] == [];
    assert EntityName(manifest[..1][0].Id()) == EntityName(manifest[1].Id());
    assert Creatable(manifest, 0, seeding) && Creatable(manifest, 1, seeding);
    assert Links(manifest) == [] by { assert Links([x]) == []; }
    SeedsExactly(manifest, seeding);
    FirstPass(manifest, seeding);
    NoLinks(EntitiesPass(EMPTY, manifest, seeding).state, EntitiesPass(EMPTY, manifest, seeding).answer.value, seeding);
    assert EntityNames([x]) == [EntityName(x.Id())];
    assert EntityNames(manifest) == [EntityName(x.Id()), EntityName(y.Id())];
    assert EntityNames(manifest)[..1] == [EntityName(x.Id())];
    var key := IdempotencyKey(EntityName(x.Id()));
    assert KeysFor([EntityName(x.Id())]) == {key};
    assert EntitiesPass(EMPTY, manifest, seeding).state.applied.Keys == {key};
  }

  /** The key of a short name: a slash becomes a hyphen, and nothing else changes. */
  lemma ShortKey(name: string)
    requires name in {"a/b", "a-b", "a.b"}
    ensures LocatorKey(name) == if name == "a.b" then "a.b" else "a-b"
  {
    hide LocatorKey;
    var key := LocatorKey(name);
    KeyAt(name, 0); KeyAt(name, 1); KeyAt(name, 2);
    assert key == [key[0], key[1], key[2]];
  }

  lemma KindIsSegment()
    ensures Segment(ArchitectureDecisionRecord.AsStr())
  {
  }

  lemma ShortAddress(entry: Entry, seeding: Seeding)
    requires entry.kind == ArchitectureDecisionRecord && entry.name in {"a/b", "a-b", "a.b"}
    requires Segment(seeding.organisation) && Segment(seeding.space)
    ensures Address(entry, seeding).WellFormed()
  {
    hide LocatorKey, ArtifactKind.AsStr, SegmentChar;
    KindIsSegment();
    assert LocatorKey(entry.name) != [];
  }

  lemma ShortName(id: ArtifactId)
    requires |id.text| <= 100
    ensures |EntityName(id)| <= LONGEST_NAME
  {
    hide Collapsed;
    TrimShortens(Collapsed(id.text));
  }

  lemma {:induction false} TrimShortens(token: string)
    ensures TrimHyphens(token) <= token
  {
    if token != [] && token[|token| - 1] == '-' { TrimShortens(token[..|token| - 1]); }
  }

  /** A token opens with the first character of its identifier when that is an alphanumeric. */
  lemma FirstCharStays(id: ArtifactId)
    requires id.text != [] && Alphanumeric(id.text[0])
    ensures Token(id) != [] && Token(id)[0] == id.text[0]
  {
    hide Collapsed, TrimHyphens, Alphanumeric;
    FirstStaysCollapsed(id.text);
    FirstStaysTrimmed(Collapsed(id.text));
  }

  lemma {:induction false} FirstStaysCollapsed(text: string)
    requires text != [] && Alphanumeric(text[0])
    ensures Collapsed(text) != [] && Collapsed(text)[0] == text[0]
  {
    if |text| > 1 { FirstStaysCollapsed(text[..|text| - 1]); } else { assert text[..0] == []; }
  }

  lemma {:induction false} FirstStaysTrimmed(token: string)
    requires token != [] && Alphanumeric(token[0])
    ensures TrimHyphens(token) != [] && TrimHyphens(token)[0] == token[0]
  {
    if token[|token| - 1] == '-' { FirstStaysTrimmed(token[..|token| - 1]); }
  }

  /** Two artifacts that collide in their address and are not refused for it: they share one entity. */
  lemma CollidersShareSilently(seeding: Seeding, status: ArtifactStatus)
    requires Segment(seeding.organisation) && Segment(seeding.space)
    ensures var x, y := Plain("adr", "a/b", status), Plain("adr", "a-b", status);
            var seeded := FromManifest(EMPTY, [x, y], seeding);
            && DistinctEntries([x, y]) && Address(x, seeding) == Address(y, seeding)
            && seeded.answer.Ok? && seeded.answer.value.entities == 2 && |seeded.state.entities| == 1
  {
    hide FromManifest, Token, LocatorParts.WellFormed, LocatorKey, EntityName;
    var x, y := Plain("adr", "a/b", status), Plain("adr", "a-b", status);
    assert x.Id().text[5] == '/' && y.Id().text[5] == '-';
    ShortAddress(x, seeding); ShortAddress(y, seeding);
    ShortKey(x.name); ShortKey(y.name);
    ShortName(x.Id());
    OneAddressIsOneName(x, y, seeding);
    TwoOfOneName(x, y, seeding);
  }

  /** Two artifacts at different addresses, under one name: these share one entity too. */
  lemma NamesCanCollide(seeding: Seeding, status: ArtifactStatus)
    requires Segment(seeding.organisation) && Segment(seeding.space)
    ensures var x, y := Plain("adr", "a-b", status), Plain("adr", "a.b", status);
            var seeded := FromManifest(EMPTY, [x, y], seeding);
            && DistinctEntries([x, y]) && Address(x, seeding) != Address(y, seeding)
            && seeded.answer.Ok? && seeded.answer.value.entities == 2 && |seeded.state.entities| == 1
  {
    hide FromManifest, Collapsed, TrimHyphens, LocatorParts.WellFormed, LocatorKey;
    var x, y := Plain("adr", "a-b", status), Plain("adr", "a.b", status);
    assert x.Id().text[5] == '-' && y.Id().text[5] == '.';
    ShortAddress(x, seeding); ShortAddress(y, seeding);
    ShortKey(x.name); ShortKey(y.name);
    ShortName(x.Id());
    CollapsesAlike("adr:a", "b", '-', '.');
    assert x.Id().text == "adr:a" + ['-'] + "b" && y.Id().text == "adr:a" + ['.'] + "b";
    TwoOfOneName(x, y, seeding);
  }

  /** Two artifacts that collide in their address from different namespaces: the second is refused. */
  lemma CollidersAreRefused(seeding: Seeding, status: ArtifactStatus)
    requires Segment(seeding.organisation) && Segment(seeding.space)
    ensures var x, y := Plain("adr", "a-b", status), Plain("des", "a-b", status);
            && DistinctEntries([x, y]) && Address(x, seeding) == Address(y, seeding) && Address(y, seeding).WellFormed()
            && FromManifest(EMPTY, [x, y], seeding).answer == Err(Conflict(LocatorTaken(Address(y, seeding))))
  {
    hide CreateStep, LinksPass, Token, LocatorParts.WellFormed, LocatorKey;
    var x, y := Plain("adr", "a-b", status), Plain("des", "a-b", status);
    assert x.Id().text[0] == 'a' && y.Id().text[0] == 'd';
    ShortAddress(x, seeding); ShortAddress(y, seeding);
    ShortKey(x.name); ShortKey(y.name);
    ShortName(x.Id()); ShortName(y.Id());
    FirstCharStays(x.Id()); FirstCharStays(y.Id());
    assert EntityName(x.Id())[5] == 'a' && EntityName(y.Id())[5] == 'd';
    SecondIsRefused(x, y, seeding);
  }

  lemma SecondIsRefused(x: Entry, y: Entry, seeding: Seeding)
    requires EntityName(x.Id()) != EntityName(y.Id()) && Address(x, seeding) == Address(y, seeding)
    requires |EntityName(x.Id())| <= LONGEST_NAME && |EntityName(y.Id())| <= LONGEST_NAME && Address(y, seeding).WellFormed()
    ensures FromManifest(EMPTY, [x, y], seeding).answer == Err(Conflict(LocatorTaken(Address(y, seeding))))
  {
    hide CreateStep, LinksPass, EntityName, Address, LocatorParts.WellFormed;
    var first := [x];
    EntitiesGoThroughExactly(first, seeding);
    assert first[..0] == [] && Creatable(first, 0, seeding);
    assert Original(first, 0) && Occupied(first, Address(y, seeding), seeding);
    assert !Known(first, EntityName(y.Id()));
    CreationOutcome(first, y, seeding);
    assert [x, y][..1] == first;
  }
}
