/** Turning an artifact manifest into entities and relations, one command at a time
    (crates/aep-backend-memory/src/seed.rs). */
module Seed {
  import opened Wrappers
  import opened ArtifactKinds
  import opened ArtifactGraphs
  import opened Entities
  import opened Commands
  import opened Stores
  import opened Backend

  // ------------------------------------------------------------------ the manifest

  /** One artifact as the seeder reads it, with the parts of its metadata that become body fields. */
  datatype Entry = Entry(
    namespace: string,
    name: string,
    kind: ArtifactKind,
    status: ArtifactStatus,
    title: Option<string>,
    summary: Option<string>,
    owner: Option<string>,
    version: Option<string>,
    relations: seq<ArtifactRelation>)
  {
    function Id(): ArtifactId { ArtifactId(namespace + ":" + name) }
  }

  /** The artifacts of a graph: each identifier once. */
  type Manifest = seq<Entry>

  ghost predicate DistinctEntries(manifest: Manifest) {
    forall i, j :: 0 <= i < j < |manifest| ==> manifest[i].Id() != manifest[j].Id()
  }

  /** One declared edge, to be issued as one command. */
  datatype Link = Link(source: ArtifactId, kind: RelationKind, target: ArtifactId)

  function LinksOf(id: ArtifactId, relations: seq<ArtifactRelation>): seq<Link> {
    if relations == [] then []
    else LinksOf(id, relations[..|relations| - 1])
         + [Link(id, relations[|relations| - 1].kind, relations[|relations| - 1].target.id)]
  }

  /** Every declared edge, in manifest order. */
  function Links(manifest: Manifest): seq<Link> {
    if manifest == [] then []
    else
      var last := manifest[|manifest| - 1];
      Links(manifest[..|manifest| - 1]) + LinksOf(last.Id(), last.relations)
  }

  /** Who seeds what, where and when. */
  datatype Seeding = Seeding(organisation: string, space: string, at: Timestamp, actor: ActorRef)

  datatype SeedReport = SeedReport(entities: nat, relations: nat, byId: map<ArtifactId, EntityId>)

  // ------------------------------------------------------------------ derived names

  /** The alphanumerics of a text, with every run of anything else between them as one hyphen. */
  function Collapsed(text: string): (token: string)
    ensures |token| <= |text|
    ensures token != [] ==> Alphanumeric(token[0])
  {
    if text == [] then []
    else
      var before, c := Collapsed(text[..|text| - 1]), text[|text| - 1];
      if Alphanumeric(c) then before + [c]
      else if before != [] && before[|before| - 1] != '-' then before + ['-']
      else before
  }

  function TrimHyphens(token: string): string {
    if token != [] && token[|token| - 1] == '-' then TrimHyphens(token[..|token| - 1]) else token
  }

  /** A command-identifier fragment derived from an artifact identifier. */
  function Token(id: ArtifactId): string {
    var trimmed := TrimHyphens(Collapsed(id.text));
    if trimmed == [] then "artifact" else trimmed
  }

  method CollapseInPlace(text: string) returns (token: string)
    ensures token == Collapsed(text)
  {
    token := [];
    for i := 0 to |text|
      invariant token == Collapsed(text[..i])
    {
      assert text[..i + 1][..i] == text[..i];
      if Alphanumeric(text[i]) {
        token := token + [text[i]];
      } else if token != [] && token[|token| - 1] != '-' {
        token := token + ['-'];
      }
    }
    assert text[..|text|] == text;
  }

  method TokenInPlace(id: ArtifactId) returns (token: string)
    ensures token == Token(id)
  {
    hide Collapsed;
    token := CollapseInPlace(id.text);
    while token != [] && token[|token| - 1] == '-'
      invariant TrimHyphens(token) == TrimHyphens(Collapsed(id.text))
      decreases |token|
    {
      token := token[..|token| - 1];
    }
    if token == [] { token := "artifact"; }
  }

  /** The locator key an artifact name maps to: whatever a segment cannot carry becomes a hyphen. */
  function LocatorKey(name: string): (key: string)
    ensures |key| == |name| && forall i :: 0 <= i < |key| ==> SegmentChar(key[i])
  {
    if name == [] then []
    else [if SegmentChar(name[0]) then name[0] else '-'] + LocatorKey(name[1..])
  }

  function EntityName(id: ArtifactId): string { "seed-" + Token(id) }

  function LinkName(link: Link): string {
    "seed-rel-" + Token(link.source) + "-" + link.kind.AsStr() + "-" + Token(link.target)
  }

  /** Derived names are usable as command identifiers whenever they are short enough. */
  lemma TokenIsLoose(id: ArtifactId)
    requires |id.text| <= 200
    ensures LooseId(Token(id))
  {
    CollapsedShape(id.text);
    TrimmedShape(Collapsed(id.text));
  }

  /** Alphanumerics and single hyphens, not starting with one. */
  ghost predicate Hyphenated(token: string) {
    && (forall i :: 0 <= i < |token| ==> Alphanumeric(token[i]) || token[i] == '-')
    && (forall i :: 0 <= i < |token| - 1 ==> Alphanumeric(token[i]) || Alphanumeric(token[i + 1]))
  }

  lemma {:induction false} CollapsedShape(text: string)
    ensures Hyphenated(Collapsed(text))
  {
    if text != [] { CollapsedShape(text[..|text| - 1]); }
  }

  lemma {:induction false} TrimmedShape(token: string)
    requires Hyphenated(token)
    ensures Hyphenated(TrimHyphens(token)) && TrimHyphens(token) <= token
    ensures TrimHyphens(token) != [] ==> Alphanumeric(TrimHyphens(token)[|TrimHyphens(token)| - 1])
  {
    if token != [] && token[|token| - 1] == '-' { TrimmedShape(token[..|token| - 1]); }
  }

  // ------------------------------------------------------------------ one command

  /** The body an artifact is stored with: only what the manifest states. */
  function Body(entry: Entry): Node {
    var status := map["status" := Text(entry.status.AsStr())];
    var title := if entry.title.Some? then status["title" := Text(entry.title.value)] else status;
    var summary := if entry.summary.Some? then title["summary" := Text(entry.summary.value)] else title;
    var owner := if entry.owner.Some? then summary["owner" := Text(entry.owner.value)] else summary;
    Map(if entry.version.Some? then owner["version" := Text(entry.version.value)] else owner)
  }

  /** Wraps a seeding command, deriving its identifiers from `name` so that a replay is recognisable. */
  function Envelope(name: string, payload: Command, seeding: Seeding): Result<CommandEnvelope, CommandError> {
    if !LooseId(name) || !LooseId("req-" + name) then Err(Conflict(UnusableName(name)))
    else
      var context := CommandContext("req-" + name, IdempotencyKey(name), seeding.actor, None, "seed-manifest", None, None,
                                    None, seeding.at);
      Ok(CommandEnvelope(CommandId(name), payload.CommandType(), payload.Target(), payload.ExpectedRevision(), payload, context))
  }

  /** Issues a seeding command: an unusable name is refused before the backend hears of it. */
  function Issue(s: State, name: string, payload: Command, seeding: Seeding): Step<CommandResult> {
    match Envelope(name, payload, seeding)
    case Err(error) => Step(s, Err(error))
    case Ok(e) => Apply(s, e)
  }

  function Address(entry: Entry, seeding: Seeding): LocatorParts {
    LocatorParts(seeding.organisation, seeding.space, entry.kind.AsStr(), LocatorKey(entry.name))
  }

  function Creation(entry: Entry, seeding: Seeding): Command
    requires Address(entry, seeding).WellFormed()
  {
    Command.CreateEntity(EntityType("aep", entry.kind.AsStr(), 1), Address(entry, seeding), Body(entry))
  }

  /** The identity a result says an entity was stored under. */
  function FirstAffected(entry: Entry, answer: Result<CommandResult, CommandError>): Result<EntityId, CommandError> {
    match answer
    case Err(error) => Err(error)
    case Ok(result) =>
      if result.affected == [] then Err(Conflict(NothingAffected(entry.Id().text))) else Ok(result.affected[0].id)
  }

  function CreateStep(s: State, entry: Entry, seeding: Seeding): Step<EntityId> {
    if !Address(entry, seeding).WellFormed() then Step(s, Err(Conflict(UnusableLocator(entry.Id().text))))
    else
      var issued := Issue(s, EntityName(entry.Id()), Creation(entry, seeding), seeding);
      Step(issued.state, FirstAffected(entry, issued.answer))
  }

  function LinkStep(s: State, byId: map<ArtifactId, EntityId>, link: Link, seeding: Seeding): Step<CommandResult>
    requires link.source in byId
  {
    if link.target !in byId then Step(s, Err(Conflict(UndeclaredTarget(link.target.text))))
    else
      Issue(s, LinkName(link), Relating(byId, link), seeding)
  }

  function Relating(byId: map<ArtifactId, EntityId>, link: Link): Command
    requires link.source in byId && link.target in byId
  {
    Command.CreateRelation(link.kind, EntityRef(byId[link.source]), EntityRef(byId[link.target]))
  }

  // ------------------------------------------------------------------ the two passes

  function EntitiesPass(s: State, manifest: Manifest, seeding: Seeding): Step<map<ArtifactId, EntityId>> {
    if manifest == [] then Step(s, Ok(map[]))
    else
      var last := manifest[|manifest| - 1];
      var before := EntitiesPass(s, manifest[..|manifest| - 1], seeding);
      match before.answer
      case Err(_) => before
      case Ok(byId) =>
        var step := CreateStep(before.state, last, seeding);
        match step.answer
        case Err(error) => Step(step.state, Err(error))
        case Ok(id) => Step(step.state, Ok(byId[last.Id() := id]))
  }

  /** Issues the edges in turn, and answers how many. */
  function LinksPass(s: State, byId: map<ArtifactId, EntityId>, links: seq<Link>, seeding: Seeding): Step<nat>
    requires forall i :: 0 <= i < |links| ==> links[i].source in byId
  {
    if links == [] then Step(s, Ok(0))
    else
      var before := LinksPass(s, byId, links[..|links| - 1], seeding);
      match before.answer
      case Err(_) => before
      case Ok(count) =>
        var step := LinkStep(before.state, byId, links[|links| - 1], seeding);
        match step.answer
        case Err(error) => Step(step.state, Err(error))
        case Ok(_) => Step(step.state, Ok(count + 1))
  }

  lemma {:induction false} PassNamesEveryEntry(s: State, manifest: Manifest, seeding: Seeding)
    requires EntitiesPass(s, manifest, seeding).answer.Ok?
    ensures forall i :: 0 <= i < |manifest| ==> manifest[i].Id() in EntitiesPass(s, manifest, seeding).answer.value
    ensures forall id :: id in EntitiesPass(s, manifest, seeding).answer.value ==> exists i :: 0 <= i < |manifest| && manifest[i].Id() == id
  {
    hide CreateStep;
    if manifest != [] { PassNamesEveryEntry(s, manifest[..|manifest| - 1], seeding); }
  }

  lemma {:induction false} LinksOfSource(id: ArtifactId, relations: seq<ArtifactRelation>)
    ensures |LinksOf(id, relations)| == |relations|
    ensures forall i :: 0 <= i < |relations| ==> LinksOf(id, relations)[i].source == id
  {
    if relations != [] { LinksOfSource(id, relations[..|relations| - 1]); }
  }

  lemma {:induction false} LinksStartInManifest(manifest: Manifest, byId: map<ArtifactId, EntityId>)
    requires forall i :: 0 <= i < |manifest| ==> manifest[i].Id() in byId
    ensures forall i :: 0 <= i < |Links(manifest)| ==> Links(manifest)[i].source in byId
  {
    if manifest != [] {
      var last := manifest[|manifest| - 1];
      LinksStartInManifest(manifest[..|manifest| - 1], byId);
      LinksOfSource(last.Id(), last.relations);
    }
  }

  /** What the seeder answers once the links are issued. */
  function Reported(manifest: Manifest, byId: map<ArtifactId, EntityId>, links: Step<nat>): Step<SeedReport> {
    match links.answer
    case Err(error) => Step(links.state, Err(error))
    case Ok(count) => Step(links.state, Ok(SeedReport(|manifest|, count, byId)))
  }

  function FromManifest(s: State, manifest: Manifest, seeding: Seeding): Step<SeedReport> {
    var entities := EntitiesPass(s, manifest, seeding);
    match entities.answer
    case Err(error) => Step(entities.state, Err(error))
    case Ok(byId) =>
      PassNamesEveryEntry(s, manifest, seeding);
      LinksStartInManifest(manifest, byId);
      Reported(manifest, byId, LinksPass(entities.state, byId, Links(manifest), seeding))
  }

  // ------------------------------------------------------------------ the same, in place

  method IssueInPlace(store: Store, name: string, payload: Command, seeding: Seeding)
    returns (answer: Result<CommandResult, CommandError>)
    modifies store
    ensures Step(store.View(), answer) == Issue(old(store.View()), name, payload, seeding)
  {
    var e := Envelope(name, payload, seeding);
    if e.Err? { return Err(e.error); }
    answer := Execute(store, e.value);
  }

  method CreateEntity(store: Store, entry: Entry, seeding: Seeding) returns (answer: Result<EntityId, CommandError>)
    modifies store
    ensures Step(store.View(), answer) == CreateStep(old(store.View()), entry, seeding)
  {
    hide Issue, Creation;
    if !Address(entry, seeding).WellFormed() { return Err(Conflict(UnusableLocator(entry.Id().text))); }
    var token := TokenInPlace(entry.Id());
    var result := IssueInPlace(store, "seed-" + token, Creation(entry, seeding), seeding);
    answer := FirstAffected(entry, result);
  }

  /** Seeds a store: every artifact becomes an entity, then every declared edge a relation. */
  method Seed(store: Store, manifest: Manifest, seeding: Seeding) returns (answer: Result<SeedReport, CommandError>)
    modifies store
    ensures Step(store.View(), answer) == FromManifest(old(store.View()), manifest, seeding)
  {
    hide CreateStep, LinkStep;
    ghost var start := store.View();
    var byId: map<ArtifactId, EntityId>, entities := map[], 0;
    for n := 0 to |manifest|
      invariant entities == n
      invariant Step(store.View(), Ok(byId)) == EntitiesPass(start, manifest[..n], seeding)
    {
      assert manifest[..n + 1][..n] == manifest[..n];
      var id := CreateEntity(store, manifest[n], seeding);
      if id.Err? {
        EntitiesFailEarly(start, manifest, n + 1, seeding);
        return Err(id.error);
      }
      byId := byId[manifest[n].Id() := id.value];
      entities := entities + 1;
    }
    assert manifest[..|manifest|] == manifest;
    PassNamesEveryEntry(start, manifest, seeding);
    LinksStartInManifest(manifest, byId);
    answer := SeedLinks(store, manifest, byId, seeding);
  }

  method IssueLink(store: Store, byId: map<ArtifactId, EntityId>, link: Link, seeding: Seeding)
    returns (answer: Result<CommandResult, CommandError>)
    requires link.source in byId
    modifies store
    ensures Step(store.View(), answer) == LinkStep(old(store.View()), byId, link, seeding)
  {
    hide Issue, Relating;
    if link.target !in byId { return Err(Conflict(UndeclaredTarget(link.target.text))); }
    var source := TokenInPlace(link.source);
    var target := TokenInPlace(link.target);
    answer := IssueInPlace(store, "seed-rel-" + source + "-" + link.kind.AsStr() + "-" + target, Relating(byId, link), seeding);
  }

  /** Issues the edges one artifact declares, which are the links from `done` on. */
  method SeedEntry(store: Store, byId: map<ArtifactId, EntityId>, entry: Entry, seeding: Seeding,
                   ghost start: State, ghost links: seq<Link>, ghost done: nat)
    returns (issued: nat, refused: Option<CommandError>)
    requires entry.Id() in byId && forall i :: 0 <= i < |links| ==> links[i].source in byId
    requires done + |entry.relations| <= |links|
    requires links[done..done + |entry.relations|] == LinksOf(entry.Id(), entry.relations)
    requires Step(store.View(), Ok(done)) == LinksPass(start, byId, links[..done], seeding)
    modifies store
    ensures refused.Some? ==> Step(store.View(), Err(refused.value)) == LinksPass(start, byId, links, seeding)
    ensures refused.None? ==> issued == |entry.relations|
    ensures refused.None? ==> Step(store.View(), Ok(done + issued)) == LinksPass(start, byId, links[..done + issued], seeding)
  {
    hide LinkStep, LinksOf;
    issued := 0;
    while issued < |entry.relations|
      invariant issued <= |entry.relations|
      invariant Step(store.View(), Ok(done + issued)) == LinksPass(start, byId, links[..done + issued], seeding)
    {
      var link := Link(entry.Id(), entry.relations[issued].kind, entry.relations[issued].target.id);
      LinksOfAt(entry.Id(), entry.relations, issued);
      assert links[done + issued] == link by { assert links[done..done + |entry.relations|][issued] == links[done + issued]; }
      assert links[..done + issued + 1][..done + issued] == links[..done + issued];
      var result := IssueLink(store, byId, link, seeding);
      if result.Err? {
        LinksFailEarly(start, byId, links, done + issued + 1, seeding);
        return issued, Some(result.error);
      }
      issued := issued + 1;
    }
    refused := None;
  }

  method SeedLinks(store: Store, manifest: Manifest, byId: map<ArtifactId, EntityId>, seeding: Seeding)
    returns (answer: Result<SeedReport, CommandError>)
    requires forall i :: 0 <= i < |manifest| ==> manifest[i].Id() in byId
    requires forall i :: 0 <= i < |Links(manifest)| ==> Links(manifest)[i].source in byId
    modifies store
    ensures Step(store.View(), answer) == Reported(manifest, byId, LinksPass(old(store.View()), byId, Links(manifest), seeding))
  {
    hide LinksPass, LinksOf;
    ghost var start, links := store.View(), Links(manifest);
    var relations := 0;
    assert Step(store.View(), Ok(0)) == LinksPass(start, byId, links[..0], seeding) by { NoLinks(start, byId, seeding); }
    for n := 0 to |manifest|
      invariant relations == |Links(manifest[..n])| <= |links|
      invariant Step(store.View(), Ok(relations)) == LinksPass(start, byId, links[..relations], seeding)
    {
      LinksInOrder(manifest, n);
      var issued, refused := SeedEntry(store, byId, manifest[n], seeding, start, links, relations);
      if refused.Some? { return Err(refused.value); }
      relations := relations + issued;
    }
    assert manifest[..|manifest|] == manifest && links[..|links|] == links;
    answer := Ok(SeedReport(|manifest|, relations, byId));
  }

  lemma NoLinks(s: State, byId: map<ArtifactId, EntityId>, seeding: Seeding)
    ensures LinksPass(s, byId, [], seeding) == Step(s, Ok(0))
  {
  }

  /** The links of artifact `n` come right after those of the artifacts before it. */
  lemma LinksInOrder(manifest: Manifest, n: nat)
    requires n < |manifest|
    ensures var done, count, links := |Links(manifest[..n])|, |manifest[n].relations|, Links(manifest);
            && done + count == |Links(manifest[..n + 1])| <= |links|
            && links[done..done + count] == LinksOf(manifest[n].Id(), manifest[n].relations)
  {
    LinksPrefix(manifest, n + 1);
    LinksOfSource(manifest[n].Id(), manifest[n].relations);
    assert manifest[..n + 1][..n] == manifest[..n];
  }

  lemma {:induction false} LinksOfAt(id: ArtifactId, relations: seq<ArtifactRelation>, k: nat)
    requires k < |relations|
    ensures |LinksOf(id, relations)| == |relations|
    ensures LinksOf(id, relations)[k] == Link(id, relations[k].kind, relations[k].target.id)
    decreases |relations|
  {
    LinksOfSource(id, relations[..|relations| - 1]);
    if k < |relations| - 1 { LinksOfAt(id, relations[..|relations| - 1], k); }
  }

  lemma {:induction false} LinksPrefix(manifest: Manifest, n: nat)
    requires n <= |manifest|
    ensures Links(manifest[..n]) <= Links(manifest)
    decreases |manifest|
  {
    if n == |manifest| {
      assert manifest[..n] == manifest;
    } else {
      assert manifest[..|manifest| - 1][..n] == manifest[..n];
      LinksPrefix(manifest[..|manifest| - 1], n);
    }
  }

  lemma {:induction false} EntitiesFailEarly(s: State, manifest: Manifest, n: nat, seeding: Seeding)
    requires n <= |manifest| && EntitiesPass(s, manifest[..n], seeding).answer.Err?
    ensures EntitiesPass(s, manifest, seeding) == EntitiesPass(s, manifest[..n], seeding)
    decreases |manifest|
  {
    hide CreateStep;
    if n == |manifest| {
      assert manifest[..n] == manifest;
    } else {
      assert manifest[..|manifest| - 1][..n] == manifest[..n];
      EntitiesFailEarly(s, manifest[..|manifest| - 1], n, seeding);
    }
  }

  lemma {:induction false} LinksFailEarly(s: State, byId: map<ArtifactId, EntityId>, links: seq<Link>, n: nat, seeding: Seeding)
    requires forall i :: 0 <= i < |links| ==> links[i].source in byId
    requires n <= |links| && LinksPass(s, byId, links[..n], seeding).answer.Err?
    ensures LinksPass(s, byId, links, seeding) == LinksPass(s, byId, links[..n], seeding)
    decreases |links|
  {
    hide LinkStep;
    if n == |links| {
      assert links[..n] == links;
    } else {
      assert links[..|links| - 1][..n] == links[..n];
      LinksFailEarly(s, byId, links[..|links| - 1], n, seeding);
    }
  }
}
