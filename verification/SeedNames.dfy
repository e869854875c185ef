/** What seeding writes, spelled out: the names it derives, the addresses, the bodies and the envelopes
    (crates/aep-backend-memory/src/seed.rs:122-251). */
module SeedNames {
  import opened Wrappers
  import opened Texts
  import opened ArtifactKinds
  import opened ArtifactGraphs
  import opened Entities
  import opened Commands
  import opened Stores
  import opened Backend
  import opened Seed
  import opened SeedFresh
  import opened SeedOutcomes

  // ------------------------------------------------------------------ characters

  /** The characters of names, of what stands between them, and of the segments of an address. */
  lemma CharactersExactly(c: char)
    ensures Alphanumeric(c) <==>
            c in "abcdefghijklmnopqrstuvwxyz" || c in "ABCDEFGHIJKLMNOPQRSTUVWXYZ" || c in "0123456789"
    ensures Separator(c) <==> c in "./-_"
    ensures SegmentChar(c) <==> Alphanumeric(c) || c in "-_."
  {
    SmallLetters(c);
    Capitals(c);
    Digits(c);
    SeparatorsExactly(c);
  }

  lemma SmallLetters(c: char)
    ensures 'a' <= c <= 'z' <==> c in "abcdefghijklmnopqrstuvwxyz"
  {
  }

  lemma Capitals(c: char)
    ensures 'A' <= c <= 'Z' <==> c in "ABCDEFGHIJKLMNOPQRSTUVWXYZ"
  {
  }

  lemma Digits(c: char)
    ensures '0' <= c <= '9' <==> c in "0123456789"
  {
  }

  lemma SeparatorsExactly(c: char)
    ensures Separator(c) <==> c in "./-_"
    ensures SegmentChar(c) <==> Alphanumeric(c) || c in "-_."
  {
    hide Alphanumeric;
  }

  // ------------------------------------------------------------------ derived names

  /** The runs of alphanumerics of a text, in order. */
  ghost function Runs(text: string): seq<string> {
    if text == [] then []
    else
      var front, c := text[..|text| - 1], text[|text| - 1];
      var runs := Runs(front);
      if !Alphanumeric(c) then runs
      else if front == [] || !Alphanumeric(front[|front| - 1]) || runs == [] then runs + [[c]]
      else runs[..|runs| - 1] + [runs[|runs| - 1] + [c]]
  }

  ghost predicate EndsInRun(text: string) { text != [] && Alphanumeric(text[|text| - 1]) }

  lemma JoinedMore(runs: seq<string>, run: string)
    ensures Joined(runs + [run], "-") == if runs == [] then run else Joined(runs, "-") + "-" + run
  {
    assert (runs + [run])[..|runs|] == runs;
  }

  lemma {:induction false} JoinedLonger(runs: seq<string>, c: char)
    requires runs != []
    ensures Joined(runs[..|runs| - 1] + [runs[|runs| - 1] + [c]], "-") == Joined(runs, "-") + [c]
  {
    hide Joined;
    var before, last := runs[..|runs| - 1], runs[|runs| - 1];
    assert runs == before + [last];
    JoinedMore(before, last);
    JoinedMore(before, last + [c]);
    Regroup(Joined(before, "-") + "-", last, [c]);
  }

  lemma Regroup(a: string, b: string, c: string)
    ensures a + (b + c) == a + b + c
  {
  }

  lemma {:induction false} RunsShape(text: string)
    ensures EndsInRun(text) ==> Runs(text) != []
    ensures forall k :: 0 <= k < |Runs(text)| ==> Runs(text)[k] != [] && forall i :: 0 <= i < |Runs(text)[k]| ==> Alphanumeric(Runs(text)[k][i])
  {
    hide Alphanumeric;
    if text != [] { RunsShape(text[..|text| - 1]); }
  }

  /** Joined runs end as their last run does. */
  lemma {:induction false} JoinedEnds(runs: seq<string>)
    requires runs != [] && forall k :: 0 <= k < |runs| ==> runs[k] != [] && forall i :: 0 <= i < |runs[k]| ==> Alphanumeric(runs[k][i])
    ensures Joined(runs, "-") != [] && Joined(runs, "-")[|Joined(runs, "-")| - 1] != '-'
  {
    var last := runs[|runs| - 1];
    assert last[|last| - 1] != '-';
  }

  /** While the characters are taken in, the name is the runs so far, with a hyphen after them when the
      last one has ended. */
  lemma {:induction false} CollapsedIsRuns(text: string)
    ensures Collapsed(text) == if Runs(text) == [] then [] else if EndsInRun(text) then Joined(Runs(text), "-") else Joined(Runs(text), "-") + "-"
  {
    hide Alphanumeric, Joined;
    if text != [] {
      var front, c := text[..|text| - 1], text[|text| - 1];
      var runs := Runs(front);
      CollapsedIsRuns(front);
      RunsShape(front);
      JoinedMore(runs, [c]);
      if runs != [] {
        JoinedLonger(runs, c);
        JoinedEnds(runs);
      }
    }
  }

  lemma TrimsOne(joined: string)
    requires joined != [] && joined[|joined| - 1] != '-'
    ensures TrimHyphens(joined) == joined && TrimHyphens(joined + "-") == joined
  {
    assert (joined + "-")[..|joined|] == joined;
  }

  /** A derived name is the runs of alphanumerics of the identifier with a hyphen between any two, or
      `artifact` where there is none. */
  lemma TokenIsRuns(id: ArtifactId)
    ensures Token(id) == if Runs(id.text) == [] then "artifact" else Joined(Runs(id.text), "-")
  {
    hide Alphanumeric, Joined, Collapsed, TrimHyphens;
    CollapsedIsRuns(id.text);
    RunsShape(id.text);
    if Runs(id.text) == [] {
      NothingToTrim();
    } else {
      JoinedEnds(Runs(id.text));
      TrimsOne(Joined(Runs(id.text), "-"));
    }
  }

  lemma NothingToTrim()
    ensures TrimHyphens([]) == []
  {
  }

  // ------------------------------------------------------------------ bodies

  ghost predicate HoldsText(fields: map<string, Node>, key: string, value: Option<string>) {
    if value.Some? then key in fields && fields[key] == Text(value.value) else key !in fields
  }

  /** The body of an artifact holds its status and what else the manifest states, and nothing more. */
  ghost predicate BodyStates(entry: Entry, body: Node) {
    && body.Map? && body.entries.Keys <= {"status", "title", "summary", "owner", "version"}
    && HoldsText(body.entries, "status", Some(entry.status.AsStr())) && HoldsText(body.entries, "title", entry.title)
    && HoldsText(body.entries, "summary", entry.summary) && HoldsText(body.entries, "owner", entry.owner)
    && HoldsText(body.entries, "version", entry.version)
  }

  lemma BodyExactly(entry: Entry)
    ensures BodyStates(entry, Body(entry))
  {
    hide ArtifactStatus.AsStr;
    KeysDiffer();
  }

  lemma KeysDiffer()
    ensures "status" !in {"title", "summary", "owner", "version"} && "title" !in {"summary", "owner", "version"}
    ensures "summary" !in {"owner", "version"} && "owner" != "version"
  {
    assert |"status"| == 6 && |"title"| == 5 && |"summary"| == 7 && |"owner"| == 5 && |"version"| == 7;
    assert "title"[0] != "owner"[0] && "summary"[0] != "version"[0];
  }

  // ------------------------------------------------------------------ addresses

  /** Organisation, space, the kind's name, and the artifact's name with a hyphen for every character that
      no segment carries. */
  ghost predicate AddressStates(entry: Entry, seeding: Seeding, address: LocatorParts) {
    && address.organisation == seeding.organisation && address.space == seeding.space && address.kind == entry.kind.AsStr()
    && |address.key| == |entry.name|
    && forall i :: 0 <= i < |entry.name| ==>
         address.key[i] == if Alphanumeric(entry.name[i]) || entry.name[i] in "-_." then entry.name[i] else '-'
  }

  lemma AddressExactly(entry: Entry, seeding: Seeding)
    ensures AddressStates(entry, seeding, Address(entry, seeding))
  {
    hide LocatorKey, Alphanumeric, ArtifactKind.AsStr;
    var key := LocatorKey(entry.name);
    forall i | 0 <= i < |entry.name|
      ensures key[i] == if Alphanumeric(entry.name[i]) || entry.name[i] in "-_." then entry.name[i] else '-'
    {
      KeyAt(entry.name, i);
    }
  }

  // ------------------------------------------------------------------ envelopes

  /** A seeding command as it is sent: every identifier in it is the derived name. */
  ghost predicate SentAs(e: CommandEnvelope, name: string, payload: Command, seeding: Seeding) {
    && e.commandId.text == name && e.context.idempotencyKey.text == name && e.context.requestId == "req-" + name
    && e.payload == payload && e.context.actor == seeding.actor && e.context.issuedAt == seeding.at
    && e.context.correlationId == "seed-manifest" && e.context.executor == None && e.context.causation == None
    && e.context.executionId == None && e.context.task == None && e.expectedRevision == None
  }

  /** A creation or a relation is sent under its name exactly when the name is usable, as what it is. */
  lemma EnvelopeExactly(name: string, payload: Command, seeding: Seeding)
    requires payload.CreateEntity? || payload.CreateRelation?
    ensures match Envelope(name, payload, seeding)
            case Ok(e) =>
              && LooseId(name) && LooseId("req-" + name) && SentAs(e, name, payload, seeding)
              && e.commandType == (if payload.CreateEntity? then "aep.entity.create/v1" else "aep.relation.create/v1")
              && e.target == (if payload.CreateEntity? then None else Some(payload.source))
            case Err(error) => !(LooseId(name) && LooseId("req-" + name)) && error == Conflict(UnusableName(name))
  {
    hide LooseId;
  }

  /** Names of artifacts and of edges. */
  lemma NamesAreSpelled(link: Link)
    ensures EntityName(link.source) == "seed-" + Token(link.source)
    ensures LinkName(link) == "seed-rel-" + Token(link.source) + "-" + link.kind.AsStr() + "-" + Token(link.target)
  {
  }

  // ------------------------------------------------------------------ as written

  /** With distinct names, every artifact has an entity at its own address, of its own type, with what the
      manifest states of it and nothing more, made by and when the seeding says. */
  lemma SeededAsWritten(manifest: Manifest, seeding: Seeding, i: nat)
    requires EntitiesPass(EMPTY, manifest, seeding).answer.Ok? && PairwiseDistinct(EntityNames(manifest)) && i < |manifest|
    ensures var entry, byId, entities := manifest[i], EntitiesPass(EMPTY, manifest, seeding).answer.value,
                                          EntitiesPass(EMPTY, manifest, seeding).state.entities;
            && entry.Id() in byId && byId[entry.Id()] in entities
            && var entity := entities[byId[entry.Id()]];
               && AddressStates(entry, seeding, entity.metadata.locator) && BodyStates(entry, entity.data) && !entity.archived
               && entity.metadata.entityType.namespace == "aep" && entity.metadata.entityType.name == entry.kind.AsStr()
               && entity.metadata.entityType.version == 1 && entity.metadata.revision == 1
               && entity.metadata.createdAt == seeding.at && entity.metadata.provenance.createdBy == seeding.actor
  {
    hide EntitiesPass, PairwiseDistinct, Address, Body, AddressStates, BodyStates, EntityNames, LocatorParts.WellFormed, ArtifactKind.AsStr;
    EntitiesAreAsDeclared(manifest, seeding, i);
    AddressExactly(manifest[i], seeding);
    BodyExactly(manifest[i]);
  }

  // ------------------------------------------------------------------ the report

  /** How many edges the artifacts of a manifest declare. */
  ghost function EdgeCount(manifest: Manifest): nat {
    if manifest == [] then 0 else EdgeCount(manifest[..|manifest| - 1]) + |manifest[|manifest| - 1].relations|
  }

  lemma {:induction false} LinksAreEdges(manifest: Manifest)
    ensures |Links(manifest)| == EdgeCount(manifest)
  {
    if manifest != [] {
      var last := manifest[|manifest| - 1];
      LinksAreEdges(manifest[..|manifest| - 1]);
      LinksOfSource(last.Id(), last.relations);
    }
  }

  lemma {:induction false} EveryLinkIsCounted(s: State, byId: map<ArtifactId, EntityId>, links: seq<Link>, seeding: Seeding)
    requires forall i :: 0 <= i < |links| ==> links[i].source in byId
    requires LinksPass(s, byId, links, seeding).answer.Ok?
    ensures LinksPass(s, byId, links, seeding).answer.value == |links|
  {
    hide LinkStep;
    if links != [] { EveryLinkIsCounted(s, byId, links[..|links| - 1], seeding); }
  }

  /** What is reported: every artifact, every declared edge, and an entity for each identifier. */
  lemma ReportExactly(s: State, manifest: Manifest, seeding: Seeding)
    requires FromManifest(s, manifest, seeding).answer.Ok?
    ensures var report := FromManifest(s, manifest, seeding).answer.value;
            && report.entities == |manifest| && report.relations == EdgeCount(manifest)
            && forall id :: id in report.byId <==> exists i :: 0 <= i < |manifest| && manifest[i].Id() == id
  {
    hide EntitiesPass, LinksPass, Links;
    var pass := EntitiesPass(s, manifest, seeding);
    PassNamesEveryEntry(s, manifest, seeding);
    LinksStartInManifest(manifest, pass.answer.value);
    EveryLinkIsCounted(pass.state, pass.answer.value, Links(manifest), seeding);
    LinksAreEdges(manifest);
  }

  /** An edge to an artifact that has no entity is refused by the name of that artifact, before any command. */
  lemma UndeclaredIsNamed(s: State, byId: map<ArtifactId, EntityId>, link: Link, seeding: Seeding)
    requires link.source in byId
    ensures LinkStep(s, byId, link, seeding).answer == Err(Conflict(UndeclaredTarget(link.target.text))) <==> link.target !in byId
    ensures link.target !in byId ==> LinkStep(s, byId, link, seeding).state == s
  {
    hide LooseId, WithRejection;
  }
}
