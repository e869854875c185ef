/** Identities, addresses, revisions and metadata of stored entities
    (crates/aep-domain/src/entity.rs, crates/aep-domain/src/node.rs). */
module Entities {
  import opened Wrappers

  // ------------------------------------------------------------------ identifiers

  predicate Alphanumeric(c: char) { 'a' <= c <= 'z' || 'A' <= c <= 'Z' || '0' <= c <= '9' }

  predicate Separator(c: char) { c == '.' || c == '/' || c == '-' || c == '_' }

  /** The loose charset: alphanumeric segments joined by single separators, at most 200 characters. */
  predicate LooseId(text: string) {
    && 1 <= |text| <= 200
    && (forall i :: 0 <= i < |text| ==> Alphanumeric(text[i]) || Separator(text[i]))
    && Alphanumeric(text[0]) && Alphanumeric(text[|text| - 1])
    && (forall i :: 0 <= i < |text| - 1 ==> Alphanumeric(text[i]) || Alphanumeric(text[i + 1]))
  }

  datatype EntityId = EntityId(text: string)
  datatype RelationId = RelationId(text: string)
  datatype AuditId = AuditId(text: string)
  datatype EventId = EventId(text: string)
  datatype CommandId = CommandId(text: string)
  datatype IdempotencyKey = IdempotencyKey(text: string)

  /** Milliseconds since the Unix epoch. */
  type Timestamp = nat

  datatype Node =
    | Null
    | Bool(flag: bool)
    | Number(number: real)
    | Text(text: string)
    | Seq(items: seq<Node>)
    | Map(entries: map<string, Node>)

  datatype ActorRef = Human(name: string) | Agent(name: string) | Service(name: string) | System

  datatype EntityType = EntityType(namespace: string, name: string, version: nat)

  // ------------------------------------------------------------------ locators

  /** The four segments of a locator, before `EntityLocator::new` has checked them. */
  datatype LocatorParts = LocatorParts(organisation: string, space: string, kind: string, key: string) {
    predicate WellFormed() {
      Segment(organisation) && Segment(space) && Segment(kind) && Segment(key)
    }

    function Render(): string {
      "ep://" + organisation + "/" + space + "/" + kind + "/" + key
    }
  }

  /** A locator in hand is one that was checked. */
  type EntityLocator = l: LocatorParts | l.WellFormed() witness LocatorParts("o", "s", "k", "k")

  predicate SegmentChar(c: char) { Alphanumeric(c) || c == '-' || c == '_' || c == '.' }

  predicate Segment(s: string) {
    s != "" && forall i :: 0 <= i < |s| ==> SegmentChar(s[i])
  }

  lemma SplitAtSlash(a: string, b: string, x: string, y: string)
    requires a + "/" + x == b + "/" + y
    requires forall i :: 0 <= i < |a| ==> a[i] != '/'
    requires forall i :: 0 <= i < |b| ==> b[i] != '/'
    ensures a == b && x == y
  {
    var left, right := a + "/" + x, b + "/" + y;
    assert left[|a|] == '/' && right[|b|] == '/';
    assert |a| == |b| by {
      assert forall i :: 0 <= i < |b| ==> left[i] == b[i] != '/';
      assert forall i :: 0 <= i < |a| ==> right[i] == a[i] != '/';
    }
    assert left[..|a|] == a && right[..|b|] == b;
    assert left[|a| + 1..] == x && right[|b| + 1..] == y;
  }

  /** Two well-formed locators are written alike only when they are the same locator, so the index
      keyed by the written form is an index by locator. */
  lemma RenderIsInjective(a: EntityLocator, b: EntityLocator)
    requires a.Render() == b.Render()
    ensures a == b
  {
    RenderGroups(a);
    RenderGroups(b);
    var restA, restB := a.space + "/" + (a.kind + "/" + a.key), b.space + "/" + (b.kind + "/" + b.key);
    SplitAtSlash(a.organisation, b.organisation, restA, restB);
    SplitAtSlash(a.space, b.space, a.kind + "/" + a.key, b.kind + "/" + b.key);
    SplitAtSlash(a.kind, b.kind, a.key, b.key);
  }

  lemma RenderGroups(l: LocatorParts)
    ensures |l.Render()| >= 5
    ensures l.Render()[5..] == l.organisation + "/" + (l.space + "/" + (l.kind + "/" + l.key))
  {
    assert l.Render() == "ep://" + (l.organisation + "/" + (l.space + "/" + (l.kind + "/" + l.key)));
  }

  // ------------------------------------------------------------------ references and metadata

  datatype EntityRef = EntityRef(id: EntityId)

  /** One exact revision; revisions start at 1. */
  datatype VersionedEntityRef = VersionedEntityRef(id: EntityId, revision: nat) {
    function Unversioned(): EntityRef { EntityRef(id) }
  }

  datatype EntityProvenance = EntityProvenance(
    createdBy: ActorRef,
    createdExecutor: Option<ActorRef>,
    updatedBy: ActorRef,
    updatedExecutor: Option<ActorRef>)

  datatype EntityMetadata = EntityMetadata(
    id: EntityId,
    locator: EntityLocator,
    entityType: EntityType,
    revision: nat,
    createdAt: Timestamp,
    updatedAt: Timestamp,
    provenance: EntityProvenance)
  {
    function VersionedReference(): VersionedEntityRef { VersionedEntityRef(id, revision) }

    /** The next revision, recording who changed it; identity, address, type and origin stay. */
    function Advance(at: Timestamp, actor: ActorRef, executor: Option<ActorRef>): EntityMetadata {
      this.(revision := revision + 1, updatedAt := at,
            provenance := provenance.(updatedBy := actor, updatedExecutor := executor))
    }
  }

  /** Metadata for a newly created entity. */
  function NewMetadata(id: EntityId, locator: EntityLocator, entityType: EntityType, at: Timestamp,
                       actor: ActorRef): EntityMetadata {
    EntityMetadata(id, locator, entityType, 1, at, at, EntityProvenance(actor, None, actor, None))
  }

  datatype StoredEntity = StoredEntity(metadata: EntityMetadata, data: Node, archived: bool)
}
