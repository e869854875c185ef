# Verified models of the engineering protocols

This project models the parts of the repository whose correctness rests on whole runs, whole texts or
whole graphs, and proves what they promise. Loops and mutable records of the source stay loops and
classes here; each such method is proved against a specification function, and the lemmas state what
holds of that function. `dafny verify dfyconfig.toml` checks everything.

**Artifact graph.** `ArtifactKinds`, `ArtifactGraphs`, `CycleSearch`, `Ancestry`, `GraphBuild`, `Facts`:
the kind hierarchy derived from names, the cycle finder with its open and done marks and its path stack,
the breadth-first closure, edge validation and the fact projection, over arbitrary finite graphs with
dangling edges.

**In-memory backend.** `Entities`, `Commands`, `Audit`, `Stores`, `Backend` hold the store and its
commands. `BackendInvariant`, `BackendSteps`, `BackendRuns`, `BackendTrail`, `BackendEvents`,
`BackendEffects` and `BackendIdentities` reason about every run from an empty store: the invariant,
refusals, exactly-once application, consistency tokens, the audit trail, events, relations, lost updates
and generated identifiers. `BackendAcceptance` and `BackendOutcomes` state, without the command arms, exactly
when each command is accepted, what answers it otherwise, and everything it leaves. `Seed`, `SeedProofs`,
`SeedFresh`, `SeedOutcomes` and `SeedNames` cover the manifest seeder on top of it, up to exactly which
manifests seed and what each entity then holds.

**`Verify:` annotations.** `Texts`, `Dates`, `ClaimLines`, `Claims` and `ClaimCounting` model the scanner
and the counter it is measured against. `ClaimGrammar` spells out what each of their readers accepts, and
`ClaimMeaning` every record and every refusal of a scan, both ways and without the scanner; `Calendar` shows
that the date comparison counts days, and `ClaimExpiry` what a horizon then covers. `ClaimAccounting` relates the two exactly, `ClaimFences` says when
their fence readers agree, `ClaimRoundTrip` and `ClaimVerbatim` when a rendered record comes back, and
`ClaimWrapping` that breaking an annotation over lines changes nothing. `ClaimExamples` holds the
documents that need the conditions.

**Generated trees and binaries.** `Trees`, `Sync`, `SyncInPlace`, `Exclusions` and `Leb128`.

**Documents and policies.** `DocumentFences`, `Documents`, `Capabilities` and `CapabilityText`.

## Where the code and its documentation part

The model follows the code. Each of these is stated as an exact condition or shown by an example.

- Accepting a decision record changes it before the superseded entity is looked for, so a refusal can leave
  a new revision that no change record explains, although crates/aep-contract/src/command.rs:281-282
  promises unchanged state: `BackendSteps.RefusalFrame`, `BackendSteps.WhatStrandingLeaves`,
  `BackendTrail.RefusedYetAccepted`.
- A replay is promised the original result; its `outcome` differs: `BackendRuns.ReplayAnswersTheSame`.
- A result lists the store's last event, which may be another command's: `BackendEvents.ReportedEvent`,
  `BackendEvents.ArchivingReportsTheCreation`.
- Artifacts that collide in their address are said to be refused rather than to share an entity
  (crates/aep-backend-memory/src/seed.rs:236-240). They are refused exactly when their derived names differ,
  and an artifact before them made an entity at that address; under one name the second creation is a replay
  of the first. Within one namespace colliding artifacts always have one name, so there the refusal never
  happens: `SeedOutcomes.CreationOutcome`, `SeedOutcomes.OneNamespaceNeverRefuses`,
  `SeedOutcomes.CollidersShareSilently`.
- A malformed record whose source ends in a line feed is rendered and scanned to another source:
  `ClaimVerbatim.RenderingIsAFixpoint`, `ClaimExamples.LeadingTagLeavesAFeed`.
- A hyphenated kind's parent is said to be the kind its last segment names
  (crates/aep-domain/src/artifact.rs:485-491). Of the named kinds only the five designs have one: `test-plan`
  or `review-result` has none. `ArtifactKinds.ParentedExactly` says which have, and
  `ArtifactKinds.ParentIsSuffix` that for those the rule holds.
- `approved.count` is written once for all approved statuses and again for the status `approved` alone:
  `Facts.ApprovedCountHolds`. Counting by name differs from `is_a` for a custom kind spelled like a named
  one: `Facts.CountIsIsA`.
- The scanner and the counter read a fence differently when whitespace other than a space stands between
  quote markers: `ClaimFences.MarkersDifferExactly`, `ClaimExamples.FencesCanDisagree`.
- A restriction may turn a capability nobody granted into one that needs approval:
  `Capabilities.RestrictingCanOpen`.
- A number whose tenth byte exceeds one is cut to 64 bits instead of refused: `Leb128.TenthByteExactly`,
  `Leb128.TenthByteIsCut`.

## Model

| member | source | states |
|---|---|---|
| `ArtifactKinds.ParentIsTop` | crates/aep-domain/src/artifact.rs:510-545 | a kind has a parent only when its name is hyphenated, the parent's name is not, and so a parent has no parent: climbing ends after at most one step, for named and unbounded custom kinds alike |
| `ArtifactKinds.LineageOf` | crates/aep-domain/src/artifact.rs:563-571 | the climbing loop ends and collects exactly the lineage the specification lists |
| `ArtifactKinds.LineageIsClimb` | crates/aep-domain/src/artifact.rs:563-571 | position by position, the lineage is the kind after that many climbs, and nothing beyond it |
| `ArtifactKinds.IsA` | crates/aep-domain/src/artifact.rs:547-556 | the `is_a` loop answers true exactly when the other kind is in the lineage |
| `ArtifactKinds.IsAIsParentClosure` | crates/aep-domain/src/artifact.rs:547-571 | the lineage holds exactly what the reflexive, transitive closure of `parent` reaches |
| `ArtifactKinds.IsAIsAPartialOrder` | crates/aep-domain/src/artifact.rs:547-556 | `is_a` is reflexive, transitive and antisymmetric over every kind, custom ones included |
| `ArtifactKinds.LineageNamesAreDistinct` | crates/aep-domain/src/artifact.rs:510-571 | no lineage holds two kinds of one name, so an artifact is never counted twice under a name |
| `ArtifactKinds.ParentedExactly` | crates/aep-domain/src/artifact.rs:510-545 | a kind has a parent exactly when it is one of the five designs or a custom kind with something after its last hyphen |
| `ArtifactKinds.ParentIsSuffix` | crates/aep-domain/src/artifact.rs:510-545 | the parent's name is what follows the last hyphen of the kind's name |
| `ArtifactKinds.IsAIsByName` | crates/aep-domain/src/artifact.rs:510-571 | of two kinds as they are read, `is_a` holds exactly when they are the same, or the one has a parent and its name is something, a hyphen, and the unhyphenated name of the other |
| `ArtifactKinds.DesignsAreDesigns` | crates/aep-domain/src/artifact.rs:510-571 | the lineage of each of the five designs is itself and `design` |
| `ArtifactKinds.CustomIsNamed` | crates/aep-domain/src/artifact.rs:510-571 | the lineage of a custom kind that ends in the name of a named kind is itself and that kind |
| `ArtifactKinds.LifecycleRegistry.ForKindIsNearest` | crates/aep-domain/src/artifact.rs:1539-1544 | the lifecycle that governs a kind is the one registered for the nearest kind up the climb |
| `ArtifactKinds.LifecycleRegistry.FallbackOnlyWithoutLineage` | crates/aep-domain/src/artifact.rs:1539-1544 | some kind is nearest exactly when a kind of the lineage is registered, and only when none is does the fallback govern |
| `ArtifactGraphs.RelatedIsEdges` | crates/aep-domain/src/artifact.rs:1674-1682 | `related` returns the artifacts at the far end of the resolved edges, all of them and no others; dangling targets drop out |
| `ArtifactGraphs.InverseIsConverse` | crates/aep-domain/src/artifact.rs:1688-1693 | `inverse` is the converse of `related`, and an artifact is in it exactly when it declares an edge to the identifier, whether or not that identifier is held |
| `ArtifactGraphs.EdgeIsDeclared` | crates/aep-domain/src/artifact.rs:1674-1693 | an edge stands exactly where some declared relation, by position, has that kind and that target, pinned to a version or not |
| `ArtifactGraphs.TopologicalMeansAcyclic` | crates/aep-domain/src/artifact.rs:1766-1785 | an order in which edges only lead backwards leaves no closed walk |
| `CycleSearch.Search.Enter` | crates/aep-domain/src/artifact.rs:1804-1805 | marking an artifact open and pushing it keeps the search invariant (stack is a walk, open is exactly on the stack, finished artifacts have finished targets) |
| `CycleSearch.Search.Leave` | crates/aep-domain/src/artifact.rs:1825-1827 | popping an artifact whose targets are all finished marks it done and lists it after them, keeping the invariant |
| `CycleSearch.Search.Position` | crates/aep-domain/src/artifact.rs:1809-1812 | the position found holds the artifact, and none is found only when it is not on the stack |
| `CycleSearch.Search.CloseCycle` | crates/aep-domain/src/artifact.rs:1808-1816 | reaching an open artifact finds it on the stack, so the position fallback is never taken, and the answer is a closed walk along resolved edges with no repeat but its ends |
| `CycleSearch.Search.Walk` | crates/aep-domain/src/artifact.rs:1797-1828 | the recursion ends because unmarked artifacts only decrease; it answers a real closed walk, or restores the stack with the artifact finished and nothing forgotten |
| `CycleSearch.FindCycle` | crates/aep-domain/src/artifact.rs:1790-1841 | for every finite graph, dangling edges included, none is answered if and only if the relation is acyclic; any answer is a simple closed walk; none comes with a topological order |
| `Ancestry.Expand` | crates/aep-domain/src/artifact.rs:1701-1706 | one turn of the outer loop lists and queues exactly the unseen targets of the entry taken, keeping discovery order, depths and queue aligned; it either adds to what was seen or shortens the queue |
| `Ancestry.Ancestors` | crates/aep-domain/src/artifact.rs:1696-1709 | the walk ends on cyclic graphs too and returns exactly the artifacts reachable by one or more resolved edges, without the start, each once, in non-decreasing shortest distance |
| `Ancestry.DepthIsDistance` | crates/aep-domain/src/artifact.rs:1696-1709 | the depth at which breadth-first search discovers an artifact is its shortest distance from the start |
| `GraphBuild.ArtifactErrorsAreDefects` | crates/aep-domain/src/artifact.rs:1715-1764 | the reports on one artifact are exactly its defects: a model digest on a kind without a model and, by position, each dangling and each self-referring edge |
| `GraphBuild.ArtifactGraph.Insert` | crates/aep-domain/src/artifact.rs:1614-1616 | inserting replaces the record held under the identifier and touches no other |
| `GraphBuild.ArtifactGraph.ErrorsOf` | crates/aep-domain/src/artifact.rs:1715-1764 | the loop over one artifact reports exactly the specified list |
| `GraphBuild.ArtifactGraph.ValidateArtifacts` | crates/aep-domain/src/artifact.rs:1715-1764 | no report if and only if every artifact is clean; every defect is reported and every report is a defect |
| `GraphBuild.ArtifactGraph.FindCycles` | crates/aep-domain/src/artifact.rs:1766-1785 | one report for exactly the relation kinds that cycle, each naming a closed walk; none leaves an order for every relation kind |
| `GraphBuild.ArtifactGraph.ValidateEdges` | crates/aep-domain/src/artifact.rs:1712-1788 | accepts exactly the graphs in which every artifact is clean and every relation kind is acyclic; what it reports is exactly every defect and, for each relation kind that cycles, closed walks |
| `GraphBuild.DistinctKeepsAll` | crates/aep-domain/src/artifact.rs:1591-1612 | with distinct identifiers every declaration is held as written and nothing is replaced |
| `GraphBuild.ArtifactGraph.Build` | crates/aep-domain/src/artifact.rs:1591-1612 | succeeds exactly when identifiers are distinct and the filed graph is sound; the result is that graph, with a topological order for each relation kind; otherwise what is reported is exactly each identifier declared more than once, each defect and the cycles |
| `GraphBuild.AcceptedExactly` | crates/aep-domain/src/artifact.rs:1591-1788 | the declarations that make a graph, spelled out: identifiers distinct, every digest on an executable system specification, every edge to another declared artifact, and no relation kind with a closed walk |
| `GraphBuild.DigestKindIsWritten` | crates/aep-domain/src/artifact.rs:594-596 | the one kind that may carry a model digest is the one written `executable-system-specification` |
| `Facts.Tally` | crates/aep-domain/src/artifact.rs:1928-1936 | the counting loops give, for every name, the number of artifacts that are a kind of that name, of those the approved ones, and for every status its exact count |
| `Facts.TallyLineage` | crates/aep-domain/src/artifact.rs:1929-1935 | one artifact bumps each name of its lineage once, its status under each name, and the approval counts exactly when it is approved |
| `Facts.EmitCounts` | crates/aep-domain/src/artifact.rs:1938-1954 | the first emitting loop binds exactly the total, existence, count and approval paths of the counted names |
| `Facts.EmitStatuses` | crates/aep-domain/src/artifact.rs:1956-1962 | the second emitting loop overwrites exactly the paths of the statuses counted and leaves the rest |
| `Facts.FactsOf` | crates/aep-domain/src/artifact.rs:1922-1965 | the store returned binds exactly the paths the projection names, to exactly those values, stated over the artifacts themselves |
| `Facts.StatusCountsSumToCount` | crates/aep-domain/src/artifact.rs:1922-1965 | for every kind name, the exact-status counts add up to the count |
| `Facts.ApprovedCountHolds` | crates/aep-domain/src/artifact.rs:1944-1962 | `approved.count` is claimed twice; it holds the number of approved artifacts exactly when none is in status `approved` or all approved ones are |
| `Facts.ApprovedCountFalls` | crates/aep-domain/src/artifact.rs:1950-1962 | one approved and one accepted artifact of a kind: two are approved and the path says one |
| `Facts.CountIsIsA` | crates/aep-domain/src/artifact.rs:1922-1954 | counting by name equals counting by `is_a` for every kind `parse` can return, if and only if no artifact holds a custom kind spelled like a named one |
| `Facts.HomonymIsMiscounted` | crates/aep-domain/src/artifact.rs:1922-1954 | every artifact with such a homonym kind does miscount some kind |
| `Entities.RenderIsInjective` | crates/aep-domain/src/entity.rs:346-443 | two locators written alike are the same locator, so the index by text is an index by address |
| `Decimal.PrintedIsParsed` | crates/aep-backend-memory/src/store.rs:71-86 | a number padded to any width is read back as itself, for every u64 |
| `Audit.Validate` | crates/aep-domain/src/audit.rs:720-815 | each of the four defects is reported exactly when the record has it, and none exactly when the record is consistent |
| `Stores.Store.Tick` | crates/aep-backend-memory/src/store.rs:65-68 | the counter grows by one and every generated identifier is minted from the new value |
| `Stores.Store.NextEntityId` | crates/aep-backend-memory/src/store.rs:89-93 | ticks the counter and spells the new value, entity form |
| `Stores.Store.NextRelationId` | crates/aep-backend-memory/src/store.rs:96-100 | ticks the counter and spells the new value, relation form |
| `Stores.Store.NextAuditId` | crates/aep-backend-memory/src/store.rs:103-106 | ticks the counter and spells the new value, audit form |
| `Stores.Store.NextEventId` | crates/aep-backend-memory/src/store.rs:109-112 | ticks the counter and spells the new value, event form |
| `Stores.Store.InsertEntity` | crates/aep-backend-memory/src/store.rs:115-121 | an inserted entity is stored under its id and its locator in one step |
| `Stores.Store.InsertRelation` | crates/aep-backend-memory/src/store.rs:149-151 | stores a relation under its id and touches nothing else |
| `Stores.Store.TakeRelation` | crates/aep-backend-memory/src/store.rs:154-156 | removes exactly the named relation and says whether it was there |
| `Stores.Store.RecordRevision` | crates/aep-backend-memory/src/store.rs:164-166 | appends to that entity's history only |
| `Stores.Store.RecordAudit` | crates/aep-backend-memory/src/store.rs:174-176 | appends to the audit trail only |
| `Stores.Store.RecordEvent` | crates/aep-backend-memory/src/store.rs:184-186 | appends to the events only |
| `Stores.Store.Remember` | crates/aep-backend-memory/src/store.rs:199-201 | remembers the answer under its key and changes nothing else |
| `Backend.Mutate` | crates/aep-backend-memory/src/command.rs:460-495 | refuses without a change when the target is missing or the asserted revision differs; otherwise applies the change, advances the revision and records history |
| `Backend.RecordHistory` | crates/aep-backend-memory/src/command.rs:498-517 | the history entry of a revision names that revision, the command and who made it |
| `Backend.Emit` | crates/aep-backend-memory/src/command.rs:520-543 | one event under a fresh id, about the revision given |
| `Backend.Relate` | crates/aep-backend-memory/src/command.rs:183-191 | one relation under a fresh id |
| `Backend.CreateEntity` | crates/aep-backend-memory/src/command.rs:114-148 | the creation arm, in place, is its step on values: locator conflict first, then id, insertion, history, event |
| `Backend.UpdateEntity` | crates/aep-backend-memory/src/command.rs:150-178 | the patch arm, in place, is its step on values: the type's mutability before anything else |
| `Backend.CreateRelation` | crates/aep-backend-memory/src/command.rs:180-193 | both endpoints are required before an id is drawn |
| `Backend.RemoveRelation` | crates/aep-backend-memory/src/command.rs:195-202 | removing an absent relation is a conflict |
| `Backend.ArchiveEntity` | crates/aep-backend-memory/src/command.rs:204-220 | archives and sets the status, in one revision |
| `Backend.SupersedeEntity` | crates/aep-backend-memory/src/command.rs:222-245 | the successor is required before the target is changed and linked |
| `Backend.SubmitDesignReview` | crates/aep-backend-memory/src/command.rs:247-271 | the design must be at the very revision named |
| `Backend.ApproveDesign` | crates/aep-backend-memory/src/command.rs:273-300 | the review must exist and the design be at the revision named |
| `Backend.AcceptAdr` | crates/aep-backend-memory/src/command.rs:302-338 | the decision record is changed before the superseded entity is looked for, as coded |
| `Backend.ApplyArm` | crates/aep-backend-memory/src/command.rs:113-347 | each command goes to its own arm, in place as on values |
| `Backend.RecordRejection` | crates/aep-backend-memory/src/command.rs:546-577 | a refusal appends one rejection record and advances the counter by one |
| `Backend.ApplyValidInPlace` | crates/aep-backend-memory/src/command.rs:105-396 | the arm, then the acceptance record, then the result with the last event, the audit id and the token |
| `Backend.Execute` | crates/aep-backend-memory/src/command.rs:54-99 | the whole in-place step on a store equals the step on its value, answer and state, for every command and store |
| `BackendAcceptance.AcceptedExactly` | crates/aep-backend-memory/src/command.rs:54-347 | in every reachable store, a command is accepted if and only if it is a replay, or its key is new and it asks for what the store holds: stated per command, over the entities, with the kinds and revisions named |
| `BackendAcceptance.AnsweredExactly` | crates/aep-backend-memory/src/command.rs:76-347 | otherwise the error is the first thing in its way, in the order in which each arm looks |
| `BackendAcceptance.FreeExactly` | crates/aep-backend-memory/src/store.rs:115-146 | a locator is free by the index exactly when no entity has it |
| `BackendAcceptance.TargetIsAsked` | crates/aep-domain/src/command.rs:387-417 | what a command says its target and expected revision are is what it asks the store for |
| `BackendOutcomes.AcceptedLeaves` | crates/aep-backend-memory/src/command.rs:105-396 | what every accepted command that is no replay leaves, part by part: the entity one revision on with exactly the fields the command sets and the status it stands for, or the new entity; the revision record; the relation; the event with its type and payload; the audit record; the memory of the answer; and nothing else |
| `BackendOutcomes.RefusedLeaves` | crates/aep-backend-memory/src/command.rs:546-577 | what the audit trail says of a refused command: the attempt and the very error answered, and no change |
| `BackendOutcomes.ChangedBody` | crates/aep-backend-memory/src/command.rs:580-611 | a body after a change holds what the command sets and, under every other key, what it held |
| `BackendSteps.ApplyKeeps` | crates/aep-backend-memory/src/command.rs:54-396 | every command, accepted, refused or replayed, keeps the reachable-store invariant and only grows entities, histories, trail and memory of answers; origins never change |
| `BackendInvariant.ResolvesExactly` | crates/aep-backend-memory/src/store.rs:115-146 | under the invariant, a locator resolves to an entity exactly when that entity has that locator: the index is a bijection |
| `BackendRuns.EveryReachableStateIsSound` | crates/aep-backend-memory/src/command.rs:54-396 | at every point of every run: histories are revisions 1 to the current one in order, locators index entities one to one, relation ends exist, ids are distinct and within the counter, records are consistent |
| `BackendRuns.NothingIsLost` | crates/aep-backend-memory/src/command.rs:54-396 | from any point of a run to any later one, entities stay with locator, type, creator and creation time, and histories, audit, events and answers are only extended |
| `BackendIdentities.ApplyIssues` | crates/aep-backend-memory/src/store.rs:64-112 | every command, whatever comes of it, gives what it adds numbers the counter passed on the way, each its own across all four kinds |
| `BackendIdentities.IssuedOnce` | crates/aep-backend-memory/src/store.rs:64-112 | over a run, no generated identifier is issued twice, removed relations included, and no two of any kind share a value of the counter |
| `BackendSteps.RefusalFrame` | crates/aep-backend-memory/src/command.rs:54-99 | a refusal leaves everything but one audit record and one tick of the counter as it was, if and only if the command does not accept a decision record while naming a missing superseded entity after its own checks pass |
| `BackendSteps.WhatStrandingLeaves` | crates/aep-backend-memory/src/command.rs:302-314 | what that one case leaves behind: the record accepted at its next revision with a history entry, beside the rejection, and no relation, event or change record |
| `BackendSteps.RefusalState` | crates/aep-backend-memory/src/command.rs:54-99 | the exact state after any refusal |
| `BackendRuns.ReplaysDoNotMatter` | crates/aep-backend-memory/src/command.rs:60-67 | deleting every replay from any sequence of commands leaves the final store identical |
| `BackendRuns.RememberedWasAccepted` | crates/aep-backend-memory/src/command.rs:83-92 | whatever is remembered under a key is the answer of one accepted command of the run with that key |
| `BackendRuns.AcceptanceStaysRemembered` | crates/aep-backend-memory/src/command.rs:83-92 | an accepted command stays remembered with its own answer for the rest of the run |
| `BackendRuns.ReplayAnswersTheSame` | crates/aep-backend-memory/src/command.rs:60-67 | each replay returns the first result with only the outcome changed, and leaves the store as it was |
| `BackendRuns.KeyIsNotReused` | crates/aep-backend-memory/src/command.rs:68-74 | a key an accepted command used is refused to any other command for ever, naming the original |
| `BackendRuns.AcceptedAtMostOnce` | crates/aep-backend-memory/src/command.rs:54-99 | a key is accepted at most once in a run |
| `BackendRuns.RefusedKeyMayBeRetried` | crates/aep-backend-memory/src/command.rs:54-99 | after refusals only, a command under the same key is judged on its merits: accepted exactly when valid and its arm succeeds, and never refused for its key |
| `BackendRuns.TokenNamesItsPoint` | crates/aep-backend-memory/src/store.rs:71-86 | the token of an accepted command is reached in every later state of the run and in no earlier one, while the counter fits a u64 |
| `BackendRuns.TokenReadsBack` | crates/aep-backend-memory/src/store.rs:71-86 | a token made from a counter is reached exactly by the counters at or beyond it |
| `BackendRuns.OwnWritesAreRead` | crates/aep-backend-memory/src/query.rs:266-274 | a read that demands the token of an accepted command is refused with a timeout at every point of the run before that command was applied, and is never refused from then on |
| `BackendTrail.TrailExplainsExactly` | crates/aep-backend-memory/src/command.rs:349-382 | an entity's accepted change records, in audit order, match its history record by record if and only if no refusal of the run stranded it |
| `BackendTrail.ChainIsUnbroken` | crates/aep-backend-memory/src/command.rs:349-401 | without stranding they are the chain none to 1, 1 to 2, up to the current revision |
| `BackendTrail.EveryRecordIsConsistent` | crates/aep-domain/src/audit.rs:720-815 | in every run, each audit record written passes the record's own validation |
| `BackendTrail.RefusedYetAccepted` | crates/aep-backend-memory/src/command.rs:302-314 | a run of two commands whose refusal leaves an accepted record that no change record explains, against the boundary's promise (crates/aep-contract/src/command.rs:281-282) |
| `BackendEvents.EveryEventIsGrounded` | crates/aep-backend-memory/src/command.rs:520-543 | every event of a run tells of a revision its subject went through, made by the command it names |
| `BackendEvents.ReportedEvent` | crates/aep-backend-memory/src/command.rs:388-392 | the event an acceptance reports is its own exactly for the commands that emit; the others report the store's last event, whoever emitted it, or none |
| `BackendEvents.ArchivingReportsTheCreation` | crates/aep-backend-memory/src/command.rs:388-392 | a run in which archiving reports the event of the creation before it |
| `BackendEvents.MutationTouchesWhatItNames` | crates/aep-backend-memory/src/command.rs:460-611 | a change sets the fields it names, status included, and leaves every other field, every other entity and the archived flag as they were |
| `BackendEffects.RelationsChangeAsNamed` | crates/aep-backend-memory/src/command.rs:180-345 | an accepted command adds the one relation it names under a fresh id, removes the one it names, or touches none |
| `BackendEffects.NoUpdateIsLost` | crates/aep-backend-memory/src/command.rs:443-495 | of all commands of a run that assert one revision of one entity, at most one is accepted |
| `Seed.TokenInPlace` | crates/aep-backend-memory/src/seed.rs:218-234 | the character loop and the trimming loop build the token the specification names |
| `Seed.CollapseInPlace` | crates/aep-backend-memory/src/seed.rs:218-227 | the character loop keeps alphanumerics and one hyphen for each run of anything else between them |
| `Seed.IssueInPlace` | crates/aep-backend-memory/src/seed.rs:180-212 | an unusable derived name is a conflict before any command runs; otherwise the command is applied |
| `Seed.TokenIsLoose` | crates/aep-backend-memory/src/seed.rs:218-234 | the derived token is usable as a command identifier for every artifact name up to 200 characters |
| `Seed.CreateEntity` | crates/aep-backend-memory/src/seed.rs:122-155 | an artifact is created by one command under its derived name, or refused as that command is |
| `Seed.IssueLink` | crates/aep-backend-memory/src/seed.rs:88-113 | an edge to an artifact the manifest does not declare is a conflict; otherwise one relation command runs under the derived name |
| `Seed.SeedEntry` | crates/aep-backend-memory/src/seed.rs:88-113 | the edges of one artifact are issued in order, stopping at the first refusal |
| `Seed.SeedLinks` | crates/aep-backend-memory/src/seed.rs:82-118 | the second loop issues the edges of the whole manifest in order and reports how many |
| `Seed.Seed` | crates/aep-backend-memory/src/seed.rs:66-119 | seeding a store in place is two passes on its value: every artifact, then every edge, with the report or the first refusal |
| `SeedProofs.SeedingAgainChangesNothing` | crates/aep-backend-memory/src/seed.rs:66-119 | after any further commands whatever, seeding again returns the same report and leaves the store as it is |
| `SeedOutcomes.EntityNameIsUsable` | crates/aep-backend-memory/src/seed.rs:180-212 | the name derived for an artifact is refused only for its length, whatever its identifier |
| `SeedOutcomes.LinkNameIsUsable` | crates/aep-backend-memory/src/seed.rs:99-106 | the name derived for an edge is refused only for its length |
| `SeedOutcomes.CreationOutcome` | crates/aep-backend-memory/src/seed.rs:122-155 | over any manifest that went through so far, one more artifact is refused for an unusable address or a name too long; shares an entity when its name was used; and of the others is refused for its address exactly when an artifact that made an entity of its own has that address |
| `SeedOutcomes.EntitiesGoThroughExactly` | crates/aep-backend-memory/src/seed.rs:66-80 | the first pass goes through exactly when each artifact can be created after those before it, stated over the manifest alone |
| `SeedOutcomes.LinksGoThroughExactly` | crates/aep-backend-memory/src/seed.rs:82-118 | an edge goes through exactly when its target is declared, its name fits, and its ends are different entities or its name was used before |
| `SeedOutcomes.SeedsExactly` | crates/aep-backend-memory/src/seed.rs:66-119 | a fresh store takes exactly the manifests whose artifacts can all be created and whose edges can all be drawn, each after those before it |
| `SeedOutcomes.EachItsOwnExactly` | crates/aep-backend-memory/src/seed.rs:66-119 | without any assumption on the answer: an entity for each artifact and a relation for each edge if and only if derived names and addresses are pairwise distinct and usable and edges lead to other artifacts of the manifest |
| `SeedOutcomes.SharedEntityIsSharedName` | crates/aep-backend-memory/src/seed.rs:122-155 | two artifacts of a seedable manifest end up as one entity exactly when their derived names agree |
| `SeedOutcomes.OneAddressIsOneName` | crates/aep-backend-memory/src/seed.rs:214-251 | within one namespace, artifacts that collide in their address always have one derived name |
| `SeedOutcomes.OneNamespaceNeverRefuses` | crates/aep-backend-memory/src/seed.rs:236-251 | so within one namespace the refusal promised for colliding addresses never happens |
| `SeedOutcomes.CollidersShareSilently` | crates/aep-backend-memory/src/seed.rs:236-251 | seeding `adr:a/b` and `adr:a-b`, which collide in their address, succeeds, reports two entities and holds one |
| `SeedOutcomes.CollidersAreRefused` | crates/aep-backend-memory/src/seed.rs:236-251 | seeding `adr:a-b` and `des:a-b`, which collide in their address, is refused for it as promised |
| `SeedOutcomes.NamesCanCollide` | crates/aep-backend-memory/src/seed.rs:214-234 | seeding `adr:a-b` and `adr:a.b`, at different addresses, reports two entities and holds one |
| `SeedFresh.OneOfEachExactly` | crates/aep-backend-memory/src/seed.rs:66-119 | on a fresh store there are as many entities and relations together as distinct derived names, and one per artifact and one per edge if and only if the names are pairwise distinct |
| `SeedFresh.EntitiesAreAsDeclared` | crates/aep-backend-memory/src/seed.rs:122-177 | with distinct names, each artifact's entity has the locator, type, body, creator and time its entry declares |
| `SeedFresh.LinksAreAsDeclared` | crates/aep-backend-memory/src/seed.rs:88-113 | with distinct names, each edge becomes one new relation of its kind between its artifacts' entities, and no other relation appears |
| `SeedNames.TokenIsRuns` | crates/aep-backend-memory/src/seed.rs:214-234 | a derived name is the identifier's runs of letters and digits with one hyphen between any two, or `artifact` where there is none |
| `SeedNames.AddressExactly` | crates/aep-backend-memory/src/seed.rs:122-137 | organisation, space, the kind's name, and the artifact's name character by character, with a hyphen for each a segment cannot carry |
| `SeedNames.BodyExactly` | crates/aep-backend-memory/src/seed.rs:156-177 | the body holds the status and exactly those of title, summary, owner and version that the manifest states |
| `SeedNames.EnvelopeExactly` | crates/aep-backend-memory/src/seed.rs:179-205 | a seeding command is sent exactly when its name is usable, and every identifier, type and field of its envelope is as said |
| `SeedNames.SeededAsWritten` | crates/aep-backend-memory/src/seed.rs:66-177 | with distinct names, every artifact has an entity at its address, of its type, holding what the manifest states of it and nothing more |
| `SeedNames.ReportExactly` | crates/aep-backend-memory/src/seed.rs:66-119 | what a seeding reports: one for every artifact, one for every declared edge, and an entity for exactly the identifiers of the manifest |
| `SeedNames.UndeclaredIsNamed` | crates/aep-backend-memory/src/seed.rs:88-106 | an edge is refused by the name of its target, the store untouched, exactly when that artifact has no entity |
| `ClaimLines.StripQuoteInPlace` | crates/aep-backend-markdown/src/claim.rs:665-673 | the marker loop takes off what the specification names |
| `ClaimLines.LineBreakInPlace` | crates/aep-backend-markdown/src/claim.rs:733-759 | the tag reader, with its early returns and inner loops, finds exactly the break tags |
| `ClaimLines.SplitSegmentsInPlace` | crates/aep-backend-markdown/src/claim.rs:702-730 | the cursor loop cuts a line at exactly its cell edges and break tags |
| `ClaimLines.ReadLineInPlace` | crates/aep-backend-markdown/src/claim.rs:641-660 | one line is read under the fence flag before it, and leaves the flag for the next |
| `ClaimLines.ReadLinesInPlace` | crates/aep-backend-markdown/src/claim.rs:637-662 | the fence flag carried along the lines excludes exactly the lines the specification excludes |
| `Claims.ReadHeadInPlace` | crates/aep-backend-markdown/src/claim.rs:773-797 | reads the date and separator after a keyword, skipping blanks only |
| `Claims.SkipBlanksInPlace` | crates/aep-backend-markdown/src/claim.rs:776-778 | skips spaces and tabs, all of them and nothing else |
| `Claims.AbsorbInPlace` | crates/aep-backend-markdown/src/claim.rs:590-606 | the loop absorbs exactly the continuation lines, into source and body alike |
| `Claims.AssembleInPlace` | crates/aep-backend-markdown/src/claim.rs:576-612 | the continuation loop gathers exactly the lines that run on, and ends the body where the first segment ends it |
| `Claims.FindTokenInPlace` | crates/aep-backend-markdown/src/claim.rs:829-851 | the last horizon token that parses, over every opening parenthesis |
| `Claims.ScanSegment` | crates/aep-backend-markdown/src/claim.rs:517-563 | the cursor, which jumps over keywords, heads and bodies, finds exactly what every position of the segment contributes, each once and in order |
| `Claims.ScanLine` | crates/aep-backend-markdown/src/claim.rs:508-512 | the segments of one line, left to right, each scanned whole |
| `Claims.ScanLinesInPlace` | crates/aep-backend-markdown/src/claim.rs:501-514 | the scan of a document is what every segment of every line contributes, in order |
| `ClaimCounting.RawOccurrencesInPlace` | crates/aep-backend-markdown/src/claim.rs:376-411 | the counter, with its own fence stripping and its non-overlapping matches, counts exactly the annotation-shaped positions of the kept text |
| `ClaimCounting.KeptInPlace` | crates/aep-backend-markdown/src/claim.rs:380-395 | the text kept is exactly the lines outside what the counter takes for fences |
| `ClaimCounting.ScanInPlace` | crates/aep-backend-markdown/src/claim.rs:501-514 | the records, the rejections and the count reported together are the specified scan |
| `ClaimGrammar.LinesExactly` | crates/aep-backend-markdown/src/claim.rs:637-641 | a line ends at a line feed, with or without a carriage return before it, or at the end of the text |
| `ClaimGrammar.QuoteExactly` | crates/aep-backend-markdown/src/claim.rs:665-673 | what is read of a line is what follows all its whitespace and quote markers, and it is quoted exactly when there is a marker among them |
| `ClaimGrammar.FencedExactly` | crates/aep-backend-markdown/src/claim.rs:637-662 | a line is left out exactly when it is a fence marker or an odd number of them come before it |
| `ClaimGrammar.StopExactly` | crates/aep-backend-markdown/src/claim.rs:676-699 | a body stops at a line that is empty, a heading, a table row, a fence, an annotation of either kind or an item of a list of either kind, and at no other for what it says |
| `ClaimGrammar.TagExactly` | crates/aep-backend-markdown/src/claim.rs:733-759 | a break tag is found exactly where one is written, and all of it: `<br>` in any case, with whitespace and a slash before its end |
| `ClaimGrammar.SegmentsExactly` | crates/aep-backend-markdown/src/claim.rs:702-730 | a line is its segments with cell edges, where it is a table row, and break tags between them, and no segment holds either |
| `ClaimGrammar.HeadExactly` | crates/aep-backend-markdown/src/claim.rs:773-811 | a head is read exactly where blanks, a date and blanks are written, with its separator the em-dash or not |
| `ClaimGrammar.SpanExactly` | crates/aep-backend-markdown/src/claim.rs:763-771 | an annotation that a backtick opens reaches to the next backtick, and any other to the end of its segment |
| `ClaimGrammar.HorizonExactly` | crates/aep-domain/src/time.rs:351-369 | a horizon is read exactly from whitespace, digits, and perhaps whitespace and a `d` in either case, that spell one to 3650 days |
| `ClaimGrammar.TokenExactly` | crates/aep-backend-markdown/src/claim.rs:829-851 | a token is read exactly where `(horizon: …)` is written, the word in any case right after its parenthesis |
| `ClaimGrammar.CollapseIsWords` | crates/aep-backend-markdown/src/claim.rs:855-857 | collapsing whitespace leaves the words with one space between any two |
| `ClaimGrammar.AnnotatesExactly` | crates/aep-backend-markdown/src/claim.rs:396-411 | the counter counts exactly the keywords that whitespace, a date, whitespace and an em-dash follow |
| `ClaimMeaning.ReadLinesExactly` | crates/aep-backend-markdown/src/claim.rs:637-662 | what is read of each line of a document: its number from one, its quoting, whether a body stops at it, its segments |
| `ClaimMeaning.ContinuationGathers` | crates/aep-backend-markdown/src/claim.rs:576-612 | a body takes the pieces of the lines it runs into, fills every one but the last, and ends because it did not fill that one or cannot run into the next |
| `ClaimMeaning.RecordExactly` | crates/aep-backend-markdown/src/claim.rs:615-634 | a record says its body without its last token, that token's days, and is malformed, for 14 days, exactly when there is no token |
| `ClaimMeaning.RecordsExactly` | crates/aep-backend-markdown/src/claim.rs:501-634 | the records of a scan are exactly those some position of the document makes, spelled out from the text without the scanner: keyword, head, existing day not beyond the reference, assembled source, words and days |
| `ClaimMeaning.RejectionsExactly` | crates/aep-backend-markdown/src/claim.rs:501-563 | the refusals are exactly those some position earns: a separator that is no em-dash, a date no day has, or a day beyond the reference, with the line and the text refused |
| `ClaimMeaning.NoRecordIsBeyond` | crates/aep-backend-markdown/src/claim.rs:552-558 | with a reference date, no record of a scan is dated beyond it, by the count of days |
| `ClaimMeaning.RefusedIsBeyond` | crates/aep-backend-markdown/src/claim.rs:552-558 | everything refused as a future observation stands on its line with an em-dash and an existing day beyond the reference |
| `ClaimMeaning.OccurrencesExactly` | crates/aep-backend-markdown/src/claim.rs:376-411 | the raw count is the number of annotations written in the text the counter keeps |
| `ClaimExpiry.HorizonCoversExactly` | crates/aep-backend-markdown/src/claim.rs:207-221 | over the days after an observation, the days left count down to zero on the last day of the horizon, expiring within the warning, and from the next day on the days over count up |
| `ClaimExpiry.NoneOutlivesItsHorizon` | crates/aep-backend-markdown/src/claim.rs:196-221 | no record scanned with a reference date has more days left then than its horizon allows |
| `ClaimAccounting.ReadableIsCounted` | crates/aep-backend-markdown/src/claim.rs:376-411 | every occurrence the scanner reads is one the counter counts, whatever follows it |
| `ClaimAccounting.UnreadExactly` | crates/aep-backend-markdown/src/claim.rs:763-797 | a counted occurrence is one the scanner reads exactly when its head ends within its span and its whitespace is spaces and tabs |
| `ClaimAccounting.ScanAccountsForEveryOccurrence` | crates/aep-backend-markdown/src/claim.rs:376-563 | where the two fence readers agree, raw count = records + impossible dates + future dates + occurrences whose head the scanner cannot read |
| `ClaimAccounting.DivergenceIsExact` | crates/aep-backend-markdown/src/claim.rs:300-302 | there are never more records than occurrences, so the saturating subtraction never saturates and the divergence is exactly what has no record |
| `ClaimFences.MarkersDifferExactly` | crates/aep-backend-markdown/src/claim.rs:376-395 | the counter takes a line for a fence exactly when the scanner does and no whitespace but spaces stands between its quote markers |
| `ClaimFences.PlainFencesAgree` | crates/aep-backend-markdown/src/claim.rs:376-395 | documents whose fence lines are so quoted are read alike by both |
| `ClaimFences.InStepExactly` | crates/aep-backend-markdown/src/claim.rs:376-395 | the two readers are both inside a fence or both outside exactly after an even number of markers only the scanner sees |
| `ClaimFences.FencesAgreeExactly` | crates/aep-backend-markdown/src/claim.rs:376-395 | they exclude the same lines of a document if and only if each such marker stands where the counter is inside a fence and only markers stand where their number so far is odd |
| `ClaimRoundTrip.PrintThenScan` | crates/aep-backend-markdown/src/claim.rs:228-238 | scanning the printed line of a well-formed, clean record gives that one record, counted once, with no rejection, even if its claim holds an earlier horizon token |
| `ClaimRoundTrip.ComesBackExactly` | crates/aep-backend-markdown/src/claim.rs:228-238 | a printed record comes back if and only if its year has four digits, its claim is whitespace-collapsed and holds no keyword and no break tag |
| `ClaimRoundTrip.ScannedIsNormal` | crates/aep-backend-markdown/src/claim.rs:615-634 | every record any scan produces has a collapsed claim, an existing four-digit date and an accepted horizon |
| `ClaimVerbatim.MalformedRescans` | crates/aep-backend-markdown/src/claim.rs:228-238 | a malformed record of any scan, rendered verbatim and scanned again, is that one record, with no rejection; only a line feed that ended its source is gone |
| `ClaimVerbatim.RenderingIsAFixpoint` | crates/aep-backend-markdown/src/claim.rs:228-238 | every scanned record, rendered and scanned again, comes back as it was exactly when its claim is clean, for a well-formed one, and when its source does not end in a line feed, for a malformed one |
| `ClaimVerbatim.RecordIsGathered` | crates/aep-backend-markdown/src/claim.rs:576-634 | every record of any scan comes from an opening line and pieces of the lines after it, none of which holds a keyword or a tag or stops a body, but for an empty last one |
| `ClaimExamples.FencesCanDisagree` | crates/aep-backend-markdown/src/claim.rs:376-395 | a document with a tab between markers: at least one record, no counted occurrence, divergence zero |
| `ClaimExamples.TokenRemovalCanMakeAKeyword` | crates/aep-backend-markdown/src/claim.rs:615-634 | taking the token out can join a claim into the keyword itself, and that record does not come back |
| `ClaimExamples.LeadingTagLeavesAFeed` | crates/aep-backend-markdown/src/claim.rs:576-612 | an annotation over a line that a break tag opens: its malformed record ends in a line feed and does not come back |
| `ClaimExamples.RenderedExactly` | crates/aep-backend-markdown/src/claim.rs:228-238 | how a well-formed record is written, character for character |
| `ClaimWrapping.WrappedScansTheSame` | crates/aep-backend-markdown/src/claim.rs:576-612 | an annotation broken over lines at spaces, even inside its token, scans to the same record as on one line, as long as no later line opens with what stops a body or with a quote marker |
| `Dates.ShownDateIsParsed` | crates/aep-domain/src/time.rs:124-163 | every existing date of a four-digit year is read back from how it is written |
| `Dates.ShownHorizonIsParsed` | crates/aep-domain/src/time.rs:351-369 | every accepted horizon is read back from how it is written |
| `Dates.ParsedDateIsShown` | crates/aep-domain/src/time.rs:124-163 | a text read as a date is how that date is written, so every day has one spelling |
| `Calendar.NumbersCountDays` | crates/aep-domain/src/time.rs:183-195 | the number of the day after is one more, over every existing date, and the first day of 1970 is zero: the era arithmetic counts days |
| `Calendar.AfterIsMoreDays` | crates/aep-domain/src/time.rs:183-264 | one existing date is after another exactly when more days have passed until it, and no two share a number |
| `SyncInPlace.Disk.CreateDirAll` | xtask/src/main.rs:754-756 | makes every missing directory on the way, exactly when no file is in the way |
| `SyncInPlace.NothingToMakeByAFile` | xtask/src/main.rs:754-756 | everything on the way to a file is there and nothing is below it, so a call that a file blocks has no directory to make before it fails |
| `SyncInPlace.Disk.Write` | xtask/src/main.rs:757-757 | writes a file unless a directory stands there |
| `SyncInPlace.WriteOne` | xtask/src/main.rs:728-759 | one turn of the write loop: skips what already agrees, else lays out directories and file, and fails only when something is in the way |
| `SyncInPlace.WriteAll` | xtask/src/main.rs:728-760 | writing what differs, in any order, lays out the expected files, exactly when none stands where a directory must be |
| `SyncInPlace.CommittedFiles` | xtask/src/main.rs:2691-2718 | the worklist ends and finds exactly the owner's files, excluded subtrees unread |
| `SyncInPlace.ReadOwn` | xtask/src/main.rs:2699-2715 | one directory read: its files and its directories, without the excluded |
| `SyncInPlace.RemoveAll` | xtask/src/main.rs:765-776 | removes exactly the orphans |
| `SyncInPlace.PruneEmptyDirectories` | xtask/src/main.rs:2726-2750 | removes exactly the directories below that hold neither a file nor anything excluded, and says whether the directory itself does |
| `SyncInPlace.WriteTree` | xtask/src/main.rs:714-822 | a write goes through exactly when nothing is in the way, and leaves the tree the specification names |
| `SyncInPlace.Check` | xtask/src/main.rs:728-814 | a check reports exactly the files that differ and the owner's files nothing expects, and reports nothing exactly when the tree is up to date |
| `Sync.FilesAreExactlyExpected` | xtask/src/main.rs:714-822 | of its own paths, the files after a write are exactly the expected ones, with the expected contents |
| `Sync.NoDirectoryIsEmpty` | xtask/src/main.rs:2726-2750 | every directory of its own after a write has something below it |
| `Sync.ForeignIsUntouched` | xtask/src/main.rs:714-822 | what is not the owner's stays as it was; all that can appear outside is a directory on the way to what lasts |
| `Sync.ExcludedIsUntouched` | xtask/src/main.rs:706-709 | excluded subtrees are the same before and after |
| `Sync.SyncedIsWellFormed` | xtask/src/main.rs:714-822 | the result is a tree again: whatever is there is in directories all the way up |
| `Sync.CheckPasses` | xtask/src/main.rs:714-822 | a check right after a write passes |
| `Sync.SecondWriteChangesNothing` | xtask/src/main.rs:714-822 | a second write changes nothing, and by `SyncedIsClear` always goes through |
| `Sync.SyncedIsClear` | xtask/src/main.rs:714-822 | after a write nothing is in the way of the same write |
| `Sync.OwnersCommute` | xtask/src/main.rs:706-709 | two owners whose roots nest only through an exclusion leave the same tree in either order |
| `Sync.EitherOrderGoesThrough` | xtask/src/main.rs:714-775 | both orders of two such writes go through if and only if each goes through alone and neither's files stand where the other needs a directory |
| `Sync.OrderCanMatter` | xtask/src/main.rs:728-775 | a stale file of the outer owner blocks the nested one until the outer has been written |
| `Exclusions.IsExcluded` | xtask/src/main.rs:850-854 | the scan answers true exactly when some entry is the path or a directory above it, by text |
| `Exclusions.MatchesIsWithin` | xtask/src/main.rs:850-854 | on written paths that textual test is exactly containment of paths: `ab` is not inside `a` |
| `Exclusions.ExcludesByText` | xtask/src/main.rs:850-854 | for entries written relative to a root, the textual test is what an owner of that root excludes, so the scan and the tree model agree |
| `Leb128.Read` | xtask/src/main.rs:1949-1966 | for every input the loop decides within ten bytes, never reads past the end, and answers the specified number and cursor, or which of the two errors |
| `Leb128.EncodingIsRead` | xtask/src/main.rs:1949-1966 | for every number below 2^64, its encoding between any bytes is read as that number, with the cursor right after it; at most ten bytes |
| `Leb128.SpellingIsRead` | xtask/src/main.rs:1949-1966 | wherever bytes that spell one number stand, they are read to their end and cut to a word when there are at most ten, and refused as too long otherwise |
| `Leb128.TenthByteExactly` | xtask/src/main.rs:1949-1966 | the number spelled is the number read exactly when there are at most ten bytes and a tenth is at most one; larger ones are silently cut, as coded |
| `Leb128.TenthByteIsCut` | xtask/src/main.rs:1949-1966 | ten bytes that spell 2^64 and are read as nothing, without an error |
| `Leb128.RefusedExactly` | xtask/src/main.rs:1949-1966 | the bytes end inside a number exactly when fewer than ten are left and all continue, and it does not fit exactly when ten continue; where the cursor is then |
| `DocumentFences.SplitFencesInPlace` | crates/aep-backend-markdown/src/document.rs:172-185 | the offset loop splits at the first closing fence line, or answers none |
| `DocumentFences.SplitInvertsRenderExactly` | crates/aep-backend-markdown/src/document.rs:99-103 | splitting what was rendered gives block and body back byte for byte, for every body, if and only if the block is empty or newline-terminated and holds no fence line |
| `DocumentFences.SplitExactly` | crates/aep-backend-markdown/src/document.rs:172-185 | a text splits into a block and a body exactly when it is a fence line, lines that are no fence, a fence line, and the body, with either line ending |
| `Documents.PlanningDocument.MoveStatus` | crates/aep-backend-markdown/src/document.rs:115-143 | a move goes through exactly when the governing lifecycle permits it, and a refusal names exactly the permitted targets |
| `Documents.PlanningDocument.AddRelation` | crates/aep-backend-markdown/src/document.rs:151-159 | an edge is added exactly when it was not declared |
| `Documents.PlanningDocument.Bump` | crates/aep-backend-markdown/src/document.rs:162-164 | one more, or the largest u64 again |
| `Documents.PermittedIsLegal` | crates/aep-backend-markdown/src/document.rs:115-143 | a move is permitted exactly when the lifecycle of the nearest registered kind lists it, or the fallback where none is registered, or there is neither |
| `Documents.EveryMoveIsAnEdge` | crates/aep-backend-markdown/src/document.rs:115-143 | over any run, the statuses passed through are edges of the governing lifecycle, one after the other, and the kind stays |
| `Documents.RefusalChangesNothing` | crates/aep-backend-markdown/src/document.rs:115-159 | a refused operation changes nothing, and an accepted one changes something until the revision saturates |
| `Documents.RevisionCountsChanges` | crates/aep-backend-markdown/src/document.rs:162-164 | over any run the revision grows by exactly the number of changes, and stops at the largest u64 |
| `Documents.RelationsOnlyGrow` | crates/aep-backend-markdown/src/document.rs:151-159 | over any run the relations are the first ones and then the added ones, no added one declared before |
| `Capabilities.CoversIsAPartialOrder` | crates/aep-domain/src/capability.rs:83-246 | `covers` is reflexive, transitive and antisymmetric |
| `Capabilities.CoversExactly` | crates/aep-domain/src/capability.rs:83-246 | a capability covers itself; deploying or rolling back anywhere covers that in every environment; nothing else covers anything |
| `Capabilities.WildcardDenies` | crates/aep-domain/src/capability.rs:240-599 | with deploying anywhere denied, every deployment is denied whatever else the policy says, and that entry is no reason to deny anything else; the same for rolling back |
| `Capabilities.CapabilityPolicy.Find` | crates/aep-domain/src/capability.rs:612-614 | an entry that covers is found exactly when there is one |
| `Capabilities.CapabilityPolicy.Decide` | crates/aep-domain/src/capability.rs:588-599 | deny, then approval, then allow, then nothing, by cover |
| `Capabilities.CapabilityPolicy.MatchingEntry` | crates/aep-domain/src/capability.rs:602-606 | an entry is named exactly when something decided, it covers the capability, and it comes from the set that decided |
| `Capabilities.CapabilityPolicy.Grant` | crates/aep-domain/src/capability.rs:619-624 | adds all three of another policy's sets |
| `Capabilities.CapabilityPolicy.Restrict` | crates/aep-domain/src/capability.rs:630-634 | adds approvals and denials, never grants |
| `Capabilities.DecisionsOnlyRise` | crates/aep-domain/src/capability.rs:619-634 | under any interleaving of grants and restrictions the decision on a capability only rises in precedence, and denied stays denied |
| `Capabilities.RestrictingAllowsNothing` | crates/aep-domain/src/capability.rs:630-634 | a restriction never makes a capability allowed, nor ungranted, that was not |
| `Capabilities.RestrictingCanOpen` | crates/aep-domain/src/capability.rs:630-634 | exactly when a restriction turns nothing into an approval |
| `Capabilities.RestrictionsCommute` | crates/aep-domain/src/capability.rs:630-634 | any two lists of restrictions with the same members, in whatever order and however often, leave the same policy |
| `Capabilities.CoveredIsNoFreer` | crates/aep-domain/src/capability.rs:83-606 | what a capability covers stands at least as high in the precedence as the capability itself |
| `CapabilityText.EnvironmentReadsBackExactly` | crates/aep-domain/src/capability.rs:51-80 | an environment is read back from how it is written exactly when it is in normal form |
| `CapabilityText.DisplayedReadsBackExactly` | crates/aep-domain/src/capability.rs:205-324 | a displayed capability is read back as itself exactly when it carries no environment or one in normal form |
| `CapabilityText.EnvironmentExactly` | crates/aep-domain/src/capability.rs:51-68 | exactly which texts are read as which environment, aliases included |
| `CapabilityText.ParsedExactly` | crates/aep-domain/src/capability.rs:260-314 | exactly which texts are read as which capability: its name or alias, with an environment only where one is taken, and any where none is written |

## Left out

- Iteration in identifier order: the source walks ordered maps and directory listings; the model takes the entries in an arbitrary order, so what is proved holds for every order, and which of several cycles, covering entries or reports comes first is not modelled.
- Capabilities.CapabilityPolicy.MatchingEntry: which of several covering entries is named is not modelled, only that it is one of the deciding set.
- GraphBuild.ArtifactGraph.ValidateEdges: the order of reports, their messages, hints and locations as prose are not modelled; the variants and positions are.
- Facts.FactsOf: paths are modelled as their segments; kind names that the path constructor refuses are not modelled.
- BackendRuns.TokenNamesItsPoint: the counter is unbounded in the model, and the theorem assumes that it stays within a u64, as overflow of the counter and of entity revisions, to which the source adds one plainly, is not modelled.
- Async execution and the lock around the store: a command is one atomic step.
- Backend.ApplyArm: the audit record's `execution_id`, `task` and `request_id` are carried, but the text of refusal reasons is reduced to its variant and the entity or relation it names.
- The fallback arm for commands added to the vocabulary later, and its `Unsupported` error: none of the commands there are reaches it.
- The query service beyond the consistency check: filters and projections read one field at a time, and the pagination cursor is never read back.
- Sync: only path conflicts make a write fail; permissions, partial writes, links and names or contents that are not Unicode are not modelled, and the tree a failed write leaves behind is not described.
- Sync.OwnersCommute: is about the trees two successful writes leave; when they go through in either order is `EitherOrderGoesThrough`.
- The stale-digest message of a check, the counts it prints, `wasm_exports` and `splice_generated`: reporting and file plumbing around what is modelled.
- Leb128.Read: `usize` is 64 bits wide.
- Dates: `ObservedAt` and the conversions to and from timestamps; years start at 0, those read from text are of four digits because that is all the scanner reads, and the year, which is an `i32`, is unbounded.
- Horizon growth between two scans: a pairing of lists by claim and date with no state of its own.
- Claims: text is a sequence of characters; the source works on bytes of the same text, so positions are counted in characters here.
- Planning documents: the frontmatter's YAML is taken as the text between the fences, and its other fields are not modelled.
- `validate_lifecycles`, `governing_models`, `satisfies`, `mutates_production`, `production_mutations`: one filter or one table each.
- JSON Schema, serde, display prose, the command line, process spawning, the conformance suite and the website.
