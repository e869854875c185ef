/** The kind vocabulary, its name-derived hierarchy, and the lifecycles registered against it
    (crates/aep-domain/src/artifact.rs). */
module ArtifactKinds {
  import opened Wrappers

  datatype ArtifactKind =
    | Vision | ProductRequirements | Initiative | Epic | Story | Task
    | Specification | AcceptanceCriteria
    | Design | FeatureDesign | ComponentDesign | ArchitectureDesign | ApiDesign | DataDesign
    | ArchitectureDecisionRecord | TestPlan | EvaluationPlan | VerificationReport
    | ReviewResult | ApprovalRecord | ReleasePlan | MigrationPlan | Runbook
    | IncidentReport | Postmortem | ExecutableSystemSpecification
    | Other(name: string)
  {
    function AsStr(): string {
      match this
      case Vision => "vision"
      case ProductRequirements => "product-requirements"
      case Initiative => "initiative"
      case Epic => "epic"
      case Story => "story"
      case Task => "task"
      case Specification => "specification"
      case AcceptanceCriteria => "acceptance-criteria"
      case Design => "design"
      case FeatureDesign => "feature-design"
      case ComponentDesign => "component-design"
      case ArchitectureDesign => "architecture-design"
      case ApiDesign => "api-design"
      case DataDesign => "data-design"
      case ArchitectureDecisionRecord => "architecture-decision-record"
      case TestPlan => "test-plan"
      case EvaluationPlan => "evaluation-plan"
      case VerificationReport => "verification-report"
      case ReviewResult => "review-result"
      case ApprovalRecord => "approval-record"
      case ReleasePlan => "release-plan"
      case MigrationPlan => "migration-plan"
      case Runbook => "runbook"
      case IncidentReport => "incident-report"
      case Postmortem => "postmortem"
      case ExecutableSystemSpecification => "executable-system-specification"
      case Other(name) => name
    }

    /** The kind this one specialises: the five designs by name, a custom kind by its suffix. */
    function Parent(): Option<ArtifactKind> {
      match this
      case FeatureDesign | ComponentDesign | ArchitectureDesign | ApiDesign | DataDesign => Some(Design)
      case Other(name) => SuffixParent(name)
      case _ => None
    }

    predicate CarriesModelDigest() { this == ExecutableSystemSpecification }
  }

  const NAMED: seq<ArtifactKind> := [
    Vision, ProductRequirements, Initiative, Epic, Story, Task,
    Specification, AcceptanceCriteria,
    Design, FeatureDesign, ComponentDesign, ArchitectureDesign, ApiDesign, DataDesign,
    ArchitectureDecisionRecord, TestPlan, EvaluationPlan, VerificationReport,
    ReviewResult, ApprovalRecord, ReleasePlan, MigrationPlan, Runbook,
    IncidentReport, Postmortem, ExecutableSystemSpecification]

  /** What follows the last hyphen, when there is one. */
  function AfterLastHyphen(name: string): (suffix: Option<string>)
    ensures suffix.None? <==> '-' !in name
    ensures suffix.Some? ==> '-' !in suffix.value && |suffix.value| < |name|
    ensures suffix.Some? ==> name[|name| - |suffix.value|..] == suffix.value
    ensures suffix.Some? ==> name[|name| - |suffix.value| - 1] == '-'
  {
    if name == [] then None
    else if name[|name| - 1] == '-' then Some([])
    else
      match AfterLastHyphen(name[..|name| - 1])
      case None => None
      case Some(s) => Some(s + [name[|name| - 1]])
  }

  function FindNamed(kinds: seq<ArtifactKind>, name: string): (found: Option<ArtifactKind>)
    ensures found.Some? ==> found.value in kinds && found.value.AsStr() == name
    ensures found.None? ==> forall k :: k in kinds ==> k.AsStr() != name
  {
    if kinds == [] then None
    else if kinds[0].AsStr() == name then Some(kinds[0])
    else FindNamed(kinds[1..], name)
  }

  function SuffixParent(name: string): Option<ArtifactKind> {
    match AfterLastHyphen(name)
    case None => None
    case Some(suffix) =>
      if suffix == "" then None
      else
        match FindNamed(NAMED, suffix)
        case Some(kind) => Some(kind)
        case None => Some(Other(suffix))
  }

  /** Only a hyphenated name has a parent. */
  lemma ParentedIsHyphenated(kind: ArtifactKind)
    ensures kind.Parent().Some? ==> '-' in kind.AsStr()
  {
    match kind
    case FeatureDesign => assert kind.AsStr()[7] == '-';
    case ComponentDesign => assert kind.AsStr()[9] == '-';
    case ArchitectureDesign => assert kind.AsStr()[12] == '-';
    case ApiDesign => assert kind.AsStr()[3] == '-';
    case DataDesign => assert kind.AsStr()[4] == '-';
    case _ =>
  }

  /** A parent's name carries no hyphen, so a parent never has a parent: one step, then the top. */
  lemma ParentIsTop(kind: ArtifactKind)
    ensures kind.Parent().Some? ==> '-' in kind.AsStr()
    ensures kind.Parent().Some? ==> '-' !in kind.Parent().value.AsStr()
    ensures kind.Parent().Some? ==> kind.Parent().value.Parent() == None
  {
    hide FindNamed, ArtifactKind.AsStr;
    ParentedIsHyphenated(kind);
    if kind.Parent().Some? {
      var parent := kind.Parent().value;
      DesignIsWritten();
      if parent.Other? { OtherIsItsName(parent); }
      assert '-' !in parent.AsStr();
      ParentedIsHyphenated(parent);
    }
  }

  /** This kind and every kind it specialises, nearest first. */
  function Lineage(kind: ArtifactKind): (kinds: seq<ArtifactKind>)
    decreases if kind.Parent().Some? then 1 else 0
  {
    match kind.Parent()
    case None => [kind]
    case Some(parent) => ParentIsTop(kind); [kind] + Lineage(parent)
  }

  method LineageOf(kind: ArtifactKind) returns (lineage: seq<ArtifactKind>)
    ensures lineage == Lineage(kind)
  {
    lineage := [kind];
    var current := kind.Parent();
    ParentIsTop(kind);
    while current.Some?
      invariant current.Some? ==> Lineage(kind) == lineage + Lineage(current.value)
      invariant current.None? ==> Lineage(kind) == lineage
      invariant current.Some? ==> current.value.Parent() == None
      decreases if current.None? then 0 else 1
    {
      var next := current.value;
      current := next.Parent();
      lineage := lineage + [next];
    }
  }

  method IsA(kind: ArtifactKind, other: ArtifactKind) returns (answer: bool)
    ensures answer <==> other in Lineage(kind)
  {
    hide ArtifactKind.AsStr, ArtifactKind.Parent, Lineage;
    var current := Some(kind);
    ParentIsTop(kind);
    while current.Some?
      invariant current == Some(kind) || current.None? || current.value.Parent() == None
      invariant other in Lineage(kind) <==> current.Some? && other in Lineage(current.value)
      decreases if current.None? then 0 else if current.value.Parent().None? then 1 else 2
    {
      LineageShape(current.value);
      if current.value == other {
        return true;
      }
      ParentIsTop(current.value);
      current := current.value.Parent();
    }
    return false;
  }

  /** The kind reached by climbing `steps` parents, when the climb does not fall off the top. */
  ghost function Climb(kind: ArtifactKind, steps: nat): Option<ArtifactKind>
    decreases steps
  {
    if steps == 0 then Some(kind)
    else
      match kind.Parent()
      case None => None
      case Some(parent) => Climb(parent, steps - 1)
  }

  lemma LineageShape(kind: ArtifactKind)
    ensures kind.Parent().None? ==> Lineage(kind) == [kind]
    ensures kind.Parent().Some? ==> Lineage(kind) == [kind, kind.Parent().value]
    ensures kind.Parent().Some? ==> Lineage(kind.Parent().value) == [kind.Parent().value]
  {
    ParentIsTop(kind);
  }

  /** `lineage` lists exactly what climbing reaches, position by position. */
  lemma {:induction false} LineageIsClimb(kind: ArtifactKind, steps: nat)
    ensures Climb(kind, steps) == if steps < |Lineage(kind)| then Some(Lineage(kind)[steps]) else None
    decreases steps
  {
    LineageShape(kind);
    if kind.Parent().Some? && steps > 0 {
      LineageIsClimb(kind.Parent().value, steps - 1);
    }
  }

  /** The two names a lineage can hold differ, so no artifact is counted twice under one name. */
  lemma LineageNamesAreDistinct(kind: ArtifactKind)
    ensures forall i, j :: 0 <= i < j < |Lineage(kind)| ==> Lineage(kind)[i].AsStr() != Lineage(kind)[j].AsStr()
  {
    LineageShape(kind);
    ParentIsTop(kind);
  }

  /** `is_a` is the reflexive transitive closure of `parent`. */
  lemma {:induction false} IsAIsParentClosure(a: ArtifactKind, b: ArtifactKind)
    ensures b in Lineage(a) <==> exists n: nat :: Climb(a, n) == Some(b)
  {
    hide ArtifactKind.AsStr, ArtifactKind.Parent, Lineage, Climb;
    forall i: nat ensures Climb(a, i) == if i < |Lineage(a)| then Some(Lineage(a)[i]) else None {
      LineageIsClimb(a, i);
    }
    if b in Lineage(a) {
      var i: nat :| i < |Lineage(a)| && Lineage(a)[i] == b;
      assert Climb(a, i) == Some(b);
    }
    if exists n: nat :: Climb(a, n) == Some(b) {
      var n: nat :| Climb(a, n) == Some(b);
      assert Lineage(a)[n] == b;
    }
  }

  /** `is_a` is reflexive, transitive and antisymmetric. */
  lemma {:induction false} IsAIsAPartialOrder(a: ArtifactKind, b: ArtifactKind, c: ArtifactKind)
    ensures a in Lineage(a)
    ensures b in Lineage(a) && c in Lineage(b) ==> c in Lineage(a)
    ensures b in Lineage(a) && a in Lineage(b) ==> a == b
  {
    hide ArtifactKind.AsStr, ArtifactKind.Parent, Lineage;
    LineageShape(a);
    LineageShape(b);
    ParentIsTop(a);
  }

  // ------------------------------------------------------------------ the hierarchy is in the names

  /** A custom kind never carries a named kind's name. `parse` returns only such kinds, though not every
      one: it takes an alias for the kind it stands for, and refuses names that are not kebab-case. */
  predicate Canonical(kind: ArtifactKind) {
    kind.Other? ==> FindNamed(NAMED, kind.name).None?
  }

  lemma EveryKindIsNamed(kind: ArtifactKind)
    requires !kind.Other?
    ensures kind in NAMED
  {
    match kind
    case Vision => assert NAMED[0] == kind;
    case ProductRequirements => assert NAMED[1] == kind;
    case Initiative => assert NAMED[2] == kind;
    case Epic => assert NAMED[3] == kind;
    case Story => assert NAMED[4] == kind;
    case Task => assert NAMED[5] == kind;
    case Specification => assert NAMED[6] == kind;
    case AcceptanceCriteria => assert NAMED[7] == kind;
    case Design => assert NAMED[8] == kind;
    case FeatureDesign => assert NAMED[9] == kind;
    case ComponentDesign => assert NAMED[10] == kind;
    case ArchitectureDesign => assert NAMED[11] == kind;
    case ApiDesign => assert NAMED[12] == kind;
    case DataDesign => assert NAMED[13] == kind;
    case ArchitectureDecisionRecord => assert NAMED[14] == kind;
    case TestPlan => assert NAMED[15] == kind;
    case EvaluationPlan => assert NAMED[16] == kind;
    case VerificationReport => assert NAMED[17] == kind;
    case ReviewResult => assert NAMED[18] == kind;
    case ApprovalRecord => assert NAMED[19] == kind;
    case ReleasePlan => assert NAMED[20] == kind;
    case MigrationPlan => assert NAMED[21] == kind;
    case Runbook => assert NAMED[22] == kind;
    case IncidentReport => assert NAMED[23] == kind;
    case Postmortem => assert NAMED[24] == kind;
    case ExecutableSystemSpecification => assert NAMED[25] == kind;
  }

  /** How long a kind's name is, and its second letter: enough to tell the named kinds apart. */
  ghost function Mark(kind: ArtifactKind): (nat, char) {
    match kind
    case Vision => (6, 'i')
    case ProductRequirements => (20, 'r')
    case Initiative => (10, 'n')
    case Epic => (4, 'p')
    case Story => (5, 't')
    case Task => (4, 'a')
    case Specification => (13, 'p')
    case AcceptanceCriteria => (19, 'c')
    case Design => (6, 'e')
    case FeatureDesign => (14, 'e')
    case ComponentDesign => (16, 'o')
    case ArchitectureDesign => (19, 'r')
    case ApiDesign => (10, 'p')
    case DataDesign => (11, 'a')
    case ArchitectureDecisionRecord => (28, 'r')
    case TestPlan => (9, 'e')
    case EvaluationPlan => (15, 'v')
    case VerificationReport => (19, 'e')
    case ReviewResult => (13, 'e')
    case ApprovalRecord => (15, 'p')
    case ReleasePlan => (12, 'e')
    case MigrationPlan => (14, 'i')
    case Runbook => (7, 'u')
    case IncidentReport => (15, 'n')
    case Postmortem => (10, 'o')
    case ExecutableSystemSpecification => (31, 'x')
    case Other(_) => (0, ' ')
  }

  /** The kinds of planning and design, to take the named kinds in two halves. */
  ghost predicate EarlyKind(kind: ArtifactKind) {
    || kind.Vision? || kind.ProductRequirements? || kind.Initiative? || kind.Epic? || kind.Story? || kind.Task? || kind.Specification?
    || kind.AcceptanceCriteria? || kind.Design? || kind.FeatureDesign? || kind.ComponentDesign? || kind.ArchitectureDesign?
    || kind.ApiDesign?
  }

  lemma EarlyMark(kind: ArtifactKind)
    requires EarlyKind(kind)
    ensures |kind.AsStr()| == Mark(kind).0 >= 2 && kind.AsStr()[1] == Mark(kind).1
  {
  }

  lemma LateMark(kind: ArtifactKind)
    requires !EarlyKind(kind) && !kind.Other?
    ensures |kind.AsStr()| == Mark(kind).0 >= 2 && kind.AsStr()[1] == Mark(kind).1
  {
  }

  lemma MarkIsWritten(kind: ArtifactKind)
    requires !kind.Other?
    ensures |kind.AsStr()| == Mark(kind).0 >= 2 && kind.AsStr()[1] == Mark(kind).1
  {
    hide ArtifactKind.AsStr, Mark, EarlyKind;
    if EarlyKind(kind) { EarlyMark(kind); } else { LateMark(kind); }
  }

  lemma EarlyMarksDiffer(a: ArtifactKind, b: ArtifactKind)
    requires EarlyKind(a) && !b.Other? && Mark(a) == Mark(b)
    ensures a == b
  {
  }

  lemma LateMarksDiffer(a: ArtifactKind, b: ArtifactKind)
    requires !EarlyKind(a) && !EarlyKind(b) && !a.Other? && !b.Other? && Mark(a) == Mark(b)
    ensures a == b
  {
  }

  lemma NamedKindsDiffer(a: ArtifactKind, b: ArtifactKind)
    requires !a.Other? && !b.Other? && a.AsStr() == b.AsStr()
    ensures a == b
  {
    hide ArtifactKind.AsStr, Mark, EarlyKind;
    MarkIsWritten(a);
    MarkIsWritten(b);
    assert Mark(a) == (Mark(a).0, Mark(a).1) && Mark(b) == (Mark(b).0, Mark(b).1);
    if EarlyKind(a) {
      EarlyMarksDiffer(a, b);
    } else if EarlyKind(b) {
      EarlyMarksDiffer(b, a);
    } else {
      LateMarksDiffer(a, b);
    }
  }

  lemma UnfoundIsNoName(kinds: seq<ArtifactKind>, name: string, k: ArtifactKind)
    requires FindNamed(kinds, name).None? && k in kinds
    ensures k.AsStr() != name
  {
    hide ArtifactKind.AsStr;
  }

  lemma OtherIsItsName(kind: ArtifactKind)
    requires kind.Other?
    ensures kind.AsStr() == kind.name
  {
  }

  lemma CustomIsSpelledApart(a: ArtifactKind, b: ArtifactKind)
    requires Canonical(a) && a.Other? && !b.Other?
    ensures a.AsStr() != b.AsStr()
  {
    hide ArtifactKind.AsStr, FindNamed;
    EveryKindIsNamed(b);
    OtherIsItsName(a);
    UnfoundIsNoName(NAMED, a.name, b);
  }

  lemma CanonicalNamesDiffer(a: ArtifactKind, b: ArtifactKind)
    requires Canonical(a) && Canonical(b) && a.AsStr() == b.AsStr()
    ensures a == b
  {
    hide ArtifactKind.AsStr, FindNamed, Canonical;
    if a.Other? && b.Other? {
      OtherIsItsName(a);
      OtherIsItsName(b);
    } else if a.Other? {
      CustomIsSpelledApart(a, b);
    } else if b.Other? {
      CustomIsSpelledApart(b, a);
    } else {
      NamedKindsDiffer(a, b);
    }
  }

  lemma ParentIsCanonical(kind: ArtifactKind)
    requires Canonical(kind) && kind.Parent().Some?
    ensures Canonical(kind.Parent().value)
  {
    if kind.Other? {
      var suffix := AfterLastHyphen(kind.name).value;
      NamedIsNotOther();
      match FindNamed(NAMED, suffix) {
        case Some(named) =>
        case None =>
      }
    }
  }

  lemma LineageIsCanonical(kind: ArtifactKind, other: ArtifactKind)
    requires Canonical(kind) && other in Lineage(kind)
    ensures Canonical(other)
  {
    hide Canonical;
    LineageShape(kind);
    if kind.Parent().Some? { ParentIsCanonical(kind); }
  }

  lemma NamedIsNotOther()
    ensures forall k :: k in NAMED ==> !k.Other?
  {
  }

  /** The kinds that specialise another: the five designs, and a custom name with something after its last
      hyphen. */
  lemma ParentedExactly(kind: ArtifactKind)
    ensures kind.Parent().Some? <==>
            || kind in {FeatureDesign, ComponentDesign, ArchitectureDesign, ApiDesign, DataDesign}
            || (kind.Other? && '-' in kind.name && kind.name[|kind.name| - 1] != '-')
  {
    if kind.Other? && '-' in kind.name {
      var suffix := AfterLastHyphen(kind.name).value;
      assert suffix == [] <==> kind.name[|kind.name| - 1] == '-';
    }
  }

  lemma DesignSuffix(kind: ArtifactKind) returns (narrower: string)
    requires kind in {FeatureDesign, ComponentDesign, ArchitectureDesign, ApiDesign, DataDesign}
    ensures kind.AsStr() == narrower + "-" + "design"
  {
    narrower := if kind.FeatureDesign? then "feature" else if kind.ComponentDesign? then "component"
                else if kind.ArchitectureDesign? then "architecture" else if kind.ApiDesign? then "api" else "data";
  }

  lemma DesignIsWritten()
    ensures Design.AsStr() == "design" && '-' !in "design"
  {
  }

  /** What a kind specialises is what its own name ends in, after the last hyphen. */
  lemma ParentIsSuffix(kind: ArtifactKind) returns (narrower: string)
    requires kind.Parent().Some?
    ensures kind.AsStr() == narrower + "-" + kind.Parent().value.AsStr() && '-' !in kind.Parent().value.AsStr()
  {
    hide FindNamed, ArtifactKind.AsStr;
    ParentIsTop(kind);
    ParentedExactly(kind);
    if kind.Other? {
      var suffix := AfterLastHyphen(kind.name).value;
      OtherIsItsName(kind);
      OtherIsItsName(ArtifactKind.Other(suffix));
      narrower := kind.name[..|kind.name| - |suffix| - 1];
      assert kind.name == narrower + "-" + suffix;
    } else {
      narrower := DesignSuffix(kind);
      DesignIsWritten();
    }
  }

  /** Two ways to cut a name at a hyphen with none after it are one. */
  lemma LastHyphenIsOne(a: string, x: string, b: string, y: string)
    requires a + "-" + x == b + "-" + y && '-' !in x && '-' !in y
    ensures x == y
  {
    var name := a + "-" + x;
    assert name[|a|] == '-' && name[|b|] == '-';
    assert forall i :: 0 <= i < |x| ==> name[|a| + 1 + i] == x[i] != '-';
    assert forall i :: 0 <= i < |y| ==> name[|b| + 1 + i] == y[i] != '-';
    assert |a| == |b|;
    assert name[|a| + 1..] == x && name[|b| + 1..] == y;
  }

  /** Of two kinds as they are read, the one is the other exactly when they are the same, or it specialises
      some kind and the other is named by what its name ends in, after the last hyphen. */
  lemma {:induction false} IsAIsByName(a: ArtifactKind, b: ArtifactKind)
    requires Canonical(a) && Canonical(b)
    ensures b in Lineage(a) <==>
            || a == b
            || (a.Parent().Some? && '-' !in b.AsStr() && exists narrower: string :: a.AsStr() == narrower + "-" + b.AsStr())
  {
    hide FindNamed, Canonical, ArtifactKind.AsStr, ArtifactKind.Parent, Lineage;
    LineageShape(a);
    if a.Parent().Some? {
      var narrower := ParentIsSuffix(a);
      ParentIsCanonical(a);
      if '-' !in b.AsStr() && exists other: string :: a.AsStr() == other + "-" + b.AsStr() {
        var other: string :| a.AsStr() == other + "-" + b.AsStr();
        LastHyphenIsOne(narrower, a.Parent().value.AsStr(), other, b.AsStr());
        CanonicalNamesDiffer(a.Parent().value, b);
      }
    }
  }

  /** Every design is a design. */
  lemma DesignsAreDesigns(kind: ArtifactKind)
    requires kind in {FeatureDesign, ComponentDesign, ArchitectureDesign, ApiDesign, DataDesign}
    ensures Lineage(kind) == [kind, Design]
  {
  }

  lemma SuffixIs(narrower: string, suffix: string)
    requires '-' !in suffix
    ensures AfterLastHyphen(narrower + "-" + suffix) == Some(suffix)
  {
    hide AfterLastHyphen;
    var name := narrower + "-" + suffix;
    assert name[|narrower|] == '-';
    var found := AfterLastHyphen(name).value;
    var before := name[..|name| - |found| - 1];
    assert name == before + "-" + found;
    LastHyphenIsOne(before, found, narrower, suffix);
  }

  lemma NamedIsFound(kind: ArtifactKind)
    requires !kind.Other?
    ensures FindNamed(NAMED, kind.AsStr()) == Some(kind)
  {
    hide FindNamed, ArtifactKind.AsStr;
    EveryKindIsNamed(kind);
    var found := FindNamed(NAMED, kind.AsStr());
    if found.None? { UnfoundIsNoName(NAMED, kind.AsStr(), kind); }
    NamedIsNotOther();
    NamedKindsDiffer(found.value, kind);
  }

  /** A custom kind is the named kind its name ends in. */
  lemma CustomIsNamed(narrower: string, kind: ArtifactKind)
    requires !kind.Other? && '-' !in kind.AsStr()
    ensures Lineage(ArtifactKind.Other(narrower + "-" + kind.AsStr())) == [ArtifactKind.Other(narrower + "-" + kind.AsStr()), kind]
  {
    hide FindNamed, ArtifactKind.AsStr, AfterLastHyphen, Lineage;
    SuffixIs(narrower, kind.AsStr());
    NamedIsFound(kind);
    NameIsNotEmpty(kind);
    LineageShape(ArtifactKind.Other(narrower + "-" + kind.AsStr()));
  }

  lemma NameIsNotEmpty(kind: ArtifactKind)
    requires !kind.Other?
    ensures kind.AsStr() != []
  {
    MarkIsWritten(kind);
  }

  // ------------------------------------------------------------------ lifecycles

  /** The vocabulary of kinds. */
  lemma PlanningKindsAreWritten(kind: ArtifactKind)
    ensures kind.Vision? ==> kind.AsStr() == "vision"
    ensures kind.ProductRequirements? ==> kind.AsStr() == "product-requirements"
    ensures kind.Initiative? ==> kind.AsStr() == "initiative"
    ensures kind.Epic? ==> kind.AsStr() == "epic"
    ensures kind.Story? ==> kind.AsStr() == "story"
    ensures kind.Task? ==> kind.AsStr() == "task"
    ensures kind.Specification? ==> kind.AsStr() == "specification"
    ensures kind.AcceptanceCriteria? ==> kind.AsStr() == "acceptance-criteria"
  {
  }

  lemma DesignKindsAreWritten(kind: ArtifactKind)
    ensures kind.Design? ==> kind.AsStr() == "design"
    ensures kind.FeatureDesign? ==> kind.AsStr() == "feature-design"
    ensures kind.ComponentDesign? ==> kind.AsStr() == "component-design"
    ensures kind.ArchitectureDesign? ==> kind.AsStr() == "architecture-design"
    ensures kind.ApiDesign? ==> kind.AsStr() == "api-design"
    ensures kind.DataDesign? ==> kind.AsStr() == "data-design"
  {
  }

  lemma ReviewKindsAreWritten(kind: ArtifactKind)
    ensures kind.ArchitectureDecisionRecord? ==> kind.AsStr() == "architecture-decision-record"
    ensures kind.TestPlan? ==> kind.AsStr() == "test-plan"
    ensures kind.EvaluationPlan? ==> kind.AsStr() == "evaluation-plan"
    ensures kind.VerificationReport? ==> kind.AsStr() == "verification-report"
    ensures kind.ReviewResult? ==> kind.AsStr() == "review-result"
    ensures kind.ApprovalRecord? ==> kind.AsStr() == "approval-record"
  {
  }

  lemma ReleaseKindsAreWritten(kind: ArtifactKind)
    ensures kind.ReleasePlan? ==> kind.AsStr() == "release-plan"
    ensures kind.MigrationPlan? ==> kind.AsStr() == "migration-plan"
    ensures kind.Runbook? ==> kind.AsStr() == "runbook"
    ensures kind.IncidentReport? ==> kind.AsStr() == "incident-report"
    ensures kind.Postmortem? ==> kind.AsStr() == "postmortem"
  {
  }

  datatype ArtifactStatus =
    | Draft | Proposed | InReview | Approved | Accepted | Rejected
    | Active | Implemented | Superseded | Archived
  {
    function AsStr(): string {
      match this
      case Draft => "draft"
      case Proposed => "proposed"
      case InReview => "in_review"
      case Approved => "approved"
      case Accepted => "accepted"
      case Rejected => "rejected"
      case Active => "active"
      case Implemented => "implemented"
      case Superseded => "superseded"
      case Archived => "archived"
    }

    predicate IsApproved() { Approved? || Accepted? || Active? || Implemented? }
  }

  /** The vocabulary of statuses. */
  lemma StatusesAreWritten()
    ensures ArtifactStatus.Draft.AsStr() == "draft"
    ensures ArtifactStatus.Proposed.AsStr() == "proposed"
    ensures ArtifactStatus.InReview.AsStr() == "in_review"
    ensures ArtifactStatus.Approved.AsStr() == "approved"
    ensures ArtifactStatus.Accepted.AsStr() == "accepted"
    ensures ArtifactStatus.Rejected.AsStr() == "rejected"
    ensures ArtifactStatus.Active.AsStr() == "active"
    ensures ArtifactStatus.Implemented.AsStr() == "implemented"
    ensures ArtifactStatus.Superseded.AsStr() == "superseded"
    ensures ArtifactStatus.Archived.AsStr() == "archived"
  {
  }

  datatype ArtifactLifecycle = ArtifactLifecycle(
    kind: Option<ArtifactKind>,
    initial: ArtifactStatus,
    transitions: map<ArtifactStatus, set<ArtifactStatus>>)
  {
    predicate PermitsTransition(from: ArtifactStatus, to: ArtifactStatus) {
      from in transitions && to in transitions[from]
    }
  }

  const ALL_STATUSES: set<ArtifactStatus> :=
    {Draft, Proposed, InReview, Approved, Accepted, Rejected, Active, Implemented, Superseded, Archived}

  /** The lifecycle of a kind nobody wrote one for: every move between statuses is legal. */
  const PERMISSIVE := ArtifactLifecycle(None, Draft, map s | s in ALL_STATUSES :: ALL_STATUSES)

  datatype LifecycleRegistry = LifecycleRegistry(
    lifecycles: map<ArtifactKind, ArtifactLifecycle>,
    fallback: Option<ArtifactLifecycle>)
  {
    function FirstRegistered(kinds: seq<ArtifactKind>): Option<ArtifactLifecycle> {
      if kinds == [] then None
      else if kinds[0] in lifecycles then Some(lifecycles[kinds[0]])
      else FirstRegistered(kinds[1..])
    }

    function ForKind(kind: ArtifactKind): Option<ArtifactLifecycle> {
      match FirstRegistered(Lineage(kind))
      case Some(lifecycle) => Some(lifecycle)
      case None => fallback
    }

    /** `candidate` is the nearest kind, counted in climbs from `kind`, that has a lifecycle. */
    ghost predicate NearestRegistered(kind: ArtifactKind, candidate: ArtifactKind) {
      && candidate in lifecycles
      && exists n: nat ::
           && Climb(kind, n) == Some(candidate)
           && forall m: nat :: m < n && Climb(kind, m).Some? ==> Climb(kind, m).value !in lifecycles
    }

    lemma {:induction false} FirstRegisteredFindsFirst(kinds: seq<ArtifactKind>)
      ensures FirstRegistered(kinds).None? <==> forall k :: k in kinds ==> k !in lifecycles
      ensures FirstRegistered(kinds).Some? ==>
                exists n :: 0 <= n < |kinds| && kinds[n] in lifecycles
                            && FirstRegistered(kinds) == Some(lifecycles[kinds[n]])
                            && forall m :: 0 <= m < n ==> kinds[m] !in lifecycles
    {
      if kinds != [] && kinds[0] !in lifecycles {
        FirstRegisteredFindsFirst(kinds[1..]);
        if FirstRegistered(kinds).Some? {
          var n :| 0 <= n < |kinds[1..]| && kinds[1..][n] in lifecycles
                   && FirstRegistered(kinds[1..]) == Some(lifecycles[kinds[1..][n]])
                   && forall m :: 0 <= m < n ==> kinds[1..][m] !in lifecycles;
          assert kinds[n + 1] == kinds[1..][n];
          forall m | 0 <= m < n + 1 ensures kinds[m] !in lifecycles {
            if m > 0 { assert kinds[m] == kinds[1..][m - 1]; }
          }
        }
        assert forall k :: k in kinds <==> k == kinds[0] || k in kinds[1..];
      } else if kinds != [] {
        assert kinds[0] in kinds;
      }
    }

    lemma ClimbReadsLineage(kind: ArtifactKind)
      ensures forall n: nat :: Climb(kind, n) == if n < |Lineage(kind)| then Some(Lineage(kind)[n]) else None
    {
      forall n: nat ensures Climb(kind, n) == if n < |Lineage(kind)| then Some(Lineage(kind)[n]) else None {
        LineageIsClimb(kind, n);
      }
    }

    /** The nearest registered lifecycle in the lineage governs. */
    lemma ForKindIsNearest(kind: ArtifactKind, c: ArtifactKind)
      requires NearestRegistered(kind, c)
      ensures ForKind(kind) == Some(lifecycles[c])
    {
      ClimbReadsLineage(kind);
      ghost var line := Lineage(kind);
      var n: nat :| Climb(kind, n) == Some(c)
               && forall m: nat :: m < n && Climb(kind, m).Some? ==> Climb(kind, m).value !in lifecycles;
      assert line[n] == c;
      FirstRegisteredFindsFirst(line);
      var f: nat :| f < |line| && line[f] in lifecycles && FirstRegistered(line) == Some(lifecycles[line[f]])
               && forall m :: 0 <= m < f ==> line[m] !in lifecycles;
      assert Climb(kind, f) == Some(line[f]);
      assert f == n;
    }

    /** Some kind is nearest exactly when a kind of the lineage is registered; when none is, the
        fallback answers, or nothing does. */
    lemma FallbackOnlyWithoutLineage(kind: ArtifactKind)
      ensures (exists c :: NearestRegistered(kind, c)) <==> (exists c :: c in Lineage(kind) && c in lifecycles)
      ensures (forall c :: c in Lineage(kind) ==> c !in lifecycles) ==> ForKind(kind) == fallback
    {
      hide ArtifactKind.AsStr, ArtifactKind.Parent, Lineage, Climb, FirstRegistered;
      ClimbReadsLineage(kind);
      ghost var line := Lineage(kind);
      FirstRegisteredFindsFirst(line);
      if c :| NearestRegistered(kind, c) {
        var n: nat :| Climb(kind, n) == Some(c);
        assert line[n] == c;
      }
      if FirstRegistered(line).Some? {
        var f: nat :| f < |line| && line[f] in lifecycles && FirstRegistered(line) == Some(lifecycles[line[f]])
                 && forall m :: 0 <= m < f ==> line[m] !in lifecycles;
        assert Climb(kind, f) == Some(line[f]);
        assert NearestRegistered(kind, line[f]);
      }
    }
  }
}
