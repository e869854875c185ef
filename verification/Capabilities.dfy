/** Capabilities and the policies over them (crates/aep-domain/src/capability.rs). */
module Capabilities {
  import opened Wrappers

  // ------------------------------------------------------------------ vocabulary

  datatype Environment = Any | Development | Test | Staging | Production | Named(name: string) {
    function AsStr(): string {
      match this
      case Any => "*"
      case Development => "development"
      case Test => "test"
      case Staging => "staging"
      case Production => "production"
      case Named(name) => name
    }

    predicate Covers(other: Environment) { this == Any || this == other }
  }

  datatype Capability =
    | RepositoryRead | RepositoryWrite | TestExecution | CommandExecution
    | NetworkRead | NetworkWrite | TelemetryRead | ProductionRead | ProductionWrite
    | Deploy(environment: Environment) | Rollback(environment: Environment)
    | SecretRead | ArtifactRead | ArtifactWrite | PlanningRead | PlanningWrite
    | ReviewRequest | ApprovalRequest
  {
    predicate TakesEnvironment() { Deploy? || Rollback? }

    /** Holding this capability authorises the other; an environment wildcard is the only widening. */
    predicate Covers(other: Capability) {
      if (Deploy? && other.Deploy?) || (Rollback? && other.Rollback?) then environment.Covers(other.environment)
      else this == other
    }

  }

  /** `covers` is a partial order. */
  lemma CoversIsAPartialOrder(a: Capability, b: Capability, c: Capability)
    ensures a.Covers(a)
    ensures a.Covers(b) && b.Covers(c) ==> a.Covers(c)
    ensures a.Covers(b) && b.Covers(a) ==> a == b
  {
  }

  /** What holding `a` authorises: itself, and, for a deployment or a rollback anywhere, one in any
      environment. */
  ghost predicate Authorises(a: Capability, b: Capability) {
    a == b || (a == Deploy(Any) && b.Deploy?) || (a == Rollback(Any) && b.Rollback?)
  }

  /** `covers` is exactly that: the wildcard is the only widening, and only within its own capability. */
  lemma CoversExactly(a: Capability, b: Capability)
    ensures a.Covers(b) <==> Authorises(a, b)
  {
  }

  /** Some entry authorises this. */
  ghost predicate Authorised(entries: set<Capability>, c: Capability) { exists e :: e in entries && Authorises(e, c) }

  // ------------------------------------------------------------------ decisions

  datatype Decision = Allowed | RequiresApproval | Denied | NotGranted {
    /** How far up the precedence a decision stands. */
    function Rank(): nat {
      match this
      case NotGranted => 0
      case Allowed => 1
      case RequiresApproval => 2
      case Denied => 3
    }
  }

  datatype Policy = Policy(allow: set<Capability>, approvalRequired: set<Capability>, deny: set<Capability>) {
    function Decide(c: Capability): Decision {
      if CoveredBy(deny, c) then Denied
      else if CoveredBy(approvalRequired, c) then RequiresApproval
      else if CoveredBy(allow, c) then Allowed
      else NotGranted
    }

    /** The entries a decision comes from. */
    function Deciding(decision: Decision): set<Capability> {
      match decision
      case Denied => deny
      case RequiresApproval => approvalRequired
      case Allowed => allow
      case NotGranted => {}
    }

    function Granted(other: Policy): Policy {
      Policy(allow + other.allow, approvalRequired + other.approvalRequired, deny + other.deny)
    }

    function Restricted(other: Policy): Policy {
      Policy(allow, approvalRequired + other.approvalRequired, deny + other.deny)
    }
  }

  predicate CoveredBy(entries: set<Capability>, c: Capability) { exists e :: e in entries && e.Covers(c) }

  lemma AuthorisedIsCovered(entries: set<Capability>, c: Capability)
    ensures Authorised(entries, c) <==> CoveredBy(entries, c)
  {
    hide Authorises, Capability.Covers;
    forall e { CoversExactly(e, c); }
  }

  lemma AuthorisedByAny(a: set<Capability>, b: set<Capability>, d: set<Capability>, c: Capability)
    ensures Authorised(a + b + d, c) <==> Authorised(a, c) || Authorised(b, c) || Authorised(d, c)
  {
    hide Authorises;
  }

  /** A denied wildcard denies its capability in every environment, whatever else the policy says, and is no
      reason to deny anything else. */
  lemma WildcardDenies(policy: Policy, c: Capability, rollback: bool)
    requires (if rollback then Rollback(Any) else Deploy(Any)) in policy.deny
    ensures (if rollback then c.Rollback? else c.Deploy?) ==> policy.Decide(c) == Denied
    ensures !(if rollback then c.Rollback? else c.Deploy?) ==>
              policy.Decide(c) == policy.(deny := policy.deny - {if rollback then Rollback(Any) else Deploy(Any)}).Decide(c)
  {
    var wildcard := if rollback then Rollback(Any) else Deploy(Any);
    CoversExactly(wildcard, c);
    forall e | e in policy.deny && e.Covers(c) && e != wildcard ensures e in policy.deny - {wildcard} {}
  }

  // ------------------------------------------------------------------ a policy in place

  class CapabilityPolicy {
    var allow: set<Capability>
    var approvalRequired: set<Capability>
    var deny: set<Capability>

    function View(): Policy
      reads this
    {
      Policy(allow, approvalRequired, deny)
    }

    constructor (allow: set<Capability>, approvalRequired: set<Capability>, deny: set<Capability>)
      ensures View() == Policy(allow, approvalRequired, deny)
    {
      this.allow, this.approvalRequired, this.deny := allow, approvalRequired, deny;
    }

    /** Some entry of a set that covers a capability, if there is one. */
    static method Find(entries: set<Capability>, c: Capability) returns (found: Option<Capability>)
      ensures found.Some? <==> Authorised(entries, c)
      ensures found.Some? ==> found.value in entries && Authorises(found.value, c)
    {
      hide Capability.Covers, Authorises;
      forall e { CoversExactly(e, c); }
      var todo := entries;
      while todo != {}
        invariant todo <= entries && forall e :: e in entries - todo ==> !e.Covers(c)
      {
        var e :| e in todo;
        if e.Covers(c) { return Some(e); }
        todo := todo - {e};
      }
      return None;
    }

    /** What this policy says about a capability: deny, then approval, then allow, then nothing. */
    method Decide(c: Capability) returns (decision: Decision)
      ensures decision == View().Decide(c)
      ensures decision == if Authorised(deny, c) then Denied else if Authorised(approvalRequired, c) then RequiresApproval
                          else if Authorised(allow, c) then Allowed else NotGranted
    {
      hide Authorised;
      AuthorisedIsCovered(deny, c); AuthorisedIsCovered(approvalRequired, c); AuthorisedIsCovered(allow, c);
      var denied := Find(deny, c);
      if denied.Some? { return Denied; }
      var approval := Find(approvalRequired, c);
      if approval.Some? { return RequiresApproval; }
      var allowed := Find(allow, c);
      return if allowed.Some? then Allowed else NotGranted;
    }

    /** The entry responsible for a decision: one of the set that decided, and none when none did. */
    method MatchingEntry(c: Capability) returns (entry: Option<Capability>)
      ensures entry.Some? <==> Authorised(deny + approvalRequired + allow, c)
      ensures entry.Some? ==>
                && Authorises(entry.value, c)
                && entry.value in if Authorised(deny, c) then deny else if Authorised(approvalRequired, c) then approvalRequired else allow
      ensures entry.Some? <==> View().Decide(c) != NotGranted
      ensures entry.Some? ==> entry.value in View().Deciding(View().Decide(c))
    {
      hide CoveredBy, Authorised, Authorises;
      AuthorisedIsCovered(deny, c); AuthorisedIsCovered(approvalRequired, c); AuthorisedIsCovered(allow, c);
      AuthorisedByAny(deny, approvalRequired, allow, c);
      entry := Find(deny, c);
      if entry.Some? { return; }
      entry := Find(approvalRequired, c);
      if entry.Some? { return; }
      entry := Find(allow, c);
    }

    /** Adds another policy's grants, approvals and denials. */
    method Grant(other: Policy)
      modifies this
      ensures View() == old(View()).Granted(other)
    {
      allow := allow + other.allow;
      approvalRequired := approvalRequired + other.approvalRequired;
      deny := deny + other.deny;
    }

    /** Adds another policy's approvals and denials only, never its grants. */
    method Restrict(other: Policy)
      modifies this
      ensures View() == old(View()).Restricted(other)
    {
      approvalRequired := approvalRequired + other.approvalRequired;
      deny := deny + other.deny;
    }
  }

  // ------------------------------------------------------------------ composition

  datatype Composition = Grant(other: Policy) | Restrict(other: Policy)

  function Composed(policy: Policy, steps: seq<Composition>): Policy {
    if steps == [] then policy
    else
      var earlier := Composed(policy, steps[..|steps| - 1]);
      match steps[|steps| - 1]
      case Grant(other) => earlier.Granted(other)
      case Restrict(other) => earlier.Restricted(other)
  }

  lemma WiderCovers(a: set<Capability>, b: set<Capability>, c: Capability)
    requires a <= b
    ensures CoveredBy(a, c) ==> CoveredBy(b, c)
  {
    hide Capability.Covers;
  }

  lemma MoreEntriesRankHigher(p: Policy, q: Policy, c: Capability)
    requires p.allow <= q.allow && p.approvalRequired <= q.approvalRequired && p.deny <= q.deny
    ensures p.Decide(c).Rank() <= q.Decide(c).Rank()
  {
    hide CoveredBy;
    WiderCovers(p.allow, q.allow, c);
    WiderCovers(p.approvalRequired, q.approvalRequired, c);
    WiderCovers(p.deny, q.deny, c);
  }

  /** However policies are composed, a decision only moves up the precedence: what is denied stays denied,
      and what needs an approval is never simply allowed again. */
  lemma {:induction false} DecisionsOnlyRise(policy: Policy, steps: seq<Composition>, c: Capability)
    ensures policy.Decide(c).Rank() <= Composed(policy, steps).Decide(c).Rank()
    ensures policy.Decide(c) == Denied ==> Composed(policy, steps).Decide(c) == Denied
  {
    hide CoveredBy, Policy.Decide;
    if steps != [] {
      var earlier := Composed(policy, steps[..|steps| - 1]);
      DecisionsOnlyRise(policy, steps[..|steps| - 1], c);
      MoreEntriesRankHigher(earlier, Composed(policy, steps), c);
    }
  }

  /** A restriction never makes anything allowed that was not. */
  lemma RestrictingAllowsNothing(policy: Policy, other: Policy, c: Capability)
    ensures policy.Restricted(other).Decide(c) == Allowed ==> policy.Decide(c) == Allowed
    ensures policy.Restricted(other).Decide(c) == NotGranted ==> policy.Decide(c) == NotGranted
  {
    hide CoveredBy;
    WiderCovers(policy.approvalRequired, policy.approvalRequired + other.approvalRequired, c);
    WiderCovers(policy.deny, policy.deny + other.deny, c);
  }

  /** Yet a restriction can turn what was never granted into something an approval opens: exactly when it
      asks for an approval there, and neither policy denies it. */
  lemma RestrictingCanOpen(policy: Policy, other: Policy, c: Capability)
    requires policy.Decide(c) == NotGranted
    ensures policy.Restricted(other).Decide(c) == RequiresApproval <==>
            CoveredBy(other.approvalRequired, c) && !CoveredBy(other.deny, c)
  {
    hide CoveredBy;
    CoveredByBoth(policy.approvalRequired, other.approvalRequired, c);
    CoveredByBoth(policy.deny, other.deny, c);
  }

  lemma CoveredByBoth(a: set<Capability>, b: set<Capability>, c: Capability)
    ensures CoveredBy(a + b, c) <==> CoveredBy(a, c) || CoveredBy(b, c)
  {
    hide Capability.Covers;
  }

  function AllRestricted(policy: Policy, others: seq<Policy>): Policy {
    if others == [] then policy else AllRestricted(policy, others[..|others| - 1]).Restricted(others[|others| - 1])
  }

  ghost predicate SameMembers(a: seq<Policy>, b: seq<Policy>) { forall p :: p in a <==> p in b }

  lemma {:induction false} RestrictedEntries(policy: Policy, others: seq<Policy>, c: Capability)
    ensures var after := AllRestricted(policy, others);
            && after.allow == policy.allow
            && (c in after.approvalRequired <==> c in policy.approvalRequired || exists p :: p in others && c in p.approvalRequired)
            && (c in after.deny <==> c in policy.deny || exists p :: p in others && c in p.deny)
  {
    if others != [] {
      var earlier, last := others[..|others| - 1], others[|others| - 1];
      RestrictedEntries(policy, earlier, c);
      assert others == earlier + [last];
    }
  }

  /** Restrictions commute, and repeating one changes nothing: only which ones there are matters. */
  lemma RestrictionsCommute(policy: Policy, a: seq<Policy>, b: seq<Policy>)
    requires SameMembers(a, b)
    ensures AllRestricted(policy, a) == AllRestricted(policy, b)
  {
    hide AllRestricted;
    var one, other := AllRestricted(policy, a), AllRestricted(policy, b);
    forall c ensures (c in one.approvalRequired <==> c in other.approvalRequired) && (c in one.deny <==> c in other.deny) {
      RestrictedEntries(policy, a, c);
      RestrictedEntries(policy, b, c);
    }
    RestrictedEntries(policy, a, RepositoryRead);
    RestrictedEntries(policy, b, RepositoryRead);
    assert one.approvalRequired == other.approvalRequired && one.deny == other.deny;
  }

  /** Whatever a capability covers stands at least as high in the precedence as the capability itself. */
  lemma CoveredIsNoFreer(policy: Policy, a: Capability, b: Capability)
    requires a.Covers(b)
    ensures policy.Decide(a).Rank() <= policy.Decide(b).Rank()
  {
    hide CoveredBy, Capability.Covers;
    CoversDown(policy.deny, a, b);
    CoversDown(policy.approvalRequired, a, b);
    CoversDown(policy.allow, a, b);
  }

  lemma CoversDown(entries: set<Capability>, a: Capability, b: Capability)
    requires a.Covers(b)
    ensures CoveredBy(entries, a) ==> CoveredBy(entries, b)
  {
    if e :| e in entries && e.Covers(a) { CoversIsAPartialOrder(e, a, b); }
  }
}
