/** Writing capabilities and reading them back (crates/aep-domain/src/capability.rs:51-80, 205-226, 260-324). */
module CapabilityText {
  import opened Wrappers
  import opened Texts
  import opened Capabilities

  datatype CapabilityError = BadEnvironment(text: string) | TakesNoEnvironment(text: string) | Unknown(text: string)

  // ------------------------------------------------------------------ environments

  predicate LowerOrDigit(c: char) { 'a' <= c <= 'z' || '0' <= c <= '9' }

  /** Lower-case words and digits joined by single hyphens, starting with a letter, at most 200 long. */
  predicate KebabId(text: string) {
    && 1 <= |text| <= 200 && 'a' <= text[0] <= 'z'
    && (forall i :: 0 <= i < |text| ==> LowerOrDigit(text[i]) || text[i] == '-')
    && text[|text| - 1] != '-'
    && (forall i :: 0 <= i < |text| - 1 ==> text[i] != '-' || text[i + 1] != '-')
  }

  function ParseEnvironment(value: string): Result<Environment, CapabilityError> {
    if value == "*" || value == "any" then Ok(Any)
    else if value == "development" || value == "dev" then Ok(Development)
    else if value == "test" then Ok(Test)
    else if value == "staging" || value == "stage" then Ok(Staging)
    else if value == "production" || value == "prod" then Ok(Production)
    else if KebabId(value) then Ok(Named(value))
    else Err(BadEnvironment(value))
  }

  const RESERVED := {"*", "any", "development", "dev", "test", "staging", "stage", "production", "prod"}

  /** An environment a text can name: one of the vocabulary, or a name that is a word of its own. */
  predicate NormalForm(environment: Environment) {
    environment.Named? ==> KebabId(environment.name) && environment.name !in RESERVED
  }

  /** Only an environment in normal form is ever parsed. */
  lemma ParsedIsNormal(value: string)
    ensures ParseEnvironment(value).Ok? ==> NormalForm(ParseEnvironment(value).value)
  {
    assert value in RESERVED <==> value == "*" || value == "any" || value == "development" || value == "dev" || value == "test"
                                  || value == "staging" || value == "stage" || value == "production" || value == "prod";
  }

  /** An environment is read back from how it is written exactly when it is in normal form. */
  lemma EnvironmentReadsBackExactly(environment: Environment)
    ensures ParseEnvironment(environment.AsStr()) == Ok(environment) <==> NormalForm(environment)
  {
    match environment {
      case Named(name) => ParsedIsNormal(name);
      case Any =>
      case Development => assert "development"[0] == 'd';
      case Test => assert "test"[0] == 't';
      case Staging => assert "staging"[0] == 's';
      case Production => assert "production"[0] == 'p';
    }
  }

  // ------------------------------------------------------------------ capabilities

  function Name(c: Capability): string {
    match c
    case RepositoryRead => "repository.read"
    case RepositoryWrite => "repository.write"
    case TestExecution => "tests.execute"
    case CommandExecution => "command.execute"
    case NetworkRead => "network.read"
    case NetworkWrite => "network.write"
    case TelemetryRead => "telemetry.read"
    case ProductionRead => "production.read"
    case ProductionWrite => "production.write"
    case Deploy(_) => "deployment.create"
    case Rollback(_) => "deployment.rollback"
    case SecretRead => "secret.read"
    case ArtifactRead => "artifact.read"
    case ArtifactWrite => "artifact.write"
    case PlanningRead => "planning.read"
    case PlanningWrite => "planning.write"
    case ReviewRequest => "review.request"
    case ApprovalRequest => "approval.request"
  }

  function Display(c: Capability): string {
    if c.TakesEnvironment() && c.environment != Any then Name(c) + ":" + c.environment.AsStr() else Name(c)
  }

  /** The capabilities that take no environment, by the names they are read under. */
  function Simple(name: string): Option<Capability> {
    match name
    case "repository.read" => Some(RepositoryRead)
    case "repository.write" => Some(RepositoryWrite)
    case "tests.execute" => Some(TestExecution)
    case "test.execute" => Some(TestExecution)
    case "command.execute" => Some(CommandExecution)
    case "network.read" => Some(NetworkRead)
    case "network.write" => Some(NetworkWrite)
    case "telemetry.read" => Some(TelemetryRead)
    case "telemetry.query" => Some(TelemetryRead)
    case "production.read" => Some(ProductionRead)
    case "production.write" => Some(ProductionWrite)
    case "secret.read" => Some(SecretRead)
    case "artifact.read" => Some(ArtifactRead)
    case "artifact.write" => Some(ArtifactWrite)
    case "planning.read" => Some(PlanningRead)
    case "planning.write" => Some(PlanningWrite)
    case "review.request" => Some(ReviewRequest)
    case "approval.request" => Some(ApprovalRequest)
    case _ => None
  }

  /** The text before the first colon, and the text after it when there is one. */
  function SplitOnce(value: string): (string, Option<string>) {
    match FindChar(value, ':', 0)
    case None => (value, None)
    case Some(at) => (value[..at], Some(value[at + 1..]))
  }

  function EnvironmentOf(text: Option<string>): Result<Environment, CapabilityError> {
    match text
    case None => Ok(Any)
    case Some(raw) => ParseEnvironment(raw)
  }

  function Parse(value: string): Result<Capability, CapabilityError> {
    var (name, environment) := SplitOnce(value);
    match Simple(name)
    case Some(c) => if environment.Some? then Err(TakesNoEnvironment(value)) else Ok(c)
    case None =>
      if name == "deployment.create" || name == "deploy" then
        match EnvironmentOf(environment)
        case Ok(e) => Ok(Deploy(e))
        case Err(error) => Err(error)
      else if name == "deployment.rollback" || name == "rollback" then
        match EnvironmentOf(environment)
        case Ok(e) => Ok(Rollback(e))
        case Err(error) => Err(error)
      else Err(Unknown(value))
  }

  lemma SimpleNameIsRead(c: Capability)
    requires !c.TakesEnvironment()
    ensures Simple(Name(c)) == Some(c)
  {
    match c {
      case RepositoryRead => assert Name(c)[0] == 'r' && Name(c)[11] == 'r';
      case RepositoryWrite => assert Name(c)[0] == 'r';
      case TestExecution => assert Name(c)[0] == 't';
      case CommandExecution => assert Name(c)[0] == 'c';
      case NetworkRead => assert Name(c)[0] == 'n';
      case NetworkWrite => assert Name(c)[0] == 'n';
      case TelemetryRead => assert Name(c)[0] == 't';
      case ProductionRead => assert Name(c)[0] == 'p';
      case ProductionWrite => assert Name(c)[0] == 'p';
      case SecretRead => assert Name(c)[0] == 's';
      case ArtifactRead => assert Name(c)[0] == 'a';
      case ArtifactWrite => assert Name(c)[0] == 'a';
      case PlanningRead => assert Name(c)[0] == 'p';
      case PlanningWrite => assert Name(c)[0] == 'p';
      case ReviewRequest => assert Name(c)[2] == 'v';
      case ApprovalRequest => assert Name(c)[1] == 'p';
    }
  }

  lemma ScopedNamesAreNotSimple()
    ensures Simple("deployment.create") == None && Simple("deployment.rollback") == None
  {
  }

  ghost predicate NoColon(text: string) { forall i :: 0 <= i < |text| ==> text[i] != ':' }

  lemma ReadNamesHaveNoColon(c: Capability)
    requires c.RepositoryRead? || c.NetworkRead? || c.TelemetryRead? || c.ProductionRead? || c.SecretRead? || c.ArtifactRead? || c.PlanningRead?
    ensures NoColon(Name(c))
  {
  }

  lemma WriteNamesHaveNoColon(c: Capability)
    requires c.RepositoryWrite? || c.NetworkWrite? || c.ProductionWrite? || c.ArtifactWrite? || c.PlanningWrite?
    ensures NoColon(Name(c))
  {
  }

  lemma ActNamesHaveNoColon(c: Capability)
    requires c.TestExecution? || c.CommandExecution? || c.ReviewRequest? || c.ApprovalRequest? || c.Deploy? || c.Rollback?
    ensures NoColon(Name(c))
  {
  }

  lemma NamesHaveNoColon(c: Capability)
    ensures NoColon(Name(c))
  {
    hide Name, NoColon;
    if c.RepositoryRead? || c.NetworkRead? || c.TelemetryRead? || c.ProductionRead? || c.SecretRead? || c.ArtifactRead? || c.PlanningRead? {
      ReadNamesHaveNoColon(c);
    } else if c.RepositoryWrite? || c.NetworkWrite? || c.ProductionWrite? || c.ArtifactWrite? || c.PlanningWrite? {
      WriteNamesHaveNoColon(c);
    } else {
      ActNamesHaveNoColon(c);
    }
  }

  lemma SplitAtColon(name: string, rest: string)
    requires NoColon(name)
    ensures SplitOnce(name) == (name, None)
    ensures SplitOnce(name + ":" + rest) == (name, Some(rest))
  {
    var value := name + ":" + rest;
    assert value[|name|] == ':' && forall i :: 0 <= i < |name| ==> value[i] == name[i];
    assert FindChar(value, ':', 0) == Some(|name|);
    assert value[..|name|] == name && value[|name| + 1..] == rest;
  }

  /** A displayed capability is read back as itself exactly when its environment, if it has one, is in
      normal form. */
  lemma DisplayedReadsBackExactly(c: Capability)
    ensures Parse(Display(c)) == Ok(c) <==> (c.TakesEnvironment() ==> NormalForm(c.environment))
  {
    hide Name, Simple, ParseEnvironment, SplitOnce, NormalForm;
    NamesHaveNoColon(c);
    if !c.TakesEnvironment() {
      SplitAtColon(Name(c), "");
      SimpleNameIsRead(c);
    } else {
      ScopedNamesAreNotSimple();
      ScopedNames(c);
      SplitAtColon(Name(c), c.environment.AsStr());
      EnvironmentReadsBackExactly(c.environment);
    }
  }

  lemma ScopedNames(c: Capability)
    requires c.TakesEnvironment()
    ensures Name(c) == if c.Deploy? then "deployment.create" else "deployment.rollback"
    ensures "deployment.rollback" != "deployment.create" && "deployment.rollback" != "deploy"
    ensures NormalForm(Any)
  {
    assert |"deployment.rollback"| == 19 && |"deployment.create"| == 17;
  }

  // ------------------------------------------------------------------ what is read as what

  /** The texts that name an environment. */
  ghost predicate NamesEnvironment(text: string, e: Environment) {
    match e
    case Any => text == "*" || text == "any"
    case Development => text == "development" || text == "dev"
    case Test => text == "test"
    case Staging => text == "staging" || text == "stage"
    case Production => text == "production" || text == "prod"
    case Named(name) => text == name && KebabId(name) && name !in RESERVED
  }

  lemma EnvironmentExactly(text: string, e: Environment)
    ensures ParseEnvironment(text) == Ok(e) <==> NamesEnvironment(text, e)
  {
    hide KebabId;
    assert text in RESERVED <==> text == "*" || text == "any" || text == "development" || text == "dev" || text == "test"
                                 || text == "staging" || text == "stage" || text == "production" || text == "prod";
    FirstLetters(text);
  }

  /** The words of the vocabulary are told apart by how they start and how long they are. */
  lemma FirstLetters(text: string)
    ensures text == "*" ==> text[0] == '*'
    ensures text == "any" ==> text[0] == 'a'
    ensures text == "development" || text == "dev" ==> text[0] == 'd'
    ensures text == "test" ==> text[0] == 't'
    ensures text == "staging" || text == "stage" ==> text[0] == 's'
    ensures text == "production" || text == "prod" ==> text[0] == 'p'
    ensures text == "stage" ==> |text| == 5
    ensures text == "test" ==> |text| == 4
  {
  }

  /** A name that is read as this capability: its own, or the one alias some have. */
  ghost predicate NamesCapability(name: string, c: Capability) {
    name == Name(c) || (c.TestExecution? && name == "test.execute") || (c.TelemetryRead? && name == "telemetry.query")
    || (c.Deploy? && name == "deploy") || (c.Rollback? && name == "rollback")
  }

  lemma SimpleExactly(name: string, c: Capability)
    ensures Simple(name) == Some(c) <==> !c.TakesEnvironment() && NamesCapability(name, c)
  {
    if !c.TakesEnvironment() {
      SimpleNameIsRead(c);
      AliasesAreRead();
    }
  }

  lemma AliasesAreRead()
    ensures Simple("test.execute") == Some(TestExecution) && Simple("telemetry.query") == Some(TelemetryRead)
  {
    assert "test.execute"[0] == 't' && |"test.execute"| == 12;
    assert "telemetry.query"[0] == 't' && |"telemetry.query"| == 15;
  }

  lemma ScopedAreNotSimple(name: string)
    ensures name == "deployment.create" || name == "deploy" || name == "deployment.rollback" || name == "rollback" ==> Simple(name) == None
  {
  }

  /** A text is read as a capability exactly when what is before its first colon names it, and what is
      after names its environment; without a colon the environment is any, and a capability that takes
      none takes no colon. */
  lemma ParsedExactly(value: string, c: Capability)
    ensures Parse(value) == Ok(c) <==>
            var (name, environment) := SplitOnce(value);
            && NamesCapability(name, c)
            && if !c.TakesEnvironment() then environment.None?
               else if environment.Some? then NamesEnvironment(environment.value, c.environment) else c.environment == Any
  {
    hide Simple, ParseEnvironment, SplitOnce, NamesEnvironment, Name;
    var (name, environment) := SplitOnce(value);
    SimpleExactly(name, c);
    ScopedAreNotSimple(name);
    if Simple(name).Some? { SimpleExactly(name, Simple(name).value); }
    if c.TakesEnvironment() {
      ScopedNames(c);
      ScopedNamesDiffer();
      if environment.Some? { EnvironmentExactly(environment.value, c.environment); }
    }
  }

  lemma ScopedNamesDiffer()
    ensures "deployment.create" !in {"deployment.rollback", "rollback"} && "deploy" !in {"deployment.rollback", "rollback"}
  {
    assert |"deployment.create"| == 17 && |"deployment.rollback"| == 19 && |"deploy"| == 6 && |"rollback"| == 8;
  }
}
