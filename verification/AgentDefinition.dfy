/** Agent definitions: the checks before compiling, the normal form and the two gates of the
    compiler. What the provider library decides is a parameter. */
module AgentDefinition {
  import opened Text
  import opened CanonicalLists
  import opened Delegation
  import Contract

  /** How a driver of the Claude family is configured. */
  datatype ClaudeKind = PlainClaude | Compatible

  type Settings = map<string, string>

  /** The provider library: the canonical name of a lower-case driver, the drivers it supports,
      the configuration it wants for them, and the extra request keys it refuses. */
  datatype Library = Library(
    normalizeDriver: string -> string,
    supports: string -> bool,
    claudeKind: string -> Option<ClaudeKind>,
    badExtras: Settings -> seq<string>)

  datatype ProviderConfig =
    | EmptyConfig
    | CodexConfig(settings: Settings)
    | ClaudeCodeConfig(settings: Settings)
    | ClaudeCompatibleConfig(settings: Settings)
    | UnknownConfig(raw: string)

  datatype ConfigKind = ForCodex | ForClaudeCode | ForCompatible

  datatype Provider = Provider(
    driver: string, model: string, profile: Option<string>, maxTokens: Option<nat>,
    config: ProviderConfig, requestExtra: Settings)

  datatype Prompt = Prompt(system: Option<string>, instructions: Option<string>, skills: seq<string>)

  datatype Workspace = NoWorkspace | InWorkspace | InWorktree | UnknownWorkspace(value: string)

  datatype Capabilities = Capabilities(
    tools: seq<string>, primitives: seq<string>, delegation: seq<DelegationKind>,
    workspace: Workspace, network: bool)

  datatype MemoryPolicy = NoMemory | SessionMemory | SharedMemory | UnknownMemory(value: string)

  datatype HitlPolicy = NeverAsk | AskExplicitly | AlwaysAsk | UnknownHitl(value: string)

  datatype Runtime = Runtime(autonomous: bool, memoryPolicy: MemoryPolicy, hitl: HitlPolicy)

  datatype Definition = Definition(
    id: string, name: string, version: string, description: string,
    enabled: Option<bool>, group: Option<string>, tags: seq<string>,
    provider: Provider, prompt: Prompt, capabilities: Capabilities, runtime: Runtime,
    input: Option<Contract.Node>, output: Option<Contract.Node>)

  // Drivers

  const CODEX := "codex"

  function RuntimeDriver(lib: Library, driver: string): string {
    lib.normalizeDriver(AsciiLower(Trim(driver)))
  }

  function PublicDriver(lib: Library, driver: string): string {
    Replace(RuntimeDriver(lib, driver), "-", "_")
  }

  predicate IsKnownDriver(lib: Library, driver: string) {
    var normalized := RuntimeDriver(lib, driver);
    normalized == CODEX || lib.supports(normalized)
  }

  function ExpectedKind(lib: Library, driver: string): Option<ConfigKind> {
    var normalized := RuntimeDriver(lib, driver);
    if normalized == CODEX then Some(ForCodex)
    else
      match lib.claudeKind(normalized)
      case Some(PlainClaude) => Some(ForClaudeCode)
      case Some(Compatible) => Some(ForCompatible)
      case None => None
  }

  function NormalizedFor(lib: Library, config: ProviderConfig, driver: string): ProviderConfig {
    if config != EmptyConfig then config
    else
      match ExpectedKind(lib, driver)
      case Some(ForCodex) => CodexConfig(map[])
      case Some(ForClaudeCode) => ClaudeCodeConfig(map[])
      case Some(ForCompatible) => ClaudeCompatibleConfig(map[])
      case None => EmptyConfig
  }

  predicate Matches(lib: Library, config: ProviderConfig, driver: string) {
    match (config, ExpectedKind(lib, driver))
    case (EmptyConfig, Some(_)) => true
    case (CodexConfig(_), Some(ForCodex)) => true
    case (ClaudeCodeConfig(_), Some(ForClaudeCode)) => true
    case (ClaudeCompatibleConfig(_), Some(ForCompatible)) => true
    case _ => false
  }

  // Validation

  datatype Severity = Error | Warning

  datatype Code =
    | MissingField | UnknownDriver | InvalidField | InvalidEnumValue
    | InvalidProviderConfig | InvalidRequestExtra | InvalidContract | MissingSemanticMetadata

  datatype Place =
    | AtId | AtName | AtDriver | AtModel | AtMaxTokens | AtDelegation(index: nat) | AtWorkspace
    | AtMemoryPolicy | AtHitl | AtConfig | AtExtra(key: string)
    | InInput(path: seq<Contract.Step>) | InOutput(path: seq<Contract.Step>)
    | AtArtifactType | AtDocType

  datatype Issue = Issue(severity: Severity, code: Code, place: Place)

  /** One blocking issue if `bad`. */
  function ErrorIf(bad: bool, code: Code, place: Place): seq<Issue> {
    if bad then [Issue(Error, code, place)] else []
  }

  predicate Blank(s: string) { Trim(s) == "" }

  function DelegationIssues(kinds: seq<DelegationKind>, upTo: nat): seq<Issue>
    requires upTo <= |kinds|
  {
    if upTo == 0 then []
    else
      DelegationIssues(kinds, upTo - 1)
      + ErrorIf(kinds[upTo - 1].Unknown?, InvalidEnumValue, AtDelegation(upTo - 1))
  }

  function MissingFields(d: Definition): seq<Issue> {
    ErrorIf(Blank(d.id), MissingField, AtId)
    + ErrorIf(Blank(d.name), MissingField, AtName)
    + ErrorIf(Blank(d.provider.driver), MissingField, AtDriver)
    + ErrorIf(Blank(d.provider.model), MissingField, AtModel)
  }

  function ProviderFields(lib: Library, p: Provider): seq<Issue> {
    var driver := RuntimeDriver(lib, p.driver);
    ErrorIf(driver != "" && !IsKnownDriver(lib, driver), UnknownDriver, AtDriver)
    + ErrorIf(p.maxTokens == Some(0), InvalidField, AtMaxTokens)
  }

  function EnumFields(d: Definition): seq<Issue> {
    DelegationIssues(d.capabilities.delegation, |d.capabilities.delegation|)
    + ErrorIf(d.capabilities.workspace.UnknownWorkspace?, InvalidEnumValue, AtWorkspace)
    + ErrorIf(d.runtime.memoryPolicy.UnknownMemory?, InvalidEnumValue, AtMemoryPolicy)
    + ErrorIf(d.runtime.hitl.UnknownHitl?, InvalidEnumValue, AtHitl)
  }

  function SchemaIssues(lib: Library, d: Definition): seq<Issue> {
    MissingFields(d) + ProviderFields(lib, d.provider) + EnumFields(d)
  }

  function ExtraIssues(keys: seq<string>): seq<Issue> {
    if keys == [] then []
    else ExtraIssues(keys[..|keys| - 1]) + [Issue(Error, InvalidRequestExtra, AtExtra(keys[|keys| - 1]))]
  }

  function Prefixed(issues: seq<Contract.Issue>, input: bool): seq<Issue> {
    if issues == [] then []
    else
      var path := issues[|issues| - 1].path;
      Prefixed(issues[..|issues| - 1], input)
      + [Issue(Error, InvalidContract, if input then InInput(path) else InOutput(path))]
  }

  predicate BlankOption(s: Option<string>) { s.None? || Blank(s.value) }

  function OutputIssues(output: Contract.Node): seq<Issue> {
    match output.kind
    case KArtifactRef => ErrorIf(BlankOption(output.artifactType), MissingSemanticMetadata, AtArtifactType)
    case KDocRef => ErrorIf(BlankOption(output.docType), MissingSemanticMetadata, AtDocType)
    case _ => []
  }

  function InputChecks(input: Option<Contract.Node>): seq<Issue> {
    if input.None? then [] else Prefixed(Contract.Validate(input.value, []), true)
  }

  function OutputChecks(output: Option<Contract.Node>): seq<Issue> {
    if output.None? then []
    else Prefixed(Contract.Validate(output.value, []), false) + OutputIssues(output.value)
  }

  function ConfigIssues(lib: Library, p: Provider): seq<Issue> {
    var driver := RuntimeDriver(lib, p.driver);
    ErrorIf(driver != "" && IsKnownDriver(lib, driver) && !Matches(lib, p.config, driver),
            InvalidProviderConfig, AtConfig)
  }

  function SemanticIssues(lib: Library, d: Definition): seq<Issue> {
    ConfigIssues(lib, d.provider)
    + ExtraIssues(lib.badExtras(d.provider.requestExtra))
    + InputChecks(d.input)
    + OutputChecks(d.output)
  }

  predicate Blocking(lib: Library, d: Definition) {
    exists issue :: issue in SchemaIssues(lib, d) + SemanticIssues(lib, d) && issue.severity == Error
  }

  method Stage1SchemaValidate(lib: Library, d: Definition) returns (issues: seq<Issue>)
    ensures issues == SchemaIssues(lib, d)
  {
    hide MissingFields, ProviderFields, EnumFields;
    issues := PushMissingFields([], d);
    issues := PushProviderFields(issues, lib, d.provider);
    issues := PushEnumFields(issues, d);
  }

  method PushMissingFields(before: seq<Issue>, d: Definition) returns (issues: seq<Issue>)
    ensures issues == before + MissingFields(d)
  {
    hide ErrorIf, Blank;
    issues := PushMissing(before, AtId, d.id);
    issues := PushMissing(issues, AtName, d.name);
    issues := PushMissing(issues, AtDriver, d.provider.driver);
    issues := PushMissing(issues, AtModel, d.provider.model);
  }

  method PushProviderFields(before: seq<Issue>, lib: Library, p: Provider) returns (issues: seq<Issue>)
    ensures issues == before + ProviderFields(lib, p)
  {
    hide RuntimeDriver, IsKnownDriver;
    issues := before;
    var driver := RuntimeDriver(lib, p.driver);
    if driver != "" && !IsKnownDriver(lib, driver) {
      issues := issues + [Issue(Error, UnknownDriver, AtDriver)];
    }
    if p.maxTokens == Some(0) { issues := issues + [Issue(Error, InvalidField, AtMaxTokens)]; }
  }

  method PushEnumFields(before: seq<Issue>, d: Definition) returns (issues: seq<Issue>)
    ensures issues == before + EnumFields(d)
  {
    hide DelegationIssues;
    issues := PushDelegation(before, d.capabilities.delegation);
    if d.capabilities.workspace.UnknownWorkspace? {
      issues := issues + [Issue(Error, InvalidEnumValue, AtWorkspace)];
    }
    if d.runtime.memoryPolicy.UnknownMemory? {
      issues := issues + [Issue(Error, InvalidEnumValue, AtMemoryPolicy)];
    }
    if d.runtime.hitl.UnknownHitl? { issues := issues + [Issue(Error, InvalidEnumValue, AtHitl)]; }
  }

  method PushMissing(before: seq<Issue>, place: Place, value: string) returns (issues: seq<Issue>)
    ensures issues == before + ErrorIf(Blank(value), MissingField, place)
  {
    issues := before;
    if Trim(value) == "" { issues := issues + [Issue(Error, MissingField, place)]; }
  }

  method PushDelegation(before: seq<Issue>, kinds: seq<DelegationKind>) returns (issues: seq<Issue>)
    ensures issues == before + DelegationIssues(kinds, |kinds|)
  {
    issues := before;
    for i := 0 to |kinds|
      invariant issues == before + DelegationIssues(kinds, i)
    {
      if kinds[i].Unknown? { issues := issues + [Issue(Error, InvalidEnumValue, AtDelegation(i))]; }
    }
  }

  // Normal form

  function TrimmedOption(s: Option<string>): Option<string> {
    if BlankOption(s) then None else Some(Trim(s.value))
  }

  function NormalizeContract(n: Option<Contract.Node>): Option<Contract.Node> {
    if n.None? then None else Some(Contract.Normalize(n.value))
  }

  function NormalizeProvider(lib: Library, p: Provider): Provider {
    var driver := PublicDriver(lib, p.driver);
    Provider(driver, Trim(p.model), TrimmedOption(p.profile), p.maxTokens,
             NormalizedFor(lib, p.config, driver), p.requestExtra)
  }

  function NormalizePrompt(p: Prompt): Prompt {
    Prompt(TrimmedOption(p.system), TrimmedOption(p.instructions), CanonicalStrings(p.skills))
  }

  function NormalizeCapabilities(c: Capabilities): Capabilities {
    Capabilities(CanonicalStrings(c.tools), CanonicalStrings(c.primitives),
                 CanonicalKinds(c.delegation), c.workspace, c.network)
  }

  function Normalize(lib: Library, d: Definition): Definition {
    Definition(Trim(d.id), Trim(d.name), Trim(d.version), Trim(d.description),
               Some(if d.enabled.Some? then d.enabled.value else true),
               TrimmedOption(d.group), CanonicalStrings(d.tags),
               NormalizeProvider(lib, d.provider), NormalizePrompt(d.prompt),
               NormalizeCapabilities(d.capabilities), d.runtime,
               NormalizeContract(d.input), NormalizeContract(d.output))
  }

  /** The normal form, one field of the definition after the other. */
  method Stage4Normalize(lib: Library, definition: Definition) returns (d: Definition)
    ensures d == Normalize(lib, definition)
  {
    hide Trim, TrimmedOption, CanonicalStrings, NormalizeProvider, NormalizePrompt, NormalizeCapabilities;
    d := definition;
    d := d.(id := Trim(d.id));
    d := d.(name := Trim(d.name));
    d := d.(version := Trim(d.version));
    d := d.(description := Trim(d.description));
    d := d.(enabled := Some(if d.enabled.Some? then d.enabled.value else true));
    d := d.(group := TrimmedOption(d.group));
    var tags := DedupeAndSortStrings(d.tags);
    d := d.(tags := tags);
    var provider := Stage4Provider(lib, d.provider);
    var prompt := Stage4Prompt(d.prompt);
    var capabilities := Stage4Capabilities(d.capabilities);
    d := d.(provider := provider, prompt := prompt, capabilities := capabilities);
    if d.input.Some? { d := d.(input := Some(Contract.Normalize(d.input.value))); }
    if d.output.Some? { d := d.(output := Some(Contract.Normalize(d.output.value))); }
  }

  method Stage4Provider(lib: Library, provider: Provider) returns (p: Provider)
    ensures p == NormalizeProvider(lib, provider)
  {
    hide RuntimeDriver, NormalizedFor;
    p := provider;
    p := p.(driver := PublicDriver(lib, p.driver));
    p := p.(model := Trim(p.model));
    p := p.(profile := TrimmedOption(p.profile));
    p := p.(config := NormalizedFor(lib, p.config, p.driver));
  }

  method Stage4Prompt(prompt: Prompt) returns (p: Prompt)
    ensures p == NormalizePrompt(prompt)
  {
    p := prompt;
    p := p.(system := TrimmedOption(p.system));
    p := p.(instructions := TrimmedOption(p.instructions));
    var skills := DedupeAndSortStrings(p.skills);
    p := p.(skills := skills);
  }

  method Stage4Capabilities(capabilities: Capabilities) returns (c: Capabilities)
    ensures c == NormalizeCapabilities(capabilities)
  {
    c := capabilities;
    var tools := DedupeAndSortStrings(c.tools);
    c := c.(tools := tools);
    var primitives := DedupeAndSortStrings(c.primitives);
    c := c.(primitives := primitives);
    var delegation := DedupeAndSortDelegation(c.delegation);
    c := c.(delegation := delegation);
  }

  // The gates of the compiler

  datatype Gate = Passed | NotCompileReady | NotNormalized

  function GateOf(lib: Library, d: Definition): Gate {
    if Blocking(lib, d) then NotCompileReady
    else if Normalize(lib, d) != d then NotNormalized
    else Passed
  }

  method HasBlockingIssues(lib: Library, d: Definition) returns (blocking: bool)
    ensures blocking == Blocking(lib, d)
  {
    hide SchemaIssues, SemanticIssues;
    var issues := Stage1SchemaValidate(lib, d);
    issues := issues + SemanticIssues(lib, d);
    blocking := false;
    for i := 0 to |issues|
      invariant blocking == exists k :: 0 <= k < i && issues[k].severity == Error
    {
      if issues[i].severity == Error { blocking := true; }
    }
  }

  /** What the compiler looks at before it builds anything. */
  method CompileGates(lib: Library, d: Definition) returns (gate: Gate)
    ensures gate == GateOf(lib, d)
  {
    hide Blocking, Normalize;
    var blocking := HasBlockingIssues(lib, d);
    if blocking { return NotCompileReady; }
    var normal := Stage4Normalize(lib, d);
    if normal != d { return NotNormalized; }
    return Passed;
  }
}
