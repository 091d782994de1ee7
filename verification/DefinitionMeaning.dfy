/** What a definition says, field by field, and that its normal form is the form of exactly the
    definitions that say the same. */
module DefinitionMeaning {
  import opened Text
  import opened CanonicalLists
  import opened Delegation
  import opened AgentDefinition
  import opened DefinitionPipeline
  import Contract
  import ContractMeaning

  /** Texts that differ at most in the blanks around them. */
  predicate SameText(a: string, b: string) { Trim(a) == Trim(b) }

  /** Optional texts; a blank one counts as absent. */
  predicate SameOption(a: Option<string>, b: Option<string>) {
    if BlankOption(a) || BlankOption(b) then BlankOption(a) && BlankOption(b) else SameText(a.value, b.value)
  }

  /** The configuration is of the kind that a driver wants, by its canonical name, or is absent for a
      driver that wants one. */
  predicate Fits(lib: Library, name: string, config: ProviderConfig) {
    match config
    case EmptyConfig => name == "codex" || lib.claudeKind(name).Some?
    case CodexConfig(_) => name == "codex"
    case ClaudeCodeConfig(_) => name != "codex" && lib.claudeKind(name) == Some(PlainClaude)
    case ClaudeCompatibleConfig(_) => name != "codex" && lib.claudeKind(name) == Some(Compatible)
    case UnknownConfig(_) => false
  }

  lemma FitsIff(lib: Library, driver: string, config: ProviderConfig)
    ensures Matches(lib, config, driver) <==> Fits(lib, RuntimeDriver(lib, driver), config)
    ensures ExpectedKind(lib, driver).Some? <==> Fits(lib, RuntimeDriver(lib, driver), EmptyConfig)
  {
    hide RuntimeDriver;
  }

  function SmallLetter(c: char): char { if 'A' <= c <= 'Z' then (c as int + 32) as char else c }

  /** The canonical name of a driver is that of its name in small letters, without the blanks around it. */
  lemma DriverRead(lib: Library, before: string, name: string, after: string, small: string)
    requires AllSpace(before, IsWhitespace) && AllSpace(after, IsWhitespace)
    requires name != "" && !IsWhitespace(name[0]) && !IsWhitespace(name[|name| - 1])
    requires |small| == |name| && forall i :: 0 <= i < |name| ==> small[i] == SmallLetter(name[i])
    ensures RuntimeDriver(lib, before + name + after) == lib.normalizeDriver(small)
  {
    Strips(before, name, after, IsWhitespace);
    assert AsciiLower(name) == small;
  }

  lemma {:induction false} ReplaceEach(s: string, c: char, d: char)
    ensures |Replace(s, [c], [d])| == |s|
    ensures forall i :: 0 <= i < |s| ==> Replace(s, [c], [d])[i] == if s[i] == c then d else s[i]
  {
    if s != "" {
      assert [c] <= s <==> s[0] == c;
      ReplaceEach(s[1..], c, d);
    }
  }

  /** The public name is the canonical one with every hyphen as an underscore. */
  lemma PublicName(lib: Library, driver: string)
    ensures var public, name := PublicDriver(lib, driver), RuntimeDriver(lib, driver);
            && |public| == |name|
            && forall i :: 0 <= i < |name| ==> public[i] == if name[i] == '-' then '_' else name[i]
  {
    ReplaceEach(RuntimeDriver(lib, driver), '-', '_');
    assert ['-'] == "-" && ['_'] == "_";
    hide RuntimeDriver;
  }

  /** The configuration that a driver has when none is given: the empty one of its kind. */
  predicate DefaultConfig(lib: Library, driver: string, config: ProviderConfig) {
    var name := RuntimeDriver(lib, driver);
    if Fits(lib, name, EmptyConfig) then
      && Fits(lib, name, config)
      && config in {CodexConfig(map[]), ClaudeCodeConfig(map[]), ClaudeCompatibleConfig(map[])}
    else config == EmptyConfig
  }

  predicate SameConfig(lib: Library, driver: string, a: ProviderConfig, b: ProviderConfig) {
    || a == b
    || (a == EmptyConfig && DefaultConfig(lib, driver, b))
    || (b == EmptyConfig && DefaultConfig(lib, driver, a))
  }

  predicate SameProvider(lib: Library, a: Provider, b: Provider) {
    && PublicDriver(lib, a.driver) == PublicDriver(lib, b.driver)
    && SameConfig(lib, PublicDriver(lib, a.driver), a.config, b.config)
    && SameText(a.model, b.model) && SameOption(a.profile, b.profile)
    && a.maxTokens == b.maxTokens && a.requestExtra == b.requestExtra
  }

  ghost predicate SamePrompt(a: Prompt, b: Prompt) {
    SameOption(a.system, b.system) && SameOption(a.instructions, b.instructions) && SameNames(a.skills, b.skills)
  }

  /** For delegation the first kind of every spelling counts; in a list that was read that is the
      only one. */
  ghost predicate SameCapabilities(a: Capabilities, b: Capabilities) {
    && SameNames(a.tools, b.tools) && SameNames(a.primitives, b.primitives)
    && SameFirsts(a.delegation, b.delegation, AsStr)
    && a.workspace == b.workspace && a.network == b.network
  }

  predicate SameOptionalContract(a: Option<Contract.Node>, b: Option<Contract.Node>) {
    a.Some? == b.Some? && (a.Some? ==> ContractMeaning.SameContract(a.value, b.value))
  }

  ghost predicate Equivalent(lib: Library, a: Definition, b: Definition) {
    && SameText(a.id, b.id) && SameText(a.name, b.name)
    && SameText(a.version, b.version) && SameText(a.description, b.description)
    && (a.enabled == Some(false) <==> b.enabled == Some(false))
    && SameOption(a.group, b.group) && SameNames(a.tags, b.tags)
    && SameProvider(lib, a.provider, b.provider)
    && SamePrompt(a.prompt, b.prompt)
    && SameCapabilities(a.capabilities, b.capabilities)
    && a.runtime == b.runtime
    && SameOptionalContract(a.input, b.input) && SameOptionalContract(a.output, b.output)
  }

  // One normal form exactly for equivalent definitions

  lemma OptionIff(a: Option<string>, b: Option<string>)
    ensures TrimmedOption(a) == TrimmedOption(b) <==> SameOption(a, b)
  {
    hide Trim;
  }

  lemma ConfigIff(lib: Library, driver: string, a: ProviderConfig, b: ProviderConfig)
    ensures NormalizedFor(lib, a, driver) == NormalizedFor(lib, b, driver) <==> SameConfig(lib, driver, a, b)
  {
    hide RuntimeDriver;
  }

  lemma ProviderIff(lib: Library, a: Provider, b: Provider)
    ensures NormalizeProvider(lib, a) == NormalizeProvider(lib, b) <==> SameProvider(lib, a, b)
  {
    hide Trim, TrimmedOption, SameOption, NormalizedFor, SameConfig, PublicDriver;
    OptionIff(a.profile, b.profile);
    ConfigIff(lib, PublicDriver(lib, a.driver), a.config, b.config);
  }

  lemma PromptIff(a: Prompt, b: Prompt)
    ensures NormalizePrompt(a) == NormalizePrompt(b) <==> SamePrompt(a, b)
  {
    hide TrimmedOption, SameOption, CanonicalStrings, Names;
    OptionIff(a.system, b.system);
    OptionIff(a.instructions, b.instructions);
    StringsIff(a.skills, b.skills);
  }

  lemma CapabilitiesIff(a: Capabilities, b: Capabilities)
    ensures NormalizeCapabilities(a) == NormalizeCapabilities(b) <==> SameCapabilities(a, b)
  {
    hide CanonicalStrings, Names, Canonical, SameFirsts, AsStr;
    StringsIff(a.tools, b.tools);
    StringsIff(a.primitives, b.primitives);
    CanonicalIff(a.delegation, b.delegation, AsStr);
  }

  lemma ContractIff(a: Option<Contract.Node>, b: Option<Contract.Node>)
    ensures NormalizeContract(a) == NormalizeContract(b) <==> SameOptionalContract(a, b)
  {
    hide Contract.Normalize, ContractMeaning.SameContract;
    if a.Some? && b.Some? { ContractMeaning.SameNormalIff(a.value, b.value); }
  }

  lemma TagsIff(a: seq<string>, b: seq<string>)
    ensures CanonicalStrings(a) == CanonicalStrings(b) <==> SameNames(a, b)
  {
    hide CanonicalStrings, Names;
    StringsIff(a, b);
  }

  /** Two definitions have one normal form exactly when they say the same. */
  lemma SameNormalFormIff(lib: Library, a: Definition, b: Definition)
    ensures Normalize(lib, a) == Normalize(lib, b) <==> Equivalent(lib, a, b)
  {
    hide Trim, TrimmedOption, SameOption, CanonicalStrings, SameNames, NormalizeProvider, SameProvider,
      NormalizePrompt, SamePrompt, NormalizeCapabilities, SameCapabilities, NormalizeContract, SameOptionalContract;
    OptionIff(a.group, b.group);
    TagsIff(a.tags, b.tags);
    ProviderIff(lib, a.provider, b.provider);
    PromptIff(a.prompt, b.prompt);
    CapabilitiesIff(a.capabilities, b.capabilities);
    ContractIff(a.input, b.input);
    ContractIff(a.output, b.output);
  }

  // The normal form says the same

  lemma OptionKept(s: Option<string>)
    ensures SameOption(s, TrimmedOption(s))
  {
    hide Trim;
    if s.Some? { TrimTwice(s.value); }
  }

  lemma StringsKept(values: seq<string>)
    ensures SameNames(values, CanonicalStrings(values))
  {
    hide CanonicalStrings, SameNames;
    StringsIdempotent(values);
    TagsIff(values, CanonicalStrings(values));
  }

  lemma KindsAreKept(kinds: seq<DelegationKind>)
    ensures SameFirsts(kinds, CanonicalKinds(kinds), AsStr)
  {
    hide Canonical, FirstWith, AsStr;
    forall name ensures FirstWith(kinds, AsStr, name) == FirstWith(CanonicalKinds(kinds), AsStr, name) {
      CanonicalFirst(kinds, AsStr, name);
    }
  }

  lemma ContractKept(n: Option<Contract.Node>)
    ensures SameOptionalContract(n, NormalizeContract(n))
  {
    hide Contract.Normalize, ContractMeaning.SameContract;
    if n.Some? { ContractMeaning.NormalIsSame(n.value); }
  }

  /** The fields of the provider besides the name of its driver. */
  lemma ProviderKept(lib: Library, p: Provider)
    ensures var n, driver := NormalizeProvider(lib, p), PublicDriver(lib, p.driver);
            && n.driver == driver && SameConfig(lib, driver, p.config, n.config)
            && SameText(p.model, n.model) && SameOption(p.profile, n.profile)
            && p.maxTokens == n.maxTokens && p.requestExtra == n.requestExtra
  {
    hide Trim, TrimmedOption, SameOption, PublicDriver, RuntimeDriver;
    TrimTwice(p.model);
    OptionKept(p.profile);
  }

  /** The normal form says what the definition says, but that its driver is its public name: that
      is the same driver exactly when the name is its own public name. */
  lemma NormalSaysTheSameIff(lib: Library, d: Definition)
    ensures var driver := PublicDriver(lib, d.provider.driver);
            Equivalent(lib, d, Normalize(lib, d)) <==> PublicDriver(lib, driver) == driver
    ensures Equivalent(lib, d, Normalize(lib, d).(provider := d.provider))
  {
    hide Trim, TrimmedOption, SameOption, CanonicalStrings, SameNames, NormalizeProvider, SameConfig,
      CanonicalKinds, SameFirsts, NormalizeContract, SameOptionalContract, PublicDriver;
    TextsKept(d);
    OptionKept(d.group);
    OptionKept(d.prompt.system);
    OptionKept(d.prompt.instructions);
    StringsKept(d.tags);
    StringsKept(d.prompt.skills);
    StringsKept(d.capabilities.tools);
    StringsKept(d.capabilities.primitives);
    KindsAreKept(d.capabilities.delegation);
    ContractKept(d.input);
    ContractKept(d.output);
    ProviderKept(lib, d.provider);
    SelfOption(d.provider.profile);
    SelfConfig(lib, d.provider);
  }

  lemma TextsKept(d: Definition)
    ensures forall s :: s in {d.id, d.name, d.version, d.description} ==> SameText(s, Trim(s))
  {
    hide Trim;
    forall s | s in {d.id, d.name, d.version, d.description} ensures SameText(s, Trim(s)) { TrimTwice(s); }
  }

  lemma SelfOption(s: Option<string>)
    ensures SameOption(s, s)
  {
    hide Trim;
  }

  lemma SelfConfig(lib: Library, p: Provider)
    ensures SameConfig(lib, PublicDriver(lib, p.driver), p.config, p.config)
  {
    hide PublicDriver;
  }

  // Where issues are reported

  /** What is wrong at each place of a definition. */
  ghost predicate Wrong(lib: Library, d: Definition, place: Place, code: Code) {
    var driver := RuntimeDriver(lib, d.provider.driver);
    var name := RuntimeDriver(lib, driver);
    match place
    case AtId => code == MissingField && Blank(d.id)
    case AtName => code == MissingField && Blank(d.name)
    case AtDriver =>
      || (code == MissingField && Blank(d.provider.driver))
      || (code == UnknownDriver && driver != "" && name != "codex" && !lib.supports(name))
    case AtModel => code == MissingField && Blank(d.provider.model)
    case AtMaxTokens => code == InvalidField && d.provider.maxTokens == Some(0)
    case AtDelegation(i) =>
      code == InvalidEnumValue && i < |d.capabilities.delegation| && d.capabilities.delegation[i].Unknown?
    case AtWorkspace => code == InvalidEnumValue && d.capabilities.workspace.UnknownWorkspace?
    case AtMemoryPolicy => code == InvalidEnumValue && d.runtime.memoryPolicy.UnknownMemory?
    case AtHitl => code == InvalidEnumValue && d.runtime.hitl.UnknownHitl?
    case AtConfig =>
      && code == InvalidProviderConfig && driver != "" && (name == "codex" || lib.supports(name))
      && !Fits(lib, name, d.provider.config)
    case AtExtra(key) => code == InvalidRequestExtra && key in lib.badExtras(d.provider.requestExtra)
    case InInput(path) => code == InvalidContract && d.input.Some? && ContractWrong(d.input.value, path)
    case InOutput(path) => code == InvalidContract && d.output.Some? && ContractWrong(d.output.value, path)
    case AtArtifactType =>
      && code == MissingSemanticMetadata && d.output.Some?
      && d.output.value.kind == Contract.KArtifactRef && BlankOption(d.output.value.artifactType)
    case AtDocType =>
      && code == MissingSemanticMetadata && d.output.Some?
      && d.output.value.kind == Contract.KDocRef && BlankOption(d.output.value.docType)
  }

  ghost predicate ContractWrong(n: Contract.Node, path: seq<Contract.Step>) {
    exists problem :: ContractMeaning.ReportedAt(n, [], Contract.Issue(path, problem))
  }

  lemma {:induction false} DelegationIff(kinds: seq<DelegationKind>, upTo: nat, issue: Issue)
    requires upTo <= |kinds|
    ensures issue in DelegationIssues(kinds, upTo)
       <==> && issue.severity == Error && issue.code == InvalidEnumValue
            && issue.place.AtDelegation? && issue.place.index < upTo && kinds[issue.place.index].Unknown?
  {
    if upTo > 0 { DelegationIff(kinds, upTo - 1, issue); }
  }

  lemma {:induction false} ExtraIff(keys: seq<string>, issue: Issue)
    ensures issue in ExtraIssues(keys)
       <==> && issue.severity == Error && issue.code == InvalidRequestExtra
            && issue.place.AtExtra? && issue.place.key in keys
  {
    if keys != [] {
      ExtraIff(keys[..|keys| - 1], issue);
      assert keys == keys[..|keys| - 1] + [keys[|keys| - 1]];
    }
  }

  lemma {:induction false} PrefixedIff(issues: seq<Contract.Issue>, input: bool, issue: Issue)
    ensures issue in AgentDefinition.Prefixed(issues, input)
       <==> && issue.severity == Error && issue.code == InvalidContract
            && (if input then issue.place.InInput? else issue.place.InOutput?)
            && exists c :: c in issues && c.path == issue.place.path
  {
    if issues != [] {
      PrefixedIff(issues[..|issues| - 1], input, issue);
      assert issues == issues[..|issues| - 1] + [issues[|issues| - 1]];
    }
  }

  lemma ContractWrongIff(n: Contract.Node, path: seq<Contract.Step>)
    ensures ContractWrong(n, path) <==> exists c :: c in Contract.Validate(n, []) && c.path == path
  {
    hide Contract.Validate, ContractMeaning.ReportedAt;
    forall problem
      ensures ContractMeaning.ReportedAt(n, [], Contract.Issue(path, problem))
         <==> Contract.Issue(path, problem) in Contract.Validate(n, [])
    {
      ContractMeaning.IssueIff(n, [], Contract.Issue(path, problem));
    }
    if c :| c in Contract.Validate(n, []) && c.path == path { assert c == Contract.Issue(path, c.problem); }
  }

  lemma ErrorIff(bad: bool, code: Code, place: Place, issue: Issue)
    ensures issue in ErrorIf(bad, code, place) <==> bad && issue == Issue(Error, code, place)
  {}

  predicate InSchema(place: Place) {
    || place.AtId? || place.AtName? || place.AtDriver? || place.AtModel? || place.AtMaxTokens?
    || place.AtDelegation? || place.AtWorkspace? || place.AtMemoryPolicy? || place.AtHitl?
  }

  lemma MissingIff(d: Definition, issue: Issue)
    ensures issue in MissingFields(d)
       <==> issue.severity == Error && issue.code == MissingField
            && match issue.place
               case AtId => Blank(d.id)
               case AtName => Blank(d.name)
               case AtDriver => Blank(d.provider.driver)
               case AtModel => Blank(d.provider.model)
               case _ => false
  {
    ErrorIff(Blank(d.id), MissingField, AtId, issue);
    ErrorIff(Blank(d.name), MissingField, AtName, issue);
    ErrorIff(Blank(d.provider.driver), MissingField, AtDriver, issue);
    ErrorIff(Blank(d.provider.model), MissingField, AtModel, issue);
    hide Blank, ErrorIf;
  }

  lemma ProviderFieldIff(lib: Library, p: Provider, issue: Issue)
    ensures var driver := RuntimeDriver(lib, p.driver);
            issue in ProviderFields(lib, p)
            <==> issue.severity == Error
                 && ((issue.place == AtDriver && issue.code == UnknownDriver
                      && driver != "" && !IsKnownDriver(lib, driver))
                     || (issue.place == AtMaxTokens && issue.code == InvalidField && p.maxTokens == Some(0)))
  {
    hide IsKnownDriver, RuntimeDriver, ErrorIf;
    var driver := RuntimeDriver(lib, p.driver);
    ErrorIff(driver != "" && !IsKnownDriver(lib, driver), UnknownDriver, AtDriver, issue);
    ErrorIff(p.maxTokens == Some(0), InvalidField, AtMaxTokens, issue);
  }

  lemma EnumFieldIff(d: Definition, issue: Issue)
    ensures issue in EnumFields(d)
       <==> issue.severity == Error && issue.code == InvalidEnumValue
            && match issue.place
               case AtDelegation(i) => i < |d.capabilities.delegation| && d.capabilities.delegation[i].Unknown?
               case AtWorkspace => d.capabilities.workspace.UnknownWorkspace?
               case AtMemoryPolicy => d.runtime.memoryPolicy.UnknownMemory?
               case AtHitl => d.runtime.hitl.UnknownHitl?
               case _ => false
  {
    hide DelegationIssues, ErrorIf;
    DelegationIff(d.capabilities.delegation, |d.capabilities.delegation|, issue);
    ErrorIff(d.capabilities.workspace.UnknownWorkspace?, InvalidEnumValue, AtWorkspace, issue);
    ErrorIff(d.runtime.memoryPolicy.UnknownMemory?, InvalidEnumValue, AtMemoryPolicy, issue);
    ErrorIff(d.runtime.hitl.UnknownHitl?, InvalidEnumValue, AtHitl, issue);
  }

  lemma SchemaIff(lib: Library, d: Definition, issue: Issue)
    ensures issue in SchemaIssues(lib, d)
       <==> issue.severity == Error && InSchema(issue.place) && Wrong(lib, d, issue.place, issue.code)
  {
    hide Blank, RuntimeDriver, MissingFields, ProviderFields, EnumFields, ContractWrong;
    MissingIff(d, issue);
    ProviderFieldIff(lib, d.provider, issue);
    EnumFieldIff(d, issue);
  }

  lemma InputIff(input: Option<Contract.Node>, issue: Issue)
    ensures issue in InputChecks(input)
       <==> && issue.severity == Error && issue.code == InvalidContract && issue.place.InInput?
            && input.Some? && ContractWrong(input.value, issue.place.path)
  {
    hide ContractWrong, Contract.Validate, AgentDefinition.Prefixed;
    if input.Some? {
      PrefixedIff(Contract.Validate(input.value, []), true, issue);
      if issue.place.InInput? { ContractWrongIff(input.value, issue.place.path); }
    }
  }

  lemma OutputIff(output: Option<Contract.Node>, issue: Issue)
    ensures issue in OutputChecks(output)
       <==> issue.severity == Error && output.Some?
            && match issue.place
               case InOutput(path) => issue.code == InvalidContract && ContractWrong(output.value, path)
               case AtArtifactType =>
                 && issue.code == MissingSemanticMetadata && output.value.kind == Contract.KArtifactRef
                 && BlankOption(output.value.artifactType)
               case AtDocType =>
                 && issue.code == MissingSemanticMetadata && output.value.kind == Contract.KDocRef
                 && BlankOption(output.value.docType)
               case _ => false
  {
    hide ContractWrong, Contract.Validate, AgentDefinition.Prefixed, BlankOption;
    if output.Some? {
      PrefixedIff(Contract.Validate(output.value, []), false, issue);
      if issue.place.InOutput? { ContractWrongIff(output.value, issue.place.path); }
    }
  }

  lemma ConfigIssueIff(lib: Library, p: Provider, issue: Issue)
    ensures var driver := RuntimeDriver(lib, p.driver);
            issue in ConfigIssues(lib, p)
            <==> && issue == Issue(Error, InvalidProviderConfig, AtConfig)
                 && driver != "" && IsKnownDriver(lib, driver) && !Matches(lib, p.config, driver)
  {
    hide IsKnownDriver, RuntimeDriver, Matches;
  }

  lemma SemanticIff(lib: Library, d: Definition, issue: Issue)
    ensures issue in SemanticIssues(lib, d)
       <==> issue.severity == Error && !InSchema(issue.place) && Wrong(lib, d, issue.place, issue.code)
  {
    hide RuntimeDriver, Matches, Fits, ContractWrong, BlankOption, ConfigIssues, ExtraIssues, InputChecks,
      OutputChecks;
    FitsIff(lib, RuntimeDriver(lib, d.provider.driver), d.provider.config);
    ConfigIssueIff(lib, d.provider, issue);
    ExtraIff(lib.badExtras(d.provider.requestExtra), issue);
    InputIff(d.input, issue);
    OutputIff(d.output, issue);
  }

  /** An issue is reported exactly where something of that kind is wrong. */
  lemma IssuesExact(lib: Library, d: Definition, issue: Issue)
    ensures issue in SchemaIssues(lib, d) + SemanticIssues(lib, d)
       <==> issue.severity == Error && Wrong(lib, d, issue.place, issue.code)
  {
    hide Wrong, SchemaIssues, SemanticIssues, InSchema;
    SchemaIff(lib, d, issue);
    SemanticIff(lib, d, issue);
  }
}
