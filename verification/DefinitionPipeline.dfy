/** What the normal form of agent definitions guarantees: when it is one, and when a definition
    without blocking issues passes the gates of the compiler after it. */
module DefinitionPipeline {
  import opened Text
  import opened CanonicalLists
  import opened Delegation
  import opened AgentDefinition
  import Contract

  // Normalizing twice

  lemma TrimmedOptionTwice(s: Option<string>)
    ensures TrimmedOption(TrimmedOption(s)) == TrimmedOption(s)
  {
    hide Trim;
    if s.Some? { TrimTwice(s.value); }
  }

  lemma ContractTwice(n: Option<Contract.Node>)
    ensures NormalizeContract(NormalizeContract(n)) == NormalizeContract(n)
  {
    hide Contract.Normalize;
    if n.Some? { Contract.NormalizeIdempotent(n.value); }
  }

  lemma PromptTwice(p: Prompt)
    ensures NormalizePrompt(NormalizePrompt(p)) == NormalizePrompt(p)
  {
    hide TrimmedOption, CanonicalStrings;
    TrimmedOptionTwice(p.system);
    TrimmedOptionTwice(p.instructions);
    StringsIdempotent(p.skills);
  }

  lemma CapabilitiesTwice(c: Capabilities)
    ensures NormalizeCapabilities(NormalizeCapabilities(c)) == NormalizeCapabilities(c)
  {
    hide CanonicalStrings, Canonical, AsStr;
    StringsIdempotent(c.tools);
    StringsIdempotent(c.primitives);
    CanonicalIdempotent(c.delegation, AsStr);
  }

  lemma ConfigTwice(lib: Library, config: ProviderConfig, driver: string)
    ensures NormalizedFor(lib, NormalizedFor(lib, config, driver), driver) == NormalizedFor(lib, config, driver)
  {
    hide ExpectedKind;
  }

  lemma ProviderTwiceIff(lib: Library, p: Provider)
    ensures NormalizeProvider(lib, NormalizeProvider(lib, p)) == NormalizeProvider(lib, p)
       <==> PublicDriver(lib, PublicDriver(lib, p.driver)) == PublicDriver(lib, p.driver)
  {
    hide Trim, TrimmedOption, NormalizedFor, PublicDriver;
    TrimTwice(p.model);
    TrimmedOptionTwice(p.profile);
    ConfigTwice(lib, p.config, PublicDriver(lib, p.driver));
  }

  /** A definition is left alone by a second normalization exactly when its public driver name
      is. */
  lemma NormalizeTwiceIff(lib: Library, d: Definition)
    ensures Normalize(lib, Normalize(lib, d)) == Normalize(lib, d)
       <==> PublicDriver(lib, PublicDriver(lib, d.provider.driver)) == PublicDriver(lib, d.provider.driver)
  {
    hide Trim, TrimmedOption, CanonicalStrings, NormalizeProvider, NormalizePrompt, NormalizeCapabilities,
      NormalizeContract, PublicDriver;
    TrimTwice(d.id);
    TrimTwice(d.name);
    TrimTwice(d.version);
    TrimTwice(d.description);
    TrimmedOptionTwice(d.group);
    StringsIdempotent(d.tags);
    ProviderTwiceIff(lib, d.provider);
    PromptTwice(d.prompt);
    CapabilitiesTwice(d.capabilities);
    ContractTwice(d.input);
    ContractTwice(d.output);
  }

  // What blocks a definition

  /** The driver is written, supported, and the configuration is one it takes. */
  predicate DriverFits(lib: Library, driver: string, config: ProviderConfig) {
    var name := RuntimeDriver(lib, driver);
    && !Blank(driver)
    && (name != "" ==> IsKnownDriver(lib, name) && Matches(lib, config, name))
  }

  predicate OutputFits(n: Contract.Node) {
    && (n.kind == Contract.KArtifactRef ==> !BlankOption(n.artifactType))
    && (n.kind == Contract.KDocRef ==> !BlankOption(n.docType))
  }

  ghost predicate ContractsFit(input: Option<Contract.Node>, output: Option<Contract.Node>) {
    && (input.Some? ==> Contract.WellPlaced(input.value))
    && (output.Some? ==> Contract.WellPlaced(output.value) && OutputFits(output.value))
  }

  predicate EnumsFit(d: Definition) {
    && !d.capabilities.workspace.UnknownWorkspace?
    && !d.runtime.memoryPolicy.UnknownMemory?
    && !d.runtime.hitl.UnknownHitl?
  }

  predicate NamesFit(d: Definition) { !Blank(d.id) && !Blank(d.name) && !Blank(d.provider.model) }

  /** All that must hold of a definition apart from its driver and its delegation list. */
  ghost predicate RestFits(lib: Library, d: Definition) {
    && NamesFit(d) && EnumsFit(d) && ContractsFit(d.input, d.output)
    && d.provider.maxTokens != Some(0)
    && lib.badExtras(d.provider.requestExtra) == []
  }

  ghost predicate Acceptable(lib: Library, d: Definition) {
    && DriverFits(lib, d.provider.driver, d.provider.config)
    && AllKnown(d.capabilities.delegation)
    && RestFits(lib, d)
  }

  ghost predicate AllErrors(issues: seq<Issue>) {
    forall i :: 0 <= i < |issues| ==> issues[i].severity == Error
  }

  lemma {:induction false} DelegationIssuesIff(kinds: seq<DelegationKind>, upTo: nat)
    requires upTo <= |kinds|
    ensures AllErrors(DelegationIssues(kinds, upTo))
    ensures DelegationIssues(kinds, upTo) == [] <==> AllKnown(kinds[..upTo])
  {
    if upTo > 0 {
      DelegationIssuesIff(kinds, upTo - 1);
      assert kinds[..upTo] == kinds[..upTo - 1] + [kinds[upTo - 1]];
    }
  }

  lemma {:induction false} ExtraIssuesIff(keys: seq<string>)
    ensures AllErrors(ExtraIssues(keys))
    ensures ExtraIssues(keys) == [] <==> keys == []
  {
    if keys == [] {
    } else {
      ExtraIssuesIff(keys[..|keys| - 1]);
    }
  }

  lemma {:induction false} PrefixedIff(issues: seq<Contract.Issue>, input: bool)
    ensures AllErrors(Prefixed(issues, input))
    ensures Prefixed(issues, input) == [] <==> issues == []
  {
    if issues == [] {
    } else {
      PrefixedIff(issues[..|issues| - 1], input);
    }
  }

  lemma ContractIssuesIff(d: Definition)
    ensures AllErrors(InputChecks(d.input)) && AllErrors(OutputChecks(d.output))
    ensures InputChecks(d.input) == [] && OutputChecks(d.output) == [] <==> ContractsFit(d.input, d.output)
  {
    hide Contract.Validate, Contract.WellPlaced, Prefixed, Blank;
    if d.input.Some? {
      PrefixedIff(Contract.Validate(d.input.value, []), true);
      Contract.AcceptsIff(d.input.value, []);
    }
    if d.output.Some? {
      PrefixedIff(Contract.Validate(d.output.value, []), false);
      Contract.AcceptsIff(d.output.value, []);
    }
  }

  lemma MissingFieldsIff(d: Definition)
    ensures AllErrors(MissingFields(d))
    ensures MissingFields(d) == [] <==> NamesFit(d) && !Blank(d.provider.driver)
  {
    hide Blank;
  }

  lemma ProviderFieldsIff(lib: Library, p: Provider)
    ensures AllErrors(ProviderFields(lib, p))
    ensures ProviderFields(lib, p) == [] <==> p.maxTokens != Some(0) && DriverKnown(lib, p.driver)
  {
    hide RuntimeDriver, IsKnownDriver;
  }

  lemma EnumFieldsIff(d: Definition)
    ensures AllErrors(EnumFields(d))
    ensures EnumFields(d) == [] <==> EnumsFit(d) && AllKnown(d.capabilities.delegation)
  {
    hide DelegationIssues, AllKnown;
    var kinds := d.capabilities.delegation;
    DelegationIssuesIff(kinds, |kinds|);
    assert kinds[..|kinds|] == kinds;
  }

  predicate DriverKnown(lib: Library, driver: string) {
    var name := RuntimeDriver(lib, driver);
    name != "" ==> IsKnownDriver(lib, name)
  }

  lemma SchemaIssuesIff(lib: Library, d: Definition)
    ensures AllErrors(SchemaIssues(lib, d))
    ensures SchemaIssues(lib, d) == []
       <==> && NamesFit(d) && EnumsFit(d) && AllKnown(d.capabilities.delegation)
            && !Blank(d.provider.driver) && d.provider.maxTokens != Some(0)
            && DriverKnown(lib, d.provider.driver)
  {
    hide MissingFields, ProviderFields, EnumFields, NamesFit, EnumsFit, AllKnown, DriverKnown, Blank;
    MissingFieldsIff(d);
    ProviderFieldsIff(lib, d.provider);
    EnumFieldsIff(d);
  }

  lemma SemanticIssuesIff(lib: Library, d: Definition)
    ensures AllErrors(SemanticIssues(lib, d))
    ensures SemanticIssues(lib, d) == []
       <==> && ContractsFit(d.input, d.output) && lib.badExtras(d.provider.requestExtra) == []
            && (var name := RuntimeDriver(lib, d.provider.driver);
                name != "" && IsKnownDriver(lib, name) ==> Matches(lib, d.provider.config, name))
  {
    hide RuntimeDriver, IsKnownDriver, Matches, InputChecks, OutputChecks, ContractsFit, ExtraIssues;
    ExtraIssuesIff(lib.badExtras(d.provider.requestExtra));
    ContractIssuesIff(d);
  }

  /** A definition is blocked exactly when it is not acceptable. */
  lemma BlockingIff(lib: Library, d: Definition)
    ensures Blocking(lib, d) <==> !Acceptable(lib, d)
  {
    hide SchemaIssues, SemanticIssues, Blank, RuntimeDriver, IsKnownDriver, Matches, ContractsFit, AllKnown;
    SchemaIssuesIff(lib, d);
    SemanticIssuesIff(lib, d);
    var issues := SchemaIssues(lib, d) + SemanticIssues(lib, d);
    if issues != [] { assert issues[0] in issues && issues[0].severity == Error; }
  }

  // What normalizing does to a blocked or acceptable definition

  lemma BlankTrimmed(s: string)
    ensures Blank(Trim(s)) <==> Blank(s)
  {
    hide Trim;
    TrimTwice(s);
  }

  lemma OutputFitsNormalized(n: Contract.Node)
    ensures OutputFits(Contract.Normalize(n)) <==> OutputFits(n)
  {
    hide Contract.Normalize, BlankOption;
    Contract.NormalizeKeepsHead(n);
  }

  lemma ContractsFitNormalized(input: Option<Contract.Node>, output: Option<Contract.Node>)
    ensures ContractsFit(NormalizeContract(input), NormalizeContract(output)) <==> ContractsFit(input, output)
  {
    hide Contract.WellPlaced, Contract.Normalize, OutputFits;
    if input.Some? { WellPlacedNormalized(input.value); }
    if output.Some? {
      WellPlacedNormalized(output.value);
      OutputFitsNormalized(output.value);
    }
  }

  lemma WellPlacedNormalized(n: Contract.Node)
    ensures Contract.WellPlaced(Contract.Normalize(n)) <==> Contract.WellPlaced(n)
  {
    hide Contract.Validate, Contract.WellPlaced, Contract.Normalize;
    Contract.AcceptsIff(n, []);
    Contract.AcceptsIff(Contract.Normalize(n), []);
    Contract.NormalizeKeepsIssues(n, []);
  }

  lemma RestNormalized(lib: Library, d: Definition)
    ensures RestFits(lib, Normalize(lib, d)) <==> RestFits(lib, d)
  {
    hide Blank, Trim, ContractsFit, CanonicalStrings, TrimmedOption, NormalizedFor, PublicDriver, CanonicalKinds,
      NormalizeContract;
    BlankTrimmed(d.id);
    BlankTrimmed(d.name);
    BlankTrimmed(d.provider.model);
    ContractsFitNormalized(d.input, d.output);
  }

  /** The public name of the driver names itself, and fits. */
  predicate PublicDriverFits(lib: Library, p: Provider) {
    var driver := PublicDriver(lib, p.driver);
    PublicDriver(lib, driver) == driver && DriverFits(lib, driver, NormalizedFor(lib, p.config, driver))
  }

  /** The exact condition under which a definition without blocking issues passes both gates
      once it is normalized. It is about the driver alone: its public name must be a fixed
      point, and must still fit. */
  lemma GatesIff(lib: Library, d: Definition)
    requires !Blocking(lib, d)
    ensures GateOf(lib, Normalize(lib, d)) == Passed <==> PublicDriverFits(lib, d.provider)
  {
    hide Blocking, PublicDriver, NormalizedFor, DriverFits, RestFits, AllKnown, CanonicalKinds,
      CanonicalStrings, TrimmedOption, NormalizeContract, Trim;
    var n := Normalize(lib, d);
    BlockingIff(lib, d);
    BlockingIff(lib, n);
    RestNormalized(lib, d);
    KnownKept(d.capabilities.delegation);
    NormalizeTwiceIff(lib, d);
    assert n.provider == NormalizeProvider(lib, d.provider);
    assert n.capabilities.delegation == CanonicalKinds(d.capabilities.delegation);
  }

  /** The library names the driver the same under its public and its own name, and neither
      name is blank unless what was written is. */
  predicate DriverStable(lib: Library, driver: string) {
    var name := RuntimeDriver(lib, driver);
    && RuntimeDriver(lib, name) == name
    && RuntimeDriver(lib, PublicDriver(lib, driver)) == name
    && (Blank(PublicDriver(lib, driver)) <==> Blank(driver))
  }

  lemma MatchesNormalized(lib: Library, config: ProviderConfig, driver: string)
    requires DriverStable(lib, driver)
    ensures var name, public := RuntimeDriver(lib, driver), PublicDriver(lib, driver);
            Matches(lib, NormalizedFor(lib, config, public), name) <==> Matches(lib, config, name)
  {
    hide RuntimeDriver, PublicDriver, Blank;
    assert ExpectedKind(lib, PublicDriver(lib, driver)) == ExpectedKind(lib, RuntimeDriver(lib, driver));
  }

  lemma StableDriverFits(lib: Library, config: ProviderConfig, driver: string)
    requires DriverStable(lib, driver)
    ensures var public := PublicDriver(lib, driver);
            && PublicDriver(lib, public) == public
            && (DriverFits(lib, public, NormalizedFor(lib, config, public)) <==> DriverFits(lib, driver, config))
  {
    hide RuntimeDriver, NormalizedFor, Matches, IsKnownDriver, Blank, Replace;
    MatchesNormalized(lib, config, driver);
  }

  /** With a stable driver, normalizing never adds a blocking issue, and the only one it can
      remove is an unknown delegation kind written like a known one before it. */
  lemma BlockingNormalized(lib: Library, d: Definition)
    requires DriverStable(lib, d.provider.driver)
    ensures Blocking(lib, d) <==> Blocking(lib, Normalize(lib, d)) || !AllKnown(d.capabilities.delegation)
    ensures Faithful(d.capabilities.delegation) ==> (Blocking(lib, Normalize(lib, d)) <==> Blocking(lib, d))
  {
    hide Blocking, PublicDriver, NormalizedFor, DriverFits, RestFits, AllKnown, CanonicalKinds,
      CanonicalStrings, TrimmedOption, NormalizeContract, Trim, Faithful, DriverStable;
    var n := Normalize(lib, d);
    BlockingIff(lib, d);
    BlockingIff(lib, n);
    RestNormalized(lib, d);
    KnownKept(d.capabilities.delegation);
    StableDriverFits(lib, d.provider.config, d.provider.driver);
    assert n.provider == NormalizeProvider(lib, d.provider);
    assert n.capabilities.delegation == CanonicalKinds(d.capabilities.delegation);
  }

  /** With a stable driver, a definition without blocking issues compiles past both gates
      after one normalization, and normalizing again changes nothing. */
  lemma NormalizedCompiles(lib: Library, d: Definition)
    requires DriverStable(lib, d.provider.driver)
    requires !Blocking(lib, d)
    ensures GateOf(lib, Normalize(lib, d)) == Passed
    ensures Normalize(lib, Normalize(lib, d)) == Normalize(lib, d)
  {
    hide Blocking, Normalize, PublicDriver, NormalizedFor, DriverFits, GateOf, DriverStable;
    GatesIff(lib, d);
    BlockingIff(lib, d);
    NormalizeTwiceIff(lib, d);
    StableDriverFits(lib, d.provider.config, d.provider.driver);
  }

  /** A definition with other lists. */
  function WithLists(d: Definition, tags: seq<string>, skills: seq<string>, tools: seq<string>,
                     primitives: seq<string>, kinds: seq<DelegationKind>): Definition
  {
    d.(tags := tags, prompt := d.prompt.(skills := skills),
       capabilities := d.capabilities.(tools := tools, primitives := primitives, delegation := kinds))
  }

  ghost predicate SameNames(a: seq<string>, b: seq<string>) {
    forall name :: Names(a, name) <==> Names(b, name)
  }

  /** Definitions that differ only in their lists have the same normal form exactly when each list
      has the same values, whatever their order, repetition and surrounding blanks. */
  lemma ListOrderFree(lib: Library, d: Definition, tags: seq<string>, skills: seq<string>, tools: seq<string>,
                      primitives: seq<string>, kinds: seq<DelegationKind>)
    requires Faithful(kinds) && Faithful(d.capabilities.delegation)
    ensures Normalize(lib, WithLists(d, tags, skills, tools, primitives, kinds)) == Normalize(lib, d)
       <==> && SameNames(tags, d.tags) && SameNames(skills, d.prompt.skills)
            && SameNames(tools, d.capabilities.tools) && SameNames(primitives, d.capabilities.primitives)
            && (forall k :: k in kinds <==> k in d.capabilities.delegation)
  {
    hide Trim, TrimmedOption, CanonicalStrings, CanonicalKinds, NormalizeProvider, NormalizeContract, Names, Faithful;
    StringsIff(tags, d.tags);
    StringsIff(skills, d.prompt.skills);
    StringsIff(tools, d.capabilities.tools);
    StringsIff(primitives, d.capabilities.primitives);
    KindsOrderFree(kinds, d.capabilities.delegation);
    var e := WithLists(d, tags, skills, tools, primitives, kinds);
    assert Normalize(lib, e).prompt == NormalizePrompt(e.prompt);
    assert Normalize(lib, e).capabilities == NormalizeCapabilities(e.capabilities);
  }

  /** A provider library makes normalizing idempotent on all definitions exactly when its public
      name of every public driver name is that name. */
  lemma IdempotentLibraryIff(lib: Library, d: Definition)
    ensures (forall driver :: NormalizesOnce(lib, d.(provider := d.provider.(driver := driver))))
       <==> (forall driver :: PublicDriver(lib, PublicDriver(lib, driver)) == PublicDriver(lib, driver))
  {
    hide Normalize, PublicDriver;
    forall driver
      ensures NormalizesOnce(lib, d.(provider := d.provider.(driver := driver)))
         <==> PublicDriver(lib, PublicDriver(lib, driver)) == PublicDriver(lib, driver)
    {
      NormalizeTwiceIff(lib, d.(provider := d.provider.(driver := driver)));
    }
  }

  predicate NormalizesOnce(lib: Library, d: Definition) {
    Normalize(lib, Normalize(lib, d)) == Normalize(lib, d)
  }
}
