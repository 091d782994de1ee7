/** Input and output contracts of definitions: the parsed tree, its normal form, its
    structural check and its serialized form. */
module Contract {
  import opened Text

  datatype Kind =
    | KString | KInteger | KNumber | KBoolean | KObject | KArray | KAny
    | KArtifactRef | KDocRef | KIssueRef | KTaskRef | KTaskList | KRunRef

  /** Spellings accepted for a kind besides its own name. */
  datatype Alias = TextAlias | JsonAlias

  function KindName(k: Kind): string {
    match k
    case KString => "string"
    case KInteger => "integer"
    case KNumber => "number"
    case KBoolean => "boolean"
    case KObject => "object"
    case KArray => "array"
    case KAny => "any"
    case KArtifactRef => "artifact_ref"
    case KDocRef => "doc_ref"
    case KIssueRef => "issue_ref"
    case KTaskRef => "task_ref"
    case KTaskList => "task_list"
    case KRunRef => "run_ref"
  }

  function KindNamed(s: string): Option<Kind> {
    if s == "string" then Some(KString)
    else if s == "integer" then Some(KInteger)
    else if s == "number" then Some(KNumber)
    else if s == "boolean" then Some(KBoolean)
    else if s == "object" then Some(KObject)
    else if s == "array" then Some(KArray)
    else if s == "any" then Some(KAny)
    else if s == "artifact_ref" then Some(KArtifactRef)
    else if s == "doc_ref" then Some(KDocRef)
    else if s == "issue_ref" then Some(KIssueRef)
    else if s == "task_ref" then Some(KTaskRef)
    else if s == "task_list" then Some(KTaskList)
    else if s == "run_ref" then Some(KRunRef)
    else None
  }

  function AliasName(a: Alias): string {
    match a
    case TextAlias => "text"
    case JsonAlias => "json"
  }

  function AliasNamed(s: string): Option<Alias> {
    if s == "text" then Some(TextAlias) else if s == "json" then Some(JsonAlias) else None
  }

  function CanonicalKind(a: Alias): Kind {
    match a
    case TextAlias => KString
    case JsonAlias => KAny
  }

  /** The fields of an object contract, in the order of the sorted map that holds them. */
  datatype Fields = NoField | Field(name: string, node: Node, rest: Fields) {
    predicate Has(key: string) { this.Field? && (name == key || rest.Has(key)) }
  }

  /** The flags remember what the author wrote out, as opposed to what was filled in. */
  datatype Node = Node(
    kind: Kind,
    description: Option<string>,
    nullable: bool,
    fields: Option<Fields>,
    required: seq<string>,
    open: bool,
    items: Option<Node>,
    artifactType: Option<string>,
    docType: Option<string>,
    kindAlias: Option<Alias>,
    nullableExplicit: bool,
    requiredExplicit: bool,
    openExplicit: bool)

  // Normal form

  function Normalize(n: Node): Node {
    Node(n.kind, n.description, n.nullable,
         if n.fields.Some? then Some(NormalizeFields(n.fields.value)) else None,
         n.required, n.open,
         if n.items.Some? then Some(Normalize(n.items.value)) else None,
         n.artifactType, n.docType, None, true, n.requiredExplicit,
         n.openExplicit || n.kind == KObject)
  }

  function NormalizeFields(fs: Fields): Fields {
    match fs
    case NoField => NoField
    case Field(name, node, rest) => Field(name, Normalize(node), NormalizeFields(rest))
  }

  /** Normalizing twice is normalizing once. */
  lemma {:induction false} NormalizeIdempotent(n: Node)
    ensures Normalize(Normalize(n)) == Normalize(n)
  {
    hide NormalizeFields;
    if n.fields.Some? { NormalizeFieldsIdempotent(n.fields.value); }
    if n.items.Some? { NormalizeIdempotent(n.items.value); }
  }

  lemma {:induction false} NormalizeFieldsIdempotent(fs: Fields)
    ensures NormalizeFields(NormalizeFields(fs)) == NormalizeFields(fs)
  {
    match fs
    case NoField =>
    case Field(_, node, rest) =>
      NormalizeIdempotent(node);
      NormalizeFieldsIdempotent(rest);
  }

  lemma {:induction false} NormalizeKeepsNames(fs: Fields, key: string)
    ensures NormalizeFields(fs).Has(key) == fs.Has(key)
  {
    match fs
    case NoField =>
    case Field(_, _, rest) => NormalizeKeepsNames(rest, key);
  }

  // Structural check

  datatype Step = Child(name: string) | Indexed(name: string, index: nat) | NamedField(name: string)

  datatype Problem = MisplacedField(field: string, kind: Kind) | MissingReference(key: string)

  datatype Issue = Issue(path: seq<Step>, problem: Problem)

  function Misplaced(kind: Kind, field: string, present: bool, path: seq<Step>): seq<Issue> {
    if present then [Issue(path + [Child(field)], MisplacedField(field, kind))] else []
  }

  predicate HasField(fields: Option<Fields>, key: string) { fields.Some? && fields.value.Has(key) }

  /** The entries of `required` that name no field, each with its index. */
  function Missing(n: Node, upTo: nat, path: seq<Step>): seq<Issue>
    requires upTo <= |n.required|
  {
    if upTo == 0 then []
    else
      Missing(n, upTo - 1, path)
      + (if HasField(n.fields, n.required[upTo - 1]) then []
         else [Issue(path + [Indexed("required", upTo - 1)], MissingReference(n.required[upTo - 1]))])
  }

  function ObjectOnly(n: Node, path: seq<Step>): seq<Issue> {
    Misplaced(n.kind, "fields", n.fields.Some?, path)
    + Misplaced(n.kind, "required", n.requiredExplicit || n.required != [], path)
    + Misplaced(n.kind, "open", n.openExplicit, path)
  }

  function SemanticOnly(n: Node, path: seq<Step>): seq<Issue> {
    Misplaced(n.kind, "artifact_type", n.kind != KArtifactRef && n.artifactType.Some?, path)
    + Misplaced(n.kind, "doc_type", n.kind != KDocRef && n.docType.Some?, path)
  }

  /** The issues of one node, without those of its children. */
  function OwnIssues(n: Node, path: seq<Step>): seq<Issue> {
    if n.kind == KObject then
      Misplaced(n.kind, "items", n.items.Some?, path)
      + Misplaced(n.kind, "artifact_type", n.artifactType.Some?, path)
      + Misplaced(n.kind, "doc_type", n.docType.Some?, path)
      + Missing(n, |n.required|, path)
    else if n.kind == KArray then ObjectOnly(n, path) + SemanticOnly(n, path)
    else ObjectOnly(n, path) + Misplaced(n.kind, "items", n.items.Some?, path) + SemanticOnly(n, path)
  }

  function Validate(n: Node, path: seq<Step>): seq<Issue> {
    OwnIssues(n, path)
    + (if n.fields.Some? then ValidateFields(n.fields.value, path) else [])
    + (if n.items.Some? then Validate(n.items.value, path + [Child("items")]) else [])
  }

  function ValidateFields(fs: Fields, path: seq<Step>): seq<Issue> {
    match fs
    case NoField => []
    case Field(name, node, rest) => Validate(node, path + [NamedField(name)]) + ValidateFields(rest, path)
  }

  method CollectMissing(n: Node, path: seq<Step>, before: seq<Issue>) returns (issues: seq<Issue>)
    ensures issues == before + Missing(n, |n.required|, path)
  {
    issues := before;
    for i := 0 to |n.required|
      invariant issues == before + Missing(n, i, path)
    {
      if !HasField(n.fields, n.required[i]) {
        issues := issues + [Issue(path + [Indexed("required", i)], MissingReference(n.required[i]))];
      }
    }
  }

  method CollectOwn(n: Node, path: seq<Step>, before: seq<Issue>) returns (issues: seq<Issue>)
    ensures issues == before + OwnIssues(n, path)
  {
    hide Missing, Misplaced, ObjectOnly, SemanticOnly;
    issues := before;
    match n.kind
    case KObject =>
      issues := issues + Misplaced(n.kind, "items", n.items.Some?, path);
      issues := issues + Misplaced(n.kind, "artifact_type", n.artifactType.Some?, path);
      issues := issues + Misplaced(n.kind, "doc_type", n.docType.Some?, path);
      issues := CollectMissing(n, path, issues);
    case KArray =>
      issues := issues + ObjectOnly(n, path);
      issues := issues + SemanticOnly(n, path);
    case _ =>
      issues := issues + ObjectOnly(n, path);
      issues := issues + Misplaced(n.kind, "items", n.items.Some?, path);
      issues := issues + SemanticOnly(n, path);
  }

  /** One pass that appends the issues of a node and its descendants to the list. */
  method CollectIssues(n: Node, path: seq<Step>, before: seq<Issue>) returns (issues: seq<Issue>)
    ensures issues == before + Validate(n, path)
    decreases n
  {
    hide OwnIssues;
    issues := CollectOwn(n, path, before);
    if n.fields.Some? { issues := CollectFields(n.fields.value, path, issues); }
    if n.items.Some? { issues := CollectIssues(n.items.value, path + [Child("items")], issues); }
  }

  method CollectFields(fs: Fields, path: seq<Step>, before: seq<Issue>) returns (issues: seq<Issue>)
    ensures issues == before + ValidateFields(fs, path)
    decreases fs
  {
    hide Validate;
    issues := before;
    match fs
    case NoField =>
    case Field(name, node, rest) =>
      issues := CollectIssues(node, path + [NamedField(name)], issues);
      issues := CollectFields(rest, path, issues);
  }

  lemma {:induction false} NormalizeKeepsMissing(n: Node, upTo: nat, path: seq<Step>)
    requires upTo <= |n.required|
    ensures Missing(Normalize(n), upTo, path) == Missing(n, upTo, path)
  {
    if upTo > 0 {
      NormalizeKeepsMissing(n, upTo - 1, path);
      if n.fields.Some? { NormalizeKeepsNames(n.fields.value, n.required[upTo - 1]); }
    }
  }

  /** What normalizing leaves alone at the node itself. */
  lemma NormalizeKeepsHead(n: Node)
    ensures var m := Normalize(n);
            && m.kind == n.kind && m.required == n.required && m.requiredExplicit == n.requiredExplicit
            && m.fields.Some? == n.fields.Some? && m.items.Some? == n.items.Some?
            && m.artifactType == n.artifactType && m.docType == n.docType
            && (n.kind != KObject ==> m.openExplicit == n.openExplicit)
  {}

  lemma NormalizeKeepsOwn(n: Node, path: seq<Step>)
    ensures OwnIssues(Normalize(n), path) == OwnIssues(n, path)
  {
    hide Missing, Misplaced, Normalize;
    NormalizeKeepsHead(n);
    NormalizeKeepsMissing(n, |n.required|, path);
  }

  /** A normalized contract has exactly the issues of the contract, at the same paths and in
      the same order. */
  lemma {:induction false} NormalizeKeepsIssues(n: Node, path: seq<Step>)
    ensures Validate(Normalize(n), path) == Validate(n, path)
  {
    hide OwnIssues;
    NormalizeKeepsOwn(n, path);
    if n.fields.Some? { NormalizeKeepsFieldIssues(n.fields.value, path); }
    if n.items.Some? { NormalizeKeepsIssues(n.items.value, path + [Child("items")]); }
  }

  lemma {:induction false} NormalizeKeepsFieldIssues(fs: Fields, path: seq<Step>)
    ensures ValidateFields(NormalizeFields(fs), path) == ValidateFields(fs, path)
  {
    match fs
    case NoField =>
    case Field(name, node, rest) =>
      NormalizeKeepsIssues(node, path + [NamedField(name)]);
      NormalizeKeepsFieldIssues(rest, path);
  }

  /** Each part of a contract stands on a kind that can carry it, all the way down. */
  ghost predicate WellPlaced(n: Node) {
    && (n.fields.Some? || n.required != [] ==> n.kind == KObject)
    && (n.requiredExplicit || n.openExplicit ==> n.kind == KObject)
    && (n.items.Some? ==> n.kind == KArray && WellPlaced(n.items.value))
    && (n.artifactType.Some? ==> n.kind == KArtifactRef)
    && (n.docType.Some? ==> n.kind == KDocRef)
    && (forall i :: 0 <= i < |n.required| ==> HasField(n.fields, n.required[i]))
    && (n.fields.Some? ==> WellPlacedFields(n.fields.value))
  }

  ghost predicate WellPlacedFields(fs: Fields) {
    fs.NoField? || (WellPlaced(fs.node) && WellPlacedFields(fs.rest))
  }

  lemma {:induction false} NoneMissing(n: Node, upTo: nat, path: seq<Step>)
    requires upTo <= |n.required|
    ensures Missing(n, upTo, path) == [] <==> forall i :: 0 <= i < upTo ==> HasField(n.fields, n.required[i])
  {
    if upTo > 0 { NoneMissing(n, upTo - 1, path); }
  }

  /** The check reports nothing exactly for the contracts whose every part is well placed. */
  lemma {:induction false} AcceptsIff(n: Node, path: seq<Step>)
    ensures Validate(n, path) == [] <==> WellPlaced(n)
  {
    hide Missing, HasField;
    NoneMissing(n, |n.required|, path);
    if n.fields.Some? { AcceptsFieldsIff(n.fields.value, path); }
    if n.items.Some? { AcceptsIff(n.items.value, path + [Child("items")]); }
  }

  lemma {:induction false} AcceptsFieldsIff(fs: Fields, path: seq<Step>)
    ensures ValidateFields(fs, path) == [] <==> WellPlacedFields(fs)
  {
    if fs.Field? {
      AcceptsIff(fs.node, path + [NamedField(fs.name)]);
      AcceptsFieldsIff(fs.rest, path);
    }
  }

  // Serialized form

  datatype RawFields = NoRaw | RawField(name: string, raw: Raw, rest: RawFields)

  /** What stands in a file: parts that were not written are absent. */
  datatype Raw = Raw(
    kind: string,
    description: Option<string>,
    nullable: Option<bool>,
    fields: Option<RawFields>,
    required: Option<seq<string>>,
    open: Option<bool>,
    items: Option<Raw>,
    artifactType: Option<string>,
    docType: Option<string>)

  function OrFalse(b: Option<bool>): bool { b.Some? && b.value }

  function DeclaredKind(n: Node): string {
    if n.kindAlias.Some? then AliasName(n.kindAlias.value) else KindName(n.kind)
  }

  function Encode(n: Node): Raw {
    Raw(DeclaredKind(n), n.description,
        if n.nullableExplicit then Some(n.nullable) else None,
        if n.fields.Some? then Some(EncodeFields(n.fields.value)) else None,
        if n.requiredExplicit || n.required != [] then Some(n.required) else None,
        if n.openExplicit then Some(n.open) else None,
        if n.items.Some? then Some(Encode(n.items.value)) else None,
        n.artifactType, n.docType)
  }

  function EncodeFields(fs: Fields): RawFields {
    match fs
    case NoField => NoRaw
    case Field(name, node, rest) => RawField(name, Encode(node), EncodeFields(rest))
  }

  /** The kind a name stands for, through an alias or by itself. */
  function ResolveKind(s: string): Option<Kind> {
    if AliasNamed(s).Some? then Some(CanonicalKind(AliasNamed(s).value)) else KindNamed(s)
  }

  /** Reading fails when a kind anywhere in the tree is unknown. */
  function Decode(r: Raw): Option<Node> {
    var kind := ResolveKind(r.kind);
    var fields := if r.fields.Some? then DecodeFields(r.fields.value) else Some(NoField);
    var items := if r.items.Some? then Decode(r.items.value) else None;
    if kind.None? || fields.None? || (r.items.Some? && items.None?) then None
    else
      Some(Node(kind.value, r.description, OrFalse(r.nullable),
                if r.fields.Some? then fields else None,
                if r.required.Some? then r.required.value else [],
                OrFalse(r.open), items, r.artifactType, r.docType,
                AliasNamed(r.kind), r.nullable.Some?, r.required.Some?, r.open.Some?))
  }

  function DecodeFields(rs: RawFields): Option<Fields> {
    match rs
    case NoRaw => Some(NoField)
    case RawField(name, raw, rest) =>
      var node := Decode(raw);
      var more := DecodeFields(rest);
      if node.None? || more.None? then None else Some(Field(name, node.value, more.value))
  }

  /** No value without the flag that says it was written, and no alias of another kind. */
  predicate ConsistentHere(n: Node) {
    && (n.kindAlias.Some? ==> n.kind == CanonicalKind(n.kindAlias.value))
    && (n.nullable ==> n.nullableExplicit)
    && (n.open ==> n.openExplicit)
    && (n.required != [] ==> n.requiredExplicit)
  }

  predicate Consistent(n: Node) {
    && ConsistentHere(n)
    && (n.fields.Some? ==> ConsistentFields(n.fields.value))
    && (n.items.Some? ==> Consistent(n.items.value))
  }

  predicate ConsistentFields(fs: Fields) {
    fs.NoField? || (Consistent(fs.node) && ConsistentFields(fs.rest))
  }

  lemma NamesResolve(n: Node)
    ensures AliasNamed(DeclaredKind(n)) == n.kindAlias
    ensures ResolveKind(DeclaredKind(n))
         == Some(if n.kindAlias.Some? then CanonicalKind(n.kindAlias.value) else n.kind)
  {
    if n.kindAlias.None? { KindNameResolves(n.kind); }
  }

  lemma KindNameResolves(k: Kind)
    ensures AliasNamed(KindName(k)).None?
    ensures KindNamed(KindName(k)) == Some(k)
  {
    assert KindName(k)[0] != 't' || KindName(k)[1] == 'a';
  }

  lemma DeclaredResolves(s: string)
    ensures AliasNamed(s).Some? ==> AliasName(AliasNamed(s).value) == s
    ensures KindNamed(s).Some? ==> KindName(KindNamed(s).value) == s
  {}

  /** What comes back from a file at one node: the values that were flagged, and the kind of
      the alias. */
  lemma NodeReadBack(n: Node)
    requires n.fields.Some? ==> DecodeFields(EncodeFields(n.fields.value)).Some?
    requires n.items.Some? ==> Decode(Encode(n.items.value)).Some?
    ensures Decode(Encode(n)) == Some(Node(
      if n.kindAlias.Some? then CanonicalKind(n.kindAlias.value) else n.kind,
      n.description, n.nullableExplicit && n.nullable,
      if n.fields.Some? then DecodeFields(EncodeFields(n.fields.value)) else None,
      n.required, n.openExplicit && n.open,
      if n.items.Some? then Decode(Encode(n.items.value)) else None,
      n.artifactType, n.docType, n.kindAlias,
      n.nullableExplicit, n.requiredExplicit || n.required != [], n.openExplicit))
  {
    hide DeclaredKind, ResolveKind, AliasNamed, CanonicalKind, EncodeFields, DecodeFields;
    NamesResolve(n);
  }

  /** Whatever was written can be read back, and reading gives the node itself exactly when
      its flags are consistent with its values. */
  lemma {:induction false} RoundTripIff(n: Node)
    ensures Decode(Encode(n)).Some?
    ensures Decode(Encode(n)) == Some(n) <==> Consistent(n)
  {
    hide CanonicalKind, Encode, EncodeFields, Decode, DecodeFields, ConsistentFields;
    if n.fields.Some? { RoundTripFieldsIff(n.fields.value); }
    if n.items.Some? { RoundTripIff(n.items.value); }
    NodeReadBack(n);
  }

  lemma {:induction false} RoundTripFieldsIff(fs: Fields)
    ensures DecodeFields(EncodeFields(fs)).Some?
    ensures DecodeFields(EncodeFields(fs)) == Some(fs) <==> ConsistentFields(fs)
  {
    if fs.Field? {
      RoundTripIff(fs.node);
      RoundTripFieldsIff(fs.rest);
    }
  }

  /** What was read is consistent and is written back as it stood. */
  lemma {:induction false} ReadIsWrittenBack(r: Raw)
    ensures Decode(r).Some? ==> Consistent(Decode(r).value) && Encode(Decode(r).value) == r
  {
    hide KindName, KindNamed, AliasName, AliasNamed;
    DeclaredResolves(r.kind);
    if r.fields.Some? { ReadFieldsWrittenBack(r.fields.value); }
    if r.items.Some? { ReadIsWrittenBack(r.items.value); }
  }

  lemma {:induction false} ReadFieldsWrittenBack(rs: RawFields)
    ensures DecodeFields(rs).Some? ==>
              ConsistentFields(DecodeFields(rs).value) && EncodeFields(DecodeFields(rs).value) == rs
  {
    match rs
    case NoRaw =>
    case RawField(_, raw, rest) =>
      ReadIsWrittenBack(raw);
      ReadFieldsWrittenBack(rest);
  }

  /** Normalizing keeps a node consistent. */
  lemma {:induction false} NormalizeKeepsConsistent(n: Node)
    requires Consistent(n)
    ensures Consistent(Normalize(n))
  {
    hide NormalizeFields, CanonicalKind;
    if n.fields.Some? { NormalizeKeepsConsistentFields(n.fields.value); }
    if n.items.Some? { NormalizeKeepsConsistent(n.items.value); }
  }

  lemma {:induction false} NormalizeKeepsConsistentFields(fs: Fields)
    requires ConsistentFields(fs)
    ensures ConsistentFields(NormalizeFields(fs))
  {
    if fs.Field? {
      NormalizeKeepsConsistent(fs.node);
      NormalizeKeepsConsistentFields(fs.rest);
    }
  }

  /** A contract that was read can be stored in normal form and read again unchanged. */
  lemma NormalFormIsStored(r: Raw)
    requires Decode(r).Some?
    ensures var n := Normalize(Decode(r).value);
            Decode(Encode(n)) == Some(n) && Normalize(n) == n
  {
    hide Decode, Encode, Consistent, Normalize;
    ReadIsWrittenBack(r);
    NormalizeKeepsConsistent(Decode(r).value);
    RoundTripIff(Normalize(Decode(r).value));
    NormalizeIdempotent(Decode(r).value);
  }
}
