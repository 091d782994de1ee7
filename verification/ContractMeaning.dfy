/** What a normalized contract keeps, and which issue is reported where. */
module ContractMeaning {
  import opened Text
  import opened Contract

  // The same contract

  /** Two contracts say the same: they differ at most in how the kind was spelled and in what was
      written out although it is the default. */
  predicate SameContract(a: Node, b: Node) {
    && a.kind == b.kind && a.description == b.description && a.nullable == b.nullable
    && a.required == b.required && a.requiredExplicit == b.requiredExplicit
    && a.open == b.open && (a.kind != KObject ==> a.openExplicit == b.openExplicit)
    && a.artifactType == b.artifactType && a.docType == b.docType
    && a.fields.Some? == b.fields.Some? && (a.fields.Some? ==> SameFields(a.fields.value, b.fields.value))
    && a.items.Some? == b.items.Some? && (a.items.Some? ==> SameContract(a.items.value, b.items.value))
  }

  predicate SameFields(a: Fields, b: Fields) {
    match (a, b)
    case (NoField, NoField) => true
    case (Field(name, node, rest), Field(name', node', rest')) =>
      name == name' && SameContract(node, node') && SameFields(rest, rest')
    case _ => false
  }

  /** What two equal normal forms have in common, one level down. */
  predicate SameHere(a: Node, b: Node) {
    && a.kind == b.kind && a.description == b.description && a.nullable == b.nullable
    && a.required == b.required && a.requiredExplicit == b.requiredExplicit
    && a.open == b.open && (a.kind != KObject ==> a.openExplicit == b.openExplicit)
    && a.artifactType == b.artifactType && a.docType == b.docType
    && a.fields.Some? == b.fields.Some? && a.items.Some? == b.items.Some?
  }

  lemma NormalFormsIff(a: Node, b: Node)
    ensures Normalize(a) == Normalize(b)
       <==> && SameHere(a, b)
            && (a.fields.Some? ==> NormalizeFields(a.fields.value) == NormalizeFields(b.fields.value))
            && (a.items.Some? ==> Normalize(a.items.value) == Normalize(b.items.value))
  {
    hide NormalizeFields;
  }

  /** Contracts have one normal form exactly when they say the same. */
  lemma {:induction false} SameNormalIff(a: Node, b: Node)
    ensures Normalize(a) == Normalize(b) <==> SameContract(a, b)
  {
    NormalFormsIff(a, b);
    if a.fields.Some? && b.fields.Some? { SameNormalFieldsIff(a.fields.value, b.fields.value); }
    if a.items.Some? && b.items.Some? { SameNormalIff(a.items.value, b.items.value); }
    hide Normalize, NormalizeFields, SameFields;
  }

  lemma {:induction false} SameNormalFieldsIff(a: Fields, b: Fields)
    ensures NormalizeFields(a) == NormalizeFields(b) <==> SameFields(a, b)
  {
    if a.Field? && b.Field? {
      SameNormalIff(a.node, b.node);
      SameNormalFieldsIff(a.rest, b.rest);
      hide Normalize;
    }
  }

  /** The normal form says what the contract says. */
  lemma {:induction false} NormalIsSame(n: Node)
    ensures SameContract(n, Normalize(n))
  {
    if n.fields.Some? { NormalFieldsAreSame(n.fields.value); }
    if n.items.Some? { NormalIsSame(n.items.value); }
    hide NormalizeFields;
  }

  lemma {:induction false} NormalFieldsAreSame(fs: Fields)
    ensures SameFields(fs, NormalizeFields(fs))
  {
    if fs.Field? {
      NormalIsSame(fs.node);
      NormalFieldsAreSame(fs.rest);
      hide Normalize;
    }
  }

  /** The normal form has the canonical kind spelled, and `nullable`, and for objects `open`, written
      out, at every depth. */
  predicate WrittenOut(n: Node) {
    && n.kindAlias.None? && n.nullableExplicit && (n.kind == KObject ==> n.openExplicit)
    && (n.fields.Some? ==> AllWrittenOut(n.fields.value)) && (n.items.Some? ==> WrittenOut(n.items.value))
  }

  predicate AllWrittenOut(fs: Fields) { fs.NoField? || (WrittenOut(fs.node) && AllWrittenOut(fs.rest)) }

  lemma {:induction false} NormalIsWrittenOut(n: Node)
    ensures WrittenOut(Normalize(n))
  {
    if n.fields.Some? { NormalFieldsWrittenOut(n.fields.value); }
    if n.items.Some? { NormalIsWrittenOut(n.items.value); }
  }

  lemma {:induction false} NormalFieldsWrittenOut(fs: Fields)
    ensures AllWrittenOut(NormalizeFields(fs))
  {
    if fs.Field? {
      NormalIsWrittenOut(fs.node);
      NormalFieldsWrittenOut(fs.rest);
    }
  }

  // Where issues are

  /** `m` is the node at the end of the path. */
  ghost predicate Reaches(n: Node, path: seq<Step>, m: Node)
    decreases |path|
  {
    if path == [] then m == n
    else
      match path[0]
      case Child(name) => name == "items" && n.items.Some? && Reaches(n.items.value, path[1..], m)
      case NamedField(name) =>
        n.fields.Some? && exists child :: FieldIs(n.fields.value, name, child) && Reaches(child, path[1..], m)
      case Indexed(_, _) => false
  }

  predicate FieldIs(fs: Fields, name: string, child: Node) {
    fs.Field? && ((fs.name == name && fs.node == child) || FieldIs(fs.rest, name, child))
  }

  /** The part of a node that has the problem. */
  predicate Bad(m: Node, part: Step, problem: Problem) {
    match problem
    case MisplacedField(field, kind) =>
      && part == Child(field) && kind == m.kind
      && ((field == "items" && m.items.Some? && m.kind != KArray)
          || (field == "fields" && m.fields.Some? && m.kind != KObject)
          || (field == "required" && (m.requiredExplicit || m.required != []) && m.kind != KObject)
          || (field == "open" && m.openExplicit && m.kind != KObject)
          || (field == "artifact_type" && m.artifactType.Some? && m.kind != KArtifactRef)
          || (field == "doc_type" && m.docType.Some? && m.kind != KDocRef))
    case MissingReference(key) =>
      && m.kind == KObject && part.Indexed? && part.name == "required" && part.index < |m.required|
      && m.required[part.index] == key && !HasField(m.fields, key)
  }

  lemma {:induction false} MissingIff(n: Node, upTo: nat, path: seq<Step>, issue: Issue)
    requires upTo <= |n.required|
    ensures issue in Missing(n, upTo, path)
       <==> exists i :: 0 <= i < upTo && !HasField(n.fields, n.required[i])
                        && issue == Issue(path + [Indexed("required", i)], MissingReference(n.required[i]))
  {
    hide HasField;
    if upTo > 0 { MissingIff(n, upTo - 1, path, issue); }
  }

  lemma MisplacedIff(kind: Kind, field: string, present: bool, path: seq<Step>, issue: Issue)
    ensures issue in Misplaced(kind, field, present, path)
       <==> present && issue == Issue(path + [Child(field)], MisplacedField(field, kind))
  {}

  /** The issues of one node. */
  lemma OwnIff(n: Node, path: seq<Step>, issue: Issue)
    ensures issue in OwnIssues(n, path)
       <==> exists part :: issue.path == path + [part] && Bad(n, part, issue.problem)
  {
    hide HasField;
    MissingIff(n, |n.required|, path, issue);
    OwnParts(n, path, issue);
    if issue in OwnIssues(n, path) {
      if i :| 0 <= i < |n.required| && !HasField(n.fields, n.required[i])
              && issue == Issue(path + [Indexed("required", i)], MissingReference(n.required[i])) && n.kind == KObject {
        assert Bad(n, Indexed("required", i), issue.problem);
      } else {
        var field := issue.problem.field;
        assert Bad(n, Child(field), issue.problem);
      }
    }
  }

  lemma OwnParts(n: Node, path: seq<Step>, issue: Issue)
    ensures issue in OwnIssues(n, path)
       <==> || (n.kind == KObject && issue in Missing(n, |n.required|, path))
            || (issue.problem.MisplacedField? && issue.path == path + [Child(issue.problem.field)]
                && Bad(n, Child(issue.problem.field), issue.problem))
  {
    hide Missing;
    forall field, present ensures issue in Misplaced(n.kind, field, present, path)
                             <==> present && issue == Issue(path + [Child(field)], MisplacedField(field, n.kind)) {
      MisplacedIff(n.kind, field, present, path, issue);
    }
    hide Misplaced;
    MissingAreReferences(n, |n.required|, path);
  }

  lemma {:induction false} MissingAreReferences(n: Node, upTo: nat, path: seq<Step>)
    requires upTo <= |n.required|
    ensures forall issue :: issue in Missing(n, upTo, path) ==> issue.problem.MissingReference?
  {
    if upTo > 0 { MissingAreReferences(n, upTo - 1, path); }
  }

  /** An issue is reported exactly where its path leads to a node with that problem. */
  ghost predicate ReportedAt(n: Node, base: seq<Step>, issue: Issue) {
    exists path, m, part :: Reaches(n, path, m) && issue.path == base + path + [part] && Bad(m, part, issue.problem)
  }

  lemma {:induction false} IssueIff(n: Node, base: seq<Step>, issue: Issue)
    ensures issue in Validate(n, base) <==> ReportedAt(n, base, issue)
  {
    OwnIff(n, base, issue);
    if n.fields.Some? { FieldIssueIff(n.fields.value, base, issue); }
    if n.items.Some? { IssueIff(n.items.value, base + [Child("items")], issue); }
    hide OwnIssues, Bad, Validate;
    StepsDown(n, base, issue);
    ValidateParts(n, base, issue);
  }

  lemma ValidateParts(n: Node, base: seq<Step>, issue: Issue)
    ensures issue in Validate(n, base)
       <==> || issue in OwnIssues(n, base)
            || (n.fields.Some? && issue in ValidateFields(n.fields.value, base))
            || (n.items.Some? && issue in Validate(n.items.value, base + [Child("items")]))
  {
    hide OwnIssues, ValidateFields;
  }

  ghost predicate InField(fs: Fields, base: seq<Step>, issue: Issue) {
    exists name, child :: FieldIs(fs, name, child) && ReportedAt(child, base + [NamedField(name)], issue)
  }

  lemma {:induction false} FieldIssueIff(fs: Fields, base: seq<Step>, issue: Issue)
    ensures issue in ValidateFields(fs, base) <==> InField(fs, base, issue)
  {
    if fs.Field? {
      IssueIff(fs.node, base + [NamedField(fs.name)], issue);
      FieldIssueIff(fs.rest, base, issue);
      hide Validate, ReportedAt;
      assert FieldIs(fs, fs.name, fs.node);
      assert forall name, child :: FieldIs(fs.rest, name, child) ==> FieldIs(fs, name, child);
    }
  }

  /** A path leads to the node itself, into its items, or into one of its fields. */
  lemma StepsDown(n: Node, base: seq<Step>, issue: Issue)
    ensures ReportedAt(n, base, issue)
       <==> || (exists part :: issue.path == base + [part] && Bad(n, part, issue.problem))
            || (n.fields.Some? && InField(n.fields.value, base, issue))
            || (n.items.Some? && ReportedAt(n.items.value, base + [Child("items")], issue))
  {
    hide Bad, FieldIs;
    if ReportedAt(n, base, issue) {
      var path, m, part :| Reaches(n, path, m) && issue.path == base + path + [part] && Bad(m, part, issue.problem);
      if path == [] {
        assert base + [] == base;
      } else {
        var rest := path[1..];
        assert path == [path[0]] + rest;
        assert base + path + [part] == base + [path[0]] + rest + [part];
      }
    }
    if part :| issue.path == base + [part] && Bad(n, part, issue.problem) {
      assert Reaches(n, [], n) && base + [] + [part] == base + [part];
    }
    if n.items.Some? && ReportedAt(n.items.value, base + [Child("items")], issue) {
      var path, m, part :| Reaches(n.items.value, path, m)
        && issue.path == base + [Child("items")] + path + [part] && Bad(m, part, issue.problem);
      Longer(n, base, issue, Child("items"), n.items.value, path, m, part);
    }
    if n.fields.Some? && InField(n.fields.value, base, issue) {
      var name, child :| FieldIs(n.fields.value, name, child) && ReportedAt(child, base + [NamedField(name)], issue);
      var path, m, part :| Reaches(child, path, m)
        && issue.path == base + [NamedField(name)] + path + [part] && Bad(m, part, issue.problem);
      Longer(n, base, issue, NamedField(name), child, path, m, part);
    }
  }

  lemma Longer(n: Node, base: seq<Step>, issue: Issue, step: Step, child: Node, path: seq<Step>, m: Node, part: Step)
    requires Reaches(child, path, m) && issue.path == base + [step] + path + [part] && Bad(m, part, issue.problem)
    requires || (step == Child("items") && n.items == Some(child))
             || (step.NamedField? && n.fields.Some? && FieldIs(n.fields.value, step.name, child))
    ensures ReportedAt(n, base, issue)
  {
    hide Bad, FieldIs;
    var all := [step] + path;
    assert all[1..] == path;
    assert Reaches(n, all, m);
    assert base + all + [part] == base + [step] + path + [part];
  }
}
