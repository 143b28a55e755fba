/** Admission of policies: the `allowed` approver's Validate (pkg/internal/approver/allowed/
    validation.go) and the webhook over all approvers (pkg/internal/webhook/validator.go). */
module Admission {
  import opened Api
  import opened Lists
  import opened StableSort
  import opened Validators
  import opened AllowedApprover
  import P = Predicates
  import R = CacheRuns

  // ----- the allowed approver -----

  /** What Validate looks at in one field: `demands` that it is required, `open` that it has
      values or validations; `child` is where the values would be. */
  datatype Field = Field(path: Path, child: string, demands: bool, open: bool, rules: seq<ValidationRule>)

  function SliceField(path: Path, slice: Option<AllowedStringSlice>): seq<Field> {
    if slice.None? then []
    else [Field(path, "values", slice.value.required == Some(true),
                slice.value.values.Some? || |slice.value.validations| > 0, slice.value.validations)]
  }

  function StringField(path: Path, str: Option<AllowedString>): seq<Field> {
    if str.None? then []
    else [Field(path, "value", str.value.required == Some(true),
                str.value.value.Some? || |str.value.validations| > 0, str.value.validations)]
  }

  function SubjectFields(sub: AllowedSubject): seq<Field> {
    SliceField(AtSubject("organizations"), sub.organizations)
    + SliceField(AtSubject("countries"), sub.countries)
    + SliceField(AtSubject("organizationalUnits"), sub.organizationalUnits)
    + SliceField(AtSubject("localities"), sub.localities)
    + SliceField(AtSubject("provinces"), sub.provinces)
    + SliceField(AtSubject("streetAddresses"), sub.streetAddresses)
    + SliceField(AtSubject("postalCodes"), sub.postalCodes)
  }

  /** The fields that are set, lists before strings, those of the subject last in each. */
  function FieldsOf(a: Allowed): seq<Field> {
    SliceField(At("dnsNames"), a.dnsNames)
    + SliceField(At("ipAddresses"), a.ipAddresses)
    + SliceField(At("uris"), a.uris)
    + SliceField(At("emailAddresses"), a.emailAddresses)
    + (if a.subject.None? then [] else SubjectFields(a.subject.value))
    + StringField(At("commonName"), a.commonName)
    + (if a.subject.None? then [] else StringField(AtSubject("serialNumber"), a.subject.value.serialNumber))
  }

  function BrokenRules(entries: Entries, rules: seq<ValidationRule>, path: Path): seq<FieldError> {
    if rules == [] then []
    else
      var n := |rules| - 1;
      BrokenRules(entries, rules[..n], path) +
      match Settled(entries, rules[n].rule)
      case Broken(e) => [Invalid(path + [Index(n)], e)]
      case Ready(_) => []
  }

  function ProblemsOf(entries: Entries, fields: seq<Field>): seq<FieldError> {
    if fields == [] then []
    else
      var last := fields[|fields| - 1];
      ProblemsOf(entries, fields[..|fields| - 1])
      + (if last.demands && !last.open then [Required(last.path + [Child(last.child)])] else [])
      + BrokenRules(entries, last.rules, last.path + [Child("validations")])
  }

  ghost predicate FieldsResolved(entries: Entries, fields: seq<Field>) {
    forall i :: 0 <= i < |fields| ==> Resolved(entries, fields[i].rules)
  }

  /** The answer of the allowed approver, as a function of the settled entries. */
  function AllowedWebhook(entries: Entries): Webhook {
    (p: Policy) =>
      var el := if p.spec.allowed.None? then [] else ProblemsOf(entries, FieldsOf(p.spec.allowed.value));
      Success(WebhookResponse(el == [], el, []))
  }

  method ValidateAllowed(validators: Cache, policy: Policy) returns (r: Result<WebhookResponse>)
    requires validators.Valid()
    modifies validators
    ensures validators.Valid() && Grows(old(validators.Entries()), validators.Entries())
    ensures FieldsResolved(validators.Entries(), FieldsOf(AllowedOf(policy)))
    ensures r == AllowedWebhook(validators.Entries())(policy)
  {
    if policy.spec.allowed.None? {
      return Success(WebhookResponse(true, [], []));
    }
    var el := ValidateFields(validators, FieldsOf(policy.spec.allowed.value));
    r := Success(WebhookResponse(|el| == 0, el, []));
  }

  method ValidateFields(validators: Cache, fields: seq<Field>) returns (el: seq<FieldError>)
    requires validators.Valid()
    modifies validators
    ensures validators.Valid() && Grows(old(validators.Entries()), validators.Entries())
    ensures FieldsResolved(validators.Entries(), fields)
    ensures el == ProblemsOf(validators.Entries(), fields)
  {
    el := [];
    for i := 0 to |fields|
      invariant validators.Valid() && Grows(old(validators.Entries()), validators.Entries())
      invariant FieldsResolved(validators.Entries(), fields[..i])
      invariant el == ProblemsOf(validators.Entries(), fields[..i])
    {
      ghost var before := validators.Entries();
      if fields[i].demands && !fields[i].open {
        el := el + [Required(fields[i].path + [Child(fields[i].child)])];
      }
      var more := ValidateRules(validators, fields[i].rules, fields[i].path + [Child("validations")]);
      el := el + more;
      ProblemsStay(before, validators.Entries(), fields[..i]);
      OneMoreField(validators.Entries(), fields, i);
    }
    assert fields[..|fields|] == fields;
  }

  method ValidateRules(validators: Cache, rules: seq<ValidationRule>, path: Path) returns (el: seq<FieldError>)
    requires validators.Valid()
    modifies validators
    ensures validators.Valid() && Grows(old(validators.Entries()), validators.Entries())
    ensures Resolved(validators.Entries(), rules)
    ensures el == BrokenRules(validators.Entries(), rules, path)
  {
    el := [];
    for i := 0 to |rules|
      invariant validators.Valid() && Grows(old(validators.Entries()), validators.Entries())
      invariant Resolved(validators.Entries(), rules[..i])
      invariant el == BrokenRules(validators.Entries(), rules[..i], path)
    {
      ghost var before := validators.Entries();
      var _, err := validators.Get(rules[i].rule);
      if err.Some? {
        el := el + [Invalid(path + [Index(i)], err.value)];
      }
      BrokenRulesStay(before, validators.Entries(), rules[..i], path);
      assert rules[..i + 1][..i] == rules[..i];
    }
    assert rules[..|rules|] == rules;
  }

  lemma OneMoreField(entries: Entries, fields: seq<Field>, i: nat)
    requires i < |fields| && FieldsResolved(entries, fields[..i]) && Resolved(entries, fields[i].rules)
    ensures FieldsResolved(entries, fields[..i + 1])
    ensures ProblemsOf(entries, fields[..i + 1]) ==
            ProblemsOf(entries, fields[..i])
            + (var f := fields[i]; if f.demands && !f.open then [Required(f.path + [Child(f.child)])] else [])
            + BrokenRules(entries, fields[i].rules, fields[i].path + [Child("validations")])
  {
    assert fields[..i + 1][..i] == fields[..i];
  }

  lemma {:induction false} BrokenRulesStay(e: Entries, e': Entries, rules: seq<ValidationRule>, path: Path)
    requires Grows(e, e') && Resolved(e, rules)
    ensures Resolved(e', rules) && BrokenRules(e, rules, path) == BrokenRules(e', rules, path)
  {
    if rules != [] {
      BrokenRulesStay(e, e', rules[..|rules| - 1], path);
    }
  }

  lemma {:induction false} ProblemsStay(e: Entries, e': Entries, fields: seq<Field>)
    requires Grows(e, e') && FieldsResolved(e, fields)
    ensures FieldsResolved(e', fields) && ProblemsOf(e, fields) == ProblemsOf(e', fields)
  {
    if fields != [] {
      var last := fields[|fields| - 1];
      ProblemsStay(e, e', fields[..|fields| - 1]);
      BrokenRulesStay(e, e', last.rules, last.path + [Child("validations")]);
    }
  }

  // ----- what it reports -----

  lemma {:induction false} BrokenRulesAre(entries: Entries, rules: seq<ValidationRule>, path: Path, e: FieldError)
    requires Resolved(entries, rules)
    ensures e in BrokenRules(entries, rules, path) <==>
            exists j: nat :: j < |rules| && entries[rules[j].rule].Broken? &&
                             e == Invalid(path + [Index(j)], entries[rules[j].rule].error)
  {
    if rules != [] {
      var front, n := rules[..|rules| - 1], |rules| - 1;
      BrokenRulesAre(entries, front, path, e);
      assert forall j :: 0 <= j < n ==> front[j] == rules[j];
      if e in BrokenRules(entries, rules, path) && e !in BrokenRules(entries, front, path) {
        assert entries[rules[n].rule].Broken? && e == Invalid(path + [Index(n)], entries[rules[n].rule].error);
      }
    }
  }

  /** A required field without values or validations, or a rule that does not compile. */
  ghost predicate IsProblemOf(entries: Entries, f: Field, e: FieldError)
    requires Resolved(entries, f.rules)
  {
    || (f.demands && !f.open && e == Required(f.path + [Child(f.child)]))
    || exists j: nat :: j < |f.rules| && entries[f.rules[j].rule].Broken? &&
                        e == Invalid(f.path + [Child("validations")] + [Index(j)], entries[f.rules[j].rule].error)
  }

  lemma {:induction false} ProblemsAre(entries: Entries, fields: seq<Field>, e: FieldError)
    requires FieldsResolved(entries, fields)
    ensures e in ProblemsOf(entries, fields) <==>
            exists i :: 0 <= i < |fields| && IsProblemOf(entries, fields[i], e)
  {
    if fields != [] {
      var front, n := fields[..|fields| - 1], |fields| - 1;
      ProblemsAre(entries, front, e);
      BrokenRulesAre(entries, fields[n].rules, fields[n].path + [Child("validations")], e);
      assert forall i :: 0 <= i < n ==> front[i] == fields[i];
      assert e in ProblemsOf(entries, fields) <==>
             e in ProblemsOf(entries, front) || IsProblemOf(entries, fields[n], e);
    }
  }

  // ----- what an admitted policy can rely on -----

  predicate Compiles(entries: Entries, rule: ValidationRule) {
    rule.rule in entries && entries[rule.rule].Ready?
  }

  lemma {:induction false} NoBrokenRulesIff(entries: Entries, rules: seq<ValidationRule>, path: Path)
    requires Resolved(entries, rules)
    ensures BrokenRules(entries, rules, path) == [] <==>
            forall i :: 0 <= i < |rules| ==> Compiles(entries, rules[i])
  {
    if rules != [] {
      NoBrokenRulesIff(entries, rules[..|rules| - 1], path);
    }
  }

  ghost predicate FieldFine(entries: Entries, f: Field) {
    (f.demands ==> f.open) && forall i :: 0 <= i < |f.rules| ==> Compiles(entries, f.rules[i])
  }

  /** The allowed approver lets a policy through exactly when each required field is open and each
      rule compiles. */
  lemma {:induction false} NoProblemsIff(entries: Entries, fields: seq<Field>)
    requires FieldsResolved(entries, fields)
    ensures ProblemsOf(entries, fields) == [] <==>
            forall i :: 0 <= i < |fields| ==> FieldFine(entries, fields[i])
  {
    if fields != [] {
      var front, last := fields[..|fields| - 1], fields[|fields| - 1];
      NoProblemsIff(entries, front);
      NoBrokenRulesIff(entries, last.rules, last.path + [Child("validations")]);
      assert forall i :: 0 <= i < |front| ==> front[i] == fields[i];
    }
  }

  ghost predicate AllFine(entries: Entries, fields: seq<Field>) {
    forall i :: 0 <= i < |fields| ==> FieldFine(entries, fields[i])
  }

  lemma AllFineSplits(entries: Entries, a: seq<Field>, b: seq<Field>)
    ensures AllFine(entries, a + b) <==> AllFine(entries, a) && AllFine(entries, b)
  {
    var c := a + b;
    assert forall i :: 0 <= i < |a| ==> c[i] == a[i];
    assert forall i :: 0 <= i < |b| ==> c[|a| + i] == b[i];
  }

  /** A field that is set compiles all its rules and, if required, has values or validations. */
  ghost predicate SliceFine(entries: Entries, slice: Option<AllowedStringSlice>) {
    slice.Some? ==>
      && (slice.value.required == Some(true) ==> slice.value.values.Some? || slice.value.validations != [])
      && forall rule :: rule in slice.value.validations ==> Compiles(entries, rule)
  }

  ghost predicate StringFine(entries: Entries, str: Option<AllowedString>) {
    str.Some? ==>
      && (str.value.required == Some(true) ==> str.value.value.Some? || str.value.validations != [])
      && forall rule :: rule in str.value.validations ==> Compiles(entries, rule)
  }

  lemma FineField(entries: Entries, path: Path, slice: Option<AllowedStringSlice>, str: Option<AllowedString>)
    ensures AllFine(entries, SliceField(path, slice)) <==> SliceFine(entries, slice)
    ensures AllFine(entries, StringField(path, str)) <==> StringFine(entries, str)
  {
    if slice.Some? {
      RulesCompile(entries, slice.value.validations);
      assert FieldFine(entries, SliceField(path, slice)[0]) <==> SliceFine(entries, slice);
    }
    if str.Some? {
      RulesCompile(entries, str.value.validations);
      assert FieldFine(entries, StringField(path, str)[0]) <==> StringFine(entries, str);
    }
  }

  lemma RulesCompile(entries: Entries, rules: seq<ValidationRule>)
    ensures (forall i :: 0 <= i < |rules| ==> Compiles(entries, rules[i])) <==>
            forall rule :: rule in rules ==> Compiles(entries, rule)
  {
    if forall rule :: rule in rules ==> Compiles(entries, rule) {
      forall i | 0 <= i < |rules| ensures Compiles(entries, rules[i]) {
        assert rules[i] in rules;
      }
    }
  }

  ghost predicate SubjectFine(entries: Entries, sub: AllowedSubject) {
    && SliceFine(entries, sub.organizations) && SliceFine(entries, sub.countries)
    && SliceFine(entries, sub.organizationalUnits) && SliceFine(entries, sub.localities)
    && SliceFine(entries, sub.provinces) && SliceFine(entries, sub.streetAddresses)
    && SliceFine(entries, sub.postalCodes)
  }

  lemma SubjectFineIff(entries: Entries, sub: AllowedSubject)
    ensures AllFine(entries, SubjectFields(sub)) <==> SubjectFine(entries, sub)
  {
    var fs := [SliceField(AtSubject("organizations"), sub.organizations),
               SliceField(AtSubject("countries"), sub.countries),
               SliceField(AtSubject("organizationalUnits"), sub.organizationalUnits),
               SliceField(AtSubject("localities"), sub.localities),
               SliceField(AtSubject("provinces"), sub.provinces),
               SliceField(AtSubject("streetAddresses"), sub.streetAddresses),
               SliceField(AtSubject("postalCodes"), sub.postalCodes)];
    forall path, slice { FineField(entries, path, slice, None); }
    AllFineSplits(entries, fs[0], fs[1]);
    AllFineSplits(entries, fs[0] + fs[1], fs[2]);
    AllFineSplits(entries, fs[0] + fs[1] + fs[2], fs[3]);
    AllFineSplits(entries, fs[0] + fs[1] + fs[2] + fs[3], fs[4]);
    AllFineSplits(entries, fs[0] + fs[1] + fs[2] + fs[3] + fs[4], fs[5]);
    AllFineSplits(entries, fs[0] + fs[1] + fs[2] + fs[3] + fs[4] + fs[5], fs[6]);
  }

  ghost predicate FieldsFine(entries: Entries, a: Allowed) {
    && SliceFine(entries, a.dnsNames) && SliceFine(entries, a.ipAddresses)
    && SliceFine(entries, a.uris) && SliceFine(entries, a.emailAddresses)
    && (a.subject.Some? ==> SubjectFine(entries, a.subject.value))
    && StringFine(entries, a.commonName)
    && (a.subject.Some? ==> StringFine(entries, a.subject.value.serialNumber))
  }

  lemma TopFieldsFine(entries: Entries, a: Allowed)
    ensures AllFine(entries, SliceField(At("dnsNames"), a.dnsNames) + SliceField(At("ipAddresses"), a.ipAddresses)
                             + SliceField(At("uris"), a.uris) + SliceField(At("emailAddresses"), a.emailAddresses)) <==>
            && SliceFine(entries, a.dnsNames) && SliceFine(entries, a.ipAddresses)
            && SliceFine(entries, a.uris) && SliceFine(entries, a.emailAddresses)
  {
    var dns, ip := SliceField(At("dnsNames"), a.dnsNames), SliceField(At("ipAddresses"), a.ipAddresses);
    var uri, email := SliceField(At("uris"), a.uris), SliceField(At("emailAddresses"), a.emailAddresses);
    FineField(entries, At("dnsNames"), a.dnsNames, None);
    FineField(entries, At("ipAddresses"), a.ipAddresses, None);
    FineField(entries, At("uris"), a.uris, None);
    FineField(entries, At("emailAddresses"), a.emailAddresses, None);
    AllFineSplits(entries, dns, ip);
    AllFineSplits(entries, dns + ip, uri);
    AllFineSplits(entries, dns + ip + uri, email);
  }

  lemma FieldsFineIff(entries: Entries, a: Allowed)
    ensures AllFine(entries, FieldsOf(a)) <==> FieldsFine(entries, a)
  {
    var slices := SliceField(At("dnsNames"), a.dnsNames) + SliceField(At("ipAddresses"), a.ipAddresses)
                  + SliceField(At("uris"), a.uris) + SliceField(At("emailAddresses"), a.emailAddresses);
    var sub := if a.subject.None? then [] else SubjectFields(a.subject.value);
    var name := StringField(At("commonName"), a.commonName);
    var serial := if a.subject.None? then [] else StringField(AtSubject("serialNumber"), a.subject.value.serialNumber);
    TopFieldsFine(entries, a);
    FineField(entries, At("commonName"), None, a.commonName);
    if a.subject.Some? {
      SubjectFineIff(entries, a.subject.value);
      FineField(entries, AtSubject("serialNumber"), None, a.subject.value.serialNumber);
    }
    AllFineSplits(entries, slices, sub);
    AllFineSplits(entries, slices + sub, name);
    AllFineSplits(entries, slices + sub + name, serial);
  }

  /** The allowed approver lets a policy through exactly when each of its thirteen fields that take
      values is fine. */
  lemma AllowedAdmitsIff(entries: Entries, p: Policy)
    requires FieldsResolved(entries, FieldsOf(AllowedOf(p)))
    ensures var r := AllowedWebhook(entries)(p);
            && r.Success? && r.value.warnings == [] && (r.value.allowed <==> r.value.errors == [])
            && (r.value.allowed <==> FieldsFine(entries, AllowedOf(p)))
  {
    NoProblemsIff(entries, FieldsOf(AllowedOf(p)));
    FieldsFineIff(entries, AllowedOf(p));
  }

  predicate IsRuleOf(fields: seq<Field>, rule: ValidationRule) {
    exists i :: 0 <= i < |fields| && rule in fields[i].rules
  }

  /** The field that a check looks at. */
  function FieldAt(check: Check): seq<Field> {
    match check
    case StringCheck(path, _, str) => StringField(path, str)
    case SliceCheck(path, _, slice) => SliceField(path, slice)
    case _ => []
  }

  lemma SubjectFieldAt(a: Allowed, cr: Request, csr: Csr, k: nat, f: Field)
    requires 7 <= k < 14 && a.subject.Some? && f in FieldAt(Checks(a, cr, csr)[k])
    ensures f in SubjectFields(a.subject.value)
  {
  }

  /** Admission looks at every rule that any evaluation can consult. */
  lemma EveryConsultedRuleIsValidated(a: Allowed, cr: Request, csr: Csr, k: nat, rule: ValidationRule)
    requires k < |Checks(a, cr, csr)| && rule in Consulted(Checks(a, cr, csr)[k])
    ensures IsRuleOf(FieldsOf(a), rule)
  {
    var fields := FieldsOf(a);
    var f := FieldAt(Checks(a, cr, csr)[k])[0];
    if 7 <= k < 14 {
      SubjectFieldAt(a, cr, csr, k, f);
    }
    assert f in fields;
    var i :| 0 <= i < |fields| && fields[i] == f;
  }

  /** A rule that is ready in the cache is one that Get returns without an error and with a
      validator whose program is set. */
  lemma ReadyRuleIsUsable(cache: Cache, rule: ValidationRule)
    requires cache.Valid() && Compiles(cache.Entries(), rule)
    ensures HasProgram(cache, rule)
  {
  }

  /** After the allowed approver let a policy through, in every later state of the cache and for
      every request, each rule that evaluation consults is compiled. */
  lemma AdmittedRulesStayCompiled(e: Entries, e': Entries, p: Policy, cr: Request, csr: Csr, k: nat,
                                  rule: ValidationRule)
    requires FieldsResolved(e, FieldsOf(AllowedOf(p)))
    requires AllowedWebhook(e)(p).value.allowed
    requires Grows(e, e')
    requires k < |Checks(AllowedOf(p), cr, csr)| && rule in Consulted(Checks(AllowedOf(p), cr, csr)[k])
    ensures Compiles(e', rule)
  {
    var fields := FieldsOf(AllowedOf(p));
    EveryConsultedRuleIsValidated(AllowedOf(p), cr, csr, k, rule);
    NoProblemsIff(e, fields);
    var i :| 0 <= i < |fields| && rule in fields[i].rules;
    assert FieldFine(e, fields[i]);
  }

  // ----- the webhook over all approvers -----

  const IDENTITY: string -> string := (s: string) => s

  function Unsupported(names: seq<string>): seq<FieldError> {
    if names == [] then []
    else Unsupported(names[..|names| - 1]) + [NotSupported([Child("spec"), Child("plugins")], names[|names| - 1])]
  }

  function SelectorErrors(s: Selector, validSelector: Labels -> bool): seq<FieldError> {
    (if s.issuerRef.None? && s.namespace.None? then [Required([Child("spec"), Child("selector")])] else [])
    + if s.namespace.Some? && s.namespace.value.matchLabels.Some? && |s.namespace.value.matchLabels.value| > 0
         && !validSelector(s.namespace.value.matchLabels.value)
      then [Invalid([Child("spec"), Child("selector"), Child("namespace"), Child("matchLabels")], "invalid selector")]
      else []
  }

  datatype Verdict = Verdict(warnings: seq<string>, errors: seq<FieldError>, unexplained: bool) {
    predicate Admitted() { errors == [] && !unexplained }
  }

  /** The responses of the webhooks, in order, up to the first error. */
  function Responses(webhooks: seq<Webhook>, p: Policy): Result<(bool, seq<FieldError>, seq<string>)> {
    if webhooks == [] then Success((true, [], []))
    else
      match Responses(webhooks[..|webhooks| - 1], p)
      case Failure(e) => Failure(e)
      case Success((all, errors, warnings)) =>
        match webhooks[|webhooks| - 1](p)
        case Failure(e) => Failure(e)
        case Success(r) =>
          Success((all && r.allowed, if r.allowed then errors else errors + r.errors, warnings + r.warnings))
  }

  /** The plugin names in the policy that no approver has registered, in increasing order. */
  ghost predicate IsUnrecognised(names: seq<string>, registered: seq<string>, p: Policy) {
    && Increasing(names, IDENTITY)
    && forall n :: n in names <==> n in p.spec.plugins && n !in registered
  }

  ghost predicate IsVerdict(v: Result<Verdict>, registered: seq<string>, webhooks: seq<Webhook>,
                            validSelector: Labels -> bool, p: Policy)
  {
    match Responses(webhooks, p)
    case Failure(e) => v == Failure(e)
    case Success((all, errors, warnings)) =>
      exists names :: IsUnrecognised(names, registered, p) &&
        var fieldErrs := Unsupported(names) + SelectorErrors(p.spec.selector, validSelector) + errors;
        v == Success(Verdict(warnings, fieldErrs, !all && fieldErrs == []))
  }

  class Validator {
    const registeredPlugins: seq<string>
    const webhooks: seq<Webhook>
    const validSelector: Labels -> bool

    constructor (registeredPlugins: seq<string>, webhooks: seq<Webhook>, validSelector: Labels -> bool)
      ensures this.registeredPlugins == registeredPlugins && this.webhooks == webhooks &&
              this.validSelector == validSelector
    {
      this.registeredPlugins := registeredPlugins;
      this.webhooks := webhooks;
      this.validSelector := validSelector;
    }

    method Validate(policy: Policy) returns (v: Result<Verdict>)
      ensures IsVerdict(v, registeredPlugins, webhooks, validSelector, policy)
    {
      var unrecognisedNames := UnrecognisedNames(policy);
      var fieldErrs := Unsupported(unrecognisedNames) + SelectorErrors(policy.spec.selector, validSelector);
      ghost var own := fieldErrs;
      ghost var reported := [];
      var allAllowed, warnings := true, [];
      for i := 0 to |webhooks|
        invariant fieldErrs == own + reported
        invariant Responses(webhooks[..i], policy) == Success((allAllowed, reported, warnings))
      {
        assert webhooks[..i + 1][..i] == webhooks[..i];
        ResponsesPrefixFails(webhooks, i + 1, policy);
        match webhooks[i](policy)
        case Failure(e) => return Failure(e);
        case Success(response) =>
          if !response.allowed {
            fieldErrs := fieldErrs + response.errors;
            reported := reported + response.errors;
            allAllowed := false;
          }
          warnings := warnings + response.warnings;
      }
      assert webhooks[..|webhooks|] == webhooks;
      v := Success(Verdict(warnings, fieldErrs, !allAllowed && |fieldErrs| == 0));
    }

    /** The loop over the policy's plugins, whose order Go leaves open, and the sort after it. */
    method UnrecognisedNames(policy: Policy) returns (names: seq<string>)
      ensures IsUnrecognised(names, registeredPlugins, policy)
    {
      names := [];
      var left := policy.spec.plugins.Keys;
      while left != {}
        invariant left <= policy.spec.plugins.Keys
        invariant forall n :: n in names <==> n in policy.spec.plugins.Keys - left && n !in registeredPlugins
        invariant DistinctKeys(names, IDENTITY)
        decreases left
      {
        var name :| name in left;
        assert forall i :: 0 <= i < |names| ==> names[i] in names && IDENTITY(names[i]) != IDENTITY(name);
        left := left - {name};
        var found := false;
        for i := 0 to |registeredPlugins|
          invariant found <==> name in registeredPlugins[..i]
        {
          if name == registeredPlugins[i] {
            found := true;
            break;
          }
        }
        if !found {
          names := names + [name];
        }
      }
      SortIncreases(names, IDENTITY);
      names := Sort(names, IDENTITY);
    }
  }

  lemma {:induction false} ResponsesPrefixFails(webhooks: seq<Webhook>, n: nat, p: Policy)
    requires n <= |webhooks|
    ensures Responses(webhooks[..n], p).Failure? ==> Responses(webhooks, p) == Responses(webhooks[..n], p)
  {
    if n < |webhooks| {
      ResponsesPrefixFails(webhooks[..|webhooks| - 1], n, p);
      assert webhooks[..|webhooks| - 1][..n] == webhooks[..n];
    } else {
      assert webhooks[..n] == webhooks;
    }
  }

  /** The order in which Go ranges over the plugins never shows: the verdict is determined. */
  lemma VerdictIsDetermined(v: Result<Verdict>, v': Result<Verdict>, registered: seq<string>, webhooks: seq<Webhook>,
                            validSelector: Labels -> bool, p: Policy)
    requires IsVerdict(v, registered, webhooks, validSelector, p)
    requires IsVerdict(v', registered, webhooks, validSelector, p)
    ensures v == v'
  {
    if Responses(webhooks, p).Success? {
      forall names, names' | IsUnrecognised(names, registered, p) && IsUnrecognised(names', registered, p)
        ensures names == names'
      {
        IncreasingIsUnique(names, names', IDENTITY);
      }
    }
  }

  predicate Accepts(w: Webhook, p: Policy) {
    w(p).Success? && w(p).value.allowed
  }

  lemma {:induction false} AllAllowedIff(webhooks: seq<Webhook>, p: Policy)
    ensures Responses(webhooks, p).Success? && Responses(webhooks, p).value.0 <==>
            forall i :: 0 <= i < |webhooks| ==> Accepts(webhooks[i], p)
    ensures Responses(webhooks, p).Success? && Responses(webhooks, p).value.0 ==> Responses(webhooks, p).value.1 == []
  {
    if webhooks != [] {
      var front := webhooks[..|webhooks| - 1];
      AllAllowedIff(front, p);
      assert forall i :: 0 <= i < |front| ==> front[i] == webhooks[i];
    }
  }

  /** A policy is admitted exactly when its plugins are registered, it has a selector, its label
      selector is well formed, and every webhook allows it without an error. */
  lemma AdmittedIff(v: Result<Verdict>, registered: seq<string>, webhooks: seq<Webhook>,
                    validSelector: Labels -> bool, p: Policy)
    requires IsVerdict(v, registered, webhooks, validSelector, p)
    ensures v.Success? && v.value.Admitted() <==>
            && p.spec.plugins.Keys <= (set n | n in registered)
            && (p.spec.selector.issuerRef.Some? || p.spec.selector.namespace.Some?)
            && (p.spec.selector.namespace.Some? && p.spec.selector.namespace.value.matchLabels.Some? ==>
                  var labels := p.spec.selector.namespace.value.matchLabels.value;
                  labels != map[] ==> validSelector(labels))
            && forall i :: 0 <= i < |webhooks| ==> webhooks[i](p).Success? && webhooks[i](p).value.allowed
  {
    AllAllowedIff(webhooks, p);
    assert forall i :: 0 <= i < |webhooks| ==>
             (Accepts(webhooks[i], p) <==> webhooks[i](p).Success? && webhooks[i](p).value.allowed);
    if Responses(webhooks, p).Success? {
      var names :| IsUnrecognised(names, registered, p) &&
        var (all, errors, warnings) := Responses(webhooks, p).value;
        var fieldErrs := Unsupported(names) + SelectorErrors(p.spec.selector, validSelector) + errors;
        v == Success(Verdict(warnings, fieldErrs, !all && fieldErrs == []));
      assert Unsupported(names) == [] <==> names == [];
      assert names == [] <==> forall n :: n in p.spec.plugins ==> n in registered by {
        if names != [] {
          assert names[0] in names;
        }
      }
    }
  }

  /** What the webhooks together say: the first error, else all their warnings, and the errors of
      those that do not allow the policy. */
  lemma {:induction false} ResponsesAre(webhooks: seq<Webhook>, p: Policy)
    ensures Responses(webhooks, p).Success? <==> forall i :: 0 <= i < |webhooks| ==> webhooks[i](p).Success?
    ensures match Responses(webhooks, p)
            case Failure(e) =>
              exists i :: 0 <= i < |webhooks| && webhooks[i](p) == Failure(e) &&
                          forall j :: 0 <= j < i ==> webhooks[j](p).Success?
            case Success((all, errors, warnings)) =>
              && (forall i :: 0 <= i < |webhooks| ==> webhooks[i](p).Success?)
              && (all <==> forall i :: 0 <= i < |webhooks| ==> webhooks[i](p).value.allowed)
              && errors == Flatten(seq(|webhooks|, i requires 0 <= i < |webhooks| =>
                             if webhooks[i](p).value.allowed then [] else webhooks[i](p).value.errors))
              && warnings == Flatten(seq(|webhooks|, i requires 0 <= i < |webhooks| => webhooks[i](p).value.warnings))
  {
    if webhooks != [] {
      var front, n := webhooks[..|webhooks| - 1], |webhooks| - 1;
      ResponsesAre(front, p);
      assert forall i :: 0 <= i < n ==> front[i] == webhooks[i];
      if Responses(webhooks, p).Success? {
        var errors := seq(|webhooks|, i requires 0 <= i < |webhooks| =>
          if webhooks[i](p).value.allowed then [] else webhooks[i](p).value.errors);
        var warnings := seq(|webhooks|, i requires 0 <= i < |webhooks| => webhooks[i](p).value.warnings);
        assert errors[..n] == seq(|front|, i requires 0 <= i < |front| =>
          if front[i](p).value.allowed then [] else front[i](p).value.errors);
        assert warnings[..n] == seq(|front|, i requires 0 <= i < |front| => front[i](p).value.warnings);
      }
    }
  }

  lemma {:induction false} UnsupportedAre(names: seq<string>, e: FieldError)
    ensures e in Unsupported(names) <==>
            exists n :: n in names && e == NotSupported([Child("spec"), Child("plugins")], n)
  {
    if names != [] {
      UnsupportedAre(names[..|names| - 1], e);
      forall n ensures n in names <==> n in names[..|names| - 1] || n == names[|names| - 1] {
        InFrontOrLast(names, n);
      }
    }
  }

  /** Which errors a policy is refused with: its unregistered plugins, a missing selector, a
      malformed label selector, and what the webhooks that do not allow it report.  A webhook that
      errs makes the whole fail with the error of the first one. */
  lemma VerdictErrorsAre(v: Result<Verdict>, registered: seq<string>, webhooks: seq<Webhook>,
                         validSelector: Labels -> bool, p: Policy, e: FieldError)
    requires IsVerdict(v, registered, webhooks, validSelector, p)
    ensures v.Success? <==> forall i :: 0 <= i < |webhooks| ==> webhooks[i](p).Success?
    ensures v.Failure? ==>
              exists i :: 0 <= i < |webhooks| && webhooks[i](p) == Failure(v.error) &&
                          forall j :: 0 <= j < i ==> webhooks[j](p).Success?
    ensures v.Success? ==>
              (e in v.value.errors <==>
                 || (exists n :: n in p.spec.plugins && n !in registered &&
                                 e == NotSupported([Child("spec"), Child("plugins")], n))
                 || (p.spec.selector.issuerRef.None? && p.spec.selector.namespace.None? &&
                     e == Required([Child("spec"), Child("selector")]))
                 || (HasLabels(p) && !validSelector(p.spec.selector.namespace.value.matchLabels.value) &&
                     e == Invalid([Child("spec"), Child("selector"), Child("namespace"), Child("matchLabels")],
                                  "invalid selector"))
                 || exists i :: 0 <= i < |webhooks| && !webhooks[i](p).value.allowed &&
                                e in webhooks[i](p).value.errors)
    ensures v.Success? ==>
              v.value.warnings ==
              Flatten(seq(|webhooks|, i requires 0 <= i < |webhooks| => webhooks[i](p).value.warnings))
    ensures v.Success? ==>
              (v.value.unexplained <==>
                 v.value.errors == [] && exists i :: 0 <= i < |webhooks| && !webhooks[i](p).value.allowed)
  {
    ResponsesAre(webhooks, p);
    if v.Success? {
      var (all, errors, warnings) := Responses(webhooks, p).value;
      var names :| IsUnrecognised(names, registered, p) &&
        v == Success(Verdict(warnings, Unsupported(names) + SelectorErrors(p.spec.selector, validSelector) + errors,
          !all && Unsupported(names) + SelectorErrors(p.spec.selector, validSelector) + errors == []));
      UnsupportedAre(names, e);
      ReportedAre(webhooks, p, e);
      SelectorErrorsAre(p, validSelector, e);
    }
  }

  predicate HasLabels(p: Policy) {
    var sel := p.spec.selector.namespace;
    sel.Some? && sel.value.matchLabels.Some? && sel.value.matchLabels.value != map[]
  }

  lemma SelectorErrorsAre(p: Policy, validSelector: Labels -> bool, e: FieldError)
    ensures e in SelectorErrors(p.spec.selector, validSelector) <==>
            || (p.spec.selector.issuerRef.None? && p.spec.selector.namespace.None? &&
                e == Required([Child("spec"), Child("selector")]))
            || (HasLabels(p) && !validSelector(p.spec.selector.namespace.value.matchLabels.value) &&
                e == Invalid([Child("spec"), Child("selector"), Child("namespace"), Child("matchLabels")],
                             "invalid selector"))
  {
  }

  lemma ReportedAre(webhooks: seq<Webhook>, p: Policy, e: FieldError)
    requires Responses(webhooks, p).Success?
    ensures e in Responses(webhooks, p).value.1 <==>
            exists i :: 0 <= i < |webhooks| && webhooks[i](p).Success? && !webhooks[i](p).value.allowed &&
                        e in webhooks[i](p).value.errors
  {
    ResponsesAre(webhooks, p);
    var errors := seq(|webhooks|, i requires 0 <= i < |webhooks| =>
      if webhooks[i](p).value.allowed then [] else webhooks[i](p).value.errors);
    FlattenIn(errors, e);
    assert forall i :: 0 <= i < |webhooks| ==>
             (e in errors[i] <==> !webhooks[i](p).value.allowed && e in webhooks[i](p).value.errors);
  }

  /** Admission and evaluation agree on rules: once the webhook admits a policy, with the allowed
      approver among its webhooks, then in every later state of the process, whatever calls of the
      cache run concurrently, each rule that an evaluation of the policy consults is compiled. */
  lemma AdmittedNeverMeetsCompileError(v: Result<Verdict>, registered: seq<string>, webhooks: seq<Webhook>,
                                       validSelector: Labels -> bool, first: seq<R.Action>, rest: seq<R.Action>,
                                       p: Policy, cr: Request, csr: Csr, k: nat, rule: ValidationRule)
    requires IsVerdict(v, registered, webhooks, validSelector, p) && v.Success? && v.value.Admitted()
    requires R.Run(R.INIT, first) && R.Run(R.After(R.INIT, first), rest)
    requires var e := R.EntriesOf(R.After(R.INIT, first));
             && FieldsResolved(e, FieldsOf(AllowedOf(p)))
             && exists i :: 0 <= i < |webhooks| && webhooks[i](p) == AllowedWebhook(e)(p)
    requires k < |Checks(AllowedOf(p), cr, csr)| && rule in Consulted(Checks(AllowedOf(p), cr, csr)[k])
    ensures Compiles(R.EntriesOf(R.After(R.After(R.INIT, first), rest)), rule)
  {
    var e := R.EntriesOf(R.After(R.INIT, first));
    AdmittedIff(v, registered, webhooks, validSelector, p);
    var i :| 0 <= i < |webhooks| && webhooks[i](p) == AllowedWebhook(e)(p);
    assert Accepts(webhooks[i], p);
    R.RunsGrowEntries(first, rest);
    AdmittedRulesStayCompiled(e, R.EntriesOf(R.After(R.After(R.INIT, first), rest)), p, cr, csr, k, rule);
  }

  /** One process, on the objects: the allowed approver validates a policy, then validates and
      evaluates any others, then evaluates that policy.  If it was let through, every rule that
      the evaluation consulted has a validator with its program set. */
  method ValidateThenEvaluate(approver: Approver, policy: Policy, others: seq<(Policy, Request)>, cr: Request)
    returns (response: Result<WebhookResponse>, r: Result<EvaluationResponse>)
    requires approver.validators.Valid()
    modifies approver.validators
    ensures approver.validators.Valid()
    ensures r == Evaluation(approver.validators.Entries(), approver.cel, approver.render)(policy, cr)
    ensures response.Success? && response.value.allowed && cr.csr.Success? ==>
              UsesCompiledOnly(approver.validators, Checks(AllowedOf(policy), cr, cr.csr.value))
  {
    var validators := approver.validators;
    response := ValidateAllowed(validators, policy);
    ghost var admitted := validators.Entries();
    for i := 0 to |others|
      invariant validators.Valid() && Grows(admitted, validators.Entries())
    {
      var _ := ValidateAllowed(validators, others[i].0);
      var _ := approver.Evaluate(others[i].0, others[i].1);
    }
    r := approver.Evaluate(policy, cr);
    if response.Success? && response.value.allowed && cr.csr.Success? {
      forall k, rule | 0 <= k < |Checks(AllowedOf(policy), cr, cr.csr.value)| &&
                       rule in Consulted(Checks(AllowedOf(policy), cr, cr.csr.value)[k])
        ensures HasProgram(validators, rule)
      {
        AdmittedRulesStayCompiled(admitted, validators.Entries(), policy, cr, cr.csr.value, k, rule);
        ReadyRuleIsUsable(validators, rule);
      }
    }
  }

  /** Get answers the rule's expression without an error and with a compiled validator. */
  ghost predicate HasProgram(cache: Cache, rule: ValidationRule)
    requires cache.Valid()
    reads cache, cache.Stored()
  {
    && rule.rule in cache.m && cache.m[rule.rule].err.None?
    && cache.m[rule.rule].validator != null && cache.m[rule.rule].validator.program.Some?
  }

  ghost predicate UsesCompiledOnly(cache: Cache, checks: seq<Check>)
    requires cache.Valid()
    reads cache, cache.Stored()
  {
    forall k, rule :: 0 <= k < |checks| && rule in Consulted(checks[k]) ==> HasProgram(cache, rule)
  }

  /** They agree on selectors: an admitted policy makes the namespace predicate fail only when the
      namespace lookup does.  The empty label selector is always well formed. */
  lemma AdmittedSelectorNeverFails(v: Result<Verdict>, registered: seq<string>, webhooks: seq<Webhook>,
                                   answers: P.Answers, p: Policy, cr: Request)
    requires IsVerdict(v, registered, webhooks, answers.validSelector, p) && v.Success? && v.value.Admitted()
    requires answers.validSelector(map[])
    ensures P.ByNamespace(answers, cr)(p).Failure? ==>
              P.NeedsLabels(p, cr.namespace) && answers.namespaceLabels(cr.namespace).Failure?
  {
    AdmittedIff(v, registered, webhooks, answers.validSelector, p);
    var sel := p.spec.selector.namespace;
    if sel.Some? && sel.value.matchLabels.Some? && |sel.value.matchLabels.value| == 0 {
      assert sel.value.matchLabels.value == map[];
    }
  }
}
