/** The `allowed` approver: pkg/internal/approver/allowed/evaluator.go.  A request must conform to
    every allowed attribute of the policy; attributes the policy omits must be left out. */
module AllowedApprover {
  import opened Api
  import opened Lists
  import opened Validators
  import W = Wildcard

  // ----- specification, over the entries that the validator cache settles -----

  /** What a call of the cache returns for an expression, once it is settled. */
  function Settled(entries: Entries, expr: string): Compiled {
    if expr in entries then entries[expr] else Broken("")
  }

  ghost predicate Resolved(entries: Entries, rules: seq<ValidationRule>) {
    forall i :: 0 <= i < |rules| ==> rules[i].rule in entries
  }

  function ViolationAt(entries: Entries, cel: Cel, cr: Request, rule: ValidationRule, s: string,
                       path: Path): seq<FieldError>
  {
    match Settled(entries, rule.rule)
    case Broken(e) => [InternalError(path, e)]
    case Ready(program) =>
      match cel(program, VarsOf(s, cr))
      case Failure(e) => [InternalError(path, e)]
      case Success(valid) =>
        if valid then []
        else [Invalid(path, if rule.message.Some? then rule.message.value else "failed rule: " + rule.rule)]
  }

  function Violations(entries: Entries, cel: Cel, cr: Request, rules: seq<ValidationRule>, s: string,
                      path: Path): seq<FieldError>
  {
    if rules == [] then []
    else
      var n := |rules| - 1;
      Violations(entries, cel, cr, rules[..n], s, path) + ViolationAt(entries, cel, cr, rules[n], s, path + [Index(n)])
  }

  function ViolationsOfAll(entries: Entries, cel: Cel, cr: Request, rules: seq<ValidationRule>, values: seq<string>,
                           path: Path): seq<FieldError>
  {
    if values == [] then []
    else
      var n := |values| - 1;
      ViolationsOfAll(entries, cel, cr, rules, values[..n], path) + Violations(entries, cel, cr, rules, values[n], path)
  }

  /** One of the evaluation functions, with the attribute it looks at. */
  datatype Check =
    | StringCheck(path: Path, s: string, str: Option<AllowedString>)
    | SliceCheck(path: Path, values: seq<string>, slice: Option<AllowedStringSlice>)
    | BoolCheck(path: Path, b: bool, flag: Option<bool>)
    | UsagesCheck(path: Path, requested: seq<string>, usages: Option<seq<string>>)

  function StringErrors(entries: Entries, cel: Cel, cr: Request, s: string, str: Option<AllowedString>,
                        path: Path): seq<FieldError>
  {
    if |s| == 0 then
      if str.Some? && str.value.required == Some(true) then [Required(path + [Child("required")])] else []
    else if str.None? || (str.value.value.None? && str.value.validations == []) then
      [Invalid(path, "no allowed value")]
    else
      (if str.value.value.Some? && !W.Matches(str.value.value.value, s)
       then [Invalid(path + [Child("value")], str.value.value.value)] else [])
      + Violations(entries, cel, cr, str.value.validations, s, path + [Child("validations")])
  }

  function SliceErrors(entries: Entries, cel: Cel, cr: Request, values: seq<string>,
                       slice: Option<AllowedStringSlice>, path: Path): seq<FieldError>
  {
    if |values| == 0 then
      if slice.Some? && slice.value.required == Some(true) then [Required(path + [Child("required")])] else []
    else if slice.None? || (slice.value.values.None? && slice.value.validations == []) then
      [Invalid(path, "no allowed values")]
    else
      (if slice.value.values.Some? && !W.Subset(slice.value.values.value, values)
       then [Invalid(path + [Child("values")], Join(slice.value.values.value, ", "))] else [])
      + if slice.value.validations == [] then []
        else ViolationsOfAll(entries, cel, cr, slice.value.validations, values, path + [Child("validations")])
  }

  function BoolErrors(b: bool, flag: Option<bool>, path: Path): seq<FieldError> {
    if b && flag.None? then [Invalid(path, "nil")]
    else if b && !flag.value then [Invalid(path, "false")]
    else []
  }

  function UsagesErrors(requested: seq<string>, usages: Option<seq<string>>, path: Path): seq<FieldError> {
    if requested == [] then []
    else if usages.None? then [Invalid(path, "nil")]
    else if !W.Subset(usages.value, requested) then [Invalid(path, Join(usages.value, ", "))]
    else []
  }

  function ErrorsOf(entries: Entries, cel: Cel, cr: Request, check: Check): seq<FieldError> {
    match check
    case StringCheck(path, s, str) => StringErrors(entries, cel, cr, s, str, path)
    case SliceCheck(path, values, slice) => SliceErrors(entries, cel, cr, values, slice, path)
    case BoolCheck(path, b, flag) => BoolErrors(b, flag, path)
    case UsagesCheck(path, requested, usages) => UsagesErrors(requested, usages, path)
  }

  function ErrorsOfAll(entries: Entries, cel: Cel, cr: Request, checks: seq<Check>): seq<FieldError> {
    if checks == [] then []
    else
      ErrorsOfAll(entries, cel, cr, checks[..|checks| - 1]) + ErrorsOf(entries, cel, cr, checks[|checks| - 1])
  }

  /** The rules a check runs: those of its field, when the request sets the attribute. */
  function Consulted(check: Check): seq<ValidationRule> {
    match check
    case StringCheck(_, s, str) => if s != [] && str.Some? then str.value.validations else []
    case SliceCheck(_, values, slice) => if values != [] && slice.Some? then slice.value.validations else []
    case _ => []
  }

  const SPEC_ALLOWED: Path := [Child("spec"), Child("allowed")]

  function At(name: string): Path {
    SPEC_ALLOWED + [Child(name)]
  }

  function AtSubject(name: string): Path {
    SPEC_ALLOWED + [Child("subject"), Child(name)]
  }

  const NO_SUBJECT := AllowedSubject(None, None, None, None, None, None, None, None)
  const NOTHING := Allowed(None, None, None, None, None, None, None, None)

  function SubjectOf(a: Allowed): AllowedSubject {
    if a.subject.Some? then a.subject.value else NO_SUBJECT
  }

  function AllowedOf(p: Policy): Allowed {
    if p.spec.allowed.Some? then p.spec.allowed.value else NOTHING
  }

  /** The fifteen evaluation functions, in the order they run. */
  function Checks(a: Allowed, cr: Request, csr: Csr): seq<Check> {
    var sub := SubjectOf(a);
    [ StringCheck(At("commonName"), csr.commonName, a.commonName),
      SliceCheck(At("dnsNames"), csr.dnsNames, a.dnsNames),
      SliceCheck(At("ipAddresses"), csr.ipAddresses, a.ipAddresses),
      SliceCheck(At("uris"), csr.uris, a.uris),
      SliceCheck(At("emailAddresses"), csr.emailAddresses, a.emailAddresses),
      BoolCheck(At("isCA"), cr.isCA, a.isCA),
      UsagesCheck(At("usages"), cr.usages, a.usages),
      SliceCheck(AtSubject("organizations"), csr.subject.organization, sub.organizations),
      SliceCheck(AtSubject("countries"), csr.subject.country, sub.countries),
      SliceCheck(AtSubject("organizationalUnits"), csr.subject.organizationalUnit, sub.organizationalUnits),
      SliceCheck(AtSubject("localities"), csr.subject.locality, sub.localities),
      SliceCheck(AtSubject("provinces"), csr.subject.province, sub.provinces),
      SliceCheck(AtSubject("streetAddresses"), csr.subject.streetAddress, sub.streetAddresses),
      SliceCheck(AtSubject("postalCodes"), csr.subject.postalCode, sub.postalCodes),
      StringCheck(AtSubject("serialNumber"), csr.subject.serialNumber, sub.serialNumber) ]
  }

  /** The evaluator, as a function of the settled entries. */
  function Evaluation(entries: Entries, cel: Cel, render: Render): Evaluator {
    (p: Policy, cr: Request) =>
      match cr.csr
      case Failure(e) => Failure(e)
      case Success(csr) =>
        var el := ErrorsOfAll(entries, cel, cr, Checks(AllowedOf(p), cr, csr));
        if |el| > 0 then Success(EvaluationResponse(true, render(el)))
        else Success(EvaluationResponse(false, ""))
  }

  // ----- the methods of the source -----

  class Approver {
    const validators: Cache
    const cel: Cel
    const render: Render

    constructor (validators: Cache, cel: Cel, render: Render)
      ensures this.validators == validators && this.cel == cel && this.render == render
    {
      this.validators := validators;
      this.cel := cel;
      this.render := render;
    }

    method RunValidations(cr: Request, rules: seq<ValidationRule>, s: string, path: Path) returns (el: seq<FieldError>)
      requires validators.Valid()
      modifies validators
      ensures validators.Valid() && Grows(old(validators.Entries()), validators.Entries())
      ensures Resolved(validators.Entries(), rules)
      ensures el == Violations(validators.Entries(), cel, cr, rules, s, path)
    {
      el := [];
      for i := 0 to |rules|
        invariant validators.Valid() && Grows(old(validators.Entries()), validators.Entries())
        invariant Resolved(validators.Entries(), rules[..i])
        invariant el == Violations(validators.Entries(), cel, cr, rules[..i], s, path)
      {
        ghost var before := validators.Entries();
        var more := RunRule(cr, rules[i], s, path + [Index(i)]);
        ViolationsStay(before, validators.Entries(), cel, cr, rules[..i], s, path);
        assert rules[..i + 1][..i] == rules[..i];
        el := el + more;
      }
      assert rules[..|rules|] == rules;
    }

    /** The body of runValidations' loop. */
    method RunRule(cr: Request, rule: ValidationRule, s: string, path: Path) returns (el: seq<FieldError>)
      requires validators.Valid()
      modifies validators
      ensures validators.Valid() && Grows(old(validators.Entries()), validators.Entries())
      ensures rule.rule in validators.Entries()
      ensures el == ViolationAt(validators.Entries(), cel, cr, rule, s, path)
    {
      var validator, err := validators.Get(rule.rule);
      if err.Some? {
        return [InternalError(path, err.value)];
      }
      var valid := validator.Validate(cel, s, cr);
      match valid
      case Failure(e) => return [InternalError(path, e)];
      case Success(ok) =>
        if ok {
          return [];
        }
        return [Invalid(path, if rule.message.Some? then rule.message.value else "failed rule: " + rule.rule)];
    }

    method EvaluateString(cr: Request, s: string, str: Option<AllowedString>, path: Path) returns (el: seq<FieldError>)
      requires validators.Valid()
      modifies validators
      ensures validators.Valid() && Grows(old(validators.Entries()), validators.Entries())
      ensures Resolved(validators.Entries(), Consulted(StringCheck(path, s, str)))
      ensures el == StringErrors(validators.Entries(), cel, cr, s, str, path)
    {
      if |s| == 0 {
        if str.Some? && str.value.required == Some(true) {
          return [Required(path + [Child("required")])];
        }
        return [];
      }
      if str.None? || (str.value.value.None? && |str.value.validations| == 0) {
        return [Invalid(path, "no allowed value")];
      }
      el := [];
      if str.value.value.Some? {
        var matches := W.WildcardMatches(str.value.value.value, s);
        if !matches {
          el := el + [Invalid(path + [Child("value")], str.value.value.value)];
        }
      }
      if |str.value.validations| > 0 {
        var more := RunValidations(cr, str.value.validations, s, path + [Child("validations")]);
        el := el + more;
      }
    }

    method EvaluateSlice(cr: Request, values: seq<string>, slice: Option<AllowedStringSlice>, path: Path)
      returns (el: seq<FieldError>)
      requires validators.Valid()
      modifies validators
      ensures validators.Valid() && Grows(old(validators.Entries()), validators.Entries())
      ensures Resolved(validators.Entries(), Consulted(SliceCheck(path, values, slice)))
      ensures el == SliceErrors(validators.Entries(), cel, cr, values, slice, path)
    {
      if |values| == 0 {
        if slice.Some? && slice.value.required == Some(true) {
          return [Required(path + [Child("required")])];
        }
        return [];
      }
      if slice.None? || (slice.value.values.None? && |slice.value.validations| == 0) {
        return [Invalid(path, "no allowed values")];
      }
      el := [];
      if slice.value.values.Some? {
        var subset := W.WildcardSubset(slice.value.values.value, values);
        if !subset {
          el := el + [Invalid(path + [Child("values")], Join(slice.value.values.value, ", "))];
        }
      }
      if |slice.value.validations| > 0 {
        var more := RunOnAll(cr, values, slice.value.validations, path + [Child("validations")]);
        el := el + more;
      }
    }

    /** The loop of evaluateSlice over the values. */
    method RunOnAll(cr: Request, values: seq<string>, rules: seq<ValidationRule>, path: Path)
      returns (el: seq<FieldError>)
      requires validators.Valid()
      modifies validators
      ensures validators.Valid() && Grows(old(validators.Entries()), validators.Entries())
      ensures values != [] ==> Resolved(validators.Entries(), rules)
      ensures el == ViolationsOfAll(validators.Entries(), cel, cr, rules, values, path)
    {
      el := [];
      for i := 0 to |values|
        invariant validators.Valid() && Grows(old(validators.Entries()), validators.Entries())
        invariant i > 0 ==> Resolved(validators.Entries(), rules)
        invariant el == ViolationsOfAll(validators.Entries(), cel, cr, rules, values[..i], path)
      {
        ghost var before := validators.Entries();
        var more := RunValidations(cr, rules, values[i], path);
        if i > 0 {
          ViolationsOfAllStay(before, validators.Entries(), cel, cr, rules, values[..i], path);
        }
        assert values[..i + 1][..i] == values[..i];
        el := el + more;
      }
      assert values[..|values|] == values;
    }

    method EvaluateBool(b: bool, flag: Option<bool>, path: Path) returns (el: seq<FieldError>)
      ensures el == BoolErrors(b, flag, path)
    {
      el := [];
      if b {
        if flag.None? {
          el := el + [Invalid(path, "nil")];
        } else if !flag.value {
          el := el + [Invalid(path, "false")];
        }
      }
    }

    method Usages(requested: seq<string>, usages: Option<seq<string>>, path: Path) returns (el: seq<FieldError>)
      ensures el == UsagesErrors(requested, usages, path)
    {
      el := [];
      if |requested| > 0 {
        if usages.None? {
          el := el + [Invalid(path, "nil")];
        } else {
          var subset := W.WildcardSubset(usages.value, requested);
          if !subset {
            el := el + [Invalid(path, Join(usages.value, ", "))];
          }
        }
      }
    }

    method RunCheck(cr: Request, check: Check) returns (el: seq<FieldError>)
      requires validators.Valid()
      modifies validators
      ensures validators.Valid() && Grows(old(validators.Entries()), validators.Entries())
      ensures Resolved(validators.Entries(), Consulted(check))
      ensures el == ErrorsOf(validators.Entries(), cel, cr, check)
    {
      match check
      case StringCheck(path, s, str) => el := EvaluateString(cr, s, str, path);
      case SliceCheck(path, values, slice) => el := EvaluateSlice(cr, values, slice, path);
      case BoolCheck(path, b, flag) => el := EvaluateBool(b, flag, path);
      case UsagesCheck(path, requested, usages) => el := Usages(requested, usages, path);
    }

    /** Evaluate: every evaluation function runs, and any error denies. */
    method Evaluate(policy: Policy, cr: Request) returns (r: Result<EvaluationResponse>)
      requires validators.Valid()
      modifies validators
      ensures validators.Valid() && Grows(old(validators.Entries()), validators.Entries())
      ensures r == Evaluation(validators.Entries(), cel, render)(policy, cr)
      ensures cr.csr.Success? ==> AllResolved(validators.Entries(), Checks(AllowedOf(policy), cr, cr.csr.value))
    {
      if cr.csr.Failure? {
        return Failure(cr.csr.error);
      }
      var el := RunChecks(cr, Checks(AllowedOf(policy), cr, cr.csr.value));
      if |el| > 0 {
        return Success(EvaluationResponse(true, render(el)));
      }
      r := Success(EvaluationResponse(false, ""));
    }

    /** The loop of Evaluate over the evaluation functions. */
    method RunChecks(cr: Request, checks: seq<Check>) returns (el: seq<FieldError>)
      requires validators.Valid()
      modifies validators
      ensures validators.Valid() && Grows(old(validators.Entries()), validators.Entries())
      ensures AllResolved(validators.Entries(), checks)
      ensures el == ErrorsOfAll(validators.Entries(), cel, cr, checks)
    {
      el := [];
      for i := 0 to |checks|
        invariant validators.Valid() && Grows(old(validators.Entries()), validators.Entries())
        invariant AllResolved(validators.Entries(), checks[..i])
        invariant el == ErrorsOfAll(validators.Entries(), cel, cr, checks[..i])
      {
        ghost var before := validators.Entries();
        var more := RunCheck(cr, checks[i]);
        ErrorsOfAllStay(before, validators.Entries(), cel, cr, checks[..i]);
        OneMoreCheck(validators.Entries(), cel, cr, checks, i);
        el := el + more;
      }
      assert checks[..|checks|] == checks;
    }
  }

  // ----- later entries do not change what was found -----

  ghost predicate AllResolved(entries: Entries, checks: seq<Check>) {
    forall i :: 0 <= i < |checks| ==> Resolved(entries, Consulted(checks[i]))
  }

  lemma OneMoreCheck(entries: Entries, cel: Cel, cr: Request, checks: seq<Check>, i: nat)
    requires i < |checks| && AllResolved(entries, checks[..i]) && Resolved(entries, Consulted(checks[i]))
    ensures AllResolved(entries, checks[..i + 1])
    ensures ErrorsOfAll(entries, cel, cr, checks[..i + 1]) ==
            ErrorsOfAll(entries, cel, cr, checks[..i]) + ErrorsOf(entries, cel, cr, checks[i])
  {
    assert checks[..i + 1][..i] == checks[..i];
  }

  lemma {:induction false} ViolationsStay(e: Entries, e': Entries, cel: Cel, cr: Request, rules: seq<ValidationRule>,
                                          s: string, path: Path)
    requires Grows(e, e') && Resolved(e, rules)
    ensures Resolved(e', rules) && Violations(e, cel, cr, rules, s, path) == Violations(e', cel, cr, rules, s, path)
  {
    if rules != [] {
      ViolationsStay(e, e', cel, cr, rules[..|rules| - 1], s, path);
    }
  }

  lemma {:induction false} ViolationsOfAllStay(e: Entries, e': Entries, cel: Cel, cr: Request,
                                               rules: seq<ValidationRule>, values: seq<string>, path: Path)
    requires Grows(e, e') && Resolved(e, rules)
    ensures ViolationsOfAll(e, cel, cr, rules, values, path) == ViolationsOfAll(e', cel, cr, rules, values, path)
  {
    if values != [] {
      ViolationsOfAllStay(e, e', cel, cr, rules, values[..|values| - 1], path);
      ViolationsStay(e, e', cel, cr, rules, values[|values| - 1], path);
    }
  }

  lemma ErrorsStay(e: Entries, e': Entries, cel: Cel, cr: Request, check: Check)
    requires Grows(e, e') && Resolved(e, Consulted(check))
    ensures Resolved(e', Consulted(check)) && ErrorsOf(e, cel, cr, check) == ErrorsOf(e', cel, cr, check)
  {
    match check
    case StringCheck(path, s, str) =>
      if s != [] && str.Some? {
        ViolationsStay(e, e', cel, cr, str.value.validations, s, path + [Child("validations")]);
      }
    case SliceCheck(path, values, slice) =>
      if values != [] && slice.Some? {
        ViolationsOfAllStay(e, e', cel, cr, slice.value.validations, values, path + [Child("validations")]);
      }
    case _ =>
  }

  /** Once the rules a request consults are settled, evaluating it again in any later state of the
      cache gives the same errors. */
  lemma {:induction false} ErrorsOfAllStay(e: Entries, e': Entries, cel: Cel, cr: Request, checks: seq<Check>)
    requires Grows(e, e') && AllResolved(e, checks)
    ensures AllResolved(e', checks) && ErrorsOfAll(e, cel, cr, checks) == ErrorsOfAll(e', cel, cr, checks)
  {
    if checks != [] {
      var front := checks[..|checks| - 1];
      assert forall i :: 0 <= i < |front| ==> front[i] == checks[i];
      ErrorsOfAllStay(e, e', cel, cr, front);
      ErrorsStay(e, e', cel, cr, checks[|checks| - 1]);
    }
  }
}
