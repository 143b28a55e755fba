/** When the `allowed` approver passes a request, which policies never do, and why widening a
    policy never takes a pass away. */
module AllowedProperties {
  import opened Api
  import opened Lists
  import opened Validators
  import opened AllowedApprover
  import W = Wildcard

  // ----- when a field passes -----

  predicate RuleHolds(entries: Entries, cel: Cel, cr: Request, rule: ValidationRule, s: string) {
    && rule.rule in entries && entries[rule.rule].Ready?
    && cel(entries[rule.rule].program,
           CelVars(self := s, name := cr.name, namespace := cr.namespace, username := cr.username)) == Success(true)
  }

  ghost predicate RulesHold(entries: Entries, cel: Cel, cr: Request, rules: seq<ValidationRule>, s: string) {
    forall rule :: rule in rules ==> RuleHolds(entries, cel, cr, rule, s)
  }

  lemma {:induction false} NoViolationsIff(entries: Entries, cel: Cel, cr: Request, rules: seq<ValidationRule>,
                                           s: string, path: Path)
    ensures Violations(entries, cel, cr, rules, s, path) == [] <==> RulesHold(entries, cel, cr, rules, s)
  {
    if rules != [] {
      var n := |rules| - 1;
      NoViolationsIff(entries, cel, cr, rules[..n], s, path);
      forall rule ensures rule in rules <==> rule in rules[..n] || rule == rules[n] {
        InFrontOrLast(rules, rule);
      }
      assert RulesHold(entries, cel, cr, rules, s) <==>
             RulesHold(entries, cel, cr, rules[..n], s) && RuleHolds(entries, cel, cr, rules[n], s);
    }
  }

  lemma {:induction false} NoViolationsOfAllIff(entries: Entries, cel: Cel, cr: Request, rules: seq<ValidationRule>,
                                                values: seq<string>, path: Path)
    ensures ViolationsOfAll(entries, cel, cr, rules, values, path) == [] <==>
            forall v :: v in values ==> RulesHold(entries, cel, cr, rules, v)
  {
    if values != [] {
      NoViolationsOfAllIff(entries, cel, cr, rules, values[..|values| - 1], path);
      NoViolationsIff(entries, cel, cr, rules, values[|values| - 1], path);
      forall v ensures v in values <==> v in values[..|values| - 1] || v == values[|values| - 1] {
        InFrontOrLast(values, v);
      }
    }
  }

  /** The field must be set in the request. */
  predicate DemandsString(str: Option<AllowedString>) {
    str.Some? && str.value.required == Some(true)
  }

  /** The field may be set in the request. */
  predicate OpensString(str: Option<AllowedString>) {
    str.Some? && (str.value.value.Some? || str.value.validations != [])
  }

  predicate DemandsSlice(slice: Option<AllowedStringSlice>) {
    slice.Some? && slice.value.required == Some(true)
  }

  predicate OpensSlice(slice: Option<AllowedStringSlice>) {
    slice.Some? && (slice.value.values.Some? || slice.value.validations != [])
  }

  /** A string conforms when it is empty and not demanded, or when the field is open, some choice of
      fillers turns the pattern into it, and every rule compiles and answers true. */
  ghost predicate StringConforms(entries: Entries, cel: Cel, cr: Request, s: string, str: Option<AllowedString>) {
    if s == "" then !DemandsString(str)
    else && OpensString(str)
         && (str.value.value.Some? ==> W.Denotes(str.value.value.value, s))
         && RulesHold(entries, cel, cr, str.value.validations, s)
  }

  /** Each value is denoted by one of the patterns. */
  ghost predicate Covered(patterns: seq<string>, values: seq<string>) {
    forall v :: v in values ==> exists p :: p in patterns && W.Denotes(p, v)
  }

  /** The same for a list: each value must be denoted by a pattern and satisfy every rule. */
  ghost predicate SliceConforms(entries: Entries, cel: Cel, cr: Request, values: seq<string>,
                                slice: Option<AllowedStringSlice>)
  {
    if values == [] then !DemandsSlice(slice)
    else && OpensSlice(slice)
         && (slice.value.values.Some? ==> Covered(slice.value.values.value, values))
         && forall v :: v in values ==> RulesHold(entries, cel, cr, slice.value.validations, v)
  }

  /** Usages are denied unless the policy lists them. */
  ghost predicate UsagesConform(requested: seq<string>, usages: Option<seq<string>>) {
    Covered(if usages.Some? then usages.value else [], requested)
  }

  ghost predicate FlagConforms(b: bool, flag: Option<bool>) {
    b ==> flag == Some(true)
  }

  lemma SubsetIsCovered(patterns: seq<string>, values: seq<string>)
    ensures W.Subset(patterns, values) <==> Covered(patterns, values)
  {
    forall v { W.ContainsIffDenoted(patterns, v); }
    if W.Subset(patterns, values) {
      forall v | v in values ensures exists p :: p in patterns && W.Denotes(p, v) {
        var j :| 0 <= j < |values| && values[j] == v;
      }
    }
    if Covered(patterns, values) {
      forall j | 0 <= j < |values| ensures W.Contains(patterns, values[j]) {
        assert values[j] in values;
      }
    }
  }

  lemma StringPassesIff(entries: Entries, cel: Cel, cr: Request, s: string, str: Option<AllowedString>, path: Path)
    ensures StringErrors(entries, cel, cr, s, str, path) == [] <==> StringConforms(entries, cel, cr, s, str)
  {
    if s != "" && OpensString(str) {
      NoViolationsIff(entries, cel, cr, str.value.validations, s, path + [Child("validations")]);
      if str.value.value.Some? {
        W.MatchesIffFillersExist(str.value.value.value, s);
      }
    }
  }

  lemma SlicePassesIff(entries: Entries, cel: Cel, cr: Request, values: seq<string>,
                       slice: Option<AllowedStringSlice>, path: Path)
    ensures SliceErrors(entries, cel, cr, values, slice, path) == [] <==> SliceConforms(entries, cel, cr, values, slice)
  {
    if values != [] && OpensSlice(slice) {
      NoViolationsOfAllIff(entries, cel, cr, slice.value.validations, values, path + [Child("validations")]);
      if slice.value.values.Some? {
        SubsetIsCovered(slice.value.values.value, values);
      }
    }
  }

  lemma UsagesPassIff(requested: seq<string>, usages: Option<seq<string>>, path: Path)
    ensures UsagesErrors(requested, usages, path) == [] <==> UsagesConform(requested, usages)
  {
    if usages.Some? {
      SubsetIsCovered(usages.value, requested);
    } else if requested != [] {
      assert requested[0] in requested;
    }
  }

  predicate Passes(entries: Entries, cel: Cel, cr: Request, check: Check) {
    ErrorsOf(entries, cel, cr, check) == []
  }

  /** The errors of all checks are those of each, in order. */
  lemma {:induction false} AllErrorsAre(entries: Entries, cel: Cel, cr: Request, checks: seq<Check>)
    ensures ErrorsOfAll(entries, cel, cr, checks) ==
            Flatten(seq(|checks|, i requires 0 <= i < |checks| => ErrorsOf(entries, cel, cr, checks[i])))
  {
    if checks != [] {
      var front, n := checks[..|checks| - 1], |checks| - 1;
      AllErrorsAre(entries, cel, cr, front);
      assert seq(|checks|, i requires 0 <= i < |checks| => ErrorsOf(entries, cel, cr, checks[i]))[..n] ==
             seq(|front|, i requires 0 <= i < |front| => ErrorsOf(entries, cel, cr, front[i]));
    }
  }

  lemma NoErrorsIff(entries: Entries, cel: Cel, cr: Request, checks: seq<Check>)
    ensures ErrorsOfAll(entries, cel, cr, checks) == [] <==> PassesAll(entries, cel, cr, checks)
  {
    var each := seq(|checks|, i requires 0 <= i < |checks| => ErrorsOf(entries, cel, cr, checks[i]));
    AllErrorsAre(entries, cel, cr, checks);
    FlattenIsEmptyIff(each);
    if Flatten(each) == [] {
      forall i | 0 <= i < |checks| ensures Passes(entries, cel, cr, checks[i]) {
        assert each[i] == [];
      }
    }
    if PassesAll(entries, cel, cr, checks) {
      forall i | 0 <= i < |each| ensures each[i] == [] {
        assert Passes(entries, cel, cr, checks[i]);
      }
    }
  }

  ghost predicate PassesAll(entries: Entries, cel: Cel, cr: Request, checks: seq<Check>) {
    forall i :: 0 <= i < |checks| ==> Passes(entries, cel, cr, checks[i])
  }

  /** The evaluator errs exactly on a request it cannot decode, with the decoding error.  It denies
      exactly when one of the fifteen checks fails, with the errors of all of them in order. */
  lemma EvaluationIs(entries: Entries, cel: Cel, render: Render, p: Policy, cr: Request)
    ensures var r := Evaluation(entries, cel, render)(p, cr);
            match cr.csr
            case Failure(e) => r == Failure(e)
            case Success(csr) =>
              var checks := Checks(AllowedOf(p), cr, csr);
              var el := Flatten(seq(15, i requires 0 <= i < 15 => ErrorsOf(entries, cel, cr, checks[i])));
              if PassesAll(entries, cel, cr, checks) then r == Success(EvaluationResponse(false, ""))
              else r == Success(EvaluationResponse(true, render(el)))
  {
    if cr.csr.Success? {
      NoErrorsIff(entries, cel, cr, Checks(AllowedOf(p), cr, cr.csr.value));
      AllErrorsAre(entries, cel, cr, Checks(AllowedOf(p), cr, cr.csr.value));
    }
  }

  // ----- which errors those are -----

  /** What a rule at position `at` reports on a value: that it does not compile, that running it
      failed, or, with its own message or a standard one, that it is broken. */
  predicate RuleReports(entries: Entries, cel: Cel, cr: Request, rule: ValidationRule, s: string, at: Path,
                        e: FieldError)
    requires rule.rule in entries
  {
    match entries[rule.rule]
    case Broken(err) => e == InternalError(at, err)
    case Ready(program) =>
      var vars := CelVars(self := s, name := cr.name, namespace := cr.namespace, username := cr.username);
      match cel(program, vars)
      case Failure(err) => e == InternalError(at, err)
      case Success(valid) =>
        && !valid
        && e == Invalid(at, if rule.message.Some? then rule.message.value else "failed rule: " + rule.rule)
  }

  ghost predicate SomeRuleReports(entries: Entries, cel: Cel, cr: Request, rules: seq<ValidationRule>, s: string,
                                  path: Path, e: FieldError)
    requires Resolved(entries, rules)
  {
    exists j: nat :: j < |rules| && RuleReports(entries, cel, cr, rules[j], s, path + [Index(j)], e)
  }

  lemma {:induction false} ViolationsAre(entries: Entries, cel: Cel, cr: Request, rules: seq<ValidationRule>,
                                         s: string, path: Path, e: FieldError)
    requires Resolved(entries, rules)
    ensures e in Violations(entries, cel, cr, rules, s, path) <==>
            SomeRuleReports(entries, cel, cr, rules, s, path, e)
  {
    if rules != [] {
      var front, n := rules[..|rules| - 1], |rules| - 1;
      ViolationsAre(entries, cel, cr, front, s, path, e);
      assert forall j :: 0 <= j < n ==> front[j] == rules[j];
      assert e in ViolationAt(entries, cel, cr, rules[n], s, path + [Index(n)]) <==>
             RuleReports(entries, cel, cr, rules[n], s, path + [Index(n)], e);
    }
  }

  lemma {:induction false} ViolationsOfAllAre(entries: Entries, cel: Cel, cr: Request, rules: seq<ValidationRule>,
                                              values: seq<string>, path: Path, e: FieldError)
    requires Resolved(entries, rules)
    ensures e in ViolationsOfAll(entries, cel, cr, rules, values, path) <==>
            exists v :: v in values && SomeRuleReports(entries, cel, cr, rules, v, path, e)
  {
    if values != [] {
      var front, last := values[..|values| - 1], values[|values| - 1];
      ViolationsOfAllAre(entries, cel, cr, rules, front, path, e);
      ViolationsAre(entries, cel, cr, rules, last, path, e);
      forall v ensures v in values <==> v in front || v == last {
        InFrontOrLast(values, v);
      }
    }
  }

  /** The errors of a string attribute: it is missing, it has no allowed value, it does not match
      the value, or a rule reports it. */
  lemma StringErrorsAre(entries: Entries, cel: Cel, cr: Request, s: string, str: Option<AllowedString>, path: Path,
                        e: FieldError)
    requires Resolved(entries, Consulted(StringCheck(path, s, str)))
    ensures e in StringErrors(entries, cel, cr, s, str, path) <==>
            if s == "" then DemandsString(str) && e == Required(path + [Child("required")])
            else if !OpensString(str) then e == Invalid(path, "no allowed value")
            else
              || (str.value.value.Some? && !W.Denotes(str.value.value.value, s) &&
                  e == Invalid(path + [Child("value")], str.value.value.value))
              || SomeRuleReports(entries, cel, cr, str.value.validations, s, path + [Child("validations")], e)
  {
    if s != "" && OpensString(str) {
      ViolationsAre(entries, cel, cr, str.value.validations, s, path + [Child("validations")], e);
      if str.value.value.Some? {
        W.MatchesIffFillersExist(str.value.value.value, s);
      }
    }
  }

  lemma SliceErrorsAre(entries: Entries, cel: Cel, cr: Request, values: seq<string>,
                       slice: Option<AllowedStringSlice>, path: Path, e: FieldError)
    requires Resolved(entries, Consulted(SliceCheck(path, values, slice)))
    ensures e in SliceErrors(entries, cel, cr, values, slice, path) <==>
            if values == [] then DemandsSlice(slice) && e == Required(path + [Child("required")])
            else if !OpensSlice(slice) then e == Invalid(path, "no allowed values")
            else
              || (slice.value.values.Some? && !Covered(slice.value.values.value, values) &&
                  e == Invalid(path + [Child("values")], Join(slice.value.values.value, ", ")))
              || exists v :: v in values &&
                   SomeRuleReports(entries, cel, cr, slice.value.validations, v, path + [Child("validations")], e)
  {
    if values != [] && OpensSlice(slice) {
      ViolationsOfAllAre(entries, cel, cr, slice.value.validations, values, path + [Child("validations")], e);
      if slice.value.values.Some? {
        SubsetIsCovered(slice.value.values.value, values);
      }
    }
  }

  /** A flag or usages that are not allowed give one error, at the field. */
  lemma FlagErrorsAre(b: bool, flag: Option<bool>, path: Path, e: FieldError)
    ensures e in BoolErrors(b, flag, path) <==>
            b && flag != Some(true) && e == Invalid(path, if flag.None? then "nil" else "false")
  {
  }

  lemma UsagesErrorsAre(requested: seq<string>, usages: Option<seq<string>>, path: Path, e: FieldError)
    ensures e in UsagesErrors(requested, usages, path) <==>
            && !UsagesConform(requested, usages)
            && e == Invalid(path, if usages.None? then "nil" else Join(usages.value, ", "))
  {
    UsagesPassIff(requested, usages, path);
  }

  /** Every attribute of the request conforms to the field of its name. */
  ghost predicate Conforms(entries: Entries, cel: Cel, allowed: Option<Allowed>, cr: Request, csr: Csr) {
    var a := if allowed.Some? then allowed.value else Allowed(None, None, None, None, None, None, None, None);
    var sub := if a.subject.Some? then a.subject.value
               else AllowedSubject(None, None, None, None, None, None, None, None);
    && StringConforms(entries, cel, cr, csr.commonName, a.commonName)
    && SliceConforms(entries, cel, cr, csr.dnsNames, a.dnsNames)
    && SliceConforms(entries, cel, cr, csr.ipAddresses, a.ipAddresses)
    && SliceConforms(entries, cel, cr, csr.uris, a.uris)
    && SliceConforms(entries, cel, cr, csr.emailAddresses, a.emailAddresses)
    && FlagConforms(cr.isCA, a.isCA)
    && UsagesConform(cr.usages, a.usages)
    && SliceConforms(entries, cel, cr, csr.subject.organization, sub.organizations)
    && SliceConforms(entries, cel, cr, csr.subject.country, sub.countries)
    && SliceConforms(entries, cel, cr, csr.subject.organizationalUnit, sub.organizationalUnits)
    && SliceConforms(entries, cel, cr, csr.subject.locality, sub.localities)
    && SliceConforms(entries, cel, cr, csr.subject.province, sub.provinces)
    && SliceConforms(entries, cel, cr, csr.subject.streetAddress, sub.streetAddresses)
    && SliceConforms(entries, cel, cr, csr.subject.postalCode, sub.postalCodes)
    && StringConforms(entries, cel, cr, csr.subject.serialNumber, sub.serialNumber)
  }

  lemma FieldPaths(name: string)
    ensures At(name) == [Child("spec"), Child("allowed"), Child(name)]
    ensures AtSubject(name) == [Child("spec"), Child("allowed"), Child("subject"), Child(name)]
  {
  }

  /** Each check reports at the field of its name. */
  lemma CheckPaths(a: Allowed, cr: Request, csr: Csr)
    ensures var checks := Checks(a, cr, csr);
            && checks[0].path == At("commonName") && checks[1].path == At("dnsNames")
            && checks[2].path == At("ipAddresses") && checks[3].path == At("uris")
            && checks[4].path == At("emailAddresses") && checks[5].path == At("isCA")
            && checks[6].path == At("usages") && checks[7].path == AtSubject("organizations")
            && checks[8].path == AtSubject("countries") && checks[9].path == AtSubject("organizationalUnits")
            && checks[10].path == AtSubject("localities") && checks[11].path == AtSubject("provinces")
            && checks[12].path == AtSubject("streetAddresses") && checks[13].path == AtSubject("postalCodes")
            && checks[14].path == AtSubject("serialNumber")
  {
  }

  ghost predicate CheckConforms(entries: Entries, cel: Cel, cr: Request, check: Check) {
    match check
    case StringCheck(_, s, str) => StringConforms(entries, cel, cr, s, str)
    case SliceCheck(_, values, slice) => SliceConforms(entries, cel, cr, values, slice)
    case BoolCheck(_, b, flag) => FlagConforms(b, flag)
    case UsagesCheck(_, requested, usages) => UsagesConform(requested, usages)
  }

  lemma PassesIffConforms(entries: Entries, cel: Cel, cr: Request, check: Check)
    ensures Passes(entries, cel, cr, check) <==> CheckConforms(entries, cel, cr, check)
  {
    match check
    case StringCheck(path, s, str) => StringPassesIff(entries, cel, cr, s, str, path);
    case SliceCheck(path, values, slice) => SlicePassesIff(entries, cel, cr, values, slice, path);
    case UsagesCheck(path, requested, usages) => UsagesPassIff(requested, usages, path);
    case _ =>
  }

  /** A decoded request is let through exactly when all its attributes conform. */
  lemma NotDeniedIffConforms(entries: Entries, cel: Cel, render: Render, p: Policy, cr: Request)
    requires cr.csr.Success?
    ensures Evaluation(entries, cel, render)(p, cr) == Success(EvaluationResponse(false, "")) <==>
            Conforms(entries, cel, p.spec.allowed, cr, cr.csr.value)
  {
    EvaluationIs(entries, cel, render, p, cr);
    var checks := Checks(AllowedOf(p), cr, cr.csr.value);
    forall i | 0 <= i < |checks|
      ensures Passes(entries, cel, cr, checks[i]) <==> CheckConforms(entries, cel, cr, checks[i])
    {
      PassesIffConforms(entries, cel, cr, checks[i]);
    }
    AllConformIff(entries, cel, p, cr, cr.csr.value);
  }

  lemma AllConformIff(entries: Entries, cel: Cel, p: Policy, cr: Request, csr: Csr)
    ensures var checks := Checks(AllowedOf(p), cr, csr);
            (forall i :: 0 <= i < |checks| ==> CheckConforms(entries, cel, cr, checks[i])) <==>
            Conforms(entries, cel, p.spec.allowed, cr, csr)
  {
    var c := Checks(AllowedOf(p), cr, csr);
    if forall i :: 0 <= i < |c| ==> CheckConforms(entries, cel, cr, c[i]) {
      assert CheckConforms(entries, cel, cr, c[0]) && CheckConforms(entries, cel, cr, c[1]);
      assert CheckConforms(entries, cel, cr, c[2]) && CheckConforms(entries, cel, cr, c[3]);
      assert CheckConforms(entries, cel, cr, c[4]) && CheckConforms(entries, cel, cr, c[5]);
      assert CheckConforms(entries, cel, cr, c[6]) && CheckConforms(entries, cel, cr, c[7]);
      assert CheckConforms(entries, cel, cr, c[8]) && CheckConforms(entries, cel, cr, c[9]);
      assert CheckConforms(entries, cel, cr, c[10]) && CheckConforms(entries, cel, cr, c[11]);
      assert CheckConforms(entries, cel, cr, c[12]) && CheckConforms(entries, cel, cr, c[13]);
      assert CheckConforms(entries, cel, cr, c[14]);
    }
  }

  // ----- default deny -----

  predicate ImpossibleString(str: Option<AllowedString>) {
    DemandsString(str) && str.value.value == Some("")
  }

  predicate ImpossibleSlice(slice: Option<AllowedStringSlice>) {
    DemandsSlice(slice) && slice.value.values == Some([])
  }

  predicate Impossible(check: Check) {
    match check
    case StringCheck(_, _, str) => ImpossibleString(str)
    case SliceCheck(_, _, slice) => ImpossibleSlice(slice)
    case _ => false
  }

  /** Some field is required and allows no value. */
  predicate DeniesByDefault(a: Allowed) {
    || ImpossibleString(a.commonName) || ImpossibleSlice(a.dnsNames) || ImpossibleSlice(a.ipAddresses)
    || ImpossibleSlice(a.uris) || ImpossibleSlice(a.emailAddresses)
    || (a.subject.Some? &&
          var sub := a.subject.value;
          || ImpossibleSlice(sub.organizations) || ImpossibleSlice(sub.countries)
          || ImpossibleSlice(sub.organizationalUnits) || ImpossibleSlice(sub.localities)
          || ImpossibleSlice(sub.provinces) || ImpossibleSlice(sub.streetAddresses)
          || ImpossibleSlice(sub.postalCodes) || ImpossibleString(sub.serialNumber))
  }

  lemma ImpossibleNeverPasses(entries: Entries, cel: Cel, cr: Request, check: Check)
    requires Impossible(check)
    ensures !Passes(entries, cel, cr, check)
  {
    match check
    case StringCheck(path, s, str) => StringPassesIff(entries, cel, cr, s, str, path);
      W.MatchesIffFillersExist("", s);
    case SliceCheck(path, values, slice) => SlicePassesIff(entries, cel, cr, values, slice, path);
      assert values != [] ==> values[0] in values;
  }

  /** A policy with such a field passes no request at all. */
  lemma DefaultDeny(entries: Entries, cel: Cel, render: Render, p: Policy, cr: Request)
    requires p.spec.allowed.Some? && DeniesByDefault(p.spec.allowed.value)
    ensures var r := Evaluation(entries, cel, render)(p, cr);
            r.Success? ==> r.value.denied
  {
    if cr.csr.Success? {
      var checks := Checks(AllowedOf(p), cr, cr.csr.value);
      EvaluationIs(entries, cel, render, p, cr);
      var i := ImpossibleCheck(AllowedOf(p), cr, cr.csr.value);
      ImpossibleNeverPasses(entries, cel, cr, checks[i]);
    }
  }

  lemma ImpossibleCheck(a: Allowed, cr: Request, csr: Csr) returns (i: nat)
    requires DeniesByDefault(a)
    ensures i < |Checks(a, cr, csr)| && Impossible(Checks(a, cr, csr)[i])
  {
    var checks := Checks(a, cr, csr);
    i := if Impossible(checks[0]) then 0 else if Impossible(checks[1]) then 1
         else if Impossible(checks[2]) then 2 else if Impossible(checks[3]) then 3
         else if Impossible(checks[4]) then 4 else if Impossible(checks[7]) then 7
         else if Impossible(checks[8]) then 8 else if Impossible(checks[9]) then 9
         else if Impossible(checks[10]) then 10 else if Impossible(checks[11]) then 11
         else if Impossible(checks[12]) then 12 else if Impossible(checks[13]) then 13 else 14;
  }

  // ----- widening -----

  ghost predicate FewerRules(rules: seq<ValidationRule>, rules': seq<ValidationRule>) {
    forall rule :: rule in rules' ==> rule in rules
  }

  /** The second field demands no more than the first and, where the first is open, is open with a
      value that covers it and with no further rule. */
  ghost predicate WiderString(str: Option<AllowedString>, str': Option<AllowedString>) {
    && (DemandsString(str') ==> DemandsString(str))
    && (OpensString(str) ==>
          && OpensString(str')
          && (str'.value.value.Some? ==>
                str.value.value.Some? && W.Matches(str'.value.value.value, str.value.value.value))
          && FewerRules(str.value.validations, str'.value.validations))
  }

  ghost predicate WiderSlice(slice: Option<AllowedStringSlice>, slice': Option<AllowedStringSlice>) {
    && (DemandsSlice(slice') ==> DemandsSlice(slice))
    && (OpensSlice(slice) ==>
          && OpensSlice(slice')
          && (slice'.value.values.Some? ==>
                slice.value.values.Some? && W.Subset(slice'.value.values.value, slice.value.values.value))
          && FewerRules(slice.value.validations, slice'.value.validations))
  }

  predicate WiderUsages(usages: Option<seq<string>>, usages': Option<seq<string>>) {
    usages.Some? && usages.value != [] ==> usages'.Some? && W.Subset(usages'.value, usages.value)
  }

  predicate WiderFlag(flag: Option<bool>, flag': Option<bool>) {
    flag == Some(true) ==> flag' == Some(true)
  }

  ghost predicate WiderCheck(check: Check, check': Check) {
    match (check, check')
    case (StringCheck(_, s, str), StringCheck(_, s', str')) => s == s' && WiderString(str, str')
    case (SliceCheck(_, values, slice), SliceCheck(_, values', slice')) =>
      values == values' && WiderSlice(slice, slice')
    case (BoolCheck(_, b, flag), BoolCheck(_, b', flag')) => b == b' && WiderFlag(flag, flag')
    case (UsagesCheck(_, requested, usages), UsagesCheck(_, requested', usages')) =>
      requested == requested' && WiderUsages(usages, usages')
    case _ => false
  }

  ghost predicate WiderAllowed(a: Allowed, b: Allowed) {
    var sub, sub' := SubjectOf(a), SubjectOf(b);
    && WiderString(a.commonName, b.commonName)
    && WiderSlice(a.dnsNames, b.dnsNames)
    && WiderSlice(a.ipAddresses, b.ipAddresses)
    && WiderSlice(a.uris, b.uris)
    && WiderSlice(a.emailAddresses, b.emailAddresses)
    && WiderFlag(a.isCA, b.isCA)
    && WiderUsages(a.usages, b.usages)
    && WiderSlice(sub.organizations, sub'.organizations)
    && WiderSlice(sub.countries, sub'.countries)
    && WiderSlice(sub.organizationalUnits, sub'.organizationalUnits)
    && WiderSlice(sub.localities, sub'.localities)
    && WiderSlice(sub.provinces, sub'.provinces)
    && WiderSlice(sub.streetAddresses, sub'.streetAddresses)
    && WiderSlice(sub.postalCodes, sub'.postalCodes)
    && WiderString(sub.serialNumber, sub'.serialNumber)
  }

  lemma WiderCheckPasses(entries: Entries, cel: Cel, cr: Request, check: Check, check': Check)
    requires WiderCheck(check, check') && Passes(entries, cel, cr, check)
    ensures Passes(entries, cel, cr, check')
  {
    match (check, check')
    case (StringCheck(path, s, str), StringCheck(path', _, str')) =>
      WiderStringPasses(entries, cel, cr, s, str, path, str', path');
    case (SliceCheck(path, values, slice), SliceCheck(path', _, slice')) =>
      WiderSlicePasses(entries, cel, cr, values, slice, path, slice', path');
    case (UsagesCheck(_, requested, usages), UsagesCheck(_, _, usages')) =>
      if requested != [] {
        assert W.Contains(usages.value, requested[0]);
        W.SubsetTransitive(usages'.value, usages.value, requested);
      }
    case _ =>
  }

  lemma WiderStringPasses(entries: Entries, cel: Cel, cr: Request, s: string,
                          str: Option<AllowedString>, path: Path, str': Option<AllowedString>, path': Path)
    requires WiderString(str, str') && StringErrors(entries, cel, cr, s, str, path) == []
    ensures StringErrors(entries, cel, cr, s, str', path') == []
  {
    StringPassesIff(entries, cel, cr, s, str, path);
    StringPassesIff(entries, cel, cr, s, str', path');
    if s != "" && str'.value.value.Some? {
      W.MatchesIffFillersExist(str.value.value.value, s);
      W.MatchesTransitive(str'.value.value.value, str.value.value.value, s);
      W.MatchesIffFillersExist(str'.value.value.value, s);
    }
  }

  lemma WiderSlicePasses(entries: Entries, cel: Cel, cr: Request, values: seq<string>,
                         slice: Option<AllowedStringSlice>, path: Path, slice': Option<AllowedStringSlice>, path': Path)
    requires WiderSlice(slice, slice') && SliceErrors(entries, cel, cr, values, slice, path) == []
    ensures SliceErrors(entries, cel, cr, values, slice', path') == []
  {
    SlicePassesIff(entries, cel, cr, values, slice, path);
    SlicePassesIff(entries, cel, cr, values, slice', path');
    if values != [] {
      if slice'.value.values.Some? {
        SubsetIsCovered(slice.value.values.value, values);
        W.SubsetTransitive(slice'.value.values.value, slice.value.values.value, values);
        SubsetIsCovered(slice'.value.values.value, values);
      }
      forall v | v in values ensures RulesHold(entries, cel, cr, slice'.value.validations, v) {
        assert RulesHold(entries, cel, cr, slice.value.validations, v);
      }
    }
  }

  /** Widening what a policy allows never turns a pass into a denial. */
  lemma WideningKeepsPass(entries: Entries, cel: Cel, render: Render, p: Policy, p': Policy, cr: Request)
    requires WiderAllowed(AllowedOf(p), AllowedOf(p'))
    requires var r := Evaluation(entries, cel, render)(p, cr); r.Success? && !r.value.denied
    ensures var r := Evaluation(entries, cel, render)(p', cr); r.Success? && !r.value.denied
  {
    EvaluationIs(entries, cel, render, p, cr);
    EvaluationIs(entries, cel, render, p', cr);
    var checks, checks' := Checks(AllowedOf(p), cr, cr.csr.value), Checks(AllowedOf(p'), cr, cr.csr.value);
    forall i | 0 <= i < |checks'| ensures Passes(entries, cel, cr, checks'[i]) {
      WiderCheckAt(AllowedOf(p), AllowedOf(p'), cr, cr.csr.value, i);
      WiderCheckPasses(entries, cel, cr, checks[i], checks'[i]);
    }
  }

  lemma WiderCheckAt(a: Allowed, b: Allowed, cr: Request, csr: Csr, i: nat)
    requires WiderAllowed(a, b) && i < |Checks(b, cr, csr)|
    ensures i < |Checks(a, cr, csr)| && WiderCheck(Checks(a, cr, csr)[i], Checks(b, cr, csr)[i])
  {
  }

  /** Every field is at least as wide as itself, so a policy may widen one field alone. */
  lemma WiderReflexive(a: Allowed)
    ensures WiderAllowed(a, a)
  {
    forall p: string { W.MatchesReflexive(p); }
    forall ps: seq<string> { W.SubsetReflexive(ps); }
  }
}
