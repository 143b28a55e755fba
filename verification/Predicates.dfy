/** The four policy predicates of pkg/internal/approver/manager/predicate/predicate.go and the
    one filter their chain amounts to. */
module Predicates {
  import opened Api
  import opened Lists
  import W = Wildcard

  /** What the API server answers: the labels of a namespace, whether a label selector is well
      formed, and the outcome of a SubjectAccessReview for a policy name. */
  datatype Answers = Answers(
    namespaceLabels: string -> Result<Labels>,
    validSelector: Labels -> bool,
    access: (string, Request) -> Result<bool>)

  // ----- Ready -----

  predicate IsReadyTrue(c: PolicyCondition) {
    c.typ == READY && c.status == CONDITION_TRUE
  }

  predicate IsReady(p: Policy) {
    exists i :: 0 <= i < |p.conditions| && IsReadyTrue(p.conditions[i])
  }

  function ReadyTimes(conditions: seq<PolicyCondition>): nat {
    if conditions == [] then 0
    else
      ReadyTimes(conditions[..|conditions| - 1])
      + if IsReadyTrue(conditions[|conditions| - 1]) then 1 else 0
  }

  function Copies(p: Policy, n: nat): seq<Policy> {
    if n == 0 then [] else Copies(p, n - 1) + [p]
  }

  /** A policy is appended once for each of its Ready=True conditions. */
  function ReadyPolicies(ps: seq<Policy>): seq<Policy> {
    if ps == [] then []
    else ReadyPolicies(ps[..|ps| - 1]) + Copies(ps[|ps| - 1], ReadyTimes(ps[|ps| - 1].conditions))
  }

  ghost predicate ReadyAtMostOnce(ps: seq<Policy>) {
    forall p :: p in ps ==> ReadyTimes(p.conditions) <= 1
  }

  method Ready(policies: seq<Policy>) returns (ready: seq<Policy>)
    ensures ready == ReadyPolicies(policies)
  {
    ready := [];
    for i := 0 to |policies|
      invariant ready == ReadyPolicies(policies[..i])
    {
      var conditions := policies[i].conditions;
      assert policies[..i + 1][..i] == policies[..i];
      for j := 0 to |conditions|
        invariant ready == ReadyPolicies(policies[..i]) + Copies(policies[i], ReadyTimes(conditions[..j]))
      {
        assert conditions[..j + 1][..j] == conditions[..j];
        if conditions[j].typ == READY && conditions[j].status == CONDITION_TRUE {
          ready := ready + [policies[i]];
        }
      }
      assert conditions[..|conditions|] == conditions;
    }
    assert policies[..|policies|] == policies;
  }

  lemma {:induction false} ReadyTimesPositive(conditions: seq<PolicyCondition>)
    ensures ReadyTimes(conditions) > 0 <==> exists i :: 0 <= i < |conditions| && IsReadyTrue(conditions[i])
  {
    if conditions != [] {
      var front, last := conditions[..|conditions| - 1], |conditions| - 1;
      ReadyTimesPositive(front);
      if i :| 0 <= i < |conditions| && IsReadyTrue(conditions[i]) {
        assert i == last || front[i] == conditions[i];
      }
      if i :| 0 <= i < |front| && IsReadyTrue(front[i]) {
        assert conditions[i] == front[i];
      }
    }
  }

  lemma {:induction false} UniqueTypesReadyOnce(conditions: seq<PolicyCondition>)
    requires DistinctKeys(conditions, POLICY_TYPE)
    ensures ReadyTimes(conditions) <= 1
  {
    if conditions != [] {
      var front := conditions[..|conditions| - 1];
      UniqueTypesReadyOnce(front);
      ReadyTimesPositive(front);
    }
  }

  lemma {:induction false} ReadyLength(ps: seq<Policy>)
    ensures |ReadyPolicies(ps)| >= |Filter(ps, IsReady)|
    ensures |ReadyPolicies(ps)| == |Filter(ps, IsReady)| ==> ReadyAtMostOnce(ps)
  {
    if ps != [] {
      var last := ps[|ps| - 1];
      ReadyLength(ps[..|ps| - 1]);
      ReadyTimesPositive(last.conditions);
      CopiesLength(last, ReadyTimes(last.conditions));
      forall p ensures p in ps <==> p in ps[..|ps| - 1] || p == last {
        InFrontOrLast(ps, p);
      }
    }
  }

  lemma {:induction false} CopiesLength(p: Policy, n: nat)
    ensures |Copies(p, n)| == n
  {
    if n > 0 { CopiesLength(p, n - 1); }
  }

  lemma AtMostOneCopy(p: Policy, n: nat)
    requires n <= 1
    ensures Copies(p, n) == if n == 0 then [] else [p]
  {
    assert Copies(p, 0) == [];
  }

  lemma {:induction false} ReadyOnceIsFilter(ps: seq<Policy>)
    requires ReadyAtMostOnce(ps)
    ensures ReadyPolicies(ps) == Filter(ps, IsReady)
  {
    if ps != [] {
      var last := ps[|ps| - 1];
      assert last in ps;
      ReadyOnceIsFilter(ps[..|ps| - 1]);
      ReadyTimesPositive(last.conditions);
      AtMostOneCopy(last, ReadyTimes(last.conditions));
    }
  }

  /** Ready is the order-preserving filter exactly when no policy repeats Ready=True. */
  lemma ReadyIsFilterIff(ps: seq<Policy>)
    ensures ReadyPolicies(ps) == Filter(ps, IsReady) <==> ReadyAtMostOnce(ps)
  {
    ReadyLength(ps);
    if ReadyAtMostOnce(ps) {
      ReadyOnceIsFilter(ps);
    }
  }

  /** A policy that carries Ready=True twice comes out twice. */
  lemma ReadyDuplicates(p: Policy, c: PolicyCondition)
    requires p.conditions == [c, c] && IsReadyTrue(c)
    ensures ReadyPolicies([p]) == [p, p]
  {
    assert p.conditions[..1] == [c] && [c][..0] == [] && [p][..0] == [];
    assert ReadyTimes([c]) == 1;
    assert Copies(p, 2) == Copies(p, 1) + [p];
    assert Copies(p, 1) == Copies(p, 0) + [p] == [p];
  }

  // ----- SelectorIssuerRef -----

  const ISSUER_KIND := "Issuer"
  const ISSUER_GROUP := "cert-manager.io"

  function NonEmptyOrDefault(s: string, d: string): string {
    if |s| == 0 then d else s
  }

  predicate MatchesIfSet(pattern: Option<string>, text: string) {
    pattern == None || W.Matches(pattern.value, text)
  }

  /** Every pattern the selector sets matches the reference, with cert-manager's defaults. */
  predicate IssuerMatches(sel: Option<IssuerRefSelector>, ref: IssuerRef) {
    sel == None ||
    (&& MatchesIfSet(sel.value.name, ref.name)
     && MatchesIfSet(sel.value.kind, NonEmptyOrDefault(ref.kind, ISSUER_KIND))
     && MatchesIfSet(sel.value.group, NonEmptyOrDefault(ref.group, ISSUER_GROUP)))
  }

  function ByIssuer(cr: Request): Policy -> bool {
    (p: Policy) => IssuerMatches(p.spec.selector.issuerRef, cr.issuerRef)
  }

  method SelectorIssuerRef(cr: Request, policies: seq<Policy>) returns (matching: seq<Policy>)
    ensures matching == Filter(policies, ByIssuer(cr))
  {
    matching := [];
    var kind := NonEmptyOrDefault(cr.issuerRef.kind, ISSUER_KIND);
    var group := NonEmptyOrDefault(cr.issuerRef.group, ISSUER_GROUP);
    for i := 0 to |policies|
      invariant matching == Filter(policies[..i], ByIssuer(cr))
    {
      assert policies[..i + 1][..i] == policies[..i];
      var sel := policies[i].spec.selector.issuerRef;
      if sel.None? {
        matching := matching + [policies[i]];
        continue;
      }
      if sel.value.name.Some? {
        var m := W.WildcardMatches(sel.value.name.value, cr.issuerRef.name);
        if !m { continue; }
      }
      if sel.value.kind.Some? {
        var m := W.WildcardMatches(sel.value.kind.value, kind);
        if !m { continue; }
      }
      if sel.value.group.Some? {
        var m := W.WildcardMatches(sel.value.group.value, group);
        if !m { continue; }
      }
      matching := matching + [policies[i]];
    }
    assert policies[..|policies|] == policies;
  }

  /** A policy passes exactly when it sets no issuer selector, or when each pattern that it sets
      denotes its own field of the reference; an empty kind or group stands for cert-manager's. */
  lemma IssuerSelectedIff(cr: Request, policies: seq<Policy>, p: Policy)
    ensures p in Filter(policies, ByIssuer(cr)) <==>
            && p in policies
            && match p.spec.selector.issuerRef
               case None => true
               case Some(sel) =>
                 var ref := cr.issuerRef;
                 && (sel.name.Some? ==> W.Denotes(sel.name.value, ref.name))
                 && (sel.kind.Some? ==> W.Denotes(sel.kind.value, if ref.kind == "" then "Issuer" else ref.kind))
                 && (sel.group.Some? ==>
                       W.Denotes(sel.group.value, if ref.group == "" then "cert-manager.io" else ref.group))
  {
    FilterIn(policies, ByIssuer(cr), p);
    forall pattern, text { W.MatchesIffFillersExist(pattern, text); }
  }

  // ----- SelectorNamespace -----

  /** The selector reaches the label check: it has no names, or one of them matches. */
  predicate NameMatched(sel: NamespaceSelector, namespace: string) {
    sel.matchNames == [] || W.Contains(sel.matchNames, namespace)
  }

  predicate NeedsLabels(p: Policy, namespace: string) {
    var sel := p.spec.selector.namespace;
    sel.Some? && NameMatched(sel.value, namespace) && sel.value.matchLabels.Some?
  }

  predicate LabelsMatch(selector: Labels, labels: Labels) {
    forall k :: k in selector ==> k in labels && labels[k] == selector[k]
  }

  function ByNamespace(answers: Answers, cr: Request): Judge<Policy> {
    (p: Policy) =>
      var sel := p.spec.selector.namespace;
      if sel.None? then Success(true)
      else if !NameMatched(sel.value, cr.namespace) then Success(false)
      else if sel.value.matchLabels.None? then Success(true)
      else
        match answers.namespaceLabels(cr.namespace)
        case Failure(e) => Failure(e)
        case Success(labels) =>
          if !answers.validSelector(sel.value.matchLabels.value) then Failure("invalid selector")
          else Success(LabelsMatch(sel.value.matchLabels.value, labels))
  }

  /** SelectorNamespace: fetches the namespace lazily and at most once, when the first policy
      needs its labels. */
  method SelectorNamespace(answers: Answers, cr: Request, policies: seq<Policy>)
    returns (r: Result<seq<Policy>>, lookups: nat)
    ensures r == Select(policies, ByNamespace(answers, cr))
    ensures lookups <= 1
    ensures lookups == 1 <==> exists p :: p in policies && NeedsLabels(p, cr.namespace)
  {
    var matching := [];
    var namespaceLabels: Option<Labels> := None;
    lookups := 0;
    for i := 0 to |policies|
      invariant Select(policies[..i], ByNamespace(answers, cr)) == Success(matching)
      invariant lookups == if namespaceLabels.Some? then 1 else 0
      invariant namespaceLabels.Some? ==> answers.namespaceLabels(cr.namespace) == Success(namespaceLabels.value)
      invariant lookups == 1 <==> exists p :: p in policies[..i] && NeedsLabels(p, cr.namespace)
    {
      assert policies[..i + 1] == policies[..i] + [policies[i]];
      assert policies[..i + 1][..i] == policies[..i];
      SelectPrefixFails(policies, i + 1, ByNamespace(answers, cr));
      ghost var verdict := ByNamespace(answers, cr)(policies[i]);
      assert Select(policies[..i + 1], ByNamespace(answers, cr)) ==
             if verdict.Failure? then Failure(verdict.error)
             else Success(if verdict.value then matching + [policies[i]] else matching);
      var sel := policies[i].spec.selector.namespace;
      if sel.None? {
        matching := matching + [policies[i]];
        continue;
      }
      var matched := |sel.value.matchNames| == 0;
      for j := 0 to |sel.value.matchNames|
        invariant matched <==>
                  || |sel.value.matchNames| == 0
                  || exists k :: 0 <= k < j && W.Matches(sel.value.matchNames[k], cr.namespace)
      {
        var m := W.WildcardMatches(sel.value.matchNames[j], cr.namespace);
        if m {
          matched := true;
          break;
        }
      }
      assert matched <==> NameMatched(sel.value, cr.namespace);
      if !matched {
        continue;
      }
      if sel.value.matchLabels.Some? {
        assert NeedsLabels(policies[i], cr.namespace);
        if namespaceLabels.None? {
          lookups := lookups + 1;
          match answers.namespaceLabels(cr.namespace)
          case Failure(e) => return Failure(e), lookups;
          case Success(labels) => namespaceLabels := Some(labels);
        }
        if !answers.validSelector(sel.value.matchLabels.value) {
          return Failure("invalid selector"), lookups;
        }
        if !LabelsMatch(sel.value.matchLabels.value, namespaceLabels.value) {
          continue;
        }
      }
      matching := matching + [policies[i]];
    }
    assert policies[..|policies|] == policies;
    r := Success(matching);
  }

  /** The namespace selector fails exactly when a policy reaches its label check and the lookup
      fails or the policy's label selector is malformed. */
  lemma SelectorNamespaceFailsIff(answers: Answers, cr: Request, policies: seq<Policy>)
    ensures Select(policies, ByNamespace(answers, cr)).Failure? <==>
            exists p :: p in policies && NeedsLabels(p, cr.namespace) &&
                        (|| answers.namespaceLabels(cr.namespace).Failure?
                         || !answers.validSelector(p.spec.selector.namespace.value.matchLabels.value))
    ensures Select(policies, ByNamespace(answers, cr)).Failure? && answers.namespaceLabels(cr.namespace).Failure? ==>
              Select(policies, ByNamespace(answers, cr)) == Failure(answers.namespaceLabels(cr.namespace).error)
  {
    SelectIsFilter(policies, ByNamespace(answers, cr));
    if Select(policies, ByNamespace(answers, cr)).Failure? {
      var i := SelectFailsAtFirst(policies, ByNamespace(answers, cr));
    }
  }

  /** Without an error, a policy passes exactly when it sets no namespace selector, or when some
      name pattern denotes the request's namespace (or there is none) and every label that the
      selector demands is on that namespace with the demanded value. */
  lemma NamespaceSelectedIff(answers: Answers, cr: Request, policies: seq<Policy>, p: Policy)
    requires Select(policies, ByNamespace(answers, cr)).Success?
    ensures p in Select(policies, ByNamespace(answers, cr)).value <==>
            && p in policies
            && match p.spec.selector.namespace
               case None => true
               case Some(sel) =>
                 && (sel.matchNames == [] || exists n :: n in sel.matchNames && W.Denotes(n, cr.namespace))
                 && (sel.matchLabels.Some? ==>
                       && answers.namespaceLabels(cr.namespace).Success?
                       && forall k :: k in sel.matchLabels.value ==>
                            && k in answers.namespaceLabels(cr.namespace).value
                            && answers.namespaceLabels(cr.namespace).value[k] == sel.matchLabels.value[k])
  {
    var judge := ByNamespace(answers, cr);
    SelectIsFilter(policies, judge);
    FilterIn(policies, Accepts(judge), p);
    if p in policies {
      assert judge(p).Success?;
      assert p in Filter(policies, Accepts(judge)) <==> judge(p).value;
      var sel := p.spec.selector.namespace;
      if sel.Some? {
        W.ContainsIffDenoted(sel.value.matchNames, cr.namespace);
        if NeedsLabels(p, cr.namespace) {
          var labels := answers.namespaceLabels(cr.namespace).value;
          assert judge(p).value <==> LabelsMatch(sel.value.matchLabels.value, labels);
        }
      }
    }
  }

  // ----- RBACBound -----

  function ByAccess(answers: Answers, cr: Request): Judge<Policy> {
    (p: Policy) => answers.access(p.name, cr)
  }

  method RBACBound(answers: Answers, cr: Request, policies: seq<Policy>) returns (r: Result<seq<Policy>>)
    ensures r == Select(policies, ByAccess(answers, cr))
  {
    var bound := [];
    for i := 0 to |policies|
      invariant Select(policies[..i], ByAccess(answers, cr)) == Success(bound)
    {
      assert policies[..i + 1][..i] == policies[..i];
      SelectPrefixFails(policies, i + 1, ByAccess(answers, cr));
      match answers.access(policies[i].name, cr)
      case Failure(e) => return Failure(e);
      case Success(allowed) =>
        if allowed {
          bound := bound + [policies[i]];
        }
    }
    assert policies[..|policies|] == policies;
    r := Success(bound);
  }

  // ----- the chain -----

  /** A predicate of the manager, from the policies left to those that pass. */
  type Predicate = (Request, seq<Policy>) -> Result<seq<Policy>>

  /** The predicates that New registers, in its order. */
  function Registered(answers: Answers): seq<Predicate> {
    [ (cr, ps) => Success(ReadyPolicies(ps)),
      (cr, ps) => Success(Filter(ps, ByIssuer(cr))),
      (cr, ps) => Select(ps, ByNamespace(answers, cr)),
      (cr, ps) => Select(ps, ByAccess(answers, cr)) ]
  }

  /** The loop of Review over its predicates. */
  function Chain(predicates: seq<Predicate>, cr: Request, ps: seq<Policy>): Result<seq<Policy>> {
    if predicates == [] then Success(ps)
    else
      match Chain(predicates[..|predicates| - 1], cr, ps)
      case Failure(e) => Failure(e)
      case Success(left) => predicates[|predicates| - 1](cr, left)
  }

  /** The first three predicates, which read no access review. */
  function Selected(answers: Answers, cr: Request, ps: seq<Policy>): Result<seq<Policy>> {
    Select(Filter(ReadyPolicies(ps), ByIssuer(cr)), ByNamespace(answers, cr))
  }

  lemma ChainUnfolds(answers: Answers, cr: Request, ps: seq<Policy>)
    ensures Chain(Registered(answers), cr, ps) ==
            match Selected(answers, cr, ps)
            case Failure(e) => Failure(e)
            case Success(left) => Select(left, ByAccess(answers, cr))
  {
    var rs := Registered(answers);
    assert Chain(rs[..0], cr, ps) == Success(ps);
    assert rs[..1][..0] == rs[..0] && rs[..2][..1] == rs[..1] && rs[..3][..2] == rs[..2] && rs[..4] == rs;
    assert Chain(rs[..1], cr, ps) == Success(ReadyPolicies(ps));
    assert Chain(rs[..2], cr, ps) == Success(Filter(ReadyPolicies(ps), ByIssuer(cr)));
    assert Chain(rs[..3], cr, ps) == Selected(answers, cr, ps);
  }

  /** One policy's whole test: ready, then issuer, then namespace, then access. */
  function Applies(answers: Answers, cr: Request): Judge<Policy> {
    (p: Policy) =>
      if !IsReady(p) || !ByIssuer(cr)(p) then Success(false)
      else Both(ByNamespace(answers, cr), ByAccess(answers, cr))(p)
  }

  /** Given at most one Ready=True condition per policy, the chain of four predicates succeeds
      exactly when no policy's own test fails, and is then one order-preserving filter. */
  lemma ChainIsOneFilter(answers: Answers, cr: Request, ps: seq<Policy>)
    requires ReadyAtMostOnce(ps)
    ensures Chain(Registered(answers), cr, ps).Success? <==> Sound(ps, Applies(answers, cr))
    ensures Sound(ps, Applies(answers, cr)) ==>
              Chain(Registered(answers), cr, ps) == Success(Filter(ps, Accepts(Applies(answers, cr))))
  {
    var ready: Judge<Policy> := p => Success(IsReady(p));
    var issuer: Judge<Policy> := p => Success(ByIssuer(cr)(p));
    var namespace, access := ByNamespace(answers, cr), ByAccess(answers, cr);
    ChainUnfolds(answers, cr, ps);
    ReadyOnceIsFilter(ps);
    SelectOf(ps, ready, IsReady);
    SelectTwice(ps, ready, issuer);
    SelectOf(Filter(ps, IsReady), issuer, ByIssuer(cr));
    SelectTwice(ps, Both(ready, issuer), namespace);
    SelectTwice(ps, Both(Both(ready, issuer), namespace), access);
    var all := Both(Both(Both(ready, issuer), namespace), access);
    SelectCongruence(ps, all, Applies(answers, cr));
    SelectIsFilter(ps, Applies(answers, cr));
  }

  /** The same for the whole chain: ready, the two selectors, and the access of the requester to
      the policy of that name. */
  lemma ChainKeepsIff(answers: Answers, cr: Request, ps: seq<Policy>, p: Policy)
    requires ReadyAtMostOnce(ps) && Chain(Registered(answers), cr, ps).Success?
    ensures p in Chain(Registered(answers), cr, ps).value <==>
            && p in ps
            && (exists c :: c in p.conditions && c.typ == "Ready" && c.status == "True")
            && p in Filter([p], ByIssuer(cr))
            && Select([p], ByNamespace(answers, cr)) == Success([p])
            && answers.access(p.name, cr) == Success(true)
  {
    ChainIsOneFilter(answers, cr, ps);
    FilterIn(ps, Accepts(Applies(answers, cr)), p);
    FilterIn([p], ByIssuer(cr), p);
    SelectOne(p, ByNamespace(answers, cr));
    assert IsReady(p) <==> exists c :: c in p.conditions && c.typ == "Ready" && c.status == "True" by {
      if c :| c in p.conditions && c.typ == "Ready" && c.status == "True" {
        var i :| 0 <= i < |p.conditions| && p.conditions[i] == c;
        assert IsReadyTrue(p.conditions[i]);
      }
    }
  }

  /** When the chain fails, its error is one that a single policy of the list meets: a ready policy
      selected by issuer, at its namespace selector or, past that, at its access review. */
  lemma ChainFailsWith(answers: Answers, cr: Request, ps: seq<Policy>) returns (p: Policy)
    requires ReadyAtMostOnce(ps) && Chain(Registered(answers), cr, ps).Failure?
    ensures p in ps && IsReady(p) && ByIssuer(cr)(p)
    ensures var e := Chain(Registered(answers), cr, ps).error;
            || ByNamespace(answers, cr)(p) == Failure(e)
            || (ByNamespace(answers, cr)(p) == Success(true) && answers.access(p.name, cr) == Failure(e))
  {
    var ready, selected := ReadyPolicies(ps), Filter(ReadyPolicies(ps), ByIssuer(cr));
    ChainUnfolds(answers, cr, ps);
    ReadyOnceIsFilter(ps);
    if Select(selected, ByNamespace(answers, cr)).Failure? {
      var i := SelectFailsAtFirst(selected, ByNamespace(answers, cr));
      p := selected[i];
    } else {
      var left := Select(selected, ByNamespace(answers, cr)).value;
      var i := SelectFailsAtFirst(left, ByAccess(answers, cr));
      p := left[i];
      SelectIsFilter(selected, ByNamespace(answers, cr));
      FilterIn(selected, Accepts(ByNamespace(answers, cr)), p);
    }
    FilterIn(ready, ByIssuer(cr), p);
    FilterIn(ps, IsReady, p);
  }

  lemma {:induction false} SelectCongruence<T>(s: seq<T>, j: Judge<T>, k: Judge<T>)
    requires forall t :: j(t) == k(t)
    ensures Select(s, j) == Select(s, k)
  {
    if s != [] { SelectCongruence(s[..|s| - 1], j, k); }
  }
}
