/** The certificaterequestpolicies controller (pkg/internal/controllers/certificaterequestpolicies.go):
    one reconcile, the Ready condition it writes, and that condition over whole runs. */
module PolicyController {
  import opened Api
  import opened Lists

  datatype CtrlResult = CtrlResult(requeue: bool, requeueAfter: int)

  datatype ReadyResponse = ReadyResponse(ready: bool, errors: seq<FieldError>, requeue: bool, requeueAfter: int)

  type Reconciler = Policy -> Result<ReadyResponse>

  // ----- the responses of the reconcilers -----

  datatype Summary = Summary(ready: bool, result: CtrlResult, errors: seq<FieldError>)

  predicate Asks(r: ReadyResponse) {
    r.requeue || r.requeueAfter > 0
  }

  function Combine(result: CtrlResult, r: ReadyResponse): CtrlResult {
    if !Asks(r) then result
    else if !result.requeue || result.requeueAfter > r.requeueAfter then CtrlResult(true, r.requeueAfter)
    else CtrlResult(true, result.requeueAfter)
  }

  function Summarise(responses: seq<Result<ReadyResponse>>): Result<Summary> {
    if responses == [] then Success(Summary(true, CtrlResult(false, 0), []))
    else
      match Summarise(responses[..|responses| - 1])
      case Failure(e) => Failure(e)
      case Success(s) =>
        match responses[|responses| - 1]
        case Failure(e) => Failure(e)
        case Success(r) => Success(Summary(s.ready && r.ready, Combine(s.result, r), s.errors + r.errors))
  }

  function Answers(reconcilers: seq<Reconciler>, p: Policy): seq<Result<ReadyResponse>> {
    seq(|reconcilers|, i requires 0 <= i < |reconcilers| => reconcilers[i](p))
  }

  lemma {:induction false} SummarisePrefixFails(responses: seq<Result<ReadyResponse>>, n: nat)
    requires n <= |responses|
    ensures Summarise(responses[..n]).Failure? ==> Summarise(responses) == Summarise(responses[..n])
  {
    if n < |responses| {
      SummarisePrefixFails(responses[..|responses| - 1], n);
      assert responses[..|responses| - 1][..n] == responses[..n];
    } else {
      assert responses[..n] == responses;
    }
  }

  ghost predicate AskedFor(responses: seq<Result<ReadyResponse>>, after: int) {
    exists i :: 0 <= i < |responses| && responses[i].Success? &&
                (responses[i].value.requeue || responses[i].value.requeueAfter > 0) &&
                responses[i].value.requeueAfter == after
  }

  /** Any error fails the whole; without one, readiness is that of every response, requeue is set
      exactly when some response asks for it, and its delay is the least one asked for. */
  lemma {:induction false} SummaryIs(responses: seq<Result<ReadyResponse>>)
    ensures Summarise(responses).Success? <==> forall i :: 0 <= i < |responses| ==> responses[i].Success?
    ensures Summarise(responses).Success? ==>
              var s := Summarise(responses).value;
              && (s.ready <==> forall i :: 0 <= i < |responses| ==> responses[i].value.ready)
              && (s.result.requeue <==> exists after :: AskedFor(responses, after))
              && (s.result.requeue ==> AskedFor(responses, s.result.requeueAfter))
              && (forall after :: AskedFor(responses, after) ==> s.result.requeueAfter <= after)
              && (!s.result.requeue ==> s.result.requeueAfter == 0)
  {
    if responses != [] {
      var front, last := responses[..|responses| - 1], responses[|responses| - 1];
      SummaryIs(front);
      assert forall i :: 0 <= i < |front| ==> front[i] == responses[i];
      forall after ensures AskedFor(responses, after) <==>
          AskedFor(front, after) || (last.Success? && Asks(last.value) && last.value.requeueAfter == after) {
        if last.Success? && Asks(last.value) && last.value.requeueAfter == after {
          assert responses[|responses| - 1] == last;
        }
      }
      if last.Success? && Asks(last.value) {
        assert AskedFor(responses, last.value.requeueAfter);
      }
      if after :| AskedFor(front, after) {
        assert AskedFor(responses, after);
      }
    }
  }

  /** The error is the first one, and without one all errors that were reported are kept, in order. */
  lemma {:induction false} SummaryErrors(responses: seq<Result<ReadyResponse>>)
    ensures match Summarise(responses)
            case Failure(e) =>
              exists i :: 0 <= i < |responses| && responses[i] == Failure(e) &&
                          forall j :: 0 <= j < i ==> responses[j].Success?
            case Success(s) =>
              && (forall i :: 0 <= i < |responses| ==> responses[i].Success?)
              && s.errors == Flatten(seq(|responses|, i requires 0 <= i < |responses| => responses[i].value.errors))
  {
    if responses != [] {
      var front, n := responses[..|responses| - 1], |responses| - 1;
      SummaryErrors(front);
      assert forall i :: 0 <= i < n ==> front[i] == responses[i];
      if Summarise(responses).Success? {
        var errors := seq(|responses|, i requires 0 <= i < |responses| => responses[i].value.errors);
        assert errors[..n] == seq(|front|, i requires 0 <= i < |front| => front[i].value.errors);
      }
    }
  }

  /** The order in which the reconcilers answer does not matter. */
  lemma SummaryIgnoresOrder(a: seq<Result<ReadyResponse>>, b: seq<Result<ReadyResponse>>)
    requires SameMembers(a, b)
    ensures Summarise(a).Success? <==> Summarise(b).Success?
    ensures Summarise(a).Success? ==>
              && Summarise(a).value.ready == Summarise(b).value.ready
              && Summarise(a).value.result == Summarise(b).value.result
  {
    SummaryIs(a);
    SummaryIs(b);
    forall i | 0 <= i < |a| ensures a[i] in b { assert a[i] in a; }
    forall i | 0 <= i < |b| ensures b[i] in a { assert b[i] in b; }
    forall after ensures AskedFor(a, after) <==> AskedFor(b, after) {
      AskedForCarriesOver(a, b, after);
      AskedForCarriesOver(b, a, after);
    }
  }

  lemma AskedForCarriesOver(a: seq<Result<ReadyResponse>>, b: seq<Result<ReadyResponse>>, after: int)
    requires forall i :: 0 <= i < |a| ==> a[i] in b
    ensures AskedFor(a, after) ==> AskedFor(b, after)
  {
    if AskedFor(a, after) {
      var i :| 0 <= i < |a| && a[i].Success? && Asks(a[i].value) && a[i].value.requeueAfter == after;
      var j :| 0 <= j < |b| && b[j] == a[i];
    }
  }

  // ----- the Ready condition -----

  function TransitionTime(now: Option<int>, existing: seq<PolicyCondition>, typ: string, status: string): Option<int> {
    if existing == [] then now
    else
      var last := existing[|existing| - 1];
      if last.typ == typ && last.status == status then last.lastTransitionTime
      else TransitionTime(now, existing[..|existing| - 1], typ, status)
  }

  /** Overwrite the first condition of the type, keeping its transition time when the status is
      the same, or append. */
  function Upsert(conditions: seq<PolicyCondition>, c: PolicyCondition): seq<PolicyCondition> {
    var i := IndexOf(conditions, POLICY_TYPE, c.typ);
    if i == |conditions| then conditions + [c]
    else if conditions[i].status == c.status then
      conditions[i := c.(lastTransitionTime := conditions[i].lastTransitionTime)]
    else conditions[i := c]
  }

  /** The patch holds the new condition as the one of its type, with the transition time of the
      one it replaces exactly when the status is the same, and every other condition as before. */
  lemma UpsertIs(conditions: seq<PolicyCondition>, c: PolicyCondition)
    requires DistinctKeys(conditions, POLICY_TYPE)
    ensures DistinctKeys(Upsert(conditions, c), POLICY_TYPE)
    ensures forall d: PolicyCondition :: d.typ != c.typ ==> (d in Upsert(conditions, c) <==> d in conditions)
    ensures forall e :: e in conditions && e.typ == c.typ && e.status == c.status ==>
              c.(lastTransitionTime := e.lastTransitionTime) in Upsert(conditions, c)
    ensures (forall e :: e in conditions && e.typ == c.typ ==> e.status != c.status) ==> c in Upsert(conditions, c)
  {
    var i, after := IndexOf(conditions, POLICY_TYPE, c.typ), Upsert(conditions, c);
    assert after[i] in after;
    forall d: PolicyCondition | d.typ != c.typ ensures d in after <==> d in conditions {
      if d in conditions {
        var j :| 0 <= j < |conditions| && conditions[j] == d;
        assert after[j] == d;
      }
    }
  }

  function Stamped(now: int, existing: seq<PolicyCondition>, generation: int, c: PolicyCondition): PolicyCondition {
    c.(lastTransitionTime := TransitionTime(Some(now), existing, c.typ, c.status), observedGeneration := generation)
  }

  class PolicyStatusPatch {
    var conditions: seq<PolicyCondition>

    constructor ()
      ensures conditions == []
    {
      conditions := [];
    }

    /** setCertificateRequestPolicyCondition. */
    method SetCondition(now: int, existing: seq<PolicyCondition>, generation: int, condition: PolicyCondition)
      modifies this
      ensures conditions == Upsert(old(conditions), Stamped(now, existing, generation, condition))
    {
      var c := condition.(lastTransitionTime := Some(now), observedGeneration := generation);
      for i := 0 to |existing|
        invariant c == Stamped(now, existing[..i], generation, condition)
      {
        assert existing[..i + 1][..i] == existing[..i];
        if existing[i].typ != c.typ {
          continue;
        }
        if existing[i].status == c.status {
          c := c.(lastTransitionTime := existing[i].lastTransitionTime);
        }
      }
      assert existing[..|existing|] == existing;
      for idx := 0 to |conditions|
        invariant conditions == old(conditions)
        invariant forall j :: 0 <= j < idx ==> conditions[j].typ != c.typ
      {
        if conditions[idx].typ != c.typ {
          continue;
        }
        if conditions[idx].status == c.status {
          c := c.(lastTransitionTime := conditions[idx].lastTransitionTime);
        }
        conditions := conditions[idx := c];
        return;
      }
      conditions := conditions + [c];
    }
  }

  // ----- one reconcile -----

  const READY_MESSAGE := "CertificateRequestPolicy is ready for approval evaluation"
  const NOT_READY_MESSAGE := "CertificateRequestPolicy is not ready for approval evaluation: "

  function ConditionOf(s: Summary, render: Render): PolicyCondition {
    if s.ready then PolicyCondition(READY, CONDITION_TRUE, None, "Ready", READY_MESSAGE, 0)
    else PolicyCondition(READY, CONDITION_FALSE, None, "NotReady", NOT_READY_MESSAGE + render(s.errors), 0)
  }

  datatype Outcome = NotFound | Retry(error: string) | Patch(result: CtrlResult, condition: PolicyCondition)

  function OutcomeOf(got: Result<Option<Policy>>, reconcilers: seq<Reconciler>, now: int, render: Render): Outcome {
    match got
    case Failure(e) => Retry(e)
    case Success(None) => NotFound
    case Success(Some(p)) =>
      match Summarise(Answers(reconcilers, p))
      case Failure(e) => Retry(e)
      case Success(s) => Patch(s.result, Stamped(now, p.conditions, p.generation, ConditionOf(s, render)))
  }

  method ReconcileStatusPatch(got: Result<Option<Policy>>, reconcilers: seq<Reconciler>, now: int, render: Render)
    returns (result: CtrlResult, patch: PolicyStatusPatch?, err: Option<string>)
    ensures match OutcomeOf(got, reconcilers, now, render)
            case NotFound => result == CtrlResult(false, 0) && patch == null && err == None
            case Retry(e) => result == CtrlResult(false, 0) && patch == null && err == Some(e)
            case Patch(asked, c) =>
              result == asked && patch != null && fresh(patch) && patch.conditions == [c] && err == None
    ensures got.Failure? ==> patch == null && result == CtrlResult(false, 0) && err == Some(got.error)
    ensures got == Success(None) ==> patch == null && result == CtrlResult(false, 0) && err == None
    ensures got.Success? && got.value.Some? ==>
              var p := got.value.value;
              match Summarise(seq(|reconcilers|, i requires 0 <= i < |reconcilers| => reconcilers[i](p)))
              case Failure(e) => patch == null && result == CtrlResult(false, 0) && err == Some(e)
              case Success(s) =>
                && patch != null && err == None && result == s.result
                && patch.conditions == [PolicyCondition(
                     typ := "Ready", status := if s.ready then "True" else "False",
                     lastTransitionTime :=
                       TransitionTime(Some(now), p.conditions, "Ready", if s.ready then "True" else "False"),
                     reason := if s.ready then "Ready" else "NotReady",
                     message :=
                       if s.ready then "CertificateRequestPolicy is ready for approval evaluation"
                       else "CertificateRequestPolicy is not ready for approval evaluation: " + render(s.errors),
                     observedGeneration := p.generation)]
  {
    result, patch, err := CtrlResult(false, 0), null, None;
    if got.Failure? {
      return result, null, Some(got.error);
    }
    if got.value.None? {
      return;
    }
    var policy := got.value.value;
    assert Answers(reconcilers, policy) ==
           seq(|reconcilers|, i requires 0 <= i < |reconcilers| => reconcilers[i](policy));
    var summary := AskReconcilers(policy, reconcilers);
    if summary.Failure? {
      return CtrlResult(false, 0), null, Some(summary.error);
    }
    result := summary.value.result;
    var p := new PolicyStatusPatch();
    if !summary.value.ready {
      p.SetCondition(now, policy.conditions, policy.generation,
                     PolicyCondition(READY, CONDITION_FALSE, None, "NotReady",
                                     NOT_READY_MESSAGE + render(summary.value.errors), 0));
    } else {
      p.SetCondition(now, policy.conditions, policy.generation,
                     PolicyCondition(READY, CONDITION_TRUE, None, "Ready", READY_MESSAGE, 0));
    }
    patch := p;
  }

  /** The loop over the reconcilers. */
  method AskReconcilers(policy: Policy, reconcilers: seq<Reconciler>) returns (r: Result<Summary>)
    ensures r == Summarise(Answers(reconcilers, policy))
  {
    var ready, result, el := true, CtrlResult(false, 0), [];
    ghost var answers := Answers(reconcilers, policy);
    for i := 0 to |reconcilers|
      invariant Summarise(answers[..i]) == Success(Summary(ready, result, el))
    {
      assert answers[..i + 1][..i] == answers[..i];
      SummarisePrefixFails(answers, i + 1);
      var answer := reconcilers[i](policy);
      if answer.Failure? {
        return Failure(answer.error);
      }
      var response := answer.value;
      if !response.ready {
        ready := false;
      }
      if response.requeue || response.requeueAfter > 0 {
        if !result.requeue || result.requeueAfter > response.requeueAfter {
          result := result.(requeueAfter := response.requeueAfter);
        }
        result := result.(requeue := true);
      }
      el := el + response.errors;
    }
    assert answers[..|answers|] == answers;
    r := Success(Summary(ready, result, el));
  }
}
