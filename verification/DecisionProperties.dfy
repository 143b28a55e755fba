/** What the `allowed` approver means for whole reviews: default deny, and widening. */
module DecisionProperties {
  import opened Api
  import opened Lists
  import opened Predicates
  import opened Review
  import opened ReviewProperties
  import opened Validators
  import opened AllowedProperties
  import A = AllowedApprover
  import C = ConstraintsApprover

  lemma {:induction false} FoundNamesPassed(evaluators: seq<Evaluator>, cr: Request, ps: seq<Policy>)
    ensures var s := SearchIn(evaluators, cr, ps);
            && (s.Found? && s.result.Success? ==>
                  s.result.value.Approved? &&
                  exists p :: p in ps && VerdictOf(evaluators, p, cr).Passed? && p.name == s.result.value.policy)
    ensures SearchIn(evaluators, cr, ps).Exhausted? ==>
              forall p :: p in ps ==> VerdictOf(evaluators, p, cr).Refused?
  {
    if ps != [] {
      var front, last := ps[..|ps| - 1], ps[|ps| - 1];
      FoundNamesPassed(evaluators, cr, front);
      assert last in ps;
      forall p ensures p in ps <==> p in front || p == last {
        InFrontOrLast(ps, p);
      }
    }
  }

  /** A policy with a field that is required and allows no value is in force whenever it is
      applicable: the review is never Unprocessed, and unless a predicate or evaluator errs it is
      Denied or Approved by another applicable policy. */
  lemma DefaultDenyReview(answers: Answers, entries: Entries, cel: Cel, render: Render, evaluators: seq<Evaluator>,
                          k: nat, cr: Request, ps: seq<Policy>, p: Policy)
    requires k < |evaluators| && evaluators[k] == A.Evaluation(entries, cel, render)
    requires ReadyAtMostOnce(ps) && p in ps && Applicable(answers, cr, p)
    requires p.spec.allowed.Some? && DeniesByDefault(p.spec.allowed.value)
    ensures var r := ReviewWith(answers, evaluators, cr, ps);
            || r.Failure?
            || r.value.Denied?
            || (r.value.Approved? &&
                exists q :: q != p && q.name == r.value.policy && ApprovedBy(answers, evaluators, cr, ps, q))
  {
    ChainIsOneFilter(answers, cr, ps);
    if Sound(ps, Applies(answers, cr)) {
      var left := Left(answers, cr, ps);
      LeftIn(answers, cr, ps);
      FoundNamesPassed(evaluators, cr, left);
      DefaultDeny(entries, cel, render, p, cr);
      VerdictIs(evaluators, p, cr);
      assert Errs(evaluators[k], p, cr) || Denies(evaluators[k], p, cr);
      var r := Decide(evaluators, cr, left);
      if r.Success? && r.value.Approved? {
        var q :| q in left && VerdictOf(evaluators, q, cr).Passed? && q.name == r.value.policy;
        assert q != p && ApprovedBy(answers, evaluators, cr, ps, q);
      }
    }
  }

  // ----- widening -----

  /** p' is p with a wider spec.allowed. */
  ghost predicate Widens(p: Policy, p': Policy) {
    && p' == p.(spec := p.spec.(allowed := p'.spec.allowed))
    && WiderAllowed(A.AllowedOf(p), A.AllowedOf(p'))
  }

  /** The evaluator does not look at spec.allowed, as `constraints` does not. */
  ghost predicate IgnoresAllowed(e: Evaluator) {
    forall p: Policy, cr, allowed :: e(p.(spec := p.spec.(allowed := allowed)), cr) == e(p, cr)
  }

  lemma ConstraintsIgnoreAllowed(render: Render)
    ensures IgnoresAllowed(C.Evaluation(render))
  {
  }

  ghost predicate AllowedAmongOthers(evaluators: seq<Evaluator>, entries: Entries, cel: Cel, render: Render) {
    forall k :: 0 <= k < |evaluators| ==>
      evaluators[k] == A.Evaluation(entries, cel, render) || IgnoresAllowed(evaluators[k])
  }

  lemma WideningKeepsVerdict(entries: Entries, cel: Cel, render: Render, evaluators: seq<Evaluator>, cr: Request,
                             p: Policy, p': Policy)
    requires AllowedAmongOthers(evaluators, entries, cel, render) && Widens(p, p')
    ensures VerdictOf(evaluators, p, cr).Passed? ==> VerdictOf(evaluators, p', cr).Passed?
    ensures VerdictOf(evaluators, p', cr).Erred? ==> VerdictOf(evaluators, p, cr).Erred?
  {
    VerdictIs(evaluators, p, cr);
    VerdictIs(evaluators, p', cr);
    forall k | 0 <= k < |evaluators|
      ensures Errs(evaluators[k], p, cr) <==> Errs(evaluators[k], p', cr)
      ensures !Errs(evaluators[k], p, cr) && !Denies(evaluators[k], p, cr) ==> !Denies(evaluators[k], p', cr)
    {
      if evaluators[k] == A.Evaluation(entries, cel, render) {
        EvaluationIs(entries, cel, render, p, cr);
        EvaluationIs(entries, cel, render, p', cr);
        if !Errs(evaluators[k], p, cr) && !Denies(evaluators[k], p, cr) {
          WideningKeepsPass(entries, cel, render, p, p', cr);
        }
      }
    }
  }

  lemma AppliesIgnoresAllowed(answers: Answers, cr: Request, p: Policy, p': Policy)
    requires p'.name == p.name && p'.conditions == p.conditions && p'.spec.selector == p.spec.selector
    ensures Applies(answers, cr)(p') == Applies(answers, cr)(p)
  {
    assert IsReady(p') == IsReady(p);
    assert ByIssuer(cr)(p') == ByIssuer(cr)(p);
    assert ByNamespace(answers, cr)(p') == ByNamespace(answers, cr)(p);
    assert ByAccess(answers, cr)(p') == ByAccess(answers, cr)(p);
  }

  /** Widening the allowed attributes of listed policies never turns an approval into another
      result, when no policy errs. */
  lemma WideningKeepsApproval(answers: Answers, entries: Entries, cel: Cel, render: Render, evaluators: seq<Evaluator>,
                              cr: Request, ps: seq<Policy>, ps': seq<Policy>)
    requires AllowedAmongOthers(evaluators, entries, cel, render)
    requires |ps| == |ps'| && forall i :: 0 <= i < |ps| ==> Widens(ps[i], ps'[i])
    requires ReadyAtMostOnce(ps) && ErrorFree(answers, evaluators, cr, ps)
    requires ReviewWith(answers, evaluators, cr, ps).Success? && ReviewWith(answers, evaluators, cr, ps).value.Approved?
    ensures ReviewWith(answers, evaluators, cr, ps').Success? &&
            ReviewWith(answers, evaluators, cr, ps').value.Approved?
  {
    forall i | 0 <= i < |ps'|
      ensures Applies(answers, cr)(ps'[i]) == Applies(answers, cr)(ps[i])
      ensures ReadyTimes(ps'[i].conditions) <= 1
    {
      assert ps[i] in ps;
      AppliesIgnoresAllowed(answers, cr, ps[i], ps'[i]);
    }
    WidenedErrorFree(answers, entries, cel, render, evaluators, cr, ps, ps');
    ReviewIs(answers, evaluators, cr, ps);
    ReviewIs(answers, evaluators, cr, ps');
    var p :| ApprovedBy(answers, evaluators, cr, ps, p);
    var i :| 0 <= i < |ps| && ps[i] == p;
    WideningKeepsVerdict(entries, cel, render, evaluators, cr, p, ps'[i]);
    assert ApprovedBy(answers, evaluators, cr, ps', ps'[i]);
  }

  /** The two evaluators that the repository ships. */
  function Shipped(entries: Entries, cel: Cel, render: Render): seq<Evaluator> {
    [A.Evaluation(entries, cel, render), C.Evaluation(render)]
  }

  /** Under the shipped evaluators, widening the listed policies keeps every approval of a review
      in which nothing errs. */
  lemma WideningKeepsShippedApproval(answers: Answers, entries: Entries, cel: Cel, render: Render,
                                     cr: Request, ps: seq<Policy>, ps': seq<Policy>)
    requires |ps| == |ps'| && forall i :: 0 <= i < |ps| ==> Widens(ps[i], ps'[i])
    requires ReadyAtMostOnce(ps) && ErrorFree(answers, Shipped(entries, cel, render), cr, ps)
    requires var r := ReviewWith(answers, Shipped(entries, cel, render), cr, ps); r.Success? && r.value.Approved?
    ensures var r := ReviewWith(answers, Shipped(entries, cel, render), cr, ps'); r.Success? && r.value.Approved?
  {
    ConstraintsIgnoreAllowed(render);
    WideningKeepsApproval(answers, entries, cel, render, Shipped(entries, cel, render), cr, ps, ps');
  }

  lemma WidenedErrorFree(answers: Answers, entries: Entries, cel: Cel, render: Render, evaluators: seq<Evaluator>,
                         cr: Request, ps: seq<Policy>, ps': seq<Policy>)
    requires AllowedAmongOthers(evaluators, entries, cel, render)
    requires |ps| == |ps'| && forall i :: 0 <= i < |ps| ==> Widens(ps[i], ps'[i])
    requires forall i :: 0 <= i < |ps'| ==> Applies(answers, cr)(ps'[i]) == Applies(answers, cr)(ps[i])
    requires ReadyAtMostOnce(ps) && ReadyAtMostOnce(ps') && ErrorFree(answers, evaluators, cr, ps)
    ensures ErrorFree(answers, evaluators, cr, ps')
  {
    ChainIsOneFilter(answers, cr, ps);
    ChainIsOneFilter(answers, cr, ps');
    forall p' | p' in ps'
      ensures Applies(answers, cr)(p').Success?
      ensures Applicable(answers, cr, p') ==> !VerdictOf(evaluators, p', cr).Erred?
    {
      var i :| 0 <= i < |ps'| && ps'[i] == p';
      assert ps[i] in ps;
      WideningKeepsVerdict(entries, cel, render, evaluators, cr, ps[i], p');
    }
  }
}
