/** What a whole review guarantees, over the predicates that the manager registers. */
module ReviewProperties {
  import opened Api
  import opened Lists
  import opened Predicates
  import opened Review
  import opened StableSort

  function ReviewWith(answers: Answers, evaluators: seq<Evaluator>, cr: Request,
                      ps: seq<Policy>): Result<ReviewResponse>
  {
    ReviewOf(Success(ps), Registered(answers), evaluators, cr)
  }

  ghost predicate Applicable(answers: Answers, cr: Request, p: Policy) {
    Applies(answers, cr)(p) == Success(true)
  }

  /** No predicate errs on these policies, and no evaluator errs on an applicable one. */
  ghost predicate ErrorFree(answers: Answers, evaluators: seq<Evaluator>, cr: Request, ps: seq<Policy>) {
    && Chain(Registered(answers), cr, ps).Success?
    && forall p :: p in ps && Applicable(answers, cr, p) ==> !VerdictOf(evaluators, p, cr).Erred?
  }

  ghost predicate ApprovedBy(answers: Answers, evaluators: seq<Evaluator>, cr: Request, ps: seq<Policy>, p: Policy) {
    p in ps && Applicable(answers, cr, p) && VerdictOf(evaluators, p, cr).Passed?
  }

  function Left(answers: Answers, cr: Request, ps: seq<Policy>): seq<Policy> {
    Filter(ps, Accepts(Applies(answers, cr)))
  }

  lemma LeftIn(answers: Answers, cr: Request, ps: seq<Policy>)
    ensures forall p :: p in Left(answers, cr, ps) <==> p in ps && Applicable(answers, cr, p)
  {
    forall p ensures p in Left(answers, cr, ps) <==> p in ps && Applicable(answers, cr, p) {
      FilterIn(ps, Accepts(Applies(answers, cr)), p);
    }
  }

  /** Without errors a review approves exactly when an applicable policy passes every evaluator,
      is Unprocessed exactly when none is applicable, and denies otherwise. */
  lemma ReviewIs(answers: Answers, evaluators: seq<Evaluator>, cr: Request, ps: seq<Policy>)
    requires ReadyAtMostOnce(ps) && ErrorFree(answers, evaluators, cr, ps)
    ensures var r := ReviewWith(answers, evaluators, cr, ps);
            && r.Success?
            && (r.value.Approved? <==> exists p :: ApprovedBy(answers, evaluators, cr, ps, p))
            && (r.value.Approved? ==>
                  exists p :: ApprovedBy(answers, evaluators, cr, ps, p) && p.name == r.value.policy)
            && (r.value.Unprocessed? <==> forall p :: p in ps ==> !Applicable(answers, cr, p))
  {
    ChainIsOneFilter(answers, cr, ps);
    var left := Left(answers, cr, ps);
    LeftIn(answers, cr, ps);
    assert ps == [] ==> left == [];
    DecideIs(evaluators, cr, left);
    assert left != [] ==> left[0] in left;
    assert SomePasses(evaluators, cr, left) ==> exists p :: ApprovedBy(answers, evaluators, cr, ps, p) by {
      if p :| p in left && VerdictOf(evaluators, p, cr).Passed? {
        assert ApprovedBy(answers, evaluators, cr, ps, p);
      }
    }
    if Decide(evaluators, cr, left).value.Approved? {
      var p :| p in left && VerdictOf(evaluators, p, cr).Passed? && p.name == Decide(evaluators, cr, left).value.policy;
      assert ApprovedBy(answers, evaluators, cr, ps, p);
    }
  }

  /** Some evaluator denies the policy, none errs, and the message joins what all of them said. */
  ghost predicate Explains(evaluators: seq<Evaluator>, cr: Request, p: Policy, m: PolicyMessage) {
    && m.name == p.name
    && (exists j :: 0 <= j < |evaluators| && Denies(evaluators[j], p, cr))
    && exists texts :: Reports(evaluators, p, cr, texts) && m.message == Join(texts, ", ")
  }

  /** A denial explains each applicable policy once, and nothing else, sorted by name. */
  lemma DenialExplains(answers: Answers, evaluators: seq<Evaluator>, cr: Request, ps: seq<Policy>)
    requires ReadyAtMostOnce(ps)
    requires var r := ReviewWith(answers, evaluators, cr, ps); r.Success? && r.value.Denied?
    ensures var ms := ReviewWith(answers, evaluators, cr, ps).value.messages;
            && Sorted(ms, BY_NAME) && |ms| == |Left(answers, cr, ps)|
            && (forall m :: m in ms ==>
                  exists p :: p in ps && Applicable(answers, cr, p) && Explains(evaluators, cr, p, m))
            && (forall p :: p in ps && Applicable(answers, cr, p) ==>
                  exists m :: m in ms && Explains(evaluators, cr, p, m))
  {
    ChainIsOneFilter(answers, cr, ps);
    var left := Left(answers, cr, ps);
    LeftIn(answers, cr, ps);
    SearchCollects(evaluators, cr, left);
    FoundIsNoDenial(evaluators, cr, left);
    var ms := SearchIn(evaluators, cr, left).messages;
    var sorted := ReviewWith(answers, evaluators, cr, ps).value.messages;
    SortedAlike(ms, sorted);
    forall k | 0 <= k < |left| ensures Explains(evaluators, cr, left[k], ms[k]) {
      VerdictIs(evaluators, left[k], cr);
      RefusedMessageIs(evaluators, left[k], cr);
    }
    forall m | m in sorted
      ensures exists p :: p in ps && Applicable(answers, cr, p) && Explains(evaluators, cr, p, m)
    {
      var k :| 0 <= k < |ms| && ms[k] == m;
      assert left[k] in left;
    }
    forall p | p in ps && Applicable(answers, cr, p) ensures exists m :: m in sorted && Explains(evaluators, cr, p, m) {
      var k :| 0 <= k < |left| && left[k] == p;
      assert ms[k] in ms;
    }
  }

  lemma SortedAlike(ms: seq<PolicyMessage>, sorted: seq<PolicyMessage>)
    requires sorted == SortByName(ms)
    ensures Sorted(sorted, BY_NAME) && |sorted| == |ms| && SameMembers(sorted, ms)
  {
    SortIsStable(ms, BY_NAME);
    assert |multiset(ms)| == |multiset(sorted)|;
    forall m ensures m in sorted <==> m in ms {
      assert m in multiset(sorted) <==> m in multiset(ms);
    }
  }

  lemma {:induction false} FoundIsNoDenial(evaluators: seq<Evaluator>, cr: Request, ps: seq<Policy>)
    ensures var s := SearchIn(evaluators, cr, ps);
            s.Found? && s.result.Success? ==> s.result.value.Approved?
  {
    if ps != [] {
      FoundIsNoDenial(evaluators, cr, ps[..|ps| - 1]);
    }
  }

  /** Errors are about single policies, so a list with fewer policies has no new ones. */
  lemma FewerPoliciesErrorFree(answers: Answers, evaluators: seq<Evaluator>, cr: Request, ps: seq<Policy>,
                               qs: seq<Policy>)
    requires ReadyAtMostOnce(qs) && ErrorFree(answers, evaluators, cr, qs)
    requires forall p :: p in ps ==> p in qs
    ensures ReadyAtMostOnce(ps) && ErrorFree(answers, evaluators, cr, ps)
  {
    ChainIsOneFilter(answers, cr, ps);
    ChainIsOneFilter(answers, cr, qs);
  }

  /** Adding policies that bring no error never turns Approved into another result. */
  lemma AddingPoliciesKeepsApproval(answers: Answers, evaluators: seq<Evaluator>, cr: Request, ps: seq<Policy>,
                                    qs: seq<Policy>)
    requires ReadyAtMostOnce(qs) && ErrorFree(answers, evaluators, cr, qs)
    requires forall p :: p in ps ==> p in qs
    requires ReviewWith(answers, evaluators, cr, ps).Success? && ReviewWith(answers, evaluators, cr, ps).value.Approved?
    ensures ReviewWith(answers, evaluators, cr, qs).Success? && ReviewWith(answers, evaluators, cr, qs).value.Approved?
  {
    FewerPoliciesErrorFree(answers, evaluators, cr, ps, qs);
    ReviewIs(answers, evaluators, cr, ps);
    ReviewIs(answers, evaluators, cr, qs);
    var p :| ApprovedBy(answers, evaluators, cr, ps, p);
    assert ApprovedBy(answers, evaluators, cr, qs, p);
  }

  /** The order in which policies are listed changes neither the kind of the answer nor the text
      of a denial. */
  lemma ReviewIgnoresOrder(answers: Answers, evaluators: seq<Evaluator>, cr: Request, ps: seq<Policy>, qs: seq<Policy>)
    requires UniqueNames(ps) && UniqueNames(qs) && SameMembers(ps, qs)
    requires ReadyAtMostOnce(ps) && ErrorFree(answers, evaluators, cr, ps)
    ensures SameKind(ReviewWith(answers, evaluators, cr, ps), ReviewWith(answers, evaluators, cr, qs))
  {
    FewerPoliciesErrorFree(answers, evaluators, cr, qs, ps);
    ChainIsOneFilter(answers, cr, ps);
    ChainIsOneFilter(answers, cr, qs);
    var left, left' := Left(answers, cr, ps), Left(answers, cr, qs);
    LeftIn(answers, cr, ps);
    LeftIn(answers, cr, qs);
    FilterKeepsUniqueNames(ps, Accepts(Applies(answers, cr)));
    FilterKeepsUniqueNames(qs, Accepts(Applies(answers, cr)));
    DecideIgnoresOrder(evaluators, cr, left, left');
    assert ps == [] || ps[0] in qs;
    assert qs == [] || qs[0] in ps;
  }

  lemma {:induction false} FilterKeepsUniqueNames(ps: seq<Policy>, keep: Policy -> bool)
    requires UniqueNames(ps)
    ensures UniqueNames(Filter(ps, keep))
  {
    if ps != [] {
      var front, last := ps[..|ps| - 1], ps[|ps| - 1];
      FilterKeepsUniqueNames(front, keep);
      var kept := Filter(front, keep);
      forall i | 0 <= i < |kept| ensures kept[i].name != last.name {
        FilterIn(front, keep, kept[i]);
      }
    }
  }
}
