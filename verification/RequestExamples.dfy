/** Runs of the certificaterequests controller that end otherwise than one may expect.  Each is
    built from the controller's start, for every cluster whose review decides a request. */
module RequestExamples {
  import opened Api
  import opened Lists
  import opened Predicates
  import opened Review
  import opened RequestController
  import opened RequestRuns
  import opened RequestDecisions

  /** A fresh controller in a cluster without requests. */
  function Start(config: Config): State {
    State(config, map[], {}, {}, map[], multiset{}, {})
  }

  function KeyOf(cr: Request): Key {
    Key(cr.namespace, cr.name)
  }

  /** A review of the configuration decides the request, which is undecided. */
  predicate Decides(w: World, config: Config, cr: Request, decision: ReviewResponse) {
    && !Decided(cr.conditions) && !decision.Unprocessed?
    && ReviewOn(w, config, cr) == Success(decision)
  }

  ghost predicate Leads(w: World, s: State, actions: seq<Action>, s': State) {
    && Run(w, s, actions) && After(w, s, actions) == s'
    && forall a :: a in actions ==> !a.PutRequest?
  }

  lemma OneStepThen(w: World, s: State, a: Action, rest: seq<Action>, s': State)
    requires Enabled(s, a) && !a.PutRequest? && Leads(w, Next(w, s, a), rest, s')
    ensures Leads(w, s, [a] + rest, s')
  {
    assert ([a] + rest)[1..] == rest;
  }

  // ----- from the event of a request to the patch of its decision -----

  lemma DecidingLeads(w: World, s: State, k: Key, cr: Request, decision: ReviewResponse)
    requires k in s.workers && s.workers[k].Asking? && Current(w, s, cr, s.workers[k])
    requires |s.workers[k].allowed| == |s.workers[k].left| && Decides(w, s.config, cr, decision)
    ensures Leads(w, s, [DecideRequest(k)], Goto(s, k, Patching(cr, decision)))
  {
    StagesAddUp(w, s.config, cr, s.workers[k].left, s.workers[k].allowed);
    OneStepThen(w, s, DecideRequest(k), [], Goto(s, k, Patching(cr, decision)));
    assert [DecideRequest(k)] + [] == [DecideRequest(k)];
  }

  lemma AskedStaysCurrent(w: World, s: State, k: Key, cr: Request)
    requires k in s.workers && s.workers[k].Asking? && Current(w, s, cr, s.workers[k])
    requires |s.workers[k].allowed| < |s.workers[k].left|
    ensures var ph := s.workers[k];
            var next := ph.(allowed := ph.allowed + [w.access(s.config.rbac, ph.left[|ph.allowed|].name, cr)]);
            var s' := Goto(s, k, next);
            && Next(w, s, AskAccess(k)) == s' && Current(w, s', cr, next)
            && Remaining(next) < Remaining(ph)
            && forall phase :: Goto(s', k, phase) == Goto(s, k, phase)
  {
    var ph := s.workers[k];
    var next := ph.(allowed := ph.allowed + [w.access(s.config.rbac, ph.left[|ph.allowed|].name, cr)]);
    forall phase ensures Goto(Goto(s, k, next), k, phase) == Goto(s, k, phase) {
      assert s.workers[k := next][k := phase] == s.workers[k := phase];
    }
  }

  lemma {:induction false} AskingLeads(w: World, s: State, k: Key, cr: Request, decision: ReviewResponse)
    returns (actions: seq<Action>)
    requires k in s.workers && s.workers[k].Asking? && Current(w, s, cr, s.workers[k])
    requires Decides(w, s.config, cr, decision)
    ensures Leads(w, s, actions, Goto(s, k, Patching(cr, decision)))
    decreases Remaining(s.workers[k])
  {
    if |s.workers[k].allowed| == |s.workers[k].left| {
      DecidingLeads(w, s, k, cr, decision);
      actions := [DecideRequest(k)];
    } else {
      AskedStaysCurrent(w, s, k, cr);
      var rest := AskingLeads(w, Next(w, s, AskAccess(k)), k, cr, decision);
      OneStepThen(w, s, AskAccess(k), rest, Goto(s, k, Patching(cr, decision)));
      actions := [AskAccess(k)] + rest;
    }
  }

  lemma ReadingLeads(w: World, s: State, k: Key, cr: Request, decision: ReviewResponse) returns (actions: seq<Action>)
    requires k in s.workers && s.workers[k] == Got(cr) && Decides(w, s.config, cr, decision)
    ensures Leads(w, s, actions, Goto(s, k, Patching(cr, decision)))
  {
    var s1 := Next(w, s, ListPolicies(k));
    assert s.config.policies != [];
    var s2 := Next(w, s1, ReadNamespace(k));
    ChainUnfolds(AnswersOf(w, s.config), cr, s.config.policies);
    var rest := AskingLeads(w, s2, k, cr, decision);
    assert Goto(s2, k, Patching(cr, decision)) == Goto(s, k, Patching(cr, decision));
    OneStepThen(w, s1, ReadNamespace(k), rest, Goto(s, k, Patching(cr, decision)));
    OneStepThen(w, s, ListPolicies(k), [ReadNamespace(k)] + rest, Goto(s, k, Patching(cr, decision)));
    actions := [ListPolicies(k)] + ([ReadNamespace(k)] + rest);
  }

  /** The event of an undecided request is delivered, and its reconcile gets as far as the patch. */
  lemma EventLeads(w: World, s: State, cr: Request, decision: ReviewResponse) returns (actions: seq<Action>)
    requires var k := KeyOf(cr);
             k in s.requests && s.requests[k].request == cr && (k, cr) in s.requestEvents && k !in s.workers
    requires Decides(w, s.config, cr, decision)
    ensures var k := KeyOf(cr);
            Leads(w, s, actions, s.(requestEvents := s.requestEvents - {(k, cr)}, dirty := s.dirty - {k},
                                    workers := s.workers[k := Patching(cr, decision)]))
  {
    var k := KeyOf(cr);
    var s1 := Next(w, s, DeliverRequest(k, cr));
    var s2 := Next(w, s1, Take(k));
    var s3 := Next(w, s2, GetRequest(k));
    var rest := ReadingLeads(w, s3, k, cr, decision);
    var s' := Goto(s3, k, Patching(cr, decision));
    assert s' == s.(requestEvents := s.requestEvents - {(k, cr)}, dirty := s.dirty - {k},
                    workers := s.workers[k := Patching(cr, decision)]) by {
      assert s1.dirty - {k} == s.dirty - {k};
    }
    OneStepThen(w, s2, GetRequest(k), rest, s');
    OneStepThen(w, s1, Take(k), [GetRequest(k)] + rest, s');
    actions := [DeliverRequest(k, cr)] + ([Take(k)] + ([GetRequest(k)] + rest));
    OneStepThen(w, s, DeliverRequest(k, cr), [Take(k)] + ([GetRequest(k)] + rest), s');
  }

  /** The state just before the decision on the one request is written. */
  function AboutToPatch(config: Config, cr: Request, decision: ReviewResponse): State {
    var k := KeyOf(cr);
    Start(config).(requests := map[k := Object(cr, {}, 0, cr.conditions)], workers := map[k := Patching(cr, decision)])
  }

  lemma {:induction false} NoPutTakesNothingBack(w: World, s: State, actions: seq<Action>, k: Key)
    requires Run(w, s, actions) && forall a :: a in actions ==> !a.PutRequest?
    ensures TakenBack(w, s, actions, k) == 0
    decreases |actions|
  {
    if actions != [] {
      assert actions[0] in actions;
      NoPutTakesNothingBack(w, Next(w, s, actions[0]), actions[1..], k);
    }
  }

  lemma StartLeads(w: World, config: Config, cr: Request, decision: ReviewResponse) returns (actions: seq<Action>)
    requires Decides(w, config, cr, decision)
    ensures Init(Start(config)) && Run(w, Start(config), actions)
    ensures After(w, Start(config), actions) == AboutToPatch(config, cr, decision)
    ensures TakenBack(w, Start(config), actions, KeyOf(cr)) == 0
  {
    var s, k := Start(config), KeyOf(cr);
    var s1 := Next(w, s, PutRequest(k, cr));
    var rest := EventLeads(w, s1, cr, decision);
    assert s1.requestEvents - {(k, cr)} == {} && s1.dirty - {k} == {};
    NoPutTakesNothingBack(w, s1, rest, k);
    actions := [PutRequest(k, cr)] + rest;
    assert actions[1..] == rest;
  }

  // ----- a foreign decision races with the patch -----

  /** Whatever request a cluster decides, there is a run from the start in which somebody else
      writes the opposite decision just before the patch, and the request ends up with both. */
  lemma ForeignDecisionRaces(w: World, config: Config, cr: Request, decision: ReviewResponse, foreign: Request,
                             now: int)
    returns (actions: seq<Action>)
    requires Decides(w, config, cr, decision) && KeyOf(foreign) == KeyOf(cr)
    requires HasTrue(foreign.conditions, Opposite(if decision.Approved? then APPROVED else DENIED))
    ensures Init(Start(config)) && Run(w, Start(config), actions)
    ensures BothAt(After(w, Start(config), actions), KeyOf(cr))
  {
    var k := KeyOf(cr);
    var s := AboutToPatch(config, cr, decision);
    var first := StartLeads(w, config, cr, decision);
    var s1 := Next(w, s, PutRequest(k, foreign));
    var race := [PutRequest(k, foreign), PatchStatus(k, now, true)];
    TwoSteps(w, s, race[0], race[1]);
    PatchMakesBothIff(s1.requests[k], ConditionFor(decision, cr.conditions, now, w.render));
    TakenBackAddsUp(w, Start(config), first, race, k);
    actions := first + race;
  }

  lemma TwoSteps(w: World, s: State, a: Action, b: Action)
    requires Enabled(s, a) && Enabled(Next(w, s, a), b)
    ensures Run(w, s, [a, b]) && After(w, s, [a, b]) == Next(w, Next(w, s, a), b)
  {
    var s1 := Next(w, s, a);
    var s2 := Next(w, s1, b);
    assert [a, b][1..] == [b] && [b][1..] == [];
    assert Run(w, s2, []) && After(w, s2, []) == s2;
    assert Run(w, s1, [b]) && After(w, s1, [b]) == s2;
  }

  // ----- a stale approval is final -----

  /** Whatever request a cluster approves, there is a run from the start in which all policies are
      removed while the request is reconciled, and it is approved all the same.  No continuation
      in which others leave the request alone ever changes it again. */
  lemma StaleApprovalIsFinal(w: World, config: Config, cr: Request, decision: ReviewResponse, now: int,
                             more: seq<Action>)
    returns (actions: seq<Action>)
    requires Decides(w, config, cr, decision) && decision.Approved?
    requires forall a :: a in more ==> !Touches(a, KeyOf(cr))
    ensures Init(Start(config)) && Run(w, Start(config), actions)
    ensures var t, k := After(w, Start(config), actions), KeyOf(cr);
            && k in t.requests && HasTrue(t.requests[k].request.conditions, APPROVED)
            && ReviewOn(w, t.config, cr) == Success(Unprocessed(NO_POLICIES))
            && (Run(w, t, more) ==> k in After(w, t, more).requests && After(w, t, more).requests[k] == t.requests[k])
  {
    var k := KeyOf(cr);
    var s := AboutToPatch(config, cr, decision);
    var first := StartLeads(w, config, cr, decision);
    TwoSteps(w, s, ChangePolicies([]), PatchStatus(k, now, true));
    TakenBackAddsUp(w, Start(config), first, [ChangePolicies([]), PatchStatus(k, now, true)], k);
    actions := first + [ChangePolicies([]), PatchStatus(k, now, true)];
    var t := After(w, Start(config), actions);
    PatchedIsDecided(s.requests[k], ConditionFor(decision, cr.conditions, now, w.render));
    if Run(w, t, more) {
      DecisionStands(w, t, more, k);
    }
  }

  // ----- a second patch -----

  /** The patch, and then somebody else puts the request back as it was. */
  lemma PatchedAndTakenBack(w: World, config: Config, cr: Request, decision: ReviewResponse, now: int)
    returns (s': State)
    requires Decides(w, config, cr, decision)
    ensures var k, s := KeyOf(cr), AboutToPatch(config, cr, decision);
            var actions := [PatchStatus(k, now, true), PutRequest(k, cr)];
            && Run(w, s, actions) && After(w, s, actions) == s' && TakenBack(w, s, actions, k) == 1
            && s'.config == config && k in s'.requests && s'.requests[k].request == cr && s'.requests[k].patches == 1
            && (k, cr) in s'.requestEvents && k !in s'.workers
  {
    var k, s := KeyOf(cr), AboutToPatch(config, cr, decision);
    var patch, back := PatchStatus(k, now, true), PutRequest(k, cr);
    PatchedIsDecided(s.requests[k], ConditionFor(decision, cr.conditions, now, w.render));
    TwoSteps(w, s, patch, back);
    var s1 := Next(w, s, patch);
    s' := Next(w, s1, back);
    assert [patch, back][1..] == [back] && [back][1..] == [];
    assert Run(w, s', []) && Run(w, s1, [back]);
    assert TakesBack(s1, back, k) && !TakesBack(s, patch, k);
    assert TakenBack(w, s1, [back], k) == 1 + TakenBack(w, s', [], k);
  }

  /** A request whose event is on its way is patched once more. */
  lemma PatchedAgain(w: World, s: State, cr: Request, decision: ReviewResponse, now: int) returns (actions: seq<Action>)
    requires var k := KeyOf(cr);
             k in s.requests && s.requests[k].request == cr && (k, cr) in s.requestEvents && k !in s.workers
    requires Decides(w, s.config, cr, decision)
    ensures Run(w, s, actions) && TakenBack(w, s, actions, KeyOf(cr)) == 0
    ensures var t := After(w, s, actions);
            KeyOf(cr) in t.requests && t.requests[KeyOf(cr)].patches == s.requests[KeyOf(cr)].patches + 1
  {
    var k := KeyOf(cr);
    var patch := PatchStatus(k, now, true);
    var first := EventLeads(w, s, cr, decision);
    NoPutTakesNothingBack(w, s, first, k);
    var t := After(w, s, first);
    assert [patch][1..] == [] && Run(w, Next(w, t, patch), []);
    assert Run(w, t, [patch]) && After(w, t, [patch]) == Next(w, t, patch);
    NoPutTakesNothingBack(w, t, [patch], k);
    TakenBackAddsUp(w, s, first, [patch], k);
    actions := first + [patch];
  }

  /** Whatever request a cluster decides, there is a run from the start in which the decision is
      taken back once and the request is patched twice: the bound of AtMostOnePatch is reached. */
  lemma TakenBackPatchedTwice(w: World, config: Config, cr: Request, decision: ReviewResponse, now: int)
    returns (actions: seq<Action>)
    requires Decides(w, config, cr, decision)
    ensures Init(Start(config)) && Run(w, Start(config), actions)
    ensures TakenBack(w, Start(config), actions, KeyOf(cr)) == 1
    ensures var t := After(w, Start(config), actions);
            KeyOf(cr) in t.requests && t.requests[KeyOf(cr)].patches == 2
  {
    var k, s := KeyOf(cr), AboutToPatch(config, cr, decision);
    var first := StartLeads(w, config, cr, decision);
    var both := [PatchStatus(k, now, true), PutRequest(k, cr)];
    var s' := PatchedAndTakenBack(w, config, cr, decision, now);
    var again := PatchedAgain(w, s', cr, decision, now);
    TakenBackAddsUp(w, s, both, again, k);
    TakenBackAddsUp(w, Start(config), first, both + again, k);
    actions := first + (both + again);
  }

  // ----- such clusters exist -----

  lemma OneApplicablePolicy(answers: Answers, cr: Request, p: Policy)
    requires ReadyTimes(p.conditions) == 1 && Applies(answers, cr)(p) == Success(true)
    ensures Chain(Registered(answers), cr, [p]) == Success([p])
  {
    assert [p][..0] == [];
    ChainIsOneFilter(answers, cr, [p]);
    assert Accepts(Applies(answers, cr))(p);
    assert Filter([p], Accepts(Applies(answers, cr))) == [p];
  }

  const ALWAYS_READY := PolicyCondition(READY, CONDITION_TRUE, None, "", "", 0)
  const OPEN_POLICY := Policy("policy", 0, PolicySpec(None, None, map[], Selector(None, None)), [ALWAYS_READY])
  const OPEN_WORLD := World((_, _, _) => true, _ => true, [], _ => "")
  const OPEN_CONFIG := Config([OPEN_POLICY], map[], 0)

  lemma OpenPolicyApplies(cr: Request)
    ensures ReadyTimes(OPEN_POLICY.conditions) == 1
    ensures Applies(AnswersOf(OPEN_WORLD, OPEN_CONFIG), cr)(OPEN_POLICY) == Success(true)
  {
    var answers := AnswersOf(OPEN_WORLD, OPEN_CONFIG);
    assert [ALWAYS_READY][..0] == [];
    assert IsReadyTrue(OPEN_POLICY.conditions[0]);
    assert ReadyTimes([ALWAYS_READY]) == 1;
    assert IsReady(OPEN_POLICY) && ByIssuer(cr)(OPEN_POLICY);
    assert ByNamespace(answers, cr)(OPEN_POLICY) == Success(true);
    assert ByAccess(answers, cr)(OPEN_POLICY) == Success(true);
  }

  /** A cluster with one ready policy that selects everything, and no evaluators, approves every
      undecided request. */
  lemma SomeClusterApproves(cr: Request)
    requires !Decided(cr.conditions)
    ensures Decides(OPEN_WORLD, OPEN_CONFIG, cr, Approved("policy"))
  {
    OpenPolicyApplies(cr);
    OneApplicablePolicy(AnswersOf(OPEN_WORLD, OPEN_CONFIG), cr, OPEN_POLICY);
    assert [OPEN_POLICY][..0] == [];
    assert SearchIn([], cr, [OPEN_POLICY]) == Found(Success(Approved("policy")));
  }
}
