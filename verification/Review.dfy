/** The decision procedure of pkg/internal/approver/manager/review.go: predicates narrow the
    policies, then the first policy that no evaluator denies approves. */
module Review {
  import opened Api
  import opened Lists
  import opened Predicates
  import opened StableSort

  datatype PolicyMessage = PolicyMessage(name: string, message: string)

  const BY_NAME: PolicyMessage -> string := (m: PolicyMessage) => m.name

  function SortByName(ms: seq<PolicyMessage>): seq<PolicyMessage> {
    Sort(ms, BY_NAME)
  }

  /** A denial carries the consulted policies' messages, sorted by policy name. */
  datatype ReviewResponse =
    | Approved(policy: string)
    | Denied(messages: seq<PolicyMessage>)
    | Unprocessed(reason: string)

  const NO_POLICIES := "No CertificateRequestPolicies exist"
  const NONE_APPLICABLE := "No CertificateRequestPolicies bound or applicable"

  // ----- specification -----

  /** What the evaluators together say about one policy. */
  datatype Verdict = Erred(error: string) | Passed | Refused(message: string)

  datatype Tally = Tally(denied: bool, messages: seq<string>)

  function TallyOf(evaluators: seq<Evaluator>, p: Policy, cr: Request): Result<Tally> {
    if evaluators == [] then Success(Tally(false, []))
    else
      match TallyOf(evaluators[..|evaluators| - 1], p, cr)
      case Failure(e) => Failure(e)
      case Success(tally) =>
        match evaluators[|evaluators| - 1](p, cr)
        case Failure(e) => Failure(e)
        case Success(response) =>
          Success(Tally(
            tally.denied || response.denied,
            if |response.message| > 0 then tally.messages + [response.message] else tally.messages))
  }

  function VerdictOf(evaluators: seq<Evaluator>, p: Policy, cr: Request): Verdict {
    match TallyOf(evaluators, p, cr)
    case Failure(e) => Erred(e)
    case Success(tally) => if tally.denied then Refused(Join(tally.messages, ", ")) else Passed
  }

  datatype Search = Found(result: Result<ReviewResponse>) | Exhausted(messages: seq<PolicyMessage>)

  function SearchIn(evaluators: seq<Evaluator>, cr: Request, ps: seq<Policy>): Search {
    if ps == [] then Exhausted([])
    else
      var last := ps[|ps| - 1];
      match SearchIn(evaluators, cr, ps[..|ps| - 1])
      case Found(r) => Found(r)
      case Exhausted(messages) =>
        match VerdictOf(evaluators, last, cr)
        case Erred(e) => Found(Failure(e))
        case Passed => Found(Success(Approved(last.name)))
        case Refused(message) => Exhausted(messages + [PolicyMessage(last.name, message)])
  }

  /** Decision over the policies that passed the predicates. */
  function Decide(evaluators: seq<Evaluator>, cr: Request, ps: seq<Policy>): Result<ReviewResponse> {
    if ps == [] then Success(Unprocessed(NONE_APPLICABLE))
    else
      match SearchIn(evaluators, cr, ps)
      case Found(r) => r
      case Exhausted(messages) => Success(Denied(SortByName(messages)))
  }

  function ReviewOf(listed: Result<seq<Policy>>, predicates: seq<Predicate>, evaluators: seq<Evaluator>, cr: Request)
    : Result<ReviewResponse>
  {
    match listed
    case Failure(e) => Failure(e)
    case Success(ps) =>
      if ps == [] then Success(Unprocessed(NO_POLICIES))
      else
        match Chain(predicates, cr, ps)
        case Failure(e) => Failure(e)
        case Success(left) => Decide(evaluators, cr, left)
  }

  // ----- the method of the source -----

  class Manager {
    const predicates: seq<Predicate>
    const evaluators: seq<Evaluator>

    constructor (answers: Answers, evaluators: seq<Evaluator>)
      ensures predicates == Registered(answers) && this.evaluators == evaluators
    {
      predicates := Registered(answers);
      this.evaluators := evaluators;
    }

    /** `listed` is what listing the policies answers. */
    method Review(listed: Result<seq<Policy>>, cr: Request) returns (r: Result<ReviewResponse>)
      ensures r == ReviewOf(listed, predicates, evaluators, cr)
      ensures listed.Failure? ==> r == Failure(listed.error)
      ensures listed == Success([]) ==> r == Success(Unprocessed("No CertificateRequestPolicies exist"))
      ensures listed.Success? && listed.value != [] ==>
                match Chain(predicates, cr, listed.value)
                case Failure(e) => r == Failure(e)
                case Success(left) =>
                  left == [] ==> r == Success(Unprocessed("No CertificateRequestPolicies bound or applicable"))
    {
      if listed.Failure? {
        return Failure(listed.error);
      }
      if |listed.value| == 0 {
        return Success(Unprocessed(NO_POLICIES));
      }
      var narrowed := Narrow(cr, listed.value);
      if narrowed.Failure? {
        return Failure(narrowed.error);
      }
      var policies := narrowed.value;
      if |policies| == 0 {
        return Success(Unprocessed(NONE_APPLICABLE));
      }
      var policyMessages := [];
      for i := 0 to |policies|
        invariant SearchIn(evaluators, cr, policies[..i]) == Exhausted(policyMessages)
      {
        var policy := policies[i];
        assert policies[..i + 1][..i] == policies[..i];
        SearchStopsAtPrefix(evaluators, cr, policies, i + 1);
        var tally := Evaluate(policy, cr);
        if tally.Failure? {
          return Failure(tally.error);
        }
        if !tally.value.denied {
          return Success(Approved(policy.name));
        }
        policyMessages := policyMessages + [PolicyMessage(policy.name, Join(tally.value.messages, ", "))];
      }
      assert policies[..|policies|] == policies;
      r := Success(Denied(SortByName(policyMessages)));
    }

    /** The loop over the predicates. */
    method Narrow(cr: Request, listed: seq<Policy>) returns (r: Result<seq<Policy>>)
      ensures r == Chain(predicates, cr, listed)
    {
      var policies := listed;
      for i := 0 to |predicates|
        invariant Chain(predicates[..i], cr, listed) == Success(policies)
      {
        assert predicates[..i + 1][..i] == predicates[..i];
        ChainPrefixFails(predicates, i + 1, cr, listed);
        match predicates[i](cr, policies)
        case Failure(e) => return Failure(e);
        case Success(left) => policies := left;
      }
      assert predicates[..|predicates|] == predicates;
      r := Success(policies);
    }

    /** The loop over the evaluators: every one is asked, unless one errs. */
    method Evaluate(policy: Policy, cr: Request) returns (r: Result<Tally>)
      ensures r == TallyOf(evaluators, policy, cr)
    {
      var evaluatorDenied, evaluatorMessages := false, [];
      for j := 0 to |evaluators|
        invariant TallyOf(evaluators[..j], policy, cr) == Success(Tally(evaluatorDenied, evaluatorMessages))
      {
        assert evaluators[..j + 1][..j] == evaluators[..j];
        TallyPrefixFails(evaluators, j + 1, policy, cr);
        match evaluators[j](policy, cr)
        case Failure(e) => return Failure(e);
        case Success(response) =>
          if |response.message| > 0 {
            evaluatorMessages := evaluatorMessages + [response.message];
          }
          if response.denied {
            evaluatorDenied := true;
          }
      }
      assert evaluators[..|evaluators|] == evaluators;
      r := Success(Tally(evaluatorDenied, evaluatorMessages));
    }
  }

  lemma {:induction false} ChainPrefixFails(predicates: seq<Predicate>, n: nat, cr: Request, ps: seq<Policy>)
    requires n <= |predicates|
    ensures Chain(predicates[..n], cr, ps).Failure? ==> Chain(predicates, cr, ps) == Chain(predicates[..n], cr, ps)
  {
    if n < |predicates| {
      ChainPrefixFails(predicates[..|predicates| - 1], n, cr, ps);
      assert predicates[..|predicates| - 1][..n] == predicates[..n];
    } else {
      assert predicates[..n] == predicates;
    }
  }

  lemma {:induction false} TallyPrefixFails(evaluators: seq<Evaluator>, n: nat, p: Policy, cr: Request)
    requires n <= |evaluators|
    ensures TallyOf(evaluators[..n], p, cr).Failure? ==> TallyOf(evaluators, p, cr) == TallyOf(evaluators[..n], p, cr)
  {
    if n < |evaluators| {
      TallyPrefixFails(evaluators[..|evaluators| - 1], n, p, cr);
      assert evaluators[..|evaluators| - 1][..n] == evaluators[..n];
    } else {
      assert evaluators[..n] == evaluators;
    }
  }

  lemma {:induction false} SearchStopsAtPrefix(evaluators: seq<Evaluator>, cr: Request, ps: seq<Policy>, n: nat)
    requires n <= |ps|
    ensures SearchIn(evaluators, cr, ps[..n]).Found? ==>
            SearchIn(evaluators, cr, ps) == SearchIn(evaluators, cr, ps[..n])
  {
    if n < |ps| {
      SearchStopsAtPrefix(evaluators, cr, ps[..|ps| - 1], n);
      assert ps[..|ps| - 1][..n] == ps[..n];
    } else {
      assert ps[..n] == ps;
    }
  }

  // ----- one policy -----

  predicate Errs(e: Evaluator, p: Policy, cr: Request) {
    e(p, cr).Failure?
  }

  predicate Denies(e: Evaluator, p: Policy, cr: Request) {
    e(p, cr).Success? && e(p, cr).value.denied
  }

  /** A policy passes exactly when no evaluator errs and none denies, and is refused exactly
      when none errs and one denies: an error wins over a denial on either side of it. */
  lemma {:induction false} VerdictIs(evaluators: seq<Evaluator>, p: Policy, cr: Request)
    ensures VerdictOf(evaluators, p, cr).Erred? <==> exists j :: 0 <= j < |evaluators| && Errs(evaluators[j], p, cr)
    ensures VerdictOf(evaluators, p, cr).Refused? <==>
            && (forall j :: 0 <= j < |evaluators| ==> !Errs(evaluators[j], p, cr))
            && (exists j :: 0 <= j < |evaluators| && Denies(evaluators[j], p, cr))
  {
    if evaluators != [] {
      var front, n := evaluators[..|evaluators| - 1], |evaluators| - 1;
      VerdictIs(front, p, cr);
      assert forall j :: 0 <= j < n ==> front[j] == evaluators[j];
      assert (exists j :: 0 <= j < |evaluators| && Errs(evaluators[j], p, cr)) <==>
             (exists j :: 0 <= j < n && Errs(front[j], p, cr)) || Errs(evaluators[n], p, cr);
      assert (exists j :: 0 <= j < |evaluators| && Denies(evaluators[j], p, cr)) <==>
             (exists j :: 0 <= j < n && Denies(front[j], p, cr)) || Denies(evaluators[n], p, cr);
    }
  }

  /** The error is that of the first evaluator that errs. */
  lemma {:induction false} ErredIs(evaluators: seq<Evaluator>, p: Policy, cr: Request) returns (j: nat)
    requires VerdictOf(evaluators, p, cr).Erred?
    ensures j < |evaluators| && evaluators[j](p, cr) == Failure(VerdictOf(evaluators, p, cr).error)
    ensures forall i :: 0 <= i < j ==> evaluators[i](p, cr).Success?
  {
    var front, n := evaluators[..|evaluators| - 1], |evaluators| - 1;
    if TallyOf(front, p, cr).Failure? {
      j := ErredIs(front, p, cr);
      assert forall i :: 0 <= i < j ==> front[i] == evaluators[i];
    } else {
      j := n;
      var idx := TallyReports(front, p, cr);
      assert forall i :: 0 <= i < n ==> front[i] == evaluators[i];
    }
  }

  /** Every evaluator answered, and these are the texts of exactly those that said something,
      denying or not, in their order. */
  ghost predicate Reports(evaluators: seq<Evaluator>, p: Policy, cr: Request, texts: seq<string>) {
    && (forall j :: 0 <= j < |evaluators| ==> evaluators[j](p, cr).Success?)
    && exists idx :: ReportsAt(evaluators, p, cr, texts, idx)
  }

  ghost predicate ReportsAt(evaluators: seq<Evaluator>, p: Policy, cr: Request, texts: seq<string>, idx: seq<nat>) {
    && Enumerates(idx, set j: nat | j < |evaluators| && evaluators[j](p, cr).Success?
                                    && evaluators[j](p, cr).value.message != "")
    && |texts| == |idx|
    && forall k :: 0 <= k < |idx| ==>
         idx[k] < |evaluators| && evaluators[idx[k]](p, cr).Success? &&
         texts[k] == evaluators[idx[k]](p, cr).value.message
  }

  lemma {:induction false} TallyReports(evaluators: seq<Evaluator>, p: Policy, cr: Request) returns (idx: seq<nat>)
    requires TallyOf(evaluators, p, cr).Success?
    ensures Reports(evaluators, p, cr, TallyOf(evaluators, p, cr).value.messages)
    ensures ReportsAt(evaluators, p, cr, TallyOf(evaluators, p, cr).value.messages, idx)
  {
    idx := [];
    if evaluators == [] {
      assert ReportsAt(evaluators, p, cr, [], []);
    } else {
      var front, n := evaluators[..|evaluators| - 1], |evaluators| - 1;
      idx := TallyReports(front, p, cr);
      OneMoreReport(evaluators, p, cr, TallyOf(front, p, cr).value.messages, idx);
      if evaluators[n](p, cr).value.message != "" {
        idx := idx + [n];
      }
    }
  }

  lemma OneMoreReport(evaluators: seq<Evaluator>, p: Policy, cr: Request, texts: seq<string>, idx: seq<nat>)
    requires evaluators != [] && Reports(evaluators[..|evaluators| - 1], p, cr, texts)
    requires ReportsAt(evaluators[..|evaluators| - 1], p, cr, texts, idx)
    requires evaluators[|evaluators| - 1](p, cr).Success?
    ensures var n := |evaluators| - 1;
            var text := evaluators[n](p, cr).value.message;
            var texts', idx' := if text == "" then texts else texts + [text], if text == "" then idx else idx + [n];
            Reports(evaluators, p, cr, texts') && ReportsAt(evaluators, p, cr, texts', idx')
  {
    var front, n := evaluators[..|evaluators| - 1], |evaluators| - 1;
    assert forall j :: 0 <= j < n ==> front[j] == evaluators[j];
    var before := set j: nat | j < |front| && front[j](p, cr).Success? && front[j](p, cr).value.message != "";
    var after := set j: nat | j < |evaluators| && evaluators[j](p, cr).Success?
                              && evaluators[j](p, cr).value.message != "";
    if evaluators[n](p, cr).value.message == "" {
      assert after == before;
      assert ReportsAt(evaluators, p, cr, texts, idx);
    } else {
      assert after == before + {n};
      EnumeratesOneMore(idx, before, n);
      assert ReportsAt(evaluators, p, cr, texts + [evaluators[n](p, cr).value.message], idx + [n]);
    }
  }

  /** A refused policy's message joins what its evaluators said. */
  lemma RefusedMessageIs(evaluators: seq<Evaluator>, p: Policy, cr: Request)
    requires VerdictOf(evaluators, p, cr).Refused?
    ensures exists texts :: Reports(evaluators, p, cr, texts) &&
                            VerdictOf(evaluators, p, cr).message == Join(texts, ", ")
  {
    var idx := TallyReports(evaluators, p, cr);
  }

  // ----- the first policy that is not refused decides -----

  ghost predicate DecidesAt(evaluators: seq<Evaluator>, cr: Request, ps: seq<Policy>, i: nat) {
    && i < |ps|
    && !VerdictOf(evaluators, ps[i], cr).Refused?
    && forall k :: 0 <= k < i ==> VerdictOf(evaluators, ps[k], cr).Refused?
  }

  function Outcome(evaluators: seq<Evaluator>, cr: Request, p: Policy): Result<ReviewResponse>
    requires !VerdictOf(evaluators, p, cr).Refused?
  {
    match VerdictOf(evaluators, p, cr)
    case Erred(e) => Failure(e)
    case Passed => Success(Approved(p.name))
  }

  /** The messages of a list of refused policies, in list order. */
  ghost predicate MessagesOf(evaluators: seq<Evaluator>, cr: Request, ps: seq<Policy>, ms: seq<PolicyMessage>) {
    && |ms| == |ps|
    && forall k :: 0 <= k < |ps| ==>
         VerdictOf(evaluators, ps[k], cr).Refused? &&
         ms[k] == PolicyMessage(ps[k].name, VerdictOf(evaluators, ps[k], cr).message)
  }

  /** The first applicable policy at which an evaluator errs or none denies decides the search. */
  lemma {:induction false} FirstNotRefusedDecides(evaluators: seq<Evaluator>, cr: Request, ps: seq<Policy>, i: nat)
    requires DecidesAt(evaluators, cr, ps, i)
    ensures SearchIn(evaluators, cr, ps) == Found(Outcome(evaluators, cr, ps[i]))
  {
    SearchCollects(evaluators, cr, ps[..i]);
    assert ps[..i + 1][..i] == ps[..i];
    SearchStopsAtPrefix(evaluators, cr, ps, i + 1);
  }

  /** Without such a policy, and only then, the search collects the message of every policy. */
  lemma {:induction false} SearchCollects(evaluators: seq<Evaluator>, cr: Request, ps: seq<Policy>)
    ensures SearchIn(evaluators, cr, ps).Exhausted? <==>
              forall k :: 0 <= k < |ps| ==> VerdictOf(evaluators, ps[k], cr).Refused?
    ensures SearchIn(evaluators, cr, ps).Exhausted? ==>
              MessagesOf(evaluators, cr, ps, SearchIn(evaluators, cr, ps).messages)
  {
    if ps != [] {
      var front, last := ps[..|ps| - 1], |ps| - 1;
      SearchCollects(evaluators, cr, front);
      assert forall k :: 0 <= k < last ==> front[k] == ps[k];
      if forall k :: 0 <= k < |ps| ==> VerdictOf(evaluators, ps[k], cr).Refused? {
        forall k | 0 <= k < last ensures VerdictOf(evaluators, front[k], cr).Refused? {
          assert VerdictOf(evaluators, ps[k], cr).Refused?;
        }
      }
    }
  }

  lemma {:induction false} SomeDecides(evaluators: seq<Evaluator>, cr: Request, ps: seq<Policy>, k: nat)
    returns (i: nat)
    requires k < |ps| && !VerdictOf(evaluators, ps[k], cr).Refused?
    ensures DecidesAt(evaluators, cr, ps, i)
  {
    i := 0;
    while VerdictOf(evaluators, ps[i], cr).Refused?
      invariant i <= k
      invariant forall j :: 0 <= j < i ==> VerdictOf(evaluators, ps[j], cr).Refused?
      decreases k - i
    {
      i := i + 1;
    }
  }

  /** Decide, said without the search: the answer is the outcome of the first policy that is not
      refused; with none, a denial over all of them; with no policy, Unprocessed. */
  lemma DecideByFirst(evaluators: seq<Evaluator>, cr: Request, ps: seq<Policy>)
    ensures forall i: nat :: DecidesAt(evaluators, cr, ps, i) ==>
              Decide(evaluators, cr, ps) == Outcome(evaluators, cr, ps[i])
    ensures (forall i: nat :: !DecidesAt(evaluators, cr, ps, i)) && ps != [] ==>
              exists ms :: MessagesOf(evaluators, cr, ps, ms) &&
                           Decide(evaluators, cr, ps) == Success(Denied(SortByName(ms)))
    ensures ps == [] ==> Decide(evaluators, cr, ps) == Success(Unprocessed(NONE_APPLICABLE))
  {
    forall i: nat | DecidesAt(evaluators, cr, ps, i)
      ensures Decide(evaluators, cr, ps) == Outcome(evaluators, cr, ps[i])
    {
      FirstNotRefusedDecides(evaluators, cr, ps, i);
    }
    if forall i: nat :: !DecidesAt(evaluators, cr, ps, i) {
      forall k | 0 <= k < |ps| ensures VerdictOf(evaluators, ps[k], cr).Refused? {
        if !VerdictOf(evaluators, ps[k], cr).Refused? {
          var i := SomeDecides(evaluators, cr, ps, k);
        }
      }
      SearchCollects(evaluators, cr, ps);
    }
  }

  // ----- order does not matter without errors -----

  ghost predicate NoneErrs(evaluators: seq<Evaluator>, cr: Request, ps: seq<Policy>) {
    forall p :: p in ps ==> !VerdictOf(evaluators, p, cr).Erred?
  }

  ghost predicate SomePasses(evaluators: seq<Evaluator>, cr: Request, ps: seq<Policy>) {
    exists p :: p in ps && VerdictOf(evaluators, p, cr).Passed?
  }

  /** Without evaluator errors the decision is Approved exactly when some policy passes, naming
      one that does, and otherwise Denied unless there is no policy at all. */
  lemma DecideIs(evaluators: seq<Evaluator>, cr: Request, ps: seq<Policy>)
    requires NoneErrs(evaluators, cr, ps)
    ensures var r := Decide(evaluators, cr, ps);
            && r.Success?
            && (r.value.Approved? <==> SomePasses(evaluators, cr, ps))
            && (r.value.Approved? ==>
                  exists p :: p in ps && VerdictOf(evaluators, p, cr).Passed? && p.name == r.value.policy)
            && (r.value.Unprocessed? <==> ps == [])
            && (r.value.Denied? ==>
                  exists ms :: MessagesOf(evaluators, cr, ps, ms) && r.value.messages == SortByName(ms))
  {
    DecideByFirst(evaluators, cr, ps);
    if SomePasses(evaluators, cr, ps) {
      var p :| p in ps && VerdictOf(evaluators, p, cr).Passed?;
      var k :| 0 <= k < |ps| && ps[k] == p;
      var i := SomeDecides(evaluators, cr, ps, k);
    }
    if i: nat :| DecidesAt(evaluators, cr, ps, i) {
      assert ps[i] in ps;
    }
  }

  ghost predicate UniqueNames(ps: seq<Policy>) {
    DistinctKeys(ps, POLICY_NAME)
  }

  /** Same policies in another order: same kind of answer, and the same denial message. */
  lemma DecideIgnoresOrder(evaluators: seq<Evaluator>, cr: Request, ps: seq<Policy>, qs: seq<Policy>)
    requires UniqueNames(ps) && UniqueNames(qs) && SameMembers(ps, qs) && NoneErrs(evaluators, cr, ps)
    ensures SameKind(Decide(evaluators, cr, ps), Decide(evaluators, cr, qs))
  {
    DecideIs(evaluators, cr, ps);
    DecideIs(evaluators, cr, qs);
    assert ps == [] || ps[0] in qs;
    assert qs == [] || qs[0] in ps;
    if Decide(evaluators, cr, ps).value.Denied? {
      var ms :| MessagesOf(evaluators, cr, ps, ms) && Decide(evaluators, cr, ps).value.messages == SortByName(ms);
      var ns :| MessagesOf(evaluators, cr, qs, ns) && Decide(evaluators, cr, qs).value.messages == SortByName(ns);
      MessagesCarryOver(evaluators, cr, ps, qs, ms, ns);
      MessagesCarryOver(evaluators, cr, qs, ps, ns, ms);
      DistinctKeysSortAlike(ms, ns, BY_NAME);
    }
  }

  lemma MessagesCarryOver(evaluators: seq<Evaluator>, cr: Request, ps: seq<Policy>, qs: seq<Policy>,
                          ms: seq<PolicyMessage>, ns: seq<PolicyMessage>)
    requires UniqueNames(ps) && SameMembers(ps, qs)
    requires MessagesOf(evaluators, cr, ps, ms) && MessagesOf(evaluators, cr, qs, ns)
    ensures DistinctKeys(ms, BY_NAME) && forall m :: m in ms ==> m in ns
  {
    forall m | m in ms ensures m in ns {
      var i :| 0 <= i < |ms| && ms[i] == m;
      assert ps[i] in ps;
      var j :| 0 <= j < |qs| && qs[j] == ps[i];
      assert ns[j] == m;
    }
  }

  predicate SameKind(r: Result<ReviewResponse>, r': Result<ReviewResponse>) {
    match (r, r')
    case (Success(Approved(_)), Success(Approved(_))) => true
    case (Success(Denied(ms)), Success(Denied(ms'))) => ms == ms'
    case (Success(Unprocessed(reason)), Success(Unprocessed(reason'))) => reason == reason'
    case _ => false
  }
}
