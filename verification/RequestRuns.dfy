/** Whole runs of the certificaterequests controller (pkg/internal/controllers/certificaterequests.go):
    cluster changes, watch events in flight, the work queue, and reconciles whose reads interleave
    with everything else.

    Assumed of the machinery around the controller: reads see every earlier write; the queue never
    hands one key to two workers, and keeps a key that is added while it is being worked on; an
    error puts the key back after a delay; a restart lists every request again; an apply patch
    replaces the conditions the approver owns, keyed by type. */
module RequestRuns {
  import opened Api
  import opened Lists
  import opened Predicates
  import opened Review
  import opened RequestController

  // ----- state -----

  /** What a review reads: the policies, the labels of each namespace, and the RBAC objects. */
  datatype Config = Config(policies: seq<Policy>, namespaces: map<string, Labels>, rbac: nat)

  /** A stored request, the condition types the approver owns in it, how many status patches it
      received since it was created, and the conditions it was created with. */
  datatype Object = Object(request: Request, owned: set<string>, patches: nat, born: seq<RequestCondition>)

  /** Where the worker of a key is.  Every phase keeps what it has read so far. */
  datatype Phase =
    | Taken
    | Got(cr: Request)
    | Listed(cr: Request, policies: seq<Policy>)
    | Asking(cr: Request, left: seq<Policy>, allowed: seq<bool>)
    | Patching(cr: Request, decision: ReviewResponse)

  datatype Kind =
    PolicyEvent | RoleEvent | RoleBindingEvent | ClusterRoleEvent | ClusterRoleBindingEvent | NamespaceEvent

  /** The kinds the controller watches, with enqueueRequestFromMapFunc as their handler. */
  const WATCHED: set<Kind> :=
    {PolicyEvent, RoleEvent, RoleBindingEvent, ClusterRoleEvent, ClusterRoleBindingEvent, NamespaceEvent}

  datatype State = State(
    config: Config,
    requests: map<Key, Object>,
    dirty: set<Key>,                      // on the queue, or to be queued once its worker is done
    retry: set<Key>,                      // to be queued after a delay
    workers: map<Key, Phase>,
    events: multiset<Kind>,               // changes whose watch event is still in flight
    requestEvents: set<(Key, Request)>)   // request changes whose watch event is still in flight

  /** What the cluster does not decide: access for an RBAC state, selectors, evaluators, messages. */
  datatype World = World(
    access: (nat, string, Request) -> bool,
    validSelector: Labels -> bool,
    evaluators: seq<Evaluator>,
    render: ReviewResponse -> string)

  function AnswersOf(w: World, config: Config): Answers {
    Answers(
      ns => if ns in config.namespaces then Success(config.namespaces[ns]) else Failure("namespace not found"),
      w.validSelector,
      (name, cr) => Success(w.access(config.rbac, name, cr)))
  }

  /** Review on a configuration that stands still. */
  function ReviewOn(w: World, config: Config, cr: Request): Result<ReviewResponse> {
    ReviewOf(Success(config.policies), Registered(AnswersOf(w, config)), w.evaluators, cr)
  }

  /** The policies whose access review said yes. */
  function Bound(left: seq<Policy>, allowed: seq<bool>): seq<Policy>
    requires |left| == |allowed|
  {
    if left == [] then []
    else
      var n := |left| - 1;
      var front := Bound(left[..n], allowed[..n]);
      if allowed[n] then front + [left[n]] else front
  }

  /** Server-side apply of the approver's one condition. */
  function Keeps(o: Object, c: RequestCondition): RequestCondition -> bool {
    (d: RequestCondition) => d.typ != c.typ && d.typ !in o.owned
  }

  function Apply(o: Object, c: RequestCondition): Object {
    var conditions := Filter(o.request.conditions, Keeps(o, c)) + [c];
    Object(o.request.(conditions := conditions), {c.typ}, o.patches + 1, o.born)
  }

  // ----- actions -----

  datatype Action =
    // the environment
    | ChangePolicies(policies: seq<Policy>)
    | ChangeRbac(kind: Kind, rbac: nat)
    | ChangeNamespaces(namespaces: map<string, Labels>)
    | PutRequest(k: Key, cr: Request)
    | DeleteRequest(k: Key)
    | Restart
    // informers and queue
    | Deliver(kind: Kind)
    | DeliverRequest(k: Key, cr: Request)
    | RetryDue(k: Key)
    | Take(k: Key)
    // the worker of a key
    | GetRequest(k: Key)
    | ListPolicies(k: Key)
    | ReadNamespace(k: Key)
    | AskAccess(k: Key)
    | DecideRequest(k: Key)
    | PatchStatus(k: Key, now: int, replied: bool)   // applied, but the reply may be lost
    | Fail(k: Key)

  predicate Enabled(s: State, a: Action) {
    match a
    case ChangeRbac(kind, _) => kind in {RoleEvent, RoleBindingEvent, ClusterRoleEvent, ClusterRoleBindingEvent}
    case PutRequest(k, cr) => k == Key(cr.namespace, cr.name)
    case DeleteRequest(k) => k in s.requests
    case Deliver(kind) => kind in s.events
    case DeliverRequest(k, cr) => (k, cr) in s.requestEvents
    case RetryDue(k) => k in s.retry
    case Take(k) => k in s.dirty && k !in s.workers
    case GetRequest(k) => k in s.workers && s.workers[k].Taken?
    case ListPolicies(k) => k in s.workers && s.workers[k].Got?
    case ReadNamespace(k) => k in s.workers && s.workers[k].Listed?
    case AskAccess(k) => k in s.workers && s.workers[k].Asking? && |s.workers[k].allowed| < |s.workers[k].left|
    case DecideRequest(k) => k in s.workers && s.workers[k].Asking? && |s.workers[k].allowed| == |s.workers[k].left|
    case PatchStatus(k, _, _) => k in s.workers && s.workers[k].Patching? && !s.workers[k].decision.Unprocessed?
    case Fail(k) => k in s.workers
    case _ => true
  }

  function Notify(s: State, kind: Kind): State {
    if kind in WATCHED then s.(events := s.events + multiset{kind}) else s
  }

  function Undecided(s: State): set<Key> {
    set k | k in s.requests && !Decided(s.requests[k].request.conditions)
  }

  function Put(s: State, k: Key, o: Object): State {
    s.(requests := s.requests[k := o], requestEvents := s.requestEvents + {(k, o.request)})
  }

  /** The reconcile of k ends; an error or requeue puts the key back after a delay. */
  function Finish(s: State, k: Key, again: bool): State {
    s.(workers := s.workers - {k}, retry := if again then s.retry + {k} else s.retry)
  }

  function Goto(s: State, k: Key, phase: Phase): State {
    s.(workers := s.workers[k := phase])
  }

  function Next(w: World, s: State, a: Action): State
    requires Enabled(s, a)
  {
    match a
    case ChangePolicies(ps) => Notify(s.(config := s.config.(policies := ps)), PolicyEvent)
    case ChangeRbac(kind, rbac) => Notify(s.(config := s.config.(rbac := rbac)), kind)
    case ChangeNamespaces(nss) => Notify(s.(config := s.config.(namespaces := nss)), NamespaceEvent)
    case PutRequest(k, cr) =>
      Put(s, k, if k in s.requests then s.requests[k].(request := cr) else Object(cr, {}, 0, cr.conditions))
    case DeleteRequest(k) =>
      s.(requests := s.requests - {k}, requestEvents := s.requestEvents + {(k, s.requests[k].request)})
    case Restart =>
      s.(dirty := {}, retry := {}, workers := map[], events := multiset{},
         requestEvents := set k | k in s.requests :: (k, s.requests[k].request))
    case Deliver(kind) => s.(events := s.events - multiset{kind}, dirty := s.dirty + Undecided(s))
    case DeliverRequest(k, cr) =>
      s.(requestEvents := s.requestEvents - {(k, cr)},
         dirty := if Decided(cr.conditions) then s.dirty else s.dirty + {k})
    case RetryDue(k) => s.(retry := s.retry - {k}, dirty := s.dirty + {k})
    case Take(k) => Goto(s.(dirty := s.dirty - {k}), k, Taken)
    case GetRequest(k) =>
      if k !in s.requests || Decided(s.requests[k].request.conditions) then Finish(s, k, false)
      else Goto(s, k, Got(s.requests[k].request))
    case ListPolicies(k) =>
      if s.config.policies == [] then Finish(s, k, false)
      else Goto(s, k, Listed(s.workers[k].cr, s.config.policies))
    case ReadNamespace(k) =>
      var ph := s.workers[k];
      (match Selected(AnswersOf(w, s.config), ph.cr, ph.policies)
       case Failure(_) => Finish(s, k, true)
       case Success(left) => Goto(s, k, Asking(ph.cr, left, [])))
    case AskAccess(k) =>
      var ph := s.workers[k];
      Goto(s, k, ph.(allowed := ph.allowed + [w.access(s.config.rbac, ph.left[|ph.allowed|].name, ph.cr)]))
    case DecideRequest(k) =>
      var ph := s.workers[k];
      (match Decide(w.evaluators, ph.cr, Bound(ph.left, ph.allowed))
       case Failure(_) => Finish(s, k, true)
       case Success(Unprocessed(_)) => Finish(s, k, false)
       case Success(decision) => Goto(s, k, Patching(ph.cr, decision)))
    case PatchStatus(k, now, replied) =>
      var ph := s.workers[k];
      if k !in s.requests then Finish(s, k, true)
      else
        var c := ConditionFor(ph.decision, ph.cr.conditions, now, w.render);
        Finish(Put(s, k, Apply(s.requests[k], c)), k, !replied)
    case Fail(k) => Finish(s, k, true)
  }

  ghost predicate Run(w: World, s: State, actions: seq<Action>)
    decreases |actions|
  {
    actions == [] || (Enabled(s, actions[0]) && Run(w, Next(w, s, actions[0]), actions[1..]))
  }

  ghost function After(w: World, s: State, actions: seq<Action>): State
    requires Run(w, s, actions)
    decreases |actions|
  {
    if actions == [] then s else After(w, Next(w, s, actions[0]), actions[1..])
  }

  /** Requests are stored under their own names. */
  ghost predicate Named(s: State) {
    forall k :: k in s.requests ==> k == Key(s.requests[k].request.namespace, s.requests[k].request.name)
  }

  /** The controller starts by listing every request that exists. */
  ghost predicate Init(s: State) {
    && s.dirty == {} && s.retry == {} && s.workers == map[] && s.events == multiset{}
    && s.requestEvents == (set k | k in s.requests :: (k, s.requests[k].request))
    && Named(s)
    && forall k :: k in s.requests ==> s.requests[k].patches == 0 && s.requests[k].owned == {} &&
                                       s.requests[k].born == s.requests[k].request.conditions
  }

  // ----- no lost wake-up -----

  /** Nothing that would make the controller look at k again is pending. */
  predicate Quiet(s: State, k: Key)
    requires k in s.requests
  {
    k !in s.dirty && k !in s.retry && s.events == multiset{} && (k, s.requests[k].request) !in s.requestEvents
  }

  /** What the worker has read is still what is there. */
  predicate Current(w: World, s: State, cr: Request, phase: Phase) {
    match phase
    case Taken => true
    case Got(read) => read == cr
    case Listed(read, ps) => read == cr && ps == s.config.policies && ps != []
    case Asking(read, left, allowed) =>
      && read == cr && s.config.policies != []
      && Selected(AnswersOf(w, s.config), cr, s.config.policies) == Success(left)
      && |allowed| <= |left|
      && forall i :: 0 <= i < |allowed| ==> allowed[i] == w.access(s.config.rbac, left[i].name, cr)
    case Patching(read, decision) => read == cr && ReviewOn(w, s.config, cr) == Success(decision)
  }

  predicate Awake(w: World, s: State, k: Key) {
    k in s.requests && !Decided(s.requests[k].request.conditions) && Quiet(s, k) ==>
      var cr := s.requests[k].request;
      if k in s.workers then Current(w, s, cr, s.workers[k])
      else ReviewOn(w, s.config, cr).Success? && ReviewOn(w, s.config, cr).value.Unprocessed?
  }

  lemma {:induction false} AnswersGiveBound(w: World, config: Config, cr: Request, left: seq<Policy>,
                                            allowed: seq<bool>)
    requires |left| == |allowed|
    requires forall i :: 0 <= i < |allowed| ==> allowed[i] == w.access(config.rbac, left[i].name, cr)
    ensures Select(left, ByAccess(AnswersOf(w, config), cr)) == Success(Bound(left, allowed))
  {
    if left != [] {
      AnswersGiveBound(w, config, cr, left[..|left| - 1], allowed[..|left| - 1]);
    }
  }

  /** Reads that all saw the same configuration add up to its review. */
  lemma StagesAddUp(w: World, config: Config, cr: Request, left: seq<Policy>, allowed: seq<bool>)
    requires config.policies != [] && Selected(AnswersOf(w, config), cr, config.policies) == Success(left)
    requires |left| == |allowed|
    requires forall i :: 0 <= i < |allowed| ==> allowed[i] == w.access(config.rbac, left[i].name, cr)
    ensures ReviewOn(w, config, cr) == Decide(w.evaluators, cr, Bound(left, allowed))
  {
    ChainUnfolds(AnswersOf(w, config), cr, config.policies);
    AnswersGiveBound(w, config, cr, left, allowed);
  }

  lemma PatchedIsDecided(o: Object, c: RequestCondition)
    requires c.status == CONDITION_TRUE && (c.typ == APPROVED || c.typ == DENIED)
    ensures HasTrue(Apply(o, c).request.conditions, c.typ)
  {
    var conditions := Apply(o, c).request.conditions;
    assert conditions[|conditions| - 1] == c;
  }

  /** Everything that Awake looks at for k is the same in both states. */
  predicate SameFor(s: State, s': State, k: Key) {
    && s'.config == s.config && s'.events == s.events
    && (k in s'.requests <==> k in s.requests)
    && (k in s.requests ==>
          && s'.requests[k].request == s.requests[k].request
          && ((k, s.requests[k].request) in s'.requestEvents <==> (k, s.requests[k].request) in s.requestEvents))
    && (k in s'.dirty <==> k in s.dirty) && (k in s'.retry <==> k in s.retry)
    && (k in s'.workers <==> k in s.workers)
    && (k in s.workers ==> s'.workers[k] == s.workers[k])
  }

  lemma SameForKeepsAwake(w: World, s: State, s': State, k: Key)
    requires Awake(w, s, k) && SameFor(s, s', k)
    ensures Awake(w, s', k)
  {
    if k in s.workers && k in s.requests {
      var phase := s.workers[k];
      assert Current(w, s', s.requests[k].request, phase) == Current(w, s, s.requests[k].request, phase);
    }
  }

  predicate ByEnvironment(a: Action) {
    a.ChangePolicies? || a.ChangeRbac? || a.ChangeNamespaces? || a.PutRequest? || a.DeleteRequest? || a.Restart?
  }

  /** A change of the configuration leaves a watched event in flight, a change of a request its
      own event, so no key that they touch is quiet. */
  lemma EnvironmentKeepsAwake(w: World, s: State, a: Action, k: Key)
    requires Enabled(s, a) && ByEnvironment(a) && Awake(w, s, k)
    ensures Awake(w, Next(w, s, a), k)
  {
    var s' := Next(w, s, a);
    match a
    case ChangePolicies(_) => assert PolicyEvent in s'.events;
    case ChangeRbac(kind, _) => assert kind in s'.events;
    case ChangeNamespaces(_) => assert NamespaceEvent in s'.events;
    case PutRequest(j, cr) => if j != k { SameForKeepsAwake(w, s, s', k); }
    case DeleteRequest(j) => if j != k { SameForKeepsAwake(w, s, s', k); }
    case Restart => assert k in s'.requests ==> (k, s'.requests[k].request) in s'.requestEvents;
  }

  lemma QueueKeepsAwake(w: World, s: State, a: Action, k: Key)
    requires Enabled(s, a) && (a.Deliver? || a.DeliverRequest? || a.RetryDue? || a.Take?) && Awake(w, s, k)
    ensures Awake(w, Next(w, s, a), k)
  {
    var s' := Next(w, s, a);
    match a
    case Deliver(_) => assert k in s.requests && !Decided(s.requests[k].request.conditions) ==> k in Undecided(s);
    case DeliverRequest(j, cr) =>
      if k in s.requests && (j, cr) != (k, s.requests[k].request) && k !in s'.dirty {
        SameForKeepsAwake(w, s, s', k);
      }
    case RetryDue(j) => if j != k { SameForKeepsAwake(w, s, s', k); }
    case Take(j) => if j != k { SameForKeepsAwake(w, s, s', k); }
  }

  lemma ReadKeepsAwake(w: World, s: State, a: Action, k: Key)
    requires Enabled(s, a) && Awake(w, s, k)
    requires a == GetRequest(k) || a == ListPolicies(k) || a == ReadNamespace(k) || a == Fail(k)
    ensures Awake(w, Next(w, s, a), k)
  {
    var s' := Next(w, s, a);
    if k in s.requests && Quiet(s', k) {
      assert Quiet(s, k);
    }
  }

  lemma AskKeepsAwake(w: World, s: State, k: Key)
    requires Enabled(s, AskAccess(k)) && Awake(w, s, k)
    ensures Awake(w, Next(w, s, AskAccess(k)), k)
  {
    var s' := Next(w, s, AskAccess(k));
    if k in s.requests && !Decided(s.requests[k].request.conditions) && Quiet(s', k) {
      assert Current(w, s, s.requests[k].request, s.workers[k]);
      assert Current(w, s', s'.requests[k].request, s'.workers[k]);
    }
  }

  lemma DecideKeepsAwake(w: World, s: State, k: Key)
    requires Enabled(s, DecideRequest(k)) && Awake(w, s, k)
    ensures Awake(w, Next(w, s, DecideRequest(k)), k)
  {
    var s' := Next(w, s, DecideRequest(k));
    if k in s.requests && !Decided(s.requests[k].request.conditions) && Quiet(s', k) {
      assert Quiet(s, k) && Current(w, s, s.requests[k].request, s.workers[k]);
      StagesAddUp(w, s.config, s.workers[k].cr, s.workers[k].left, s.workers[k].allowed);
    }
  }

  lemma PatchKeepsAwake(w: World, s: State, k: Key, now: int, replied: bool)
    requires Enabled(s, PatchStatus(k, now, replied)) && Awake(w, s, k)
    ensures Awake(w, Next(w, s, PatchStatus(k, now, replied)), k)
  {
    if k in s.requests {
      PatchedIsDecided(s.requests[k], ConditionFor(s.workers[k].decision, s.workers[k].cr.conditions, now, w.render));
    }
  }

  lemma StepKeepsAwake(w: World, s: State, a: Action, k: Key)
    requires Enabled(s, a) && Awake(w, s, k)
    ensures Awake(w, Next(w, s, a), k)
  {
    if ByEnvironment(a) {
      EnvironmentKeepsAwake(w, s, a, k);
    } else if a.Deliver? || a.DeliverRequest? || a.RetryDue? || a.Take? {
      QueueKeepsAwake(w, s, a, k);
    } else if a.k != k {
      SameForKeepsAwake(w, s, Next(w, s, a), k);
    } else if a.AskAccess? {
      AskKeepsAwake(w, s, k);
    } else if a.DecideRequest? {
      DecideKeepsAwake(w, s, k);
    } else if a.PatchStatus? {
      PatchKeepsAwake(w, s, k, a.now, a.replied);
    } else {
      ReadKeepsAwake(w, s, a, k);
    }
  }

  ghost predicate AllAwake(w: World, s: State) {
    forall k :: Awake(w, s, k)
  }

  lemma {:induction false} RunKeepsAwake(w: World, s: State, actions: seq<Action>)
    requires AllAwake(w, s) && Run(w, s, actions)
    ensures AllAwake(w, After(w, s, actions))
    decreases |actions|
  {
    if actions != [] {
      forall k ensures Awake(w, Next(w, s, actions[0]), k) {
        StepKeepsAwake(w, s, actions[0], k);
      }
      RunKeepsAwake(w, Next(w, s, actions[0]), actions[1..]);
    }
  }

  /** No lost wake-up: however policies, RBAC, namespaces, requests, restarts and reconciles
      interleave, an undecided request that is neither queued, nor due for retry, nor being
      reconciled, nor awaited by an event in flight, is one that a review of the present
      configuration leaves Unprocessed. */
  lemma NoLostWakeUp(w: World, s: State, actions: seq<Action>, k: Key)
    requires Init(s) && Run(w, s, actions)
    requires var t := After(w, s, actions);
             k in t.requests && !Decided(t.requests[k].request.conditions) && Quiet(t, k) && k !in t.workers
    ensures var t := After(w, s, actions);
            var r := ReviewOn(w, t.config, t.requests[k].request);
            r.Success? && r.value.Unprocessed?
  {
    forall j ensures Awake(w, s, j) {
      assert j in s.requests ==> (j, s.requests[j].request) in s.requestEvents;
    }
    RunKeepsAwake(w, s, actions);
    assert Awake(w, After(w, s, actions), k);
  }

  /** A decision about to be written is the one a review of the present configuration gives, when
      no event or retry for the key is pending.  With one pending it need not be, and once it is
      written nothing revises it: RequestExamples.StaleApprovalIsFinal. */
  lemma DecisionIsCurrent(w: World, s: State, actions: seq<Action>, k: Key)
    requires Init(s) && Run(w, s, actions)
    requires var t := After(w, s, actions);
             && k in t.requests && !Decided(t.requests[k].request.conditions) && Quiet(t, k)
             && k in t.workers && t.workers[k].Patching?
    ensures var t := After(w, s, actions);
            ReviewOn(w, t.config, t.requests[k].request) == Success(t.workers[k].decision)
  {
    forall j ensures Awake(w, s, j) {
      assert j in s.requests ==> (j, s.requests[j].request) in s.requestEvents;
    }
    RunKeepsAwake(w, s, actions);
    assert Awake(w, After(w, s, actions), k);
  }

  // ----- the handler of the watches -----

  lemma {:induction false} RunKeepsNamed(w: World, s: State, actions: seq<Action>)
    requires Named(s) && Run(w, s, actions)
    ensures Named(After(w, s, actions))
    decreases |actions|
  {
    if actions != [] {
      RunKeepsNamed(w, Next(w, s, actions[0]), actions[1..]);
    }
  }

  /** What a list of all requests returns. */
  ghost predicate ListsAll(s: State, list: seq<Request>) {
    forall cr :: cr in list <==> exists k :: k in s.requests && s.requests[k].request == cr
  }

  /** Delivering an event queues exactly the keys that enqueueRequestFromMapFunc returns. */
  lemma DeliverQueuesWhatHandlerReturns(w: World, s: State, actions: seq<Action>, kind: Kind, list: seq<Request>)
    requires Init(s) && Run(w, s, actions)
    requires var t := After(w, s, actions); Enabled(t, Deliver(kind)) && ListsAll(t, list)
    ensures var t := After(w, s, actions);
            Next(w, t, Deliver(kind)).dirty == t.dirty + set k | k in KeysOf(Filter(list, IsUndecided()))
  {
    var t := After(w, s, actions);
    RunKeepsNamed(w, s, actions);
    forall k ensures k in Undecided(t) <==> k in KeysOf(Filter(list, IsUndecided())) {
      EnqueuesExactlyUndecided(list, k);
      if k in Undecided(t) {
        assert t.requests[k].request in list;
      }
    }
  }

  // ----- a reconcile that nothing interrupts -----

  /** The next action of the worker of k. */
  function Own(s: State, k: Key, now: int): Action
    requires k in s.workers
  {
    match s.workers[k]
    case Taken => GetRequest(k)
    case Got(_) => ListPolicies(k)
    case Listed(_, _) => ReadNamespace(k)
    case Asking(_, left, allowed) => if |allowed| < |left| then AskAccess(k) else DecideRequest(k)
    case Patching(_, _) => PatchStatus(k, now, true)
  }

  function Rank(phase: Phase): nat {
    match phase
    case Taken => 4
    case Got(_) => 3
    case Listed(_, _) => 2
    case Asking(_, _, _) => 1
    case Patching(_, _) => 0
  }

  function Remaining(phase: Phase): nat {
    if phase.Asking? && |phase.allowed| <= |phase.left| then |phase.left| - |phase.allowed| else 0
  }

  lemma OwnStepAdvances(w: World, s: State, k: Key, now: int)
    requires k in s.workers && Enabled(s, Own(s, k, now))
    ensures var s' := Next(w, s, Own(s, k, now));
            k in s'.workers ==>
              || Rank(s'.workers[k]) < Rank(s.workers[k])
              || (Rank(s'.workers[k]) == Rank(s.workers[k]) && Remaining(s'.workers[k]) < Remaining(s.workers[k]))
  {
    var a := Own(s, k, now);
    match s.workers[k]
    case Taken => assert a == GetRequest(k);
    case Got(_) => assert a == ListPolicies(k);
    case Listed(_, _) => assert a == ReadNamespace(k);
    case Asking(_, left, allowed) => assert a == if |allowed| < |left| then AskAccess(k) else DecideRequest(k);
    case Patching(_, _) => assert a == PatchStatus(k, now, true);
  }

  /** The worker of k acts alone until its reconcile ends. */
  function RunAlone(w: World, s: State, k: Key, now: int): State
    decreases if k in s.workers then 1 else 0,
              if k in s.workers then Rank(s.workers[k]) else 0,
              if k in s.workers then Remaining(s.workers[k]) else 0
  {
    if k !in s.workers || !Enabled(s, Own(s, k, now)) then s
    else
      OwnStepAdvances(w, s, k, now);
      RunAlone(w, Next(w, s, Own(s, k, now)), k, now)
  }

  function Ending(w: World, s: State, k: Key, outcome: Outcome): State {
    match outcome
    case Done => Finish(s, k, false)
    case Retry(_) => Finish(s, k, true)
    case Patch(c) =>
      if k in s.requests then Finish(Put(s, k, Apply(s.requests[k], c)), k, false) else Finish(s, k, true)
  }

  /** From the decision to the end. */
  lemma AloneDecides(w: World, s: State, k: Key, now: int)
    requires k in s.workers && s.workers[k].Asking? && |s.workers[k].allowed| == |s.workers[k].left|
    ensures var ph := s.workers[k];
            var decided := Decide(w.evaluators, ph.cr, Bound(ph.left, ph.allowed));
            RunAlone(w, s, k, now) == Ending(w, s, k, OutcomeFrom(decided, ph.cr, now, w.render))
  {
    var s' := Next(w, s, DecideRequest(k));
    if k in s'.workers {
      var s'' := Next(w, s', PatchStatus(k, now, true));
      assert k !in s''.workers && RunAlone(w, s'', k, now) == s'';
      assert RunAlone(w, s', k, now) == s'';
      assert s'.workers - {k} == s.workers - {k};
    }
  }

  lemma {:induction false} AloneAsks(w: World, s: State, k: Key, now: int)
    requires k in s.workers && s.workers[k].Asking? && k in s.requests
    requires s.config.policies != [] && Current(w, s, s.requests[k].request, s.workers[k])
    ensures var cr := s.requests[k].request;
            RunAlone(w, s, k, now) == Ending(w, s, k, OutcomeFrom(ReviewOn(w, s.config, cr), cr, now, w.render))
    decreases Remaining(s.workers[k])
  {
    var ph := s.workers[k];
    if |ph.allowed| == |ph.left| {
      AloneDecides(w, s, k, now);
      StagesAddUp(w, s.config, ph.cr, ph.left, ph.allowed);
    } else {
      var s' := Next(w, s, AskAccess(k));
      AloneAsks(w, s', k, now);
      GotoEnds(w, s, k, s'.workers[k], OutcomeFrom(ReviewOn(w, s.config, ph.cr), ph.cr, now, w.render));
    }
  }

  /** How a reconcile ends does not depend on the phase it passes through. */
  lemma GotoEnds(w: World, s: State, k: Key, phase: Phase, outcome: Outcome)
    ensures Ending(w, Goto(s, k, phase), k, outcome) == Ending(w, s, k, outcome)
  {
    assert s.workers[k := phase] - {k} == s.workers - {k};
  }

  lemma AloneSelects(w: World, s: State, k: Key, now: int)
    requires k in s.workers && s.workers[k].Listed? && k in s.requests
    requires Current(w, s, s.requests[k].request, s.workers[k])
    ensures var cr := s.requests[k].request;
            RunAlone(w, s, k, now) == Ending(w, s, k, OutcomeFrom(ReviewOn(w, s.config, cr), cr, now, w.render))
  {
    var cr := s.requests[k].request;
    var s' := Next(w, s, ReadNamespace(k));
    ChainUnfolds(AnswersOf(w, s.config), cr, s.config.policies);
    if k in s'.workers {
      AloneAsks(w, s', k, now);
      GotoEnds(w, s, k, s'.workers[k], OutcomeFrom(ReviewOn(w, s.config, cr), cr, now, w.render));
    }
  }

  lemma AloneLists(w: World, s: State, k: Key, now: int)
    requires k in s.workers && k in s.requests && s.workers[k] == Got(s.requests[k].request)
    ensures var cr := s.requests[k].request;
            RunAlone(w, s, k, now) == Ending(w, s, k, OutcomeFrom(ReviewOn(w, s.config, cr), cr, now, w.render))
  {
    var cr := s.requests[k].request;
    var s' := Next(w, s, ListPolicies(k));
    if k in s'.workers {
      AloneSelects(w, s', k, now);
      GotoEnds(w, s, k, s'.workers[k], OutcomeFrom(ReviewOn(w, s.config, cr), cr, now, w.render));
    }
  }

  /** A reconcile that nothing interrupts ends as reconcileStatusPatch says, with the review of
      the configuration it ran on. */
  lemma UndisturbedReconcile(w: World, s: State, k: Key, now: int)
    requires k in s.workers && s.workers[k].Taken?
    ensures var got := Success(if k in s.requests then Some(s.requests[k].request) else None);
            RunAlone(w, s, k, now) ==
            Ending(w, s, k, OutcomeOf(got, cr => ReviewOn(w, s.config, cr), now, w.render))
  {
    var s' := Next(w, s, GetRequest(k));
    if k in s'.workers {
      var cr := s.requests[k].request;
      AloneLists(w, s', k, now);
      GotoEnds(w, s, k, s'.workers[k], OutcomeFrom(ReviewOn(w, s.config, cr), cr, now, w.render));
    }
  }
}
