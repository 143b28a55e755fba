/** Decisions are final: what whole runs of the certificaterequests controller do to the Approved
    and Denied conditions of a request (pkg/internal/controllers/certificaterequests.go:177-307). */
module RequestDecisions {
  import opened Api
  import opened Lists
  import opened Review
  import opened RequestController
  import opened RequestRuns

  // ----- what a patch writes -----

  /** An applied patch leaves its condition, and every other one that is neither of its type nor
      owned by the approver. */
  lemma AppliedConditions(o: Object, c: RequestCondition, d: RequestCondition)
    ensures d in Apply(o, c).request.conditions <==>
            d == c || (d in o.request.conditions && d.typ != c.typ && d.typ !in o.owned)
  {
    FilterIn(o.request.conditions, Keeps(o, c), d);
    var conditions := Apply(o, c).request.conditions;
    InFrontOrLast(conditions, d);
    assert conditions[..|conditions| - 1] == Filter(o.request.conditions, Keeps(o, c));
  }

  /** The request that a worker has read. */
  predicate ReadUndecided(phase: Phase) {
    phase.Taken? || !Decided(phase.cr.conditions)
  }

  lemma {:induction false} RunReadsUndecided(w: World, s: State, actions: seq<Action>, k: Key)
    requires Run(w, s, actions) && (k in s.workers ==> ReadUndecided(s.workers[k]))
    ensures var t := After(w, s, actions); k in t.workers ==> ReadUndecided(t.workers[k])
    decreases |actions|
  {
    if actions != [] {
      RunReadsUndecided(w, Next(w, s, actions[0]), actions[1..], k);
    }
  }

  /** In every run, a patch that reaches a request leaves it with the decision: its kind, its
      message, and the time of the patch; every other condition stays unless the approver owns it. */
  lemma PatchWritesDecision(w: World, s: State, actions: seq<Action>, k: Key, now: int, replied: bool)
    requires Init(s) && Run(w, s, actions)
    requires var t := After(w, s, actions); Enabled(t, PatchStatus(k, now, replied)) && k in t.requests
    ensures var t := After(w, s, actions);
            var decision := t.workers[k].decision;
            var written := RequestCondition(
              typ := if decision.Approved? then "Approved" else "Denied", status := "True",
              lastTransitionTime := Some(now), reason := "policy.cert-manager.io", message := w.render(decision));
            var t' := Next(w, t, PatchStatus(k, now, replied));
            && k in t'.requests
            && t'.requests[k].patches == t.requests[k].patches + 1
            && forall d :: d in t'.requests[k].request.conditions <==>
                 || d == written
                 || (d in t.requests[k].request.conditions && d.typ != written.typ && d.typ !in t.requests[k].owned)
  {
    RunReadsUndecided(w, s, actions, k);
    var t := After(w, s, actions);
    var ph := t.workers[k];
    var typ := if ph.decision.Approved? then APPROVED else DENIED;
    TransitionTimeIs(now, ph.cr.conditions, typ, CONDITION_TRUE);
    var c := ConditionFor(ph.decision, ph.cr.conditions, now, w.render);
    forall d ensures d in Apply(t.requests[k], c).request.conditions <==>
        d == c || (d in t.requests[k].request.conditions && d.typ != c.typ && d.typ !in t.requests[k].owned)
    {
      AppliedConditions(t.requests[k], c, d);
    }
  }

  // ----- how often a request is patched -----

  /** The environment makes a decided request undecided again. */
  predicate TakesBack(s: State, a: Action, k: Key) {
    && a.PutRequest? && a.k == k && k in s.requests
    && Decided(s.requests[k].request.conditions) && !Decided(a.cr.conditions)
  }

  ghost function TakenBack(w: World, s: State, actions: seq<Action>, k: Key): nat
    requires Run(w, s, actions)
    decreases |actions|
  {
    if actions == [] then 0
    else (if TakesBack(s, actions[0], k) then 1 else 0) + TakenBack(w, Next(w, s, actions[0]), actions[1..], k)
  }

  /** The worker has read an undecided request and may still patch it. */
  predicate Underway(s: State, k: Key) {
    k in s.workers && !s.workers[k].Taken?
  }

  /** `taken` decisions were taken back so far: only a decided request may be one patch ahead. */
  predicate PatchesBounded(s: State, k: Key, taken: nat) {
    k in s.requests ==>
      var o := s.requests[k];
      && o.patches <= taken + 1
      && (!Decided(o.request.conditions) || Underway(s, k) ==> o.patches <= taken)
  }

  lemma StepKeepsBound(w: World, s: State, a: Action, k: Key, taken: nat)
    requires Enabled(s, a) && PatchesBounded(s, k, taken)
    ensures PatchesBounded(Next(w, s, a), k, taken + if TakesBack(s, a, k) then 1 else 0)
  {
    if a.PatchStatus? && a.k == k && k in s.requests {
      PatchedIsDecided(s.requests[k], ConditionFor(s.workers[k].decision, s.workers[k].cr.conditions, a.now, w.render));
    }
  }

  lemma {:induction false} RunKeepsBound(w: World, s: State, actions: seq<Action>, k: Key, taken: nat)
    requires Run(w, s, actions) && PatchesBounded(s, k, taken)
    ensures PatchesBounded(After(w, s, actions), k, taken + TakenBack(w, s, actions, k))
    decreases |actions|
  {
    if actions != [] {
      var more := if TakesBack(s, actions[0], k) then 1 else 0;
      StepKeepsBound(w, s, actions[0], k, taken);
      RunKeepsBound(w, Next(w, s, actions[0]), actions[1..], k, taken + more);
    }
  }

  /** In every run a request receives at most one status patch more than decisions on it are taken
      back by others, and while it is ahead it is decided.  So where nobody takes back a decision
      there is at most one patch, and a patched request stays decided. */
  lemma AtMostOnePatch(w: World, s: State, actions: seq<Action>, k: Key)
    requires Init(s) && Run(w, s, actions)
    requires k in After(w, s, actions).requests
    ensures var o := After(w, s, actions).requests[k];
            && o.patches <= 1 + TakenBack(w, s, actions, k)
            && (o.patches > TakenBack(w, s, actions, k) ==> Decided(o.request.conditions))
  {
    RunKeepsBound(w, s, actions, k, 0);
  }

  lemma {:induction false} TakenBackAddsUp(w: World, s: State, first: seq<Action>, rest: seq<Action>, k: Key)
    requires Run(w, s, first) && Run(w, After(w, s, first), rest)
    ensures Run(w, s, first + rest) && After(w, s, first + rest) == After(w, After(w, s, first), rest)
    ensures TakenBack(w, s, first + rest, k) == TakenBack(w, s, first, k) + TakenBack(w, After(w, s, first), rest, k)
    decreases |first|
  {
    if first == [] {
      assert first + rest == rest;
    } else {
      assert (first + rest)[1..] == first[1..] + rest;
      TakenBackAddsUp(w, Next(w, s, first[0]), first[1..], rest, k);
    }
  }

  // ----- decisions stand -----

  predicate Touches(a: Action, k: Key) {
    (a.PutRequest? || a.DeleteRequest?) && a.k == k
  }

  /** The controller never changes a decided request again, whatever the cluster changes to. */
  lemma {:induction false} DecisionStands(w: World, s: State, actions: seq<Action>, k: Key)
    requires Run(w, s, actions) && forall a :: a in actions ==> !Touches(a, k)
    requires k in s.requests && Decided(s.requests[k].request.conditions) && !Underway(s, k)
    ensures k in After(w, s, actions).requests && After(w, s, actions).requests[k] == s.requests[k]
    decreases |actions|
  {
    if actions != [] {
      assert actions[0] in actions;
      var s' := Next(w, s, actions[0]);
      assert k in s'.requests && s'.requests[k] == s.requests[k] && !Underway(s', k);
      DecisionStands(w, s', actions[1..], k);
    }
  }

  // ----- never both -----

  predicate HoldsBoth(conditions: seq<RequestCondition>) {
    HasTrue(conditions, APPROVED) && HasTrue(conditions, DENIED)
  }

  predicate SameDecision(conditions: seq<RequestCondition>, conditions': seq<RequestCondition>) {
    && (HasTrue(conditions, APPROVED) <==> HasTrue(conditions', APPROVED))
    && (HasTrue(conditions, DENIED) <==> HasTrue(conditions', DENIED))
  }

  /** This controller is the only approver: others leave both conditions as they are, and do not
      create a decided request under the name of one whose reconcile is underway. */
  predicate OnlyApprover(s: State, a: Action) {
    a.PutRequest? ==>
      if a.k in s.requests then SameDecision(s.requests[a.k].request.conditions, a.cr.conditions)
      else Underway(s, a.k) ==> !Decided(a.cr.conditions)
  }

  ghost predicate AllOnlyApprover(w: World, s: State, actions: seq<Action>)
    requires Run(w, s, actions)
    decreases |actions|
  {
    actions == [] || (OnlyApprover(s, actions[0]) && AllOnlyApprover(w, Next(w, s, actions[0]), actions[1..]))
  }

  predicate NotBothUnlessBorn(s: State, k: Key) {
    k in s.requests ==>
      var o := s.requests[k];
      && (HoldsBoth(o.request.conditions) ==> HoldsBoth(o.born))
      && (Underway(s, k) ==> !Decided(o.request.conditions))
  }

  lemma ApplyKeepsOther(o: Object, c: RequestCondition, typ: string)
    requires typ != c.typ
    ensures HasTrue(Apply(o, c).request.conditions, typ) <==> HasTrue(o.request.conditions, typ) && typ !in o.owned
  {
    var before, after := o.request.conditions, Apply(o, c).request.conditions;
    var kept := Filter(before, Keeps(o, c));
    if HasTrue(after, typ) {
      var i :| 0 <= i < |after| && after[i].typ == typ && after[i].status == CONDITION_TRUE;
      assert after[i] == kept[i];
      FilterIn(before, Keeps(o, c), kept[i]);
      var j :| 0 <= j < |before| && before[j] == kept[i];
    }
    if HasTrue(before, typ) && typ !in o.owned {
      var i :| 0 <= i < |before| && before[i].typ == typ && before[i].status == CONDITION_TRUE;
      FilterIn(before, Keeps(o, c), before[i]);
      var j :| 0 <= j < |kept| && kept[j] == before[i];
      assert after[j] == before[i];
    }
  }

  function Opposite(typ: string): string {
    if typ == APPROVED then DENIED else APPROVED
  }

  /** A patch leaves a request with both conditions exactly when the opposite decision is there
      and is not one that the patch replaces. */
  lemma PatchMakesBothIff(o: Object, c: RequestCondition)
    requires c.status == CONDITION_TRUE && (c.typ == APPROVED || c.typ == DENIED)
    ensures HoldsBoth(Apply(o, c).request.conditions) <==>
            HasTrue(o.request.conditions, Opposite(c.typ)) && Opposite(c.typ) !in o.owned
  {
    PatchedIsDecided(o, c);
    ApplyKeepsOther(o, c, Opposite(c.typ));
  }

  predicate BothAt(s: State, k: Key) {
    k in s.requests && HoldsBoth(s.requests[k].request.conditions)
  }

  /** The type of the decision that the worker of k is about to write. */
  function Deciding(s: State, k: Key): string
    requires k in s.workers && s.workers[k].Patching?
  {
    if s.workers[k].decision.Approved? then APPROVED else DENIED
  }

  /** The step writes both decisions from outside, or is a patch that meets the opposite one,
      written by somebody else. */
  predicate MakesBoth(s: State, a: Action, k: Key)
    requires Enabled(s, a)
  {
    || (a.PutRequest? && a.k == k && HoldsBoth(a.cr.conditions))
    || (a.PatchStatus? && a.k == k && k in s.requests
        && HasTrue(s.requests[k].request.conditions, Opposite(Deciding(s, k)))
        && Opposite(Deciding(s, k)) !in s.requests[k].owned)
  }

  /** These are exactly the steps that give a request both decisions. */
  lemma StepMakesBothIff(w: World, s: State, a: Action, k: Key)
    requires Enabled(s, a) && !BothAt(s, k)
    ensures BothAt(Next(w, s, a), k) <==> MakesBoth(s, a, k)
  {
    if a.PatchStatus? && a.k == k && k in s.requests {
      var c := ConditionFor(s.workers[k].decision, s.workers[k].cr.conditions, a.now, w.render);
      PatchMakesBothIff(s.requests[k], c);
    }
  }

  ghost predicate SomeStepMakesBoth(w: World, s: State, actions: seq<Action>, k: Key)
    requires Run(w, s, actions)
    decreases |actions|
  {
    && actions != []
    && (MakesBoth(s, actions[0], k) || SomeStepMakesBoth(w, Next(w, s, actions[0]), actions[1..], k))
  }

  /** So in every run, a request that holds both held both at the start or went through such a step. */
  lemma {:induction false} BothHasACause(w: World, s: State, actions: seq<Action>, k: Key)
    requires Run(w, s, actions) && BothAt(After(w, s, actions), k)
    ensures BothAt(s, k) || SomeStepMakesBoth(w, s, actions, k)
    decreases |actions|
  {
    if actions != [] && !BothAt(s, k) {
      StepMakesBothIff(w, s, actions[0], k);
      BothHasACause(w, Next(w, s, actions[0]), actions[1..], k);
    }
  }

  lemma StepKeepsNotBoth(w: World, s: State, a: Action, k: Key)
    requires Enabled(s, a) && OnlyApprover(s, a) && NotBothUnlessBorn(s, k)
    ensures NotBothUnlessBorn(Next(w, s, a), k)
  {
    if a.PatchStatus? && a.k == k && k in s.requests {
      var c := ConditionFor(s.workers[k].decision, s.workers[k].cr.conditions, a.now, w.render);
      ApplyKeepsOther(s.requests[k], c, if c.typ == APPROVED then DENIED else APPROVED);
    }
  }

  lemma {:induction false} RunKeepsNotBoth(w: World, s: State, actions: seq<Action>, k: Key)
    requires Run(w, s, actions) && AllOnlyApprover(w, s, actions) && NotBothUnlessBorn(s, k)
    ensures NotBothUnlessBorn(After(w, s, actions), k)
    decreases |actions|
  {
    if actions != [] {
      StepKeepsNotBoth(w, s, actions[0], k);
      RunKeepsNotBoth(w, Next(w, s, actions[0]), actions[1..], k);
    }
  }

  /** In every run in which this controller is the only approver, no request holds both Approved
      and Denied unless it was created so. */
  lemma NeverBoth(w: World, s: State, actions: seq<Action>, k: Key)
    requires Init(s) && Run(w, s, actions) && AllOnlyApprover(w, s, actions)
    requires k in After(w, s, actions).requests
    ensures var o := After(w, s, actions).requests[k];
            HoldsBoth(o.request.conditions) ==> HoldsBoth(o.born)
  {
    RunKeepsNotBoth(w, s, actions, k);
  }
}
