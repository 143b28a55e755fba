/** The Ready condition of one policy over whole sequences of reconciles
    (pkg/internal/controllers/certificaterequestpolicies.go:167-306).  Reads reflect earlier
    patches; an apply patch replaces the one condition the approver owns, keyed by type. */
module PolicyRuns {
  import opened Api
  import opened Lists
  import opened PolicyController

  /** A reconcile: the clock, the policy's generation, what the reconcilers answer, and whether
      the API server took the patch. */
  datatype Reconcile = Reconcile(now: int, generation: int, responses: seq<Result<ReadyResponse>>, applied: bool)

  /** The reconcile patched the status. */
  predicate Patches(e: Reconcile) {
    e.applied && Summarise(e.responses).Success?
  }

  function StatusOf(e: Reconcile): string
    requires Patches(e)
  {
    if Summarise(e.responses).value.ready then CONDITION_TRUE else CONDITION_FALSE
  }

  const IS_NOT_READY: PolicyCondition -> bool := (c: PolicyCondition) => c.typ != READY

  function Apply(conditions: seq<PolicyCondition>, c: PolicyCondition): seq<PolicyCondition> {
    Filter(conditions, IS_NOT_READY) + [c]
  }

  function Step(conditions: seq<PolicyCondition>, e: Reconcile, render: Render): seq<PolicyCondition> {
    if !Patches(e) then conditions
    else Apply(conditions, Stamped(e.now, conditions, e.generation, ConditionOf(Summarise(e.responses).value, render)))
  }

  function After(init: seq<PolicyCondition>, events: seq<Reconcile>, render: Render): seq<PolicyCondition> {
    if events == [] then init
    else Step(After(init, events[..|events| - 1], render), events[|events| - 1], render)
  }

  // ----- the Ready condition -----

  /** c is the one Ready condition. */
  ghost predicate IsReadyCondition(conditions: seq<PolicyCondition>, c: PolicyCondition) {
    c.typ == READY && c in conditions && forall d :: d in conditions && d.typ == READY ==> d == c
  }

  ghost predicate NoReadyCondition(conditions: seq<PolicyCondition>) {
    forall d :: d in conditions ==> d.typ != READY
  }

  lemma ApplyIs(conditions: seq<PolicyCondition>, c: PolicyCondition)
    requires c.typ == READY
    ensures IsReadyCondition(Apply(conditions, c), c)
  {
    forall d | d in Apply(conditions, c) && d.typ == READY ensures d == c {
      FilterIn(conditions, IS_NOT_READY, d);
    }
    assert Apply(conditions, c)[|Filter(conditions, IS_NOT_READY)|] == c;
  }

  lemma {:induction false} TransitionTimeOfReady(now: int, conditions: seq<PolicyCondition>, c: PolicyCondition,
                                                 status: string)
    requires IsReadyCondition(conditions, c)
    ensures TransitionTime(Some(now), conditions, READY, status) ==
            if c.status == status then c.lastTransitionTime else Some(now)
  {
    var front, last := conditions[..|conditions| - 1], conditions[|conditions| - 1];
    assert last in conditions;
    forall d ensures d in conditions <==> d in front || d == last { InFrontOrLast(conditions, d); }
    if c in front {
      TransitionTimeOfReady(now, front, c, status);
    } else {
      TransitionTimeWithoutReady(now, front, status);
    }
  }

  lemma {:induction false} TransitionTimeWithoutReady(now: int, conditions: seq<PolicyCondition>, status: string)
    requires NoReadyCondition(conditions)
    ensures TransitionTime(Some(now), conditions, READY, status) == Some(now)
  {
    if conditions != [] {
      assert conditions[|conditions| - 1] in conditions;
      TransitionTimeWithoutReady(now, conditions[..|conditions| - 1], status);
    }
  }

  // ----- the last patched reconcile, and the stretch it ends -----

  ghost predicate LastPatch(events: seq<Reconcile>, j: nat) {
    && j < |events| && Patches(events[j])
    && forall i :: j < i < |events| ==> !Patches(events[i])
  }

  /** i is the first patched reconcile of the unbroken stretch of one status that j ends: all that
      patched in between agree with j, and the patched one before i, if any, does not. */
  ghost predicate Stretch(events: seq<Reconcile>, i: nat, j: nat) {
    && i <= j < |events| && Patches(events[i]) && Patches(events[j])
    && (forall k :: i <= k <= j && Patches(events[k]) ==> StatusOf(events[k]) == StatusOf(events[j]))
    && (forall h: nat :: LastPatch(events[..i], h) ==> StatusOf(events[h]) != StatusOf(events[j]))
  }

  lemma {:induction false} SomeLastPatch(events: seq<Reconcile>) returns (h: nat)
    requires exists i :: 0 <= i < |events| && Patches(events[i])
    ensures LastPatch(events, h)
  {
    var n := |events| - 1;
    if Patches(events[n]) {
      h := n;
    } else {
      var i :| 0 <= i < |events| && Patches(events[i]);
      assert events[..n][i] == events[i];
      h := SomeLastPatch(events[..n]);
    }
  }

  lemma OneLastPatch(events: seq<Reconcile>, g: nat, h: nat)
    requires LastPatch(events, g) && LastPatch(events, h)
    ensures g == h
  {
    assert Patches(events[g]) && Patches(events[h]);
  }

  /** Every patched reconcile ends a stretch: one that reaches back at least to i, if the status
      has not changed since. */
  lemma {:induction false} StretchExists(events: seq<Reconcile>, i: nat, j: nat) returns (start: nat)
    requires i <= j < |events| && Patches(events[i]) && Patches(events[j])
    requires forall k :: i <= k <= j && Patches(events[k]) ==> StatusOf(events[k]) == StatusOf(events[j])
    ensures Stretch(events, start, j)
  {
    var front := events[..i];
    start := i;
    if exists h :: 0 <= h < |front| && Patches(front[h]) {
      var h := SomeLastPatch(front);
      assert front[h] == events[h];
      if StatusOf(events[h]) == StatusOf(events[j]) {
        forall k | h <= k <= j && Patches(events[k]) ensures StatusOf(events[k]) == StatusOf(events[j]) {
          if k < i { assert front[k] == events[k]; }
        }
        start := StretchExists(events, h, j);
      } else {
        forall g: nat | LastPatch(front, g) ensures StatusOf(events[g]) != StatusOf(events[j]) {
          OneLastPatch(front, g, h);
        }
      }
    }
  }

  lemma {:induction false} NoPatchNoChange(init: seq<PolicyCondition>, events: seq<Reconcile>, render: Render)
    requires forall i :: 0 <= i < |events| ==> !Patches(events[i])
    ensures After(init, events, render) == init
  {
    if events != [] {
      NoPatchNoChange(init, events[..|events| - 1], render);
    }
  }

  /** The Ready condition has the status and the generation of the last patched reconcile. */
  lemma {:induction false} ReadyFollowsLastPatch(init: seq<PolicyCondition>, events: seq<Reconcile>, render: Render,
                                                 j: nat)
    returns (c: PolicyCondition)
    requires LastPatch(events, j)
    ensures IsReadyCondition(After(init, events, render), c)
    ensures c.status == StatusOf(events[j]) && c.observedGeneration == events[j].generation
  {
    var n := |events| - 1;
    if j < n {
      assert LastPatch(events[..n], j);
      c := ReadyFollowsLastPatch(init, events[..n], render, j);
    } else {
      var before := After(init, events[..n], render);
      c := Stamped(events[n].now, before, events[n].generation,
        ConditionOf(Summarise(events[n].responses).value, render));
      ApplyIs(before, c);
    }
  }

  /** What the transition time must be: the clock at the first reconcile of the stretch, or, when
      the stretch continues the status that the policy started with, the time it started with. */
  ghost predicate IsTransitionTime(t: Option<int>, init: seq<PolicyCondition>, events: seq<Reconcile>, i: nat)
    requires i < |events| && Patches(events[i])
  {
    if (exists h :: 0 <= h < i && Patches(events[h])) || NoReadyCondition(init) then t == Some(events[i].now)
    else exists c :: c in init && c.typ == READY &&
                     t == if c.status == StatusOf(events[i]) then c.lastTransitionTime else Some(events[i].now)
  }

  ghost predicate AtMostOneReady(conditions: seq<PolicyCondition>) {
    forall c, d :: c in conditions && d in conditions && c.typ == READY && d.typ == READY ==> c == d
  }

  /** After any sequence of reconciles, the transition time of Ready is the clock at the first
      reconcile of the current unbroken stretch of its status. */
  lemma {:induction false} ReadyTransitionTime(init: seq<PolicyCondition>, events: seq<Reconcile>, render: Render,
                                               i: nat, j: nat)
    returns (c: PolicyCondition)
    requires AtMostOneReady(init) && Stretch(events, i, j) && LastPatch(events, j)
    ensures IsReadyCondition(After(init, events, render), c)
    ensures c.status == StatusOf(events[j]) && c.observedGeneration == events[j].generation
    ensures IsTransitionTime(c.lastTransitionTime, init, events, i)
    decreases |events|
  {
    c := ReadyFollowsLastPatch(init, events, render, j);
    var n := |events| - 1;
    var front := events[..n];
    if j < n {
      assert front[..i] == events[..i];
      assert Stretch(front, i, j) && LastPatch(front, j);
      var d := ReadyTransitionTime(init, front, render, i, j);
      assert forall h :: 0 <= h < i ==> front[h] == events[h];
    } else if i < j {
      assert front[i] == events[i];
      var h := SomeLastPatch(front);
      StretchShortens(events, i, h);
      var d := ReadyTransitionTime(init, front, render, i, h);
      TransitionTimeOfReady(events[n].now, After(init, front, render), d, StatusOf(events[n]));
      assert forall k :: 0 <= k < i ==> front[k] == events[k];
    } else {
      StretchBegins(init, events, render, c);
    }
  }

  lemma StretchShortens(events: seq<Reconcile>, i: nat, h: nat)
    requires |events| > 0 && i < |events| - 1 && Stretch(events, i, |events| - 1)
    requires LastPatch(events[..|events| - 1], h)
    ensures i <= h && Stretch(events[..|events| - 1], i, h) && StatusOf(events[h]) == StatusOf(events[|events| - 1])
  {
    var front := events[..|events| - 1];
    assert front[i] == events[i] && front[h] == events[h] && front[..i] == events[..i];
    assert i <= h;
    forall k | i <= k <= h && Patches(front[k]) ensures StatusOf(front[k]) == StatusOf(front[h]) {
      assert front[k] == events[k];
    }
  }

  /** The last reconcile begins a stretch: the status before it, if any, is another one. */
  lemma StretchBegins(init: seq<PolicyCondition>, events: seq<Reconcile>, render: Render, c: PolicyCondition)
    requires |events| > 0 && AtMostOneReady(init)
    requires Stretch(events, |events| - 1, |events| - 1)
    requires IsReadyCondition(After(init, events, render), c)
    ensures IsTransitionTime(c.lastTransitionTime, init, events, |events| - 1)
  {
    var n := |events| - 1;
    var front, last := events[..n], events[n];
    var before := After(init, front, render);
    var stamped := Stamped(last.now, before, last.generation, ConditionOf(Summarise(last.responses).value, render));
    ApplyIs(before, stamped);
    assert c == stamped;
    if exists h :: 0 <= h < n && Patches(events[h]) {
      var k :| 0 <= k < n && Patches(events[k]);
      assert front[k] == events[k];
      var h := SomeLastPatch(front);
      var d := ReadyFollowsLastPatch(init, front, render, h);
      assert front[h] == events[h];
      TransitionTimeOfReady(last.now, before, d, StatusOf(last));
    } else {
      NoPatchNoChange(init, front, render);
      if NoReadyCondition(init) {
        TransitionTimeWithoutReady(last.now, init, StatusOf(last));
      } else {
        var d :| d in init && d.typ == READY;
        TransitionTimeOfReady(last.now, init, d, StatusOf(last));
      }
    }
  }

  /** Whatever is reconciled, conditions of other types stay as they were. */
  lemma {:induction false} OthersStay(init: seq<PolicyCondition>, events: seq<Reconcile>, render: Render,
                                      d: PolicyCondition)
    requires d.typ != "Ready"
    ensures d in After(init, events, render) <==> d in init
  {
    if events != [] {
      var before := After(init, events[..|events| - 1], render);
      OthersStay(init, events[..|events| - 1], render, d);
      FilterIn(before, IS_NOT_READY, d);
    }
  }

  // ----- repeating a reconcile -----

  lemma {:induction false} FilterAllKept<T>(s: seq<T>, keep: T -> bool)
    requires forall t :: t in s ==> keep(t)
    ensures Filter(s, keep) == s
  {
    if s != [] {
      assert s[|s| - 1] in s;
      FilterAllKept(s[..|s| - 1], keep);
    }
  }

  /** Repeating a patched reconcile with the same responses and generation, at any later time,
      leaves the status unchanged. */
  lemma RepeatedReconcileChangesNothing(conditions: seq<PolicyCondition>, e: Reconcile, e': Reconcile, render: Render)
    requires Patches(e) && e'.generation == e.generation && e'.responses == e.responses
    ensures Step(Step(conditions, e, render), e', render) == Step(conditions, e, render)
  {
    var c := Stamped(e.now, conditions, e.generation, ConditionOf(Summarise(e.responses).value, render));
    var once := Apply(conditions, c);
    var others := Filter(conditions, IS_NOT_READY);
    ApplyIs(conditions, c);
    TransitionTimeOfReady(e'.now, once, c, c.status);
    forall d | d in others ensures IS_NOT_READY(d) { FilterIn(conditions, IS_NOT_READY, d); }
    FilterAllKept(others, IS_NOT_READY);
    assert once[..|once| - 1] == others;
  }
}
