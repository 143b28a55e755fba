/** The certificaterequests controller (pkg/internal/controllers/certificaterequests.go): its watch
    functions, one reconcile, and the status condition it writes. */
module RequestController {
  import opened Api
  import opened Lists
  import opened Review

  datatype Key = Key(namespace: string, name: string)

  const REASON := "policy.cert-manager.io"

  // ----- enqueueing -----

  function IsUndecided(): Request -> bool {
    (cr: Request) => !Decided(cr.conditions)
  }

  function KeysOf(crs: seq<Request>): seq<Key> {
    if crs == [] then []
    else KeysOf(crs[..|crs| - 1]) + [Key(crs[|crs| - 1].namespace, crs[|crs| - 1].name)]
  }

  lemma {:induction false} KeysAre(crs: seq<Request>)
    ensures |KeysOf(crs)| == |crs|
    ensures forall i :: 0 <= i < |crs| ==> KeysOf(crs)[i] == Key(namespace := crs[i].namespace, name := crs[i].name)
  {
    if crs != [] { KeysAre(crs[..|crs| - 1]); }
  }

  /** enqueueRequestFromMapFunc: every request in the list that is neither approved nor denied. */
  method EnqueueRequests(list: seq<Request>) returns (requests: seq<Key>)
    ensures requests == KeysOf(Filter(list, IsUndecided()))
    ensures |requests| == |Filter(list, IsUndecided())|
    ensures forall i :: 0 <= i < |requests| ==>
              var cr := Filter(list, IsUndecided())[i]; requests[i] == Key(namespace := cr.namespace, name := cr.name)
  {
    requests := [];
    for i := 0 to |list|
      invariant requests == KeysOf(Filter(list[..i], IsUndecided()))
    {
      assert list[..i + 1][..i] == list[..i];
      var kept := Filter(list[..i], IsUndecided());
      assert (kept + [list[i]])[..|kept|] == kept;
      if Decided(list[i].conditions) {
        continue;
      }
      requests := requests + [Key(list[i].namespace, list[i].name)];
    }
    assert list[..|list|] == list;
    KeysAre(Filter(list, IsUndecided()));
  }

  lemma {:induction false} EnqueuesExactlyUndecided(list: seq<Request>, k: Key)
    ensures k in KeysOf(Filter(list, IsUndecided())) <==>
            exists cr :: cr in list && !Decided(cr.conditions) && k == Key(cr.namespace, cr.name)
  {
    if list != [] {
      var front, last := list[..|list| - 1], list[|list| - 1];
      EnqueuesExactlyUndecided(front, k);
      var kept := Filter(front, IsUndecided());
      assert (kept + [last])[..|kept|] == kept;
      forall cr ensures cr in list <==> cr in front || cr == last {
        InFrontOrLast(list, cr);
      }
    }
  }

  // ----- the condition a patch carries -----

  /** The last existing condition of the type decides whether the transition time is kept. */
  function TransitionTime(now: int, existing: seq<RequestCondition>, typ: string, status: string): Option<int> {
    if existing == [] then Some(now)
    else
      var last := existing[|existing| - 1];
      if last.typ == typ && last.status == status then last.lastTransitionTime
      else TransitionTime(now, existing[..|existing| - 1], typ, status)
  }

  /** Overwrite the first condition of the type, or append. */
  function Upsert(conditions: seq<RequestCondition>, c: RequestCondition): seq<RequestCondition> {
    var i := IndexOf(conditions, REQUEST_TYPE, c.typ);
    if i < |conditions| then conditions[i := c] else conditions + [c]
  }

  /** The patch holds the new condition as the one of its type, and every other condition as before. */
  lemma UpsertIs(conditions: seq<RequestCondition>, c: RequestCondition)
    requires DistinctKeys(conditions, REQUEST_TYPE)
    ensures DistinctKeys(Upsert(conditions, c), REQUEST_TYPE) && c in Upsert(conditions, c)
    ensures forall d: RequestCondition :: d.typ != c.typ ==> (d in Upsert(conditions, c) <==> d in conditions)
  {
    var i, after := IndexOf(conditions, REQUEST_TYPE, c.typ), Upsert(conditions, c);
    assert after[i] == c;
    forall d: RequestCondition | d.typ != c.typ ensures d in after <==> d in conditions {
      if d in conditions {
        var j :| 0 <= j < |conditions| && conditions[j] == d;
        assert after[j] == d;
      }
    }
  }

  /** The status under construction, which the source passes by pointer. */
  class StatusPatch {
    var conditions: seq<RequestCondition>

    constructor ()
      ensures conditions == []
    {
      conditions := [];
    }

    /** setCertificateRequestStatusCondition. */
    method SetCondition(now: int, existing: seq<RequestCondition>, typ: string, status: string, reason: string,
                        message: string)
      modifies this
      ensures conditions == Upsert(old(conditions),
                RequestCondition(typ, status, TransitionTime(now, existing, typ, status), reason, message))
    {
      var newCondition := RequestCondition(typ, status, Some(now), reason, message);
      for i := 0 to |existing|
        invariant newCondition ==
                  RequestCondition(typ, status, TransitionTime(now, existing[..i], typ, status), reason, message)
      {
        assert existing[..i + 1][..i] == existing[..i];
        if existing[i].typ != typ {
          continue;
        }
        if existing[i].status == status {
          newCondition := newCondition.(lastTransitionTime := existing[i].lastTransitionTime);
        }
      }
      assert existing[..|existing|] == existing;
      for idx := 0 to |conditions|
        invariant conditions == old(conditions)
        invariant forall j :: 0 <= j < idx ==> conditions[j].typ != typ
      {
        if conditions[idx].typ != typ {
          continue;
        }
        conditions := conditions[idx := newCondition];
        return;
      }
      conditions := conditions + [newCondition];
    }
  }

  /** The transition time is new, or that of an existing condition of the same type and status;
      it is new whenever no such condition exists. */
  lemma {:induction false} TransitionTimeIs(now: int, existing: seq<RequestCondition>, typ: string, status: string)
    ensures var t := TransitionTime(now, existing, typ, status);
            if forall i :: 0 <= i < |existing| ==> !(existing[i].typ == typ && existing[i].status == status)
            then t == Some(now)
            else exists i :: 0 <= i < |existing| && existing[i].typ == typ && existing[i].status == status &&
                             t == existing[i].lastTransitionTime
  {
    if existing != [] {
      var front := existing[..|existing| - 1];
      TransitionTimeIs(now, front, typ, status);
      assert forall i :: 0 <= i < |front| ==> front[i] == existing[i];
    }
  }

  /** A request that is reconciled is undecided, so its decision carries the time of the reconcile. */
  lemma DecisionIsStampedNow(decision: ReviewResponse, cr: Request, now: int, render: ReviewResponse -> string)
    requires !decision.Unprocessed? && !Decided(cr.conditions)
    ensures ConditionFor(decision, cr.conditions, now, render).lastTransitionTime == Some(now)
  {
    TransitionTimeIs(now, cr.conditions, if decision.Approved? then APPROVED else DENIED, CONDITION_TRUE);
  }

  // ----- one reconcile -----

  /** What a reconcile asks for: nothing more, a retry, or a status patch. */
  datatype Outcome = Done | Retry(error: string) | Patch(condition: RequestCondition)

  function ConditionFor(decision: ReviewResponse, existing: seq<RequestCondition>, now: int,
                        render: ReviewResponse -> string): RequestCondition
    requires !decision.Unprocessed?
  {
    var typ := if decision.Approved? then APPROVED else DENIED;
    RequestCondition(typ, CONDITION_TRUE, TransitionTime(now, existing, typ, CONDITION_TRUE), REASON, render(decision))
  }

  function OutcomeFrom(review: Result<ReviewResponse>, cr: Request, now: int,
                       render: ReviewResponse -> string): Outcome
  {
    if review.Failure? then Retry(review.error)
    else if review.value.Unprocessed? then Done
    else Patch(ConditionFor(review.value, cr.conditions, now, render))
  }

  /** `got` is what reading the request answers, None when it does not exist. */
  function OutcomeOf(got: Result<Option<Request>>, review: Request -> Result<ReviewResponse>, now: int,
                     render: ReviewResponse -> string): Outcome
  {
    match got
    case Failure(e) => Retry(e)
    case Success(None) => Done
    case Success(Some(cr)) =>
      if Decided(cr.conditions) then Done else OutcomeFrom(review(cr), cr, now, render)
  }

  method ReconcileStatusPatch(got: Result<Option<Request>>, review: Request -> Result<ReviewResponse>, now: int,
                              render: ReviewResponse -> string)
    returns (patch: StatusPatch?, err: Option<string>)
    ensures match OutcomeOf(got, review, now, render)
            case Done => patch == null && err == None
            case Retry(e) => patch == null && err == Some(e)
            case Patch(c) => patch != null && fresh(patch) && patch.conditions == [c] && err == None
    ensures err.Some? <==>
              || got.Failure?
              || (got.value.Some? && !Decided(got.value.value.conditions) && review(got.value.value).Failure?)
    ensures err.Some? ==>
              patch == null && err == Some(if got.Failure? then got.error else review(got.value.value).error)
    ensures patch != null <==>
              && err == None && got.value.Some? && !Decided(got.value.value.conditions)
              && !review(got.value.value).value.Unprocessed?
    ensures patch != null ==>
              var decision := review(got.value.value).value;
              patch.conditions == [RequestCondition(
                typ := if decision.Approved? then "Approved" else "Denied", status := "True",
                lastTransitionTime := Some(now), reason := "policy.cert-manager.io", message := render(decision))]
  {
    if got.Success? && got.value.Some? && !Decided(got.value.value.conditions) {
      TransitionTimeIs(now, got.value.value.conditions, APPROVED, CONDITION_TRUE);
      TransitionTimeIs(now, got.value.value.conditions, DENIED, CONDITION_TRUE);
    }
    patch, err := null, None;
    if got.Failure? {
      return null, Some(got.error);
    }
    if got.value.None? {
      return;
    }
    var cr := got.value.value;
    if Decided(cr.conditions) {
      return;
    }
    var response := review(cr);
    if response.Failure? {
      return null, Some(response.error);
    }
    match response.value
    case Approved(_) =>
      var p := new StatusPatch();
      p.SetCondition(now, cr.conditions, APPROVED, CONDITION_TRUE, REASON, render(response.value));
      patch := p;
    case Denied(_) =>
      var p := new StatusPatch();
      p.SetCondition(now, cr.conditions, DENIED, CONDITION_TRUE, REASON, render(response.value));
      patch := p;
    case Unprocessed(_) =>
  }
}
