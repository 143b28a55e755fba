/** The gauges over CertificateRequests (pkg/internal/metrics/metrics.go): how many are approved,
    denied, or neither, per namespace. */
module Metrics {
  import opened Api
  import opened Lists
  import opened RequestController
  import opened RequestRuns
  import opened RequestDecisions

  /** getStatus: the status of the first condition of the type. */
  function GetStatus(typ: string, conditions: seq<RequestCondition>): string {
    if conditions == [] then CONDITION_UNKNOWN
    else if conditions[0].typ == typ then conditions[0].status
    else GetStatus(typ, conditions[1..])
  }

  datatype Gauge = ApprovedGauge | DeniedGauge | UnmatchedGauge

  predicate Wanted(gauge: Gauge, cr: Request) {
    var approved := GetStatus(APPROVED, cr.conditions) == CONDITION_TRUE;
    var denied := GetStatus(DENIED, cr.conditions) == CONDITION_TRUE;
    match gauge
    case ApprovedGauge => approved
    case DeniedGauge => denied
    case UnmatchedGauge => !(approved || denied)
  }

  datatype Sample = Sample(namespace: string, count: nat)

  // ----- specification -----

  function Count(keep: Request -> bool, namespace: string, list: seq<Request>): nat {
    if list == [] then 0
    else
      var last := list[|list| - 1];
      Count(keep, namespace, list[..|list| - 1]) + if last.namespace == namespace && keep(last) then 1 else 0
  }

  function Wants(gauge: Gauge): Request -> bool {
    (cr: Request) => Wanted(gauge, cr)
  }

  /** The namespaces of the wanted requests, each at its first occurrence. */
  function FirstSeen(gauge: Gauge, list: seq<Request>): seq<string> {
    if list == [] then []
    else
      var front, last := FirstSeen(gauge, list[..|list| - 1]), list[|list| - 1];
      if Wanted(gauge, last) && last.namespace !in front then front + [last.namespace] else front
  }

  ghost predicate IsReport(gauge: Gauge, list: seq<Request>, samples: seq<Sample>) {
    && |samples| == |FirstSeen(gauge, list)|
    && forall i :: 0 <= i < |samples| ==>
         samples[i] == Sample(FirstSeen(gauge, list)[i], Count(Wants(gauge), FirstSeen(gauge, list)[i], list))
  }

  // ----- the collectors -----

  /** collectCRsApproved, collectCRsDenied and collectCRsUnmatched, which differ in the requests
      they want.  `samples` are the metrics sent, in order. */
  method Collect(gauge: Gauge, list: seq<Request>) returns (samples: seq<Sample>)
    ensures IsReport(gauge, list, samples)
  {
    var labels: seq<string> := [];
    var count: map<string, nat> := map[];
    for i := 0 to |list|
      invariant labels == FirstSeen(gauge, list[..i])
      invariant forall ns :: ns in count <==> ns in labels
      invariant forall ns :: ns in count ==> count[ns] == Count(Wants(gauge), ns, list[..i])
      invariant forall ns :: ns !in count ==> Count(Wants(gauge), ns, list[..i]) == 0
    {
      assert list[..i + 1][..i] == list[..i];
      if !Wanted(gauge, list[i]) {
        continue;
      }
      var k := list[i].namespace;
      if k !in count {
        labels := labels + [k];
      }
      count := count[k := (if k in count then count[k] else 0) + 1];
    }
    assert list[..|list|] == list;
    samples := [];
    for i := 0 to |labels|
      invariant |samples| == i
      invariant forall j :: 0 <= j < i ==> samples[j] == Sample(labels[j], Count(Wants(gauge), labels[j], list))
    {
      assert labels[i] in labels;
      samples := samples + [Sample(labels[i], count[labels[i]])];
    }
  }

  /** A report has one sample, with a positive count, for each namespace that has a wanted request. */
  lemma ReportIsComplete(gauge: Gauge, list: seq<Request>, samples: seq<Sample>)
    requires IsReport(gauge, list, samples)
    ensures forall i, j :: 0 <= i < j < |samples| ==> samples[i].namespace != samples[j].namespace
    ensures forall i :: 0 <= i < |samples| ==> samples[i].count > 0
    ensures forall ns :: Count(Wants(gauge), ns, list) > 0 ==>
              exists i :: 0 <= i < |samples| && samples[i].namespace == ns
  {
    var labels := FirstSeen(gauge, list);
    FirstSeenIs(gauge, list);
    forall ns | Count(Wants(gauge), ns, list) > 0 ensures exists i :: 0 <= i < |samples| && samples[i].namespace == ns {
      var i :| 0 <= i < |labels| && labels[i] == ns;
      assert samples[i].namespace == ns;
    }
    forall i | 0 <= i < |samples| ensures samples[i].count > 0 {
      assert labels[i] in labels;
    }
  }

  lemma {:induction false} FirstSeenIs(gauge: Gauge, list: seq<Request>)
    ensures var labels := FirstSeen(gauge, list);
            && (forall i, j :: 0 <= i < j < |labels| ==> labels[i] != labels[j])
            && (forall ns :: ns in labels <==> Count(Wants(gauge), ns, list) > 0)
  {
    if list != [] {
      var front := FirstSeen(gauge, list[..|list| - 1]);
      FirstSeenIs(gauge, list[..|list| - 1]);
      assert forall i :: 0 <= i < |front| ==> front[i] in front;
      var last := list[|list| - 1];
      assert Wants(gauge)(last) == Wanted(gauge, last);
      forall ns ensures ns in FirstSeen(gauge, list) <==> Count(Wants(gauge), ns, list) > 0 {
        if Wanted(gauge, last) && last.namespace !in front {
          InFrontOrLast(FirstSeen(gauge, list), ns);
          assert FirstSeen(gauge, list)[..|front|] == front;
        }
      }
    }
  }

  predicate Occurs(gauge: Gauge, list: seq<Request>, n: nat, ns: string) {
    n < |list| && list[n].namespace == ns && Wanted(gauge, list[n])
  }

  /** Labels come in the order in which their namespaces first occur. */
  lemma {:induction false} FirstSeenInOrder(gauge: Gauge, list: seq<Request>, i: nat, j: nat, n: nat)
    requires i < j < |FirstSeen(gauge, list)| && Occurs(gauge, list, n, FirstSeen(gauge, list)[j])
    ensures exists m: nat :: m < n && Occurs(gauge, list, m, FirstSeen(gauge, list)[i])
  {
    var front, labels := list[..|list| - 1], FirstSeen(gauge, list);
    FirstSeenIs(gauge, front);
    if n < |list| - 1 {
      CountOccurs(gauge, front, n, labels[j]);
      assert FirstSeen(gauge, front)[j] == labels[j];
      FirstSeenInOrder(gauge, front, i, j, n);
      var m: nat :| m < n && Occurs(gauge, front, m, labels[i]);
      assert Occurs(gauge, list, m, labels[i]);
    } else {
      assert labels[i] in FirstSeen(gauge, front);
      var m := OccursCount(gauge, front, labels[i]);
      assert Occurs(gauge, list, m, labels[i]);
    }
  }

  lemma {:induction false} CountOccurs(gauge: Gauge, list: seq<Request>, n: nat, ns: string)
    requires Occurs(gauge, list, n, ns)
    ensures Count(Wants(gauge), ns, list) > 0
  {
    if n < |list| - 1 {
      CountOccurs(gauge, list[..|list| - 1], n, ns);
    }
  }

  lemma {:induction false} OccursCount(gauge: Gauge, list: seq<Request>, ns: string) returns (m: nat)
    requires Count(Wants(gauge), ns, list) > 0
    ensures Occurs(gauge, list, m, ns)
  {
    var n := |list| - 1;
    if list[n].namespace == ns && Wanted(gauge, list[n]) {
      m := n;
    } else {
      m := OccursCount(gauge, list[..n], ns);
    }
  }

  // ----- what is counted -----

  ghost function Positions(keep: Request -> bool, ns: string, list: seq<Request>): set<nat> {
    set i: nat | i < |list| && list[i].namespace == ns && keep(list[i])
  }

  lemma OneMorePosition(keep: Request -> bool, ns: string, list: seq<Request>)
    requires list != []
    ensures var n := |list| - 1;
            var before := Positions(keep, ns, list[..n]);
            && n !in before
            && Positions(keep, ns, list) == if list[n].namespace == ns && keep(list[n]) then before + {n} else before
  {
    var n := |list| - 1;
    assert forall i :: 0 <= i < n ==> list[..n][i] == list[i];
  }

  lemma {:induction false} CountIsSize(keep: Request -> bool, ns: string, list: seq<Request>)
    ensures Count(keep, ns, list) == |Positions(keep, ns, list)|
  {
    if list == [] {
      assert Positions(keep, ns, list) == {};
    } else {
      CountIsSize(keep, ns, list[..|list| - 1]);
      OneMorePosition(keep, ns, list);
    }
  }

  /** The first condition of the type decides; without one the status is Unknown. */
  lemma {:induction false} GetStatusIs(typ: string, conditions: seq<RequestCondition>)
    ensures if exists i :: 0 <= i < |conditions| && conditions[i].typ == typ
            then exists i :: 0 <= i < |conditions| && conditions[i].typ == typ
                             && (forall j :: 0 <= j < i ==> conditions[j].typ != typ)
                             && GetStatus(typ, conditions) == conditions[i].status
            else GetStatus(typ, conditions) == "Unknown"
  {
    if conditions != [] && conditions[0].typ != typ {
      GetStatusIs(typ, conditions[1..]);
      if i :| 0 <= i < |conditions| && conditions[i].typ == typ {
        assert conditions[1..][i - 1].typ == typ;
        var k :| 0 <= k < |conditions| - 1 && conditions[1..][k].typ == typ
                 && (forall j :: 0 <= j < k ==> conditions[1..][j].typ != typ)
                 && GetStatus(typ, conditions[1..]) == conditions[1..][k].status;
        assert forall j :: 0 < j < k + 1 ==> conditions[j] == conditions[1..][j - 1];
        assert conditions[k + 1] == conditions[1..][k];
      }
    }
  }

  /** Whether the controller, which looks for a True condition of a type anywhere, would say that
      the request belongs to the gauge. */
  predicate Belongs(gauge: Gauge, cr: Request) {
    match gauge
    case ApprovedGauge => HasTrue(cr.conditions, "Approved")
    case DeniedGauge => HasTrue(cr.conditions, "Denied")
    case UnmatchedGauge => !HasTrue(cr.conditions, "Approved") && !HasTrue(cr.conditions, "Denied")
  }

  /** Where condition types are unique, each sample counts the requests of its namespace that are
      approved, denied, or neither, as the controller sees it. */
  lemma SamplesCount(gauge: Gauge, list: seq<Request>, samples: seq<Sample>, k: nat)
    requires IsReport(gauge, list, samples) && k < |samples|
    requires forall cr :: cr in list ==> DistinctKeys(cr.conditions, REQUEST_TYPE)
    ensures samples[k].count ==
            |set i: nat | i < |list| && list[i].namespace == samples[k].namespace && Belongs(gauge, list[i])|
  {
    var ns := samples[k].namespace;
    CountIsSize(Wants(gauge), ns, list);
    forall i | 0 <= i < |list| ensures Wants(gauge)(list[i]) == Belongs(gauge, list[i]) {
      assert list[i] in list;
      GetStatusTrueIff(APPROVED, list[i].conditions);
      GetStatusTrueIff(DENIED, list[i].conditions);
    }
    assert Positions(Wants(gauge), ns, list) ==
           set i: nat | i < |list| && list[i].namespace == ns && Belongs(gauge, list[i]);
  }

  // ----- conservation -----

  const EVERY_REQUEST: Request -> bool := (cr: Request) => true

  const APPROVED_AND_DENIED: Request -> bool :=
    (cr: Request) => Wanted(ApprovedGauge, cr) && Wanted(DeniedGauge, cr)

  /** In each namespace the three gauges add up to the number of requests, plus those that are
      both approved and denied. */
  lemma {:induction false} GaugesAddUp(ns: string, list: seq<Request>)
    ensures Count(Wants(ApprovedGauge), ns, list) + Count(Wants(DeniedGauge), ns, list)
            + Count(Wants(UnmatchedGauge), ns, list)
            == Count(EVERY_REQUEST, ns, list) + Count(APPROVED_AND_DENIED, ns, list)
  {
    if list != [] {
      GaugesAddUp(ns, list[..|list| - 1]);
    }
  }

  lemma {:induction false} GetStatusTrue(typ: string, conditions: seq<RequestCondition>)
    ensures GetStatus(typ, conditions) == CONDITION_TRUE ==> HasTrue(conditions, typ)
  {
    if conditions != [] && conditions[0].typ != typ {
      GetStatusTrue(typ, conditions[1..]);
    }
  }

  /** Where conditions are unique by type, the gauges see the decision that the controller sees. */
  lemma {:induction false} GetStatusTrueIff(typ: string, conditions: seq<RequestCondition>)
    requires DistinctKeys(conditions, REQUEST_TYPE)
    ensures GetStatus(typ, conditions) == CONDITION_TRUE <==> HasTrue(conditions, typ)
  {
    if conditions != [] {
      GetStatusTrueIff(typ, conditions[1..]);
      if HasTrue(conditions, typ) {
        var i :| 0 <= i < |conditions| && conditions[i].typ == typ && conditions[i].status == CONDITION_TRUE;
        assert i == 0 || conditions[1..][i - 1] == conditions[i];
      }
      GetStatusTrue(typ, conditions);
    }
  }

  lemma {:induction false} NoneBothCountsZero(ns: string, list: seq<Request>)
    requires forall cr :: cr in list ==> !HoldsBoth(cr.conditions)
    ensures Count(APPROVED_AND_DENIED, ns, list) == 0
  {
    if list != [] {
      var last := list[|list| - 1];
      assert last in list;
      NoneBothCountsZero(ns, list[..|list| - 1]);
      GetStatusTrue(APPROVED, last.conditions);
      GetStatusTrue(DENIED, last.conditions);
    }
  }

  /** On every state that the controller reaches as the only approver, with no request created
      both approved and denied, the three gauges partition the requests of each namespace. */
  lemma GaugesPartitionReachable(w: World, s: State, actions: seq<Action>, list: seq<Request>, ns: string)
    requires Init(s) && Run(w, s, actions) && AllOnlyApprover(w, s, actions)
    requires var t := After(w, s, actions);
             forall cr :: cr in list ==>
               exists k :: k in t.requests && t.requests[k].request == cr && !HoldsBoth(t.requests[k].born)
    ensures Count(Wants(ApprovedGauge), ns, list) + Count(Wants(DeniedGauge), ns, list)
            + Count(Wants(UnmatchedGauge), ns, list)
            == Count(EVERY_REQUEST, ns, list)
  {
    var t := After(w, s, actions);
    forall cr | cr in list ensures !HoldsBoth(cr.conditions) {
      var k :| k in t.requests && t.requests[k].request == cr && !HoldsBoth(t.requests[k].born);
      NeverBoth(w, s, actions, k);
    }
    NoneBothCountsZero(ns, list);
    GaugesAddUp(ns, list);
  }
}
