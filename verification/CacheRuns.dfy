/** Concurrent calls of the validator cache (pkg/internal/approver/validation/cache.go:44-64):
    threads with program counters over the shared map, whose Load and LoadOrStore are atomic.
    Compiling is arbitrary and allocates a new entry, so entries are told apart by identity. */
module CacheRuns {
  import opened Api
  import V = Validators

  type Thread = nat

  /** `id` is the identity of the entry; an entry has a compiled program or an error. */
  datatype Entry = Entry(id: nat, expression: string, program: Option<V.Program>, err: Option<string>)

  /** A call with what it returns; `id` tells calls apart. */
  datatype Call = Call(id: nat, expr: string, entry: Entry)

  datatype Pc =
    | Loading(id: nat, expr: string)
    | Compiling(id: nat, expr: string)
    | Storing(id: nat, expr: string, own: Entry)
    | Returning(id: nat, expr: string, entry: Entry)

  datatype Event =
    | Entered(id: nat, expr: string)
    | TookEffect(call: Call)
    | Returned(call: Call)

  /** A thread without a program counter is outside Get.  `history` is what happened, in order. */
  datatype State = State(m: map<string, Entry>, pcs: map<Thread, Pc>, nextId: nat, nextCall: nat, history: seq<Event>)

  datatype Action =
    | Enter(t: Thread, expr: string)
    | Load(t: Thread)
    | Compile(t: Thread, program: Option<V.Program>, err: Option<string>)
    | LoadOrStore(t: Thread)
    | Return(t: Thread)

  predicate Enabled(s: State, a: Action) {
    match a
    case Enter(t, _) => t !in s.pcs
    case Load(t) => t in s.pcs && s.pcs[t].Loading?
    case Compile(t, program, err) =>
      t in s.pcs && s.pcs[t].Compiling? && V.Coherent(s.pcs[t].expr, V.ProgramAnswer(program, err))
    case LoadOrStore(t) => t in s.pcs && s.pcs[t].Storing?
    case Return(t) => t in s.pcs && s.pcs[t].Returning?
  }

  /** The thread's call takes effect and is about to return the entry. */
  function Effect(s: State, t: Thread, entry: Entry): State
    requires t in s.pcs
  {
    var pc := s.pcs[t];
    s.(pcs := s.pcs[t := Returning(pc.id, pc.expr, entry)],
       history := s.history + [TookEffect(Call(pc.id, pc.expr, entry))])
  }

  function Next(s: State, a: Action): State
    requires Enabled(s, a)
  {
    match a
    case Enter(t, expr) =>
      s.(pcs := s.pcs[t := Loading(s.nextCall, expr)], nextCall := s.nextCall + 1,
         history := s.history + [Entered(s.nextCall, expr)])
    case Load(t) =>
      var expr := s.pcs[t].expr;
      if expr in s.m then Effect(s, t, s.m[expr])
      else s.(pcs := s.pcs[t := Compiling(s.pcs[t].id, expr)])
    case Compile(t, program, err) =>
      var expr := s.pcs[t].expr;
      var own := Entry(s.nextId, expr, if err.Some? then None else program, err);
      s.(pcs := s.pcs[t := Storing(s.pcs[t].id, expr, own)], nextId := s.nextId + 1)
    case LoadOrStore(t) =>
      var expr := s.pcs[t].expr;
      var entry := if expr in s.m then s.m[expr] else s.pcs[t].own;
      Effect(s, t, entry).(m := s.m[expr := entry])
    case Return(t) =>
      var pc := s.pcs[t];
      s.(pcs := s.pcs - {t}, history := s.history + [Returned(Call(pc.id, pc.expr, pc.entry))])
  }

  const INIT := State(map[], map[], 0, 0, [])

  /** The actions can be taken one after the other. */
  ghost predicate Run(s: State, actions: seq<Action>)
    decreases |actions|
  {
    actions == [] || (Enabled(s, actions[0]) && Run(Next(s, actions[0]), actions[1..]))
  }

  ghost function After(s: State, actions: seq<Action>): State
    requires Run(s, actions)
    decreases |actions|
  {
    if actions == [] then s else After(Next(s, actions[0]), actions[1..])
  }

  // ----- the sequential specification -----

  /** The calls in the order in which they took effect. */
  function Effects(history: seq<Event>): seq<Call> {
    if history == [] then []
    else
      var last := history[|history| - 1];
      var front := Effects(history[..|history| - 1]);
      if last.TookEffect? then front + [last.call] else front
  }

  /** A memo table filled by whole calls: the first call on an expression fixes its entry, every
      later one returns it.  None when the calls are not such a sequence. */
  function Replay(calls: seq<Call>): Option<map<string, Entry>> {
    if calls == [] then Some(map[])
    else
      var last := calls[|calls| - 1];
      match Replay(calls[..|calls| - 1])
      case None => None
      case Some(memo) =>
        if last.expr !in memo then Some(memo[last.expr := last.entry])
        else if memo[last.expr] == last.entry then Some(memo)
        else None
  }

  // ----- histories -----

  function CallId(e: Event): nat {
    if e.Entered? then e.id else e.call.id
  }

  predicate SameKind(e: Event, e': Event) {
    e.Entered? == e'.Entered? && e.TookEffect? == e'.TookEffect?
  }

  /** No call enters, takes effect, or returns twice. */
  ghost predicate Once(history: seq<Event>) {
    forall i, j :: 0 <= i < j < |history| && CallId(history[i]) == CallId(history[j]) ==>
      !SameKind(history[i], history[j])
  }

  /** What must have happened before an event: a call takes effect after it entered, and returns
      the very entry with which it took effect. */
  function Cause(e: Event): Event
    requires !e.Entered?
  {
    if e.TookEffect? then Entered(e.call.id, e.call.expr) else TookEffect(e.call)
  }

  ghost predicate Ordered(history: seq<Event>) {
    forall i :: 0 <= i < |history| && !history[i].Entered? ==> Cause(history[i]) in history[..i]
  }

  predicate WellFormed(expr: string, entry: Entry) {
    && entry.expression == expr
    && (entry.err.None? <==> entry.program.Some?)
    && (entry.program.Some? ==> entry.program.value.source == expr)
  }

  /** How far a call is, as its history tells. */
  ghost predicate PcAgrees(s: State, pc: Pc) {
    && pc.id < s.nextCall
    && Entered(pc.id, pc.expr) in s.history
    && (pc.Storing? ==> WellFormed(pc.expr, pc.own))
    && if pc.Returning? then
         && TookEffect(Call(pc.id, pc.expr, pc.entry)) in s.history
         && forall e :: e in s.history && e.Returned? ==> CallId(e) != pc.id
       else forall e :: e in s.history && !e.Entered? ==> CallId(e) != pc.id
  }

  ghost predicate HistoryInv(s: State) {
    && Replay(Effects(s.history)) == Some(s.m)
    && (forall expr :: expr in s.m ==> WellFormed(expr, s.m[expr]))
    && Once(s.history) && Ordered(s.history)
    && (forall e :: e in s.history ==> CallId(e) < s.nextCall)
    && (forall e :: e in s.history && e.TookEffect? ==> Settled(s, e.call.expr, e.call.entry))
  }

  ghost predicate ThreadsInv(s: State) {
    && (forall t :: t in s.pcs ==> PcAgrees(s, s.pcs[t]))
    && (forall t, u :: t in s.pcs && u in s.pcs && t != u ==> s.pcs[t].id != s.pcs[u].id)
  }

  ghost predicate Inv(s: State) {
    HistoryInv(s) && ThreadsInv(s)
  }

  predicate Settled(s: State, expr: string, entry: Entry) {
    expr in s.m && s.m[expr] == entry
  }

  /** Entries are added and never replaced. */
  ghost predicate Grows(s: State, s': State) {
    forall expr :: expr in s.m ==> Settled(s', expr, s.m[expr])
  }

  // ----- one step -----

  lemma OneMoreEvent(history: seq<Event>, e: Event)
    requires Once(history) && Ordered(history)
    requires forall e' :: e' in history && SameKind(e, e') ==> CallId(e') != CallId(e)
    requires !e.Entered? ==> Cause(e) in history
    ensures Once(history + [e]) && Ordered(history + [e])
    ensures forall e' :: e' in history + [e] <==> e' in history || e' == e
    ensures Effects(history + [e]) == if e.TookEffect? then Effects(history) + [e.call] else Effects(history)
  {
    var longer := history + [e];
    assert longer[..|history|] == history;
    forall i | 0 <= i < |longer| && !longer[i].Entered? ensures Cause(longer[i]) in longer[..i] {
      assert longer[..i] == history[..i];
    }
    forall i, j | 0 <= i < j < |longer| && CallId(longer[i]) == CallId(longer[j])
      ensures !SameKind(longer[i], longer[j])
    {
      assert longer[i] in history;
    }
  }

  lemma ReplayOneMore(calls: seq<Call>, memo: map<string, Entry>, c: Call)
    requires Replay(calls) == Some(memo)
    requires c.expr in memo ==> memo[c.expr] == c.entry
    ensures Replay(calls + [c]) == Some(memo[c.expr := c.entry])
  {
    assert (calls + [c])[..|calls|] == calls;
    if c.expr in memo {
      assert memo[c.expr := c.entry] == memo;
    }
  }

  /** One more event keeps the history in order, when it is the first of its kind for its call and
      its cause has happened. */
  lemma EventKeepsHistory(s: State, s': State, e: Event)
    requires HistoryInv(s) && s'.history == s.history + [e] && s.nextCall <= s'.nextCall
    requires CallId(e) < s'.nextCall && Grows(s, s')
    requires forall e' :: e' in s.history && SameKind(e, e') ==> CallId(e') != CallId(e)
    requires !e.Entered? ==> Cause(e) in s.history
    requires forall expr :: expr in s'.m ==> WellFormed(expr, s'.m[expr])
    requires if e.TookEffect? then s'.m == s.m[e.call.expr := e.call.entry] else s'.m == s.m
    ensures HistoryInv(s')
  {
    OneMoreEvent(s.history, e);
    forall e' | e' in s'.history && e'.TookEffect? ensures Settled(s', e'.call.expr, e'.call.entry) {
      if e' in s.history { assert Settled(s, e'.call.expr, e'.call.entry); }
    }
    if e.TookEffect? {
      ReplayOneMore(Effects(s.history), s.m, e.call);
    }
  }

  /** An event of another call leaves a thread where its history says. */
  lemma OthersAgree(s: State, s': State, pc: Pc, e: Event)
    requires PcAgrees(s, pc) && s'.history == s.history + [e] && s.nextCall <= s'.nextCall
    requires CallId(e) != pc.id
    ensures PcAgrees(s', pc)
  {
    assert forall e' :: e' in s'.history <==> e' in s.history || e' == e;
  }

  /** An event of the call of thread t, old or new, keeps the threads in line with the history. */
  lemma EventKeepsThreads(s: State, s': State, t: Thread, e: Event)
    requires ThreadsInv(s) && s'.history == s.history + [e] && s.nextCall <= s'.nextCall
    requires s'.pcs - {t} == s.pcs - {t}
    requires CallId(e) == if t in s.pcs then s.pcs[t].id else s.nextCall
    requires t in s'.pcs ==> s'.pcs[t].id == CallId(e) && PcAgrees(s', s'.pcs[t])
    ensures ThreadsInv(s')
  {
    forall u | u in s'.pcs && u != t ensures u in s.pcs && s'.pcs[u] == s.pcs[u] {
      assert u in s'.pcs - {t};
    }
    forall u | u in s'.pcs && u != t ensures s'.pcs[u].id != CallId(e) && PcAgrees(s', s'.pcs[u]) {
      assert PcAgrees(s, s.pcs[u]);
      OthersAgree(s, s', s.pcs[u], e);
    }
  }

  lemma EffectAgrees(s: State, s': State, pc: Pc, entry: Entry)
    requires PcAgrees(s, pc) && !pc.Returning? && s'.nextCall == s.nextCall
    requires s'.history == s.history + [TookEffect(Call(pc.id, pc.expr, entry))]
    ensures PcAgrees(s', Returning(pc.id, pc.expr, entry))
  {
    assert s'.history[|s.history|] == TookEffect(Call(pc.id, pc.expr, entry));
    assert forall e :: e in s'.history && e.Returned? ==> e in s.history;
  }

  /** The entry stored first stays; a thread that comes later returns that one and drops its own. */
  lemma EffectKeepsInv(s: State, t: Thread, entry: Entry, s': State)
    requires Inv(s) && t in s.pcs && !s.pcs[t].Returning?
    requires WellFormed(s.pcs[t].expr, entry)
    requires s.pcs[t].expr in s.m ==> s.m[s.pcs[t].expr] == entry
    requires s' == Effect(s, t, entry).(m := s.m[s.pcs[t].expr := entry])
    ensures Inv(s') && Grows(s, s')
  {
    var e := TookEffect(Call(s.pcs[t].id, s.pcs[t].expr, entry));
    assert PcAgrees(s, s.pcs[t]);
    EffectAgrees(s, s', s.pcs[t], entry);
    EventKeepsThreads(s, s', t, e);
    EventKeepsHistory(s, s', e);
  }

  lemma EnterAgrees(s: State, s': State, expr: string)
    requires HistoryInv(s) && s'.history == s.history + [Entered(s.nextCall, expr)] && s'.nextCall == s.nextCall + 1
    ensures PcAgrees(s', Loading(s.nextCall, expr))
  {
    assert s'.history[|s.history|] == Entered(s.nextCall, expr);
    assert forall e :: e in s'.history && !e.Entered? ==> e in s.history;
  }

  lemma EnterKeepsInv(s: State, t: Thread, expr: string)
    requires Inv(s) && Enabled(s, Enter(t, expr))
    ensures Inv(Next(s, Enter(t, expr)))
  {
    var s' := Next(s, Enter(t, expr));
    EnterAgrees(s, s', expr);
    EventKeepsThreads(s, s', t, Entered(s.nextCall, expr));
    EventKeepsHistory(s, s', Entered(s.nextCall, expr));
  }

  lemma ReturnKeepsInv(s: State, t: Thread)
    requires Inv(s) && Enabled(s, Return(t))
    ensures Inv(Next(s, Return(t)))
  {
    var s' := Next(s, Return(t));
    var e := Returned(Call(s.pcs[t].id, s.pcs[t].expr, s.pcs[t].entry));
    assert PcAgrees(s, s.pcs[t]);
    EventKeepsThreads(s, s', t, e);
    EventKeepsHistory(s, s', e);
  }

  /** A thread that only moves its program counter, before its call takes effect. */
  lemma MoveKeepsInv(s: State, t: Thread, pc: Pc, s': State)
    requires Inv(s) && t in s.pcs && !s.pcs[t].Returning? && !pc.Returning?
    requires pc.id == s.pcs[t].id && pc.expr == s.pcs[t].expr
    requires pc.Storing? ==> WellFormed(pc.expr, pc.own)
    requires s' == s.(pcs := s.pcs[t := pc], nextId := s'.nextId)
    ensures Inv(s')
  {
    forall u | u in s'.pcs ensures PcAgrees(s', s'.pcs[u]) {
      assert PcAgrees(s, s.pcs[u]);
    }
  }

  lemma StepKeepsInv(s: State, a: Action)
    requires Inv(s) && Enabled(s, a)
    ensures Inv(Next(s, a)) && Grows(s, Next(s, a))
  {
    var s' := Next(s, a);
    match a
    case Enter(t, expr) => EnterKeepsInv(s, t, expr);
    case Load(t) =>
      var expr := s.pcs[t].expr;
      if expr in s.m {
        assert s.m[expr := s.m[expr]] == s.m;
        EffectKeepsInv(s, t, s.m[expr], s');
      } else {
        MoveKeepsInv(s, t, s'.pcs[t], s');
      }
    case Compile(t, _, _) => MoveKeepsInv(s, t, s'.pcs[t], s');
    case LoadOrStore(t) =>
      var expr := s.pcs[t].expr;
      assert PcAgrees(s, s.pcs[t]);
      EffectKeepsInv(s, t, if expr in s.m then s.m[expr] else s.pcs[t].own, s');
    case Return(t) => ReturnKeepsInv(s, t);
  }

  // ----- whole runs -----

  lemma {:induction false} RunKeepsInv(s: State, actions: seq<Action>)
    requires Inv(s) && Run(s, actions)
    ensures Inv(After(s, actions)) && Grows(s, After(s, actions))
    decreases |actions|
  {
    if actions != [] {
      StepKeepsInv(s, actions[0]);
      RunKeepsInv(Next(s, actions[0]), actions[1..]);
    }
  }

  /** Every run is linearizable.  The calls, in the order in which they took effect, are calls of
      the sequential memo table, which ends up as the shared map.  Each call takes effect once,
      after it entered; it returns once, after that, and what it returns is what the memo table
      answered. */
  lemma RunsRefineMemo(actions: seq<Action>)
    requires Run(INIT, actions)
    ensures var s := After(INIT, actions);
            && Replay(Effects(s.history)) == Some(s.m)
            && Once(s.history) && Ordered(s.history)
  {
    assert Inv(INIT);
    RunKeepsInv(INIT, actions);
  }

  /** So a call that returned before another one entered took effect before it. */
  lemma EffectsKeepRealTime(actions: seq<Action>, c: Call, d: Call, i: nat, j: nat, r: nat, e: nat)
    requires Run(INIT, actions)
    requires var h := After(INIT, actions).history;
             && i < |h| && j < |h| && h[i] == TookEffect(c) && h[j] == TookEffect(d)
             && r < e < |h| && h[r] == Returned(c) && h[e] == Entered(d.id, d.expr)
    ensures i < r < e < j
  {
    RunsRefineMemo(actions);
    var h := After(INIT, actions).history;
    assert Cause(h[r]) in h[..r] && Cause(h[j]) in h[..j];
    var i' :| 0 <= i' < r && h[i'] == h[i];
    assert i' == i;
    var e' :| 0 <= e' < j && h[e'] == h[e];
    assert e' == e;
  }

  /** In every interleaving, all completed calls on one expression return the same entry, one
      that holds either a compiled program of that expression or an error. */
  lemma CompletedCallsAgree(actions: seq<Action>, c: Call, d: Call)
    requires Run(INIT, actions)
    requires var h := After(INIT, actions).history; Returned(c) in h && Returned(d) in h
    requires c.expr == d.expr
    ensures c.entry == d.entry && WellFormed(c.expr, c.entry)
  {
    assert Inv(INIT);
    RunKeepsInv(INIT, actions);
    var h := After(INIT, actions).history;
    var i :| 0 <= i < |h| && h[i] == Returned(c);
    var j :| 0 <= j < |h| && h[j] == Returned(d);
    assert Cause(h[i]) in h[..i] && Cause(h[j]) in h[..j];
  }

  lemma {:induction false} RunSplits(s: State, first: seq<Action>, rest: seq<Action>)
    requires Run(s, first + rest)
    ensures Run(s, first) && Run(After(s, first), rest)
    ensures After(s, first + rest) == After(After(s, first), rest)
    decreases |first|
  {
    if first == [] {
      assert first + rest == rest;
    } else {
      assert (first + rest)[1..] == first[1..] + rest;
      RunSplits(Next(s, first[0]), first[1..], rest);
    }
  }

  /** An entry once stored stays, whatever runs on. */
  lemma StoredEntryNeverChanges(first: seq<Action>, rest: seq<Action>, expr: string)
    requires Run(INIT, first + rest)
    ensures Run(INIT, first)
    ensures expr in After(INIT, first).m ==>
              Settled(After(INIT, first + rest), expr, After(INIT, first).m[expr])
  {
    assert Inv(INIT);
    RunSplits(INIT, first, rest);
    RunKeepsInv(INIT, first);
    RunKeepsInv(After(INIT, first), rest);
  }

  /** What the cache has settled, as evaluation and admission see it. */
  ghost function EntriesOf(s: State): V.Entries {
    map expr | expr in s.m ::
      if s.m[expr].program.Some? then V.Ready(s.m[expr].program.value)
      else V.Broken(if s.m[expr].err.Some? then s.m[expr].err.value else "")
  }

  /** Later states of a concurrent run only add to the settled entries. */
  lemma RunsGrowEntries(first: seq<Action>, rest: seq<Action>)
    requires Run(INIT, first) && Run(After(INIT, first), rest)
    ensures V.Grows(EntriesOf(After(INIT, first)), EntriesOf(After(After(INIT, first), rest)))
  {
    assert Inv(INIT);
    RunKeepsInv(INIT, first);
    RunKeepsInv(After(INIT, first), rest);
  }
}
