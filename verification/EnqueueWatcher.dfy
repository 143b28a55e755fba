/** The loop that forwards policy names from the reconcilers' enqueue channels
    (pkg/internal/controllers/certificaterequestpolicies.go:80-115). */
module EnqueueWatcher {
  import opened Lists

  /** One thing that could happen next: case `chosen` of the select is ready, with a value or
      closed; `cancelled` says that the context is done before the value could be sent on. */
  datatype Offer = Offer(chosen: nat, ok: bool, value: string, cancelled: bool)

  /** The values received, in order. */
  function Received(log: seq<Offer>): seq<string> {
    if log == [] then []
    else
      var front := Received(log[..|log| - 1]);
      if log[|log| - 1].ok then front + [log[|log| - 1].value] else front
  }

  /** The offer ends the loop: the context case, which is the last one, is closed, or the context
      is done while a received value waits to be sent. */
  predicate Ends(o: Offer, sources: nat) {
    (!o.ok && o.chosen == sources) || (o.ok && o.cancelled)
  }

  ghost predicate NoneEnds(log: seq<Offer>, sources: nat) {
    forall o :: o in log ==> !Ends(o, sources)
  }

  /** Once an offer that was selected closed its case, that case is not selected again. */
  ghost predicate NoneAfterClose(log: seq<Offer>) {
    forall i, j :: 0 <= i < j < |log| && !log[i].ok ==> log[j].chosen != log[i].chosen
  }

  /** `taken` are the positions of the offers that were selected, in order, and every other offer
      came from a case that had been closed. */
  ghost predicate SelectedFrom(log: seq<Offer>, taken: seq<nat>, offers: seq<Offer>, seen: nat) {
    && |taken| == |log| && seen <= |offers|
    && (forall i :: 0 <= i < |taken| ==> taken[i] < seen && offers[taken[i]] == log[i])
    && (forall i, j :: 0 <= i < j < |taken| ==> taken[i] < taken[j])
    && (forall k :: 0 <= k < seen ==> k in taken || ClosedBefore(log, taken, k, offers[k].chosen))
  }

  ghost predicate ClosedBefore(log: seq<Offer>, taken: seq<nat>, k: nat, c: nat) {
    exists i :: 0 <= i < |log| && i < |taken| && taken[i] < k && !log[i].ok && log[i].chosen == c
  }

  /** The select blocks on a nil channel, so it passes over offers of cases that are set to nil.
      The context's channel, after the `sources` enqueue channels, is only ever closed. */
  method Watch(sources: nat, offers: seq<Offer>)
    returns (forwarded: seq<string>, log: seq<Offer>, taken: seq<nat>, seen: nat, exited: bool)
    requires forall i :: 0 <= i < |offers| ==> offers[i].chosen <= sources
    requires forall i :: 0 <= i < |offers| && offers[i].chosen == sources ==> !offers[i].ok
    ensures SelectedFrom(log, taken, offers, seen)
    ensures NoneAfterClose(log)
    ensures exited <==>
              log != [] && var last := log[|log| - 1]; if last.ok then last.cancelled else last.chosen == sources
    ensures log != [] ==>
              forall o :: o in log[..|log| - 1] ==> if o.ok then !o.cancelled else o.chosen != sources
    ensures !exited ==> seen == |offers|
    ensures if exited && log[|log| - 1].ok then Received(log) == forwarded + [log[|log| - 1].value]
            else Received(log) == forwarded
  {
    var open := seq(sources + 1, _ => true);
    forwarded, log, taken, seen, exited := [], [], [], 0, false;
    while seen < |offers|
      invariant seen <= |offers| && !exited
      invariant SelectedFrom(log, taken, offers, seen) && NoneAfterClose(log) && Tracks(open, sources, log)
      invariant NoneEnds(log, sources)
      invariant Received(log) == forwarded
    {
      var offer := offers[seen];
      if !open[offer.chosen] {
        PassOver(open, sources, log, taken, offers, seen);
        seen := seen + 1;
        continue;
      }
      TakeOffer(open, sources, log, taken, offers, seen);
      OneMoreOffer(log, offer, sources);
      log, taken, seen := log + [offer], taken + [seen], seen + 1;
      if !offer.ok {
        if offer.chosen == sources {
          exited := true;
          NoneEndsBefore(log, sources);
          return;
        }
        open := open[offer.chosen := false];
        continue;
      }
      if offer.cancelled {
        exited := true;
        NoneEndsBefore(log, sources);
        return;
      }
      forwarded := forwarded + [offer.value];
    }
    assert log != [] ==> !Ends(log[|log| - 1], sources);
    NoneEndsBefore(log, sources);
  }

  lemma NoneEndsBefore(log: seq<Offer>, sources: nat)
    requires log != [] ==> NoneEnds(log[..|log| - 1], sources)
    ensures log != [] ==>
              forall o :: o in log[..|log| - 1] ==> if o.ok then !o.cancelled else o.chosen != sources
  {
    if log != [] {
      forall o | o in log[..|log| - 1] ensures if o.ok then !o.cancelled else o.chosen != sources {
        assert !Ends(o, sources);
      }
    }
  }

  /** What was received are the values of exactly those selected offers that had one, in order. */
  lemma {:induction false} ReceivedPicks(log: seq<Offer>) returns (idx: seq<nat>)
    ensures Enumerates(idx, set i: nat | i < |log| && log[i].ok)
    ensures |Received(log)| == |idx|
    ensures forall k :: 0 <= k < |idx| ==> idx[k] < |log| && Received(log)[k] == log[idx[k]].value
  {
    idx := [];
    if log != [] {
      var front, n := log[..|log| - 1], |log| - 1;
      var before := set i: nat | i < |front| && front[i].ok;
      var after := set i: nat | i < |log| && log[i].ok;
      idx := ReceivedPicks(front);
      assert forall i :: 0 <= i < n ==> front[i] == log[i];
      if log[n].ok {
        EnumeratesOneMore(idx, before, n);
        idx := idx + [n];
        assert after == before + {n};
      } else {
        assert after == before;
      }
    }
  }

  /** A case is nil exactly when the offer that closed it has been selected. */
  ghost predicate Tracks(open: seq<bool>, sources: nat, log: seq<Offer>) {
    && |open| == sources + 1
    && forall c :: 0 <= c <= sources ==> (!open[c] <==> ClosedIn(log, c))
  }

  ghost predicate ClosedIn(log: seq<Offer>, c: nat) {
    exists i :: 0 <= i < |log| && !log[i].ok && log[i].chosen == c
  }

  lemma PassOver(open: seq<bool>, sources: nat, log: seq<Offer>, taken: seq<nat>, offers: seq<Offer>, seen: nat)
    requires seen < |offers| && SelectedFrom(log, taken, offers, seen) && Tracks(open, sources, log)
    requires offers[seen].chosen <= sources && !open[offers[seen].chosen]
    ensures SelectedFrom(log, taken, offers, seen + 1)
  {
    assert ClosedIn(log, offers[seen].chosen);
    assert ClosedBefore(log, taken, seen, offers[seen].chosen);
  }

  lemma TakeOffer(open: seq<bool>, sources: nat, log: seq<Offer>, taken: seq<nat>, offers: seq<Offer>, seen: nat)
    requires seen < |offers| && SelectedFrom(log, taken, offers, seen)
    requires NoneAfterClose(log) && Tracks(open, sources, log)
    requires offers[seen].chosen <= sources && open[offers[seen].chosen]
    ensures SelectedFrom(log + [offers[seen]], taken + [seen], offers, seen + 1)
    ensures NoneAfterClose(log + [offers[seen]])
    ensures Tracks(if offers[seen].ok then open else open[offers[seen].chosen := false], sources, log + [offers[seen]])
  {
    assert !ClosedIn(log, offers[seen].chosen);
    TakenIsSelected(log, taken, offers, seen);
    forall c: nat
      ensures ClosedIn(log + [offers[seen]], c) <==> ClosedIn(log, c) || (!offers[seen].ok && offers[seen].chosen == c)
    {
      ClosedInSnoc(log, offers[seen], c);
    }
  }

  lemma OneMoreOffer(log: seq<Offer>, offer: Offer, sources: nat)
    requires NoneEnds(log, sources)
    ensures (log + [offer])[..|log|] == log
    ensures !Ends(offer, sources) ==> NoneEnds(log + [offer], sources)
    ensures Received(log + [offer]) == if offer.ok then Received(log) + [offer.value] else Received(log)
  {
    assert (log + [offer])[..|log|] == log;
  }

  lemma ClosedInSnoc(log: seq<Offer>, offer: Offer, c: nat)
    ensures ClosedIn(log + [offer], c) <==> ClosedIn(log, c) || (!offer.ok && offer.chosen == c)
  {
    var log' := log + [offer];
    assert log'[|log|] == offer && forall i :: 0 <= i < |log| ==> log'[i] == log[i];
  }

  lemma TakenIsSelected(log: seq<Offer>, taken: seq<nat>, offers: seq<Offer>, seen: nat)
    requires seen < |offers| && SelectedFrom(log, taken, offers, seen)
    ensures SelectedFrom(log + [offers[seen]], taken + [seen], offers, seen + 1)
  {
    var log', taken' := log + [offers[seen]], taken + [seen];
    forall k | 0 <= k < seen + 1 ensures k in taken' || ClosedBefore(log', taken', k, offers[k].chosen) {
      if k == seen {
        assert taken'[|taken|] == seen;
      } else if k !in taken {
        var i :| 0 <= i < |log| && i < |taken| && taken[i] < k && !log[i].ok && log[i].chosen == offers[k].chosen;
        assert taken'[i] == taken[i] && log'[i] == log[i];
      }
    }
  }
}
