/**
 * What serveUDPListener delivers: every datagram that arrives is accounted for, nothing stops without
 * a cause, and what has begun can be brought to its end.
 */
module UdpDelivery {
  import opened Bytes
  import opened Datagrams
  import opened StreamHeaders
  import opened UdpFlows
  import opened UdpRelay

  // ---------- Every arrival is accounted for ----------

  predicate OfferedTo(f: Flow, i: int) {
    exists o :: o in Offers(f) && o.at == i
  }

  /** The step drops the datagram in the listener's hands: open() gave no stream for it. */
  predicate Drops(step: Step) {
    step.OpenFails? || step.OpenAborts?
  }

  /** The indices of the arrivals that were dropped. */
  function Dropped(c: Config, steps: seq<Step>): set<int>
    requires Runs(c, steps)
    decreases |steps|
  {
    if steps == [] then {}
    else
      var before := steps[..|steps| - 1];
      Dropped(c, before) + if Drops(steps[|steps| - 1]) then {|After(c, before).arrivals| - 1} else {}
  }

  predicate Offered(st: State, s: StreamId, i: int) {
    s in st.flows && OfferedTo(st.flows[s], i)
  }

  ghost predicate AccountInv(st: State, dropped: set<int>) {
    && (forall i :: i in dropped ==> 0 <= i < Unoffered(st))
    && (forall s, i :: Offered(st, s, i) ==> 0 <= i < Unoffered(st))
    && (forall i {:trigger i in dropped} :: 0 <= i < Unoffered(st) && i !in dropped ==> exists s :: Offered(st, s, i))
    && (forall s, i :: Offered(st, s, i) ==> i !in dropped)
    && (forall s, t, i :: Offered(st, s, i) && Offered(st, t, i) ==> s == t)
  }

  /** The offers stay as they are, and with them what has been offered. */
  predicate SameOffers(st: State, next: State) {
    && Unoffered(next) == Unoffered(st)
    && (forall s :: s in st.flows ==> s in next.flows && SameWire(st.flows[s], next.flows[s]))
    && (forall s :: s in next.flows && s !in st.flows ==> Offers(next.flows[s]) == [])
  }

  lemma OffersOfSame(f: Flow, g: Flow)
    requires SameWire(f, g)
    ensures Offers(f) == Offers(g)
  {
  }

  lemma AccountSame(st: State, next: State, dropped: set<int>)
    requires AccountInv(st, dropped) && SameOffers(st, next)
    ensures AccountInv(next, dropped)
  {
    forall s, i
      ensures Offered(next, s, i) <==> Offered(st, s, i)
    {
      if s in st.flows {
        OffersOfSame(st.flows[s], next.flows[s]);
      }
    }
  }

  lemma UnofferedStep(c: Config, st: State, step: Step)
    requires Enabled(c, st, step) && HandInv(st)
    ensures Unoffered(Apply(c, st, step)) == Unoffered(st) + if Drops(step) || step.Write? || step.WriteFails? then 1 else 0
    ensures Drops(step) || step.Write? || step.WriteFails? ==> InHand(st) && st.arrivals != []
  {
    if ReaderMoves(step) {
      ReaderKeepsHand(st, step);
    }
  }

  lemma QuietKeepsOffers(c: Config, st: State, step: Step)
    requires Enabled(c, st, step) && HandInv(st) && !Drops(step) && !step.Write? && !step.WriteFails?
    ensures SameOffers(st, Apply(c, st, step))
  {
    var next := Apply(c, st, step);
    UnofferedStep(c, st, step);
    forall s | s in st.flows
      ensures s in next.flows && SameWire(st.flows[s], next.flows[s])
    {
      OthersKeepWire(c, st, step, s);
    }
    forall s | s in next.flows && s !in st.flows
      ensures Offers(next.flows[s]) == []
    {
      NewFlow(c, st, step, s);
    }
  }

  lemma DropAccounts(c: Config, st: State, step: Step, dropped: set<int>)
    requires AccountInv(st, dropped) && Enabled(c, st, step) && HandInv(st) && Drops(step)
    ensures AccountInv(Apply(c, st, step), dropped + {|st.arrivals| - 1})
  {
    var next := Apply(c, st, step);
    UnofferedStep(c, st, step);
    forall s, i
      ensures Offered(next, s, i) <==> Offered(st, s, i)
    {
      if s in st.flows {
        OthersKeepWire(c, st, step, s);
        OffersOfSame(st.flows[s], next.flows[s]);
      } else if s in next.flows {
        NewFlow(c, st, step, s);
      }
    }
  }

  lemma WriterOffers(c: Config, st: State, step: Step)
    requires (step.Write? || step.WriteFails?) && EnabledListener(c, st, step) && ListenerInv(st) && HandInv(st)
    ensures var s, next := st.listener.s, ApplyListener(c, st, step);
            && s in next.flows && Offers(next.flows[s]) == Offers(st.flows[s]) + [Current(st)]
            && next.flows.Keys == st.flows.Keys
  {
    var f := st.flows[st.listener.s];
    assert Offers(f) == f.whole;
    assert f.whole + [Current(st)] + [] == f.whole + [Current(st)];
  }

  lemma WriteAccounts(c: Config, st: State, step: Step, dropped: set<int>)
    requires AccountInv(st, dropped) && Enabled(c, st, step) && ListenerInv(st) && HandInv(st)
    requires step.Write? || step.WriteFails?
    ensures AccountInv(Apply(c, st, step), dropped)
  {
    var next, w, here := Apply(c, st, step), st.listener.s, |st.arrivals| - 1;
    UnofferedStep(c, st, step);
    WriterOffers(c, st, step);
    forall s, i
      ensures Offered(next, s, i) <==> Offered(st, s, i) || (s == w && i == here)
    {
      if s in st.flows && s != w {
        OthersKeepWire(c, st, step, s);
        OffersOfSame(st.flows[s], next.flows[s]);
      } else if s == w {
        assert forall o :: o in Offers(next.flows[w]) <==> o in Offers(st.flows[w]) || o == Current(st);
        assert Current(st) in Offers(next.flows[w]);
      }
    }
    assert Offered(next, w, here);
  }

  lemma AccountStep(c: Config, st: State, step: Step, dropped: set<int>)
    requires AccountInv(st, dropped) && Enabled(c, st, step) && ListenerInv(st) && HandInv(st)
    ensures AccountInv(Apply(c, st, step), dropped + if Drops(step) then {|st.arrivals| - 1} else {})
  {
    if Drops(step) {
      DropAccounts(c, st, step, dropped);
    } else {
      assert dropped + {} == dropped;
      if step.Write? || step.WriteFails? {
        WriteAccounts(c, st, step, dropped);
      } else {
        QuietKeepsOffers(c, st, step);
        AccountSame(st, Apply(c, st, step), dropped);
      }
    }
  }

  lemma {:induction false} RunAccounts(c: Config, steps: seq<Step>)
    requires Runs(c, steps)
    ensures AccountInv(After(c, steps), Dropped(c, steps))
    decreases |steps|
  {
    if steps != [] {
      var before := steps[..|steps| - 1];
      RunInv(c, before);
      RunAccounts(c, before);
      AccountStep(c, After(c, before), steps[|steps| - 1], Dropped(c, before));
    }
  }

  /**
   * No datagram is lost silently: in every run each arrival that the listener is done with was dropped
   * because open() gave no stream, or was offered to exactly one flow, one of its source, and never both.
   */
  lemma EveryArrivalAccounted(c: Config, steps: seq<Step>, i: nat)
    requires Runs(c, steps) && i < Unoffered(After(c, steps))
    ensures var st := After(c, steps);
            && i < |st.arrivals|
            && (i in Dropped(c, steps) <==> !exists s :: Offered(st, s, i))
            && (forall s :: Offered(st, s, i) ==> st.flows[s].owner == st.arrivals[i].key)
            && (forall s, t :: Offered(st, s, i) && Offered(st, t, i) ==> s == t)
  {
    RunAccounts(c, steps);
    RunInv(c, steps);
    var st := After(c, steps);
    forall s | Offered(st, s, i)
      ensures st.flows[s].owner == st.arrivals[i].key
    {
      OfferOwned(st, s, i);
    }
  }

  lemma OfferOwned(st: State, s: StreamId, i: int)
    requires Offered(st, s, i) && OffersInv(st.arrivals, Unoffered(st), st.flows[s])
    ensures 0 <= i < |st.arrivals| && st.arrivals[i].key == st.flows[s].owner
    ensures st.flows[s].cut.NoCut? ==> Offer(i, st.arrivals[i].datagram) in st.flows[s].whole
  {
    var o :| o in Offers(st.flows[s]) && o.at == i;
    assert o in st.flows[s].whole || o == st.flows[s].cut.offer;
  }

  /** Without a failing open() the offers to a source's flows are exactly its arrivals. */
  lemma OffersOfSource(c: Config, steps: seq<Step>, key: Key)
    requires Runs(c, steps) && forall step :: step in steps ==> !Drops(step)
    ensures var st := After(c, steps);
            forall i :: (exists s :: Offered(st, s, i) && st.flows[s].owner == key)
                        <==> 0 <= i < Unoffered(st) && i < |st.arrivals| && st.arrivals[i].key == key
  {
    NothingDropped(c, steps);
    RunAccounts(c, steps);
    var st := After(c, steps);
    forall i
      ensures (exists s :: Offered(st, s, i) && st.flows[s].owner == key)
              <==> 0 <= i < Unoffered(st) && i < |st.arrivals| && st.arrivals[i].key == key
    {
      if 0 <= i < Unoffered(st) {
        EveryArrivalAccounted(c, steps, i);
      }
    }
  }

  lemma {:induction false} NothingDropped(c: Config, steps: seq<Step>)
    requires Runs(c, steps) && forall step :: step in steps ==> !Drops(step)
    ensures Dropped(c, steps) == {}
    decreases |steps|
  {
    if steps != [] {
      NothingDropped(c, steps[..|steps| - 1]);
      assert steps[|steps| - 1] in steps;
    }
  }

  // ---------- Nothing stops without a cause ----------

  /** The listener has met an error and is closing, or has closed, all flows. */
  predicate Stopped(st: State) {
    st.listener.Draining? || st.listener.Returned?
  }

  /** The flow's reader has met an error. */
  predicate ReaderLeft(f: Flow) {
    f.reader.Task? && f.reader.phase != Reading
  }

  /** Something has failed for this flow: its opening, a write, a read, or the listener's socket. */
  predicate Troubled(st: State, f: Flow) {
    f.aborted || f.cut.Cut? || ReaderLeft(f) || Stopped(st)
  }

  predicate StaysInv(st: State, s: StreamId)
    requires s in st.flows
  {
    var f := st.flows[s];
    && (f.closed ==> Troubled(st, f))
    && (!Mapped(st, s) ==> Troubled(st, f) || (st.listener.Storing? && st.listener.s == s))
    && (f.reader.NotStarted? ==> f.whole == [] && f.cut.NoCut?)
  }

  predicate UnlinkInv(st: State) {
    st.listener.Unlink? || st.listener.Close? ==> st.listener.s in st.flows && st.flows[st.listener.s].cut.Cut?
  }

  lemma UnlinkOfListener(c: Config, st: State, step: Step)
    requires !ReaderMoves(step) && EnabledListener(c, st, step) && UnlinkInv(st) && ListenerInv(st)
    ensures UnlinkInv(ApplyListener(c, st, step))
  {
  }

  lemma UnlinkOfReader(st: State, step: Step)
    requires ReaderMoves(step) && EnabledReader(st, step) && UnlinkInv(st)
    ensures UnlinkInv(ApplyReader(st, step))
  {
    if st.listener.Unlink? || st.listener.Close? {
      ReaderKeepsWire(st, step, st.listener.s);
    }
  }

  lemma StaysOfListener(c: Config, st: State, step: Step, s: StreamId)
    requires !ReaderMoves(step) && EnabledListener(c, st, step) && ListenerInv(st) && TableInv(st) && UnlinkInv(st)
    requires s in ApplyListener(c, st, step).flows && (s in st.flows ==> StaysInv(st, s))
    ensures StaysInv(ApplyListener(c, st, step), s)
  {
  }

  lemma StaysOfReader(st: State, step: Step, s: StreamId)
    requires ReaderMoves(step) && EnabledReader(st, step) && ListenerInv(st) && TableInv(st) && FlowInv(st, step.s)
    requires s in st.flows && StaysInv(st, s)
    ensures s in ApplyReader(st, step).flows && StaysInv(ApplyReader(st, step), s)
  {
  }

  predicate CauseInv(st: State) {
    UnlinkInv(st) && forall s :: s in st.flows ==> StaysInv(st, s)
  }

  lemma StaysStep(c: Config, st: State, step: Step, s: StreamId)
    requires Inv(c, st) && CauseInv(st) && Enabled(c, st, step) && s in Apply(c, st, step).flows
    ensures StaysInv(Apply(c, st, step), s)
  {
    if ReaderMoves(step) {
      FlowsOfReader(st, step);
      StaysOfReader(st, step, s);
    } else {
      StaysOfListener(c, st, step, s);
    }
  }

  lemma FlowsOfReader(st: State, step: Step)
    requires ReaderMoves(step) && EnabledReader(st, step)
    ensures step.s in st.flows && ApplyReader(st, step).flows.Keys == st.flows.Keys
  {
  }

  lemma CauseStep(c: Config, st: State, step: Step)
    requires Inv(c, st) && CauseInv(st) && Enabled(c, st, step)
    ensures CauseInv(Apply(c, st, step))
  {
    if ReaderMoves(step) {
      UnlinkOfReader(st, step);
    } else {
      UnlinkOfListener(c, st, step);
    }
    forall s | s in Apply(c, st, step).flows
      ensures StaysInv(Apply(c, st, step), s)
    {
      StaysStep(c, st, step, s);
    }
  }

  lemma {:induction false} RunCauses(c: Config, steps: seq<Step>)
    requires Runs(c, steps)
    ensures CauseInv(After(c, steps))
    decreases |steps|
  {
    if steps != [] {
      var before := steps[..|steps| - 1];
      RunInv(c, before);
      RunCauses(c, before);
      CauseStep(c, After(c, before), steps[|steps| - 1]);
    }
  }

  /** Some opening of stream s was aborted. */
  predicate OpenAborted(steps: seq<Step>, s: StreamId) {
    exists step :: step in steps && step.OpenAborts? && step.s == s
  }

  predicate ReadFailed(steps: seq<Step>, s: StreamId) {
    ReadFails(s) in steps
  }

  /** Some write to stream s failed. */
  predicate WriteFailed(c: Config, steps: seq<Step>, s: StreamId)
    requires Runs(c, steps)
    decreases |steps|
  {
    steps != []
    && (var before, last := steps[..|steps| - 1], steps[|steps| - 1];
        WriteFailed(c, before, s) || (last.WriteFails? && After(c, before).listener.s == s))
  }

  lemma CauseOfListener(c: Config, st: State, step: Step, s: StreamId)
    requires !ReaderMoves(step) && EnabledListener(c, st, step) && s in ApplyListener(c, st, step).flows
    requires ListenerInv(st)
    ensures var next := ApplyListener(c, st, step);
            var g := next.flows[s];
            && (g.aborted <==> (s in st.flows && st.flows[s].aborted) || (step.OpenAborts? && step.s == s))
            && (g.cut.Cut? <==> (s in st.flows && st.flows[s].cut.Cut?) || (step.WriteFails? && st.listener.s == s))
            && (ReaderLeft(g) <==> s in st.flows && ReaderLeft(st.flows[s]))
            && (Stopped(next) <==> Stopped(st) || step.ReceiveFails?)
  {
  }

  lemma CauseOfReader(st: State, step: Step, s: StreamId)
    requires ReaderMoves(step) && EnabledReader(st, step) && s in st.flows
    ensures var next := ApplyReader(st, step);
            && s in next.flows
            && next.flows[s].aborted == st.flows[s].aborted && next.flows[s].cut == st.flows[s].cut
            && (ReaderLeft(next.flows[s]) <==> ReaderLeft(st.flows[s]) || step == ReadFails(s))
            && next.listener == st.listener
  {
  }

  lemma InLast(steps: seq<Step>, step: Step)
    requires steps != []
    ensures step in steps <==> step in steps[..|steps| - 1] || step == steps[|steps| - 1]
  {
  }

  /** No flow before its opening, and nothing that failed for it. */
  lemma {:induction false} NothingBefore(c: Config, steps: seq<Step>, s: StreamId)
    requires Runs(c, steps) && s !in After(c, steps).flows
    ensures !OpenAborted(steps, s) && !ReadFailed(steps, s) && !WriteFailed(c, steps, s)
    decreases |steps|
  {
    if steps != [] {
      var before, last := steps[..|steps| - 1], steps[|steps| - 1];
      var st := After(c, before);
      FlowsStay(c, st, last);
      NothingBefore(c, before, s);
      forall step | step in steps
        ensures step in before || step == last
      {
        InLast(steps, step);
      }
    }
  }

  lemma FlowsStay(c: Config, st: State, step: Step)
    requires Enabled(c, st, step)
    ensures st.flows.Keys <= Apply(c, st, step).flows.Keys
    ensures step.OpenAborts? || ReaderMoves(step) ==> step.s in Apply(c, st, step).flows
    ensures step.WriteFails? ==> st.listener.s in st.flows
  {
  }

  /** What has happened to a flow is what the steps of the run have done to it. */
  lemma {:induction false} CausesExactly(c: Config, steps: seq<Step>, s: StreamId)
    requires Runs(c, steps) && s in After(c, steps).flows
    ensures var f := After(c, steps).flows[s];
            && (f.aborted <==> OpenAborted(steps, s))
            && (f.cut.Cut? <==> WriteFailed(c, steps, s))
            && (ReaderLeft(f) <==> ReadFailed(steps, s))
    decreases |steps|
  {
    if steps != [] {
      var before, last := steps[..|steps| - 1], steps[|steps| - 1];
      var st := After(c, before);
      RunInv(c, before);
      if ReaderMoves(last) {
        CauseOfReader(st, last, s);
      } else {
        CauseOfListener(c, st, last, s);
      }
      if s in st.flows {
        CausesExactly(c, before, s);
      } else {
        NothingBefore(c, before, s);
      }
      InLast(steps, ReadFails(s));
      assert OpenAborted(steps, s) <==> OpenAborted(before, s) || (last.OpenAborts? && last.s == s) by {
        forall step | step in steps
          ensures step in before || step == last
        {
          InLast(steps, step);
        }
        assert forall step :: step in before ==> step in steps;
        assert last in steps;
      }
    }
  }

  /** The listener stops for an error of its socket and for nothing else. */
  lemma {:induction false} StopsExactly(c: Config, steps: seq<Step>)
    requires Runs(c, steps)
    ensures Stopped(After(c, steps)) <==> ReceiveFails in steps
    decreases |steps|
  {
    if steps != [] {
      var before, last := steps[..|steps| - 1], steps[|steps| - 1];
      StopsExactly(c, before);
      StopStep(c, After(c, before), last);
      InLast(steps, ReceiveFails);
    }
  }

  lemma StopStep(c: Config, st: State, step: Step)
    requires Enabled(c, st, step)
    ensures Stopped(Apply(c, st, step)) <==> Stopped(st) || step.ReceiveFails?
  {
    if ReaderMoves(step) {
      ReaderKeepsHand(st, step);
    }
  }

  /**
   * A stream stays open, and in the table under its source, until its opening is aborted, a write to it
   * or a read from it fails, or the listener's socket does.
   */
  lemma StaysUntilFailure(c: Config, steps: seq<Step>, s: StreamId)
    requires Runs(c, steps) && s in After(c, steps).flows
    requires !OpenAborted(steps, s) && !WriteFailed(c, steps, s) && !ReadFailed(steps, s) && ReceiveFails !in steps
    ensures var st := After(c, steps);
            && !st.flows[s].closed
            && (Mapped(st, s) || (st.listener.Storing? && st.listener.s == s))
  {
    RunCauses(c, steps);
    CausesExactly(c, steps, s);
    StopsExactly(c, steps);
    assert StaysInv(After(c, steps), s);
  }

  // ---------- Runs without failures ----------

  /** The offers that the first n arrivals make for one source. */
  function OffersFrom(arrivals: seq<Arrival>, key: Key, n: nat): seq<Offer>
    requires n <= |arrivals|
  {
    if n == 0 then []
    else OffersFrom(arrivals, key, n - 1)
           + if arrivals[n - 1].key == key then [Offer(n - 1, arrivals[n - 1].datagram)] else []
  }

  /** The offers are arrivals of the source among the first n, in order, and all of them. */
  predicate Enumerates(arrivals: seq<Arrival>, key: Key, n: nat, offers: seq<Offer>)
    requires n <= |arrivals|
  {
    && (forall i :: 0 <= i < |offers| ==> OfferOf(arrivals, key, offers[i], n))
    && (forall i, j :: 0 <= i < j < |offers| ==> offers[i].at < offers[j].at)
    && (forall i :: 0 <= i < n && arrivals[i].key == key ==> Offer(i, arrivals[i].datagram) in offers)
  }

  lemma {:induction false} AtLeast(offers: seq<Offer>, i: nat)
    requires i < |offers| && forall i, j :: 0 <= i < j < |offers| ==> offers[i].at < offers[j].at
    ensures offers[i].at >= i
  {
    if i > 0 {
      AtLeast(offers, i - 1);
    }
  }

  lemma NotMoreThan(arrivals: seq<Arrival>, key: Key, n: nat, offers: seq<Offer>)
    requires n <= |arrivals| && Enumerates(arrivals, key, n, offers)
    ensures |offers| <= n
  {
    if offers != [] {
      AtLeast(offers, |offers| - 1);
      assert OfferOf(arrivals, key, offers[|offers| - 1], n);
    }
  }

  lemma {:induction false} Enumerated(arrivals: seq<Arrival>, key: Key, n: nat, offers: seq<Offer>)
    requires n <= |arrivals| && Enumerates(arrivals, key, n, offers)
    ensures offers == OffersFrom(arrivals, key, n)
  {
    if n == 0 {
      NotMoreThan(arrivals, key, n, offers);
    } else if arrivals[n - 1].key == key {
      var init := EnumeratesInit(arrivals, key, n, offers);
      Enumerated(arrivals, key, n - 1, init);
    } else {
      EnumeratesFewer(arrivals, key, n, offers);
      Enumerated(arrivals, key, n - 1, offers);
    }
  }

  lemma EnumeratesInit(arrivals: seq<Arrival>, key: Key, n: nat, offers: seq<Offer>) returns (init: seq<Offer>)
    requires 0 < n <= |arrivals| && arrivals[n - 1].key == key && Enumerates(arrivals, key, n, offers)
    ensures Enumerates(arrivals, key, n - 1, init) && offers == init + [Offer(n - 1, arrivals[n - 1].datagram)]
  {
    var last := Offer(n - 1, arrivals[n - 1].datagram);
    assert last in offers;
    var k :| 0 <= k < |offers| && offers[k] == last;
    var m := |offers| - 1;
    assert OfferOf(arrivals, key, offers[m], n);
    assert k == m;
    init := offers[..m];
    forall i | 0 <= i < |init|
      ensures OfferOf(arrivals, key, init[i], n - 1)
    {
      assert OfferOf(arrivals, key, offers[i], n) && offers[i].at < offers[m].at;
    }
    forall i | 0 <= i < n - 1 && arrivals[i].key == key
      ensures Offer(i, arrivals[i].datagram) in init
    {
      var o := Offer(i, arrivals[i].datagram);
      assert o in offers && o != last;
      assert offers == init + [last];
    }
  }

  lemma EnumeratesFewer(arrivals: seq<Arrival>, key: Key, n: nat, offers: seq<Offer>)
    requires 0 < n <= |arrivals| && arrivals[n - 1].key != key && Enumerates(arrivals, key, n, offers)
    ensures Enumerates(arrivals, key, n - 1, offers)
  {
    forall i | 0 <= i < |offers|
      ensures OfferOf(arrivals, key, offers[i], n - 1)
    {
      assert OfferOf(arrivals, key, offers[i], n);
    }
  }

  predicate Fails(step: Step) {
    step.OpenFails? || step.OpenAborts? || step.WriteFails? || step.ReadFails? || step.ReceiveFails?
  }

  lemma {:induction false} NoFailures(c: Config, steps: seq<Step>, s: StreamId)
    requires Runs(c, steps) && forall step :: step in steps ==> !Fails(step)
    ensures !OpenAborted(steps, s) && !WriteFailed(c, steps, s) && !ReadFailed(steps, s) && ReceiveFails !in steps
    decreases |steps|
  {
    if steps != [] {
      assert steps[|steps| - 1] in steps;
      NoFailures(c, steps[..|steps| - 1], s);
    }
  }

  /**
   * While nothing fails everything arrives: after a run without failures each source that the listener
   * is done with at least once has one open flow in the table, and the stream of that flow carries the
   * header and then every datagram of the source, whole and in order of arrival.
   */
  lemma CleanRunDelivers(c: Config, steps: seq<Step>, i: nat)
    requires Runs(c, steps) && forall step :: step in steps ==> !Fails(step)
    requires i < Unoffered(After(c, steps)) && i < |After(c, steps).arrivals|
    ensures var st := After(c, steps);
            var key := st.arrivals[i].key;
            && 0 <= Unoffered(st) <= |st.arrivals|
            && key in st.table && st.table[key] in st.flows
            && var f := st.flows[st.table[key]];
               && !f.closed && f.whole == OffersFrom(st.arrivals, key, Unoffered(st))
               && f.wire == c.Head() + Frames(Payloads(f.whole))
  {
    var st := After(c, steps);
    var key := st.arrivals[i].key;
    RunInv(c, steps);
    RunCauses(c, steps);
    forall step | step in steps
      ensures !Drops(step)
    {
      assert !Fails(step);
    }
    OffersOfSource(c, steps, key);
    var s :| Offered(st, s, i) && st.flows[s].owner == key;
    NoFailures(c, steps, s);
    CausesExactly(c, steps, s);
    StaysUntilFailure(c, steps, s);
    assert StaysInv(st, s);
    OfferOwned(st, s, i);
    forall j | 0 <= j < Unoffered(st) && st.arrivals[j].key == key
      ensures Offer(j, st.arrivals[j].datagram) in st.flows[s].whole
    {
      SameFlow(c, steps, key, s, j);
    }
    assert OffersInv(st.arrivals, Unoffered(st), st.flows[s]) && WireInv(c, st.flows[s]);
    forall k | 0 <= k < |st.flows[s].whole|
      ensures OfferOf(st.arrivals, key, st.flows[s].whole[k], Unoffered(st))
    {
      assert st.flows[s].whole[k] in st.flows[s].whole;
    }
    Enumerated(st.arrivals, key, Unoffered(st), st.flows[s].whole);
  }

  /** After a run without failures a source has one flow only. */
  lemma SameFlow(c: Config, steps: seq<Step>, key: Key, s: StreamId, j: nat)
    requires Runs(c, steps) && (forall step :: step in steps ==> !Fails(step))
    requires j < Unoffered(After(c, steps)) && j < |After(c, steps).arrivals| && After(c, steps).arrivals[j].key == key
    requires s in After(c, steps).flows && Mapped(After(c, steps), s) && After(c, steps).flows[s].owner == key
    ensures Offer(j, After(c, steps).arrivals[j].datagram) in After(c, steps).flows[s].whole
  {
    var st := After(c, steps);
    forall step | step in steps
      ensures !Drops(step)
    {
      assert !Fails(step);
    }
    OffersOfSource(c, steps, key);
    var t :| Offered(st, t, j) && st.flows[t].owner == key;
    RunInv(c, steps);
    RunCauses(c, steps);
    NoFailures(c, steps, t);
    CausesExactly(c, steps, t);
    StaysUntilFailure(c, steps, t);
    assert StaysInv(st, t);
    OfferOwned(st, t, j);
    assert t == s;
  }

  // ---------- What comes in ----------

  /** The datagrams that the steps receive. */
  function Received(steps: seq<Step>): seq<Arrival> {
    if steps == [] then []
    else
      var last := steps[|steps| - 1];
      Received(steps[..|steps| - 1]) + if last.Receive? then [Arrival(last.key, last.datagram)] else []
  }

  /** The bytes that the peer of stream s sends. */
  function SentBack(steps: seq<Step>, s: StreamId): Bytes {
    if steps == [] then []
    else
      var last := steps[|steps| - 1];
      SentBack(steps[..|steps| - 1], s) + if last.PeerSends? && last.s == s then last.bytes else []
  }

  lemma ComesInStep(c: Config, st: State, step: Step, s: StreamId)
    requires Enabled(c, st, step)
    ensures var next := Apply(c, st, step);
            && next.arrivals == st.arrivals + (if step.Receive? then [Arrival(step.key, step.datagram)] else [])
            && (s in next.flows ==>
                  next.flows[s].received == (if s in st.flows then st.flows[s].received else [])
                    + if step.PeerSends? && step.s == s then step.bytes else [])
            && (step.PeerSends? ==> step.s in st.flows)
            && st.flows.Keys <= next.flows.Keys
  {
    if ReaderMoves(step) {
      ReaderKeepsHand(st, step);
    }
    if s in Apply(c, st, step).flows && s !in st.flows {
      NewFlow(c, st, step, s);
    }
  }

  /** The arrivals are what was received, and a stream's bytes are what its peer sent. */
  lemma {:induction false} ComesIn(c: Config, steps: seq<Step>, s: StreamId)
    requires Runs(c, steps)
    ensures var st := After(c, steps);
            && st.arrivals == Received(steps)
            && (if s in st.flows then st.flows[s].received == SentBack(steps, s) else SentBack(steps, s) == [])
    decreases |steps|
  {
    if steps != [] {
      var before, last := steps[..|steps| - 1], steps[|steps| - 1];
      ComesIn(c, before, s);
      ComesInStep(c, After(c, before), last, s);
    }
  }

  /** A reader that has nothing whole left to read has delivered all that its peer has framed. */
  lemma RepliesComplete(c: Config, steps: seq<Step>, s: StreamId)
    requires Runs(c, steps) && s in After(c, steps).flows
    requires !ParseFrame(After(c, steps).flows[s].unread, MAX_DATAGRAM).Got?
    ensures RepliesOf(After(c, steps).outbox, s) == DecodeAll(SentBack(steps, s), MAX_DATAGRAM)
  {
    RunInv(c, steps);
    ComesIn(c, steps, s);
    var st := After(c, steps);
    assert ReplyOf(st, s);
    DecodeAfterFrames(RepliesOf(st.outbox, s), st.flows[s].unread);
    assert RepliesOf(st.outbox, s) + [] == RepliesOf(st.outbox, s);
  }

  // ---------- What can still happen ----------

  lemma Extended(c: Config, steps: seq<Step>, step: Step)
    requires Runs(c, steps) && Enabled(c, After(c, steps), step)
    ensures Runs(c, steps + [step]) && After(c, steps + [step]) == Apply(c, After(c, steps), step)
  {
    assert (steps + [step])[..|steps|] == steps;
  }

  lemma DeliverNext(c: Config, steps: seq<Step>, s: StreamId)
    requires Runs(c, steps) && InPhase(After(c, steps), s, Reading)
    requires ParseFrame(After(c, steps).flows[s].unread, MAX_DATAGRAM).Got?
    ensures Runs(c, steps + [Deliver(s)]) && InPhase(After(c, steps + [Deliver(s)]), s, Reading)
    ensures |After(c, steps + [Deliver(s)]).flows[s].unread| < |After(c, steps).flows[s].unread|
    ensures SentBack(steps + [Deliver(s)], s) == SentBack(steps, s)
  {
    Extended(c, steps, Deliver(s));
    assert (steps + [Deliver(s)])[..|steps|] == steps;
    assert SentBack(steps, s) + [] == SentBack(steps, s);
  }

  /** In every run a reader that is still reading can deliver all that its peer has framed so far. */
  lemma {:induction false} ReaderCanDeliver(c: Config, steps: seq<Step>, s: StreamId) returns (longer: seq<Step>)
    requires Runs(c, steps) && InPhase(After(c, steps), s, Reading)
    ensures Runs(c, longer) && InPhase(After(c, longer), s, Reading)
    ensures RepliesOf(After(c, longer).outbox, s) == DecodeAll(SentBack(steps, s), MAX_DATAGRAM)
    decreases |After(c, steps).flows[s].unread|
  {
    if ParseFrame(After(c, steps).flows[s].unread, MAX_DATAGRAM).Got? {
      DeliverNext(c, steps, s);
      longer := ReaderCanDeliver(c, steps + [Deliver(s)], s);
    } else {
      RepliesComplete(c, steps, s);
      longer := steps;
    }
  }

  /** And whatever the peer sends then it can deliver as well. */
  lemma PeerIsHeard(c: Config, steps: seq<Step>, s: StreamId, bytes: Bytes) returns (longer: seq<Step>)
    requires Runs(c, steps) && InPhase(After(c, steps), s, Reading)
    ensures Runs(c, longer) && InPhase(After(c, longer), s, Reading)
    ensures RepliesOf(After(c, longer).outbox, s) == DecodeAll(SentBack(steps, s) + bytes, MAX_DATAGRAM)
  {
    var sends := PeerSends(s, bytes);
    Extended(c, steps, sends);
    assert (steps + [sends])[..|steps|] == steps;
    longer := ReaderCanDeliver(c, steps + [sends], s);
  }

  // ---------- Closing down ----------

  /** While closeAll holds the mutex no reader takes anything out of the table. */
  lemma CloseAllHoldsTable(c: Config, st: State, step: Step)
    requires st.listener.Draining? && Enabled(c, st, step) && ReaderMoves(step)
    ensures Apply(c, st, step).table == st.table && !step.ReaderUnlinks?
  {
  }

  /** How many steps the listener is at most from the return, closing flows aside. */
  function ListenerRank(st: State): nat {
    match st.listener
    case Returned => 0
    case Draining => 1
    case Receiving => 2
    case Sending(_, _) => 3
    case Close(_) => 3
    case Unlink(_, _) => 4
    case Spawning(_, _) => 4
    case Storing(_, _) => 5
    case Opening(_) => 3
    case Looking(_) => 4
  }

  lemma NextInCloseAll(c: Config, st: State) returns (step: Step)
    requires TableInv(st) && st.listener.Draining?
    ensures !ReaderMoves(step) && EnabledListener(c, st, step)
    ensures var next := ApplyListener(c, st, step);
            || ListenerRank(next) < ListenerRank(st)
            || (ListenerRank(next) == ListenerRank(st) && next.table.Keys < st.table.Keys)
  {
    if st.table == map[] {
      step := DrainEnds;
    } else {
      var k :| k in st.table;
      step := Drain(k);
      assert k in st.table.Keys && k !in (st.table - {k}).Keys;
    }
  }

  lemma NextOfListener(c: Config, st: State) returns (step: Step)
    requires TableInv(st) && ListenerInv(st) && HandInv(st) && !st.listener.Returned?
    ensures !ReaderMoves(step) && EnabledListener(c, st, step)
    ensures var next := ApplyListener(c, st, step);
            || ListenerRank(next) < ListenerRank(st)
            || (ListenerRank(next) == ListenerRank(st) && next.table.Keys < st.table.Keys)
  {
    if st.listener.Draining? {
      step := NextInCloseAll(c, st);
    } else {
      step := match st.listener
        case Receiving => ReceiveFails
        case Looking(_) => Lookup
        case Opening(_) => OpenFails
        case Storing(_, _) => Put
        case Spawning(_, _) => Spawn
        case Sending(_, _) => Write
        case Unlink(_, _) => ListenerUnlinks
        case _ => ListenerCloses;
    }
  }

  lemma {:induction false} ListenerCanReturn(c: Config, steps: seq<Step>) returns (longer: seq<Step>)
    requires Runs(c, steps)
    ensures Runs(c, longer) && After(c, longer).listener.Returned?
    decreases ListenerRank(After(c, steps)), After(c, steps).table.Keys
  {
    if After(c, steps).listener.Returned? {
      longer := steps;
    } else {
      RunInv(c, steps);
      var step := NextOfListener(c, After(c, steps));
      Extended(c, steps, step);
      longer := ListenerCanReturn(c, steps + [step]);
    }
  }

  /** The readers that have not finished, by how far they are. */
  function At(st: State, phase: Phase): set<StreamId> {
    set s | s in st.flows && InPhase(st, s, phase)
  }

  lemma NextOfReader(c: Config, st: State, s: StreamId) returns (step: Step)
    requires st.listener.Returned? && s in st.flows && st.flows[s].reader.Task? && st.flows[s].reader.phase != Finished
    ensures ReaderMoves(step) && EnabledReader(st, step) && ApplyReader(st, step).listener == st.listener
    ensures var next := ApplyReader(st, step);
            || At(next, Reading) < At(st, Reading)
            || (At(next, Reading) == At(st, Reading) && At(next, Phase.Unlinking) < At(st, Phase.Unlinking))
            || (At(next, Reading) == At(st, Reading) && At(next, Phase.Unlinking) == At(st, Phase.Unlinking)
                && At(next, Phase.Closing) < At(st, Phase.Closing))
  {
    match st.flows[s].reader.phase {
      case Reading =>
        step := ReadFails(s);
        assert s in At(st, Reading) && s !in At(ApplyReader(st, step), Reading);
      case Unlinking =>
        step := ReaderUnlinks(s);
        assert s in At(st, Phase.Unlinking) && s !in At(ApplyReader(st, step), Phase.Unlinking);
      case Closing =>
        step := ReaderCloses(s);
        assert s in At(st, Phase.Closing) && s !in At(ApplyReader(st, step), Phase.Closing);
    }
  }

  predicate AllFinished(st: State) {
    forall s :: s in st.flows && st.flows[s].reader.Task? ==> InPhase(st, s, Phase.Finished)
  }

  lemma {:induction false} ReadersCanFinish(c: Config, steps: seq<Step>) returns (longer: seq<Step>)
    requires Runs(c, steps) && After(c, steps).listener.Returned?
    ensures Runs(c, longer) && After(c, longer).listener.Returned? && AllFinished(After(c, longer))
    decreases At(After(c, steps), Reading), At(After(c, steps), Phase.Unlinking), At(After(c, steps), Phase.Closing)
  {
    var st := After(c, steps);
    if AllFinished(st) {
      longer := steps;
    } else {
      var s :| s in st.flows && st.flows[s].reader.Task? && !InPhase(st, s, Phase.Finished);
      var step := NextOfReader(c, st, s);
      Extended(c, steps, step);
      longer := ReadersCanFinish(c, steps + [step]);
    }
  }

  /** Every run can be brought to an end in which the listener has returned and every stream is closed. */
  lemma ClosesDown(c: Config, steps: seq<Step>) returns (longer: seq<Step>)
    requires Runs(c, steps)
    ensures Runs(c, longer) && After(c, longer).listener.Returned? && AllFinished(After(c, longer))
    ensures forall s :: s in After(c, longer).flows ==> After(c, longer).flows[s].closed
  {
    longer := ListenerCanReturn(c, steps);
    longer := ReadersCanFinish(c, longer);
    NoStreamLeaks(c, longer);
  }
}
