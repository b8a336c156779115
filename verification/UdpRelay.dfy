/**
 * serveUDPListener as an interleaving of its listener loop, one reader goroutine per flow and
 * the peers at the far ends.  A step is one operation on the flow table under its mutex, one
 * stream or socket operation, or one Close.
 */
module UdpRelay {
  import opened Bytes
  import opened ByteStreams
  import opened Datagrams
  import opened StreamHeaders
  import opened UdpFlows

  type StreamId = nat

  /** What open() writes at the head of every stream it returns. */
  datatype Config = Config(kind: Byte, payload: Payload) {
    function Head(): Bytes { Header(kind, payload) }
  }

  datatype Arrival = Arrival(key: Key, datagram: Datagram)

  /** A datagram given to a stream: the arrival it is and its payload. */
  datatype Offer = Offer(at: nat, datagram: Datagram)

  /** A failed write: what it was to send and the part that went out. */
  datatype CutWrite = NoCut | Cut(offer: Offer, tail: Bytes)

  datatype Reply = Reply(stream: StreamId, to: Key, datagram: Datagram)

  datatype Phase = Reading | Unlinking | Closing | Finished

  /** The goroutine of one flow; `key` is the source address it captured. */
  datatype ReaderTask = NotStarted | Task(key: Key, phase: Phase)

  datatype Flow = Flow(
    owner: Key,            // the source for which the listener called open()
    aborted: bool,         // open() failed after opening the stream, and closed it
    closed: bool,
    reader: ReaderTask,
    wire: Bytes,           // what the listener has written
    whole: seq<Offer>,     // the datagrams written whole
    cut: CutWrite,         // the write that failed, if one has
    received: Bytes,       // what the peer has sent
    unread: Bytes)         // the part of it not yet read

  datatype ListenerTask =
    | Receiving
    | Looking(key: Key)
    | Opening(key: Key)
    | Storing(key: Key, s: StreamId)
    | Spawning(key: Key, s: StreamId)
    | Sending(key: Key, s: StreamId)
    | Unlink(key: Key, s: StreamId)
    | Close(s: StreamId)
    | Draining             // in closeAll, with the mutex held
    | Returned

  datatype State = State(
    listener: ListenerTask,
    table: map<Key, StreamId>,
    flows: map<StreamId, Flow>,
    arrivals: seq<Arrival>,
    outbox: seq<Reply>)

  datatype Step =
    | Receive(key: Key, datagram: Datagram)
    | ReceiveFails
    | Lookup
    | OpenFails
    | OpenAborts(s: StreamId, cut: nat)
    | Opens(s: StreamId)
    | Put
    | Spawn
    | Write
    | WriteFails(cut: nat)
    | ListenerUnlinks
    | ListenerCloses
    | Drain(k: Key)
    | DrainEnds
    | PeerSends(s: StreamId, bytes: Bytes)
    | Deliver(s: StreamId)
    | ReadFails(s: StreamId)
    | ReaderUnlinks(s: StreamId)
    | ReaderCloses(s: StreamId)

  const INIT := State(Receiving, map[], map[], [], [])

  predicate InPhase(st: State, s: StreamId, phase: Phase) {
    s in st.flows && st.flows[s].reader.Task? && st.flows[s].reader.phase == phase
  }

  /** The steps of the reader goroutines and of the peers; the others are the listener's. */
  predicate ReaderMoves(step: Step) {
    step.PeerSends? || step.Deliver? || step.ReadFails? || step.ReaderUnlinks? || step.ReaderCloses?
  }

  predicate EnabledListener(c: Config, st: State, step: Step)
    requires !ReaderMoves(step)
  {
    match step
    case Receive(_, _) => st.listener.Receiving?
    case ReceiveFails => st.listener.Receiving?
    case Lookup => st.listener.Looking?
    case OpenFails => st.listener.Opening?
    case OpenAborts(s, cut) => st.listener.Opening? && s !in st.flows && cut <= |c.Head()|
    case Opens(s) => st.listener.Opening? && s !in st.flows
    case Put => st.listener.Storing?
    case Spawn => st.listener.Spawning? && st.listener.s in st.flows
    case Write => st.listener.Sending? && st.listener.s in st.flows && st.arrivals != []
    case WriteFails(cut) =>
      st.listener.Sending? && st.listener.s in st.flows && st.arrivals != []
      && cut <= |Frame(Last(st).datagram)|
    case ListenerUnlinks => st.listener.Unlink?
    case ListenerCloses => st.listener.Close? && st.listener.s in st.flows
    case Drain(k) => st.listener.Draining? && k in st.table && st.table[k] in st.flows
    case DrainEnds => st.listener.Draining? && st.table == map[]
  }

  predicate EnabledReader(st: State, step: Step)
    requires ReaderMoves(step)
  {
    match step
    case PeerSends(s, _) => s in st.flows
    case Deliver(s) => InPhase(st, s, Reading) && ParseFrame(st.flows[s].unread, MAX_DATAGRAM).Got?
    case ReadFails(s) => InPhase(st, s, Reading)
    case ReaderUnlinks(s) => InPhase(st, s, Phase.Unlinking) && !st.listener.Draining?
    case ReaderCloses(s) => InPhase(st, s, Phase.Closing)
  }

  predicate Enabled(c: Config, st: State, step: Step) {
    if ReaderMoves(step) then EnabledReader(st, step) else EnabledListener(c, st, step)
  }

  function Last(st: State): Arrival
    requires st.arrivals != []
  {
    st.arrivals[|st.arrivals| - 1]
  }

  /** The datagram in the listener's hands. */
  function Current(st: State): Offer
    requires st.arrivals != []
  {
    Offer(|st.arrivals| - 1, Last(st).datagram)
  }

  function Closed(st: State, s: StreamId): State
    requires s in st.flows
  {
    st.(flows := st.flows[s := st.flows[s].(closed := true)])
  }

  function Moved(st: State, s: StreamId, phase: Phase): State
    requires s in st.flows && st.flows[s].reader.Task?
  {
    var f := st.flows[s];
    st.(flows := st.flows[s := f.(reader := f.reader.(phase := phase))])
  }

  function ApplyListener(c: Config, st: State, step: Step): State
    requires !ReaderMoves(step) && EnabledListener(c, st, step)
  {
    match step
    case Receive(key, d) => st.(listener := Looking(key), arrivals := st.arrivals + [Arrival(key, d)])
    case ReceiveFails => st.(listener := Draining)
    case Lookup =>
      var key := st.listener.key;
      st.(listener := if key in st.table then Sending(key, st.table[key]) else Opening(key))
    case OpenFails => st.(listener := Receiving)
    case OpenAborts(s, cut) =>
      var f := Flow(st.listener.key, true, true, NotStarted, c.Head()[..cut], [], NoCut, [], []);
      st.(listener := Receiving, flows := st.flows[s := f])
    case Opens(s) =>
      var f := Flow(st.listener.key, false, false, NotStarted, c.Head(), [], NoCut, [], []);
      st.(listener := Storing(st.listener.key, s), flows := st.flows[s := f])
    case Put =>
      var Storing(key, s) := st.listener;
      st.(listener := Spawning(key, s), table := st.table[key := s])
    case Spawn =>
      var Spawning(key, s) := st.listener;
      var f := st.flows[s].(reader := Task(key, Reading));
      st.(listener := Sending(key, s), flows := st.flows[s := f])
    case Write =>
      var Sending(key, s) := st.listener;
      var f := st.flows[s];
      var g := f.(wire := f.wire + Frame(Last(st).datagram), whole := f.whole + [Current(st)]);
      st.(listener := Receiving, flows := st.flows[s := g])
    case WriteFails(cut) =>
      var Sending(key, s) := st.listener;
      var f := st.flows[s];
      var tail := Frame(Last(st).datagram)[..cut];
      var g := f.(wire := f.wire + tail, cut := Cut(Current(st), tail));
      st.(listener := Unlink(key, s), flows := st.flows[s := g])
    case ListenerUnlinks =>
      var Unlink(key, s) := st.listener;
      st.(listener := Close(s), table := Forget(st.table, key, s))
    case ListenerCloses => Closed(st, st.listener.s).(listener := Receiving)
    case Drain(k) => Closed(st, st.table[k]).(table := st.table - {k})
    case DrainEnds => st.(listener := Returned)
  }

  function ApplyReader(st: State, step: Step): State
    requires ReaderMoves(step) && EnabledReader(st, step)
  {
    match step
    case PeerSends(s, bytes) =>
      var f := st.flows[s];
      st.(flows := st.flows[s := f.(received := f.received + bytes, unread := f.unread + bytes)])
    case Deliver(s) =>
      var f := st.flows[s];
      var Got(d, rest) := ParseFrame(f.unread, MAX_DATAGRAM);
      st.(flows := st.flows[s := f.(unread := rest)], outbox := st.outbox + [Reply(s, f.reader.key, d)])
    case ReadFails(s) => Moved(st, s, Phase.Unlinking)
    case ReaderUnlinks(s) =>
      Moved(st, s, Phase.Closing).(table := Forget(st.table, st.flows[s].reader.key, s))
    case ReaderCloses(s) => Moved(Closed(st, s), s, Phase.Finished)
  }

  function Apply(c: Config, st: State, step: Step): State
    requires Enabled(c, st, step)
  {
    if ReaderMoves(step) then ApplyReader(st, step) else ApplyListener(c, st, step)
  }

  // ---------- Runs ----------

  predicate Runs(c: Config, steps: seq<Step>)
    decreases |steps|, 0
  {
    steps == []
    || (var before := steps[..|steps| - 1];
        Runs(c, before) && Enabled(c, After(c, before), steps[|steps| - 1]))
  }

  /** The state after a run. */
  function After(c: Config, steps: seq<Step>): State
    requires Runs(c, steps)
    decreases |steps|, 1
  {
    if steps == [] then INIT
    else Apply(c, After(c, steps[..|steps| - 1]), steps[|steps| - 1])
  }

  // ---------- Where every stream is ----------

  /** The stream is in the table under the source for which it was opened. */
  predicate Mapped(st: State, s: StreamId) {
    s in st.flows && st.flows[s].owner in st.table && st.table[st.flows[s].owner] == s
  }

  /** Somebody is about to put the stream into the table, or to close it. */
  predicate Held(st: State, s: StreamId) {
    || (st.listener.Storing? && st.listener.s == s)
    || (st.listener.Close? && st.listener.s == s)
    || InPhase(st, s, Phase.Closing)
  }

  predicate TableInv(st: State) {
    forall k :: k in st.table ==>
      && st.table[k] in st.flows
      && st.flows[st.table[k]].owner == k
      && !st.flows[st.table[k]].closed
  }

  predicate FlowInv(st: State, s: StreamId)
    requires s in st.flows
  {
    var f := st.flows[s];
    && (Mapped(st, s) || f.closed || Held(st, s))
    && (f.aborted ==> f.closed && f.reader.NotStarted?)
    && (f.reader.NotStarted? && !f.aborted ==>
          (st.listener.Storing? || st.listener.Spawning?) && st.listener.s == s)
    && (f.reader.Task? ==> f.reader.key == f.owner)
    && (f.reader.Task? && f.reader.phase in {Phase.Closing, Phase.Finished} ==> !Mapped(st, s))
    && (f.reader.Task? && f.reader.phase == Phase.Finished ==> f.closed)
    && (f.cut.Cut? ==> !Mapped(st, s) || (st.listener.Unlink? && st.listener.s == s))
  }

  predicate ListenerInv(st: State) {
    && (st.listener.Opening? ==> st.listener.key !in st.table)
    && (st.listener.Storing? ==>
          && st.listener.key !in st.table && st.listener.s in st.flows
          && st.flows[st.listener.s].reader.NotStarted? && !st.flows[st.listener.s].closed)
    && (st.listener.Spawning? ==>
          Mapped(st, st.listener.s) && st.flows[st.listener.s].reader.NotStarted?)
    && ((st.listener.Storing? || st.listener.Spawning? || st.listener.Sending? || st.listener.Unlink?) ==>
          && st.listener.s in st.flows
          && st.flows[st.listener.s].owner == st.listener.key
          && !st.flows[st.listener.s].aborted)
    && (st.listener.Sending? || st.listener.Unlink? ==> st.flows[st.listener.s].reader.Task?)
    && (st.listener.Storing? || st.listener.Spawning? || st.listener.Sending? ==> st.flows[st.listener.s].cut.NoCut?)
    && (st.listener.Close? ==> st.listener.s in st.flows && !Mapped(st, st.listener.s))
    && (st.listener.Returned? ==> st.table == map[])
  }

  predicate PlaceInv(st: State) {
    TableInv(st) && ListenerInv(st) && forall s :: s in st.flows ==> FlowInv(st, s)
  }

  lemma TableStepOfListener(c: Config, st: State, step: Step)
    requires PlaceInv(st) && !ReaderMoves(step) && EnabledListener(c, st, step)
    ensures TableInv(ApplyListener(c, st, step))
  {
  }

  lemma TableStepOfReader(st: State, step: Step)
    requires TableInv(st) && ReaderMoves(step) && EnabledReader(st, step) && FlowInv(st, step.s)
    ensures TableInv(ApplyReader(st, step))
  {
  }

  lemma ListenerStepOfListener(c: Config, st: State, step: Step)
    requires PlaceInv(st) && !ReaderMoves(step) && EnabledListener(c, st, step)
    ensures ListenerInv(ApplyListener(c, st, step))
  {
    if step.Lookup? && st.listener.key in st.table {
      assert FlowInv(st, st.table[st.listener.key]);
    }
  }

  lemma ListenerStepOfReader(st: State, step: Step)
    requires ListenerInv(st) && ReaderMoves(step) && EnabledReader(st, step) && FlowInv(st, step.s)
    ensures ListenerInv(ApplyReader(st, step))
  {
  }

  /** The listener's steps that change a flow, and not only its own position or the table. */
  predicate ChangesFlow(step: Step) {
    step.OpenAborts? || step.Opens? || step.Spawn? || step.Write? || step.WriteFails? || step.ListenerCloses? || step.Drain?
  }

  lemma FlowStepOfChange(c: Config, st: State, step: Step, s: StreamId)
    requires TableInv(st) && ListenerInv(st) && !ReaderMoves(step) && EnabledListener(c, st, step)
    requires ChangesFlow(step)
    requires s in ApplyListener(c, st, step).flows
    requires s in st.flows ==> FlowInv(st, s)
    ensures FlowInv(ApplyListener(c, st, step), s)
  {
  }

  lemma FlowStepOfOther(c: Config, st: State, step: Step, s: StreamId)
    requires TableInv(st) && ListenerInv(st) && !ReaderMoves(step) && EnabledListener(c, st, step)
    requires !ChangesFlow(step)
    requires s in ApplyListener(c, st, step).flows
    requires s in st.flows ==> FlowInv(st, s)
    ensures FlowInv(ApplyListener(c, st, step), s)
  {
  }

  lemma FlowStepOfListener(c: Config, st: State, step: Step, s: StreamId)
    requires TableInv(st) && ListenerInv(st) && !ReaderMoves(step) && EnabledListener(c, st, step)
    requires s in ApplyListener(c, st, step).flows
    requires s in st.flows ==> FlowInv(st, s)
    ensures FlowInv(ApplyListener(c, st, step), s)
  {
    if ChangesFlow(step) {
      FlowStepOfChange(c, st, step, s);
    } else {
      FlowStepOfOther(c, st, step, s);
    }
  }

  lemma FlowStepOfReader(st: State, step: Step, s: StreamId)
    requires TableInv(st) && ListenerInv(st) && ReaderMoves(step) && EnabledReader(st, step)
    requires s in st.flows && FlowInv(st, s) && FlowInv(st, step.s)
    ensures FlowInv(ApplyReader(st, step), s)
  {
  }

  lemma PlaceStep(c: Config, st: State, step: Step)
    requires PlaceInv(st) && Enabled(c, st, step)
    ensures PlaceInv(Apply(c, st, step))
  {
    if ReaderMoves(step) {
      TableStepOfReader(st, step);
      ListenerStepOfReader(st, step);
    } else {
      TableStepOfListener(c, st, step);
      ListenerStepOfListener(c, st, step);
    }
    forall s | s in Apply(c, st, step).flows
      ensures FlowInv(Apply(c, st, step), s)
    {
      if ReaderMoves(step) {
        FlowStepOfReader(st, step, s);
      } else {
        FlowStepOfListener(c, st, step, s);
      }
    }
  }

  // ---------- What every stream carries ----------

  function Payloads(offers: seq<Offer>): seq<Datagram> {
    seq(|offers|, i requires 0 <= i < |offers| => offers[i].datagram)
  }

  /** The replies taken off stream `s`, in order. */
  function RepliesOf(outbox: seq<Reply>, s: StreamId): seq<Datagram> {
    if outbox == [] then []
    else
      var r := outbox[|outbox| - 1];
      RepliesOf(outbox[..|outbox| - 1], s) + if r.stream == s then [r.datagram] else []
  }

  /** The listener is at work on the last arrival and has not offered it to a stream yet. */
  predicate InHand(st: State) {
    st.listener.Looking? || st.listener.Opening? || st.listener.Storing? || st.listener.Spawning? || st.listener.Sending?
  }

  /** Arrivals before this one may have been offered to a stream; the others have not. */
  function Unoffered(st: State): int {
    if InHand(st) then |st.arrivals| - 1 else |st.arrivals|
  }

  /** The offer is an arrival, before the given one, from the source that owns the stream. */
  predicate OfferOf(arrivals: seq<Arrival>, owner: Key, o: Offer, before: int) {
    o.at < before && o.at < |arrivals| && arrivals[o.at] == Arrival(owner, o.datagram)
  }

  predicate WireInv(c: Config, f: Flow) {
    if f.aborted then f.wire <= c.Head() && f.whole == [] && f.cut.NoCut?
    else
      && (f.cut.NoCut? ==> f.wire == c.Head() + Frames(Payloads(f.whole)))
      && (f.cut.Cut? ==>
            && f.wire == c.Head() + Frames(Payloads(f.whole)) + f.cut.tail
            && f.cut.tail <= Frame(f.cut.offer.datagram))
  }

  predicate OffersInv(arrivals: seq<Arrival>, before: int, f: Flow) {
    && (forall o :: o in f.whole ==> OfferOf(arrivals, f.owner, o, before))
    && (forall i, j :: 0 <= i < j < |f.whole| ==> f.whole[i].at < f.whole[j].at)
    && (f.cut.Cut? ==>
          && OfferOf(arrivals, f.owner, f.cut.offer, before)
          && forall o :: o in f.whole ==> o.at < f.cut.offer.at)
  }

  predicate HandInv(st: State) {
    InHand(st) ==> st.arrivals != [] && Last(st).key == st.listener.key
  }

  predicate CarryInv(c: Config, st: State) {
    && HandInv(st)
    && (forall s :: s in st.flows ==> WireInv(c, st.flows[s]))
    && (forall s :: s in st.flows ==> OffersInv(st.arrivals, Unoffered(st), st.flows[s]))
  }

  lemma PayloadsSnoc(offers: seq<Offer>, o: Offer)
    ensures Payloads(offers + [o]) == Payloads(offers) + [o.datagram]
  {
  }

  lemma RepliesSnoc(outbox: seq<Reply>, r: Reply, s: StreamId)
    ensures RepliesOf(outbox + [r], s) == RepliesOf(outbox, s) + if r.stream == s then [r.datagram] else []
  {
    assert (outbox + [r])[..|outbox|] == outbox;
  }

  lemma {:induction false} NoReplies(outbox: seq<Reply>, s: StreamId)
    requires forall r :: r in outbox ==> r.stream != s
    ensures RepliesOf(outbox, s) == []
  {
    if outbox != [] {
      assert outbox[|outbox| - 1] in outbox;
      NoReplies(outbox[..|outbox| - 1], s);
    }
  }

  /** The step writes datagram bytes to stream `s`. */
  predicate Writes(st: State, step: Step, s: StreamId) {
    (step.Write? || step.WriteFails?) && st.listener.Sending? && st.listener.s == s
  }

  predicate SameWire(f: Flow, g: Flow) {
    f.owner == g.owner && f.aborted == g.aborted && f.wire == g.wire && f.whole == g.whole && f.cut == g.cut
  }

  lemma ListenerKeepsWire(c: Config, st: State, step: Step, s: StreamId)
    requires !ReaderMoves(step) && EnabledListener(c, st, step) && s in st.flows && !Writes(st, step, s)
    ensures s in ApplyListener(c, st, step).flows && SameWire(st.flows[s], ApplyListener(c, st, step).flows[s])
  {
  }

  lemma ReaderKeepsWire(st: State, step: Step, s: StreamId)
    requires ReaderMoves(step) && EnabledReader(st, step) && s in st.flows
    ensures s in ApplyReader(st, step).flows && SameWire(st.flows[s], ApplyReader(st, step).flows[s])
  {
  }

  lemma OthersKeepWire(c: Config, st: State, step: Step, s: StreamId)
    requires Enabled(c, st, step) && s in st.flows && !Writes(st, step, s)
    ensures s in Apply(c, st, step).flows && SameWire(st.flows[s], Apply(c, st, step).flows[s])
  {
    if ReaderMoves(step) {
      ReaderKeepsWire(st, step, s);
    } else {
      ListenerKeepsWire(c, st, step, s);
    }
  }

  lemma ReaderKeepsHand(st: State, step: Step)
    requires ReaderMoves(step) && EnabledReader(st, step)
    ensures ApplyReader(st, step).arrivals == st.arrivals && ApplyReader(st, step).listener == st.listener
  {
  }

  lemma ListenerTakesHand(c: Config, st: State, step: Step)
    requires !ReaderMoves(step) && EnabledListener(c, st, step) && HandInv(st)
    ensures HandInv(ApplyListener(c, st, step))
    ensures st.arrivals <= ApplyListener(c, st, step).arrivals
    ensures Unoffered(st) <= Unoffered(ApplyListener(c, st, step))
  {
  }

  lemma ArrivalsGrow(c: Config, st: State, step: Step)
    requires Enabled(c, st, step) && HandInv(st)
    ensures HandInv(Apply(c, st, step))
    ensures st.arrivals <= Apply(c, st, step).arrivals
    ensures Unoffered(st) <= Unoffered(Apply(c, st, step))
  {
    if ReaderMoves(step) {
      ReaderKeepsHand(st, step);
    } else {
      ListenerTakesHand(c, st, step);
    }
  }

  lemma WireAfterWrite(c: Config, f: Flow, o: Offer)
    requires WireInv(c, f) && !f.aborted && f.cut.NoCut?
    ensures WireInv(c, f.(wire := f.wire + Frame(o.datagram), whole := f.whole + [o]))
  {
    PayloadsSnoc(f.whole, o);
    FramesSnoc(Payloads(f.whole), o.datagram);
    Assoc(c.Head(), Frames(Payloads(f.whole)), Frame(o.datagram));
  }

  lemma WireStep(c: Config, st: State, step: Step, s: StreamId)
    requires ListenerInv(st) && Enabled(c, st, step) && s in Apply(c, st, step).flows
    requires s in st.flows ==> WireInv(c, st.flows[s])
    ensures WireInv(c, Apply(c, st, step).flows[s])
  {
    if s !in st.flows {
      assert step.Opens? ==> Apply(c, st, step).flows[s].wire == c.Head() + [];
    } else if !Writes(st, step, s) {
      OthersKeepWire(c, st, step, s);
    } else if step.Write? {
      WireAfterWrite(c, st.flows[s], Current(st));
    }
  }

  lemma OffersAfterWrite(arrivals: seq<Arrival>, f: Flow, o: Offer)
    requires arrivals != [] && OffersInv(arrivals, |arrivals| - 1, f)
    requires f.cut.NoCut? && o.at == |arrivals| - 1 && OfferOf(arrivals, f.owner, o, |arrivals|)
    ensures OffersInv(arrivals, |arrivals|, f.(whole := f.whole + [o]))
    ensures forall tail :: OffersInv(arrivals, |arrivals|, f.(cut := Cut(o, tail)))
  {
    forall i | 0 <= i < |f.whole|
      ensures f.whole[i].at < o.at
    {
      assert f.whole[i] in f.whole;
    }
  }

  lemma OffersKept(st: State, next: State, f: Flow, g: Flow)
    requires OffersInv(st.arrivals, Unoffered(st), f) && SameWire(f, g)
    requires st.arrivals <= next.arrivals && Unoffered(st) <= Unoffered(next)
    ensures OffersInv(next.arrivals, Unoffered(next), g)
  {
  }

  lemma OffersOfWriter(c: Config, st: State, step: Step, s: StreamId)
    requires ListenerInv(st) && HandInv(st) && s in st.flows && Writes(st, step, s)
    requires EnabledListener(c, st, step) && OffersInv(st.arrivals, Unoffered(st), st.flows[s])
    ensures var next := ApplyListener(c, st, step); OffersInv(next.arrivals, Unoffered(next), next.flows[s])
  {
    OffersAfterWrite(st.arrivals, st.flows[s], Current(st));
  }

  lemma NewFlow(c: Config, st: State, step: Step, s: StreamId)
    requires Enabled(c, st, step) && s in Apply(c, st, step).flows && s !in st.flows
    ensures var f := Apply(c, st, step).flows[s];
            && f.whole == [] && f.cut.NoCut? && f.received == f.unread == []
            && (if f.aborted then f.wire <= c.Head() else f.wire == c.Head())
  {
  }

  lemma OffersStep(c: Config, st: State, step: Step, s: StreamId)
    requires ListenerInv(st) && HandInv(st) && Enabled(c, st, step) && s in Apply(c, st, step).flows
    requires s in st.flows ==> OffersInv(st.arrivals, Unoffered(st), st.flows[s])
    ensures var next := Apply(c, st, step); OffersInv(next.arrivals, Unoffered(next), next.flows[s])
  {
    if s !in st.flows {
      NewFlow(c, st, step, s);
    } else if Writes(st, step, s) {
      OffersOfWriter(c, st, step, s);
    } else {
      ArrivalsGrow(c, st, step);
      OthersKeepWire(c, st, step, s);
      OffersKept(st, Apply(c, st, step), st.flows[s], Apply(c, st, step).flows[s]);
    }
  }

  lemma NewReply(c: Config, st: State, s: StreamId)
    requires Enabled(c, st, Deliver(s)) && FlowInv(st, s)
    requires st.flows[s].received == Frames(RepliesOf(st.outbox, s)) + st.flows[s].unread
    ensures var next := Apply(c, st, Deliver(s));
            && next.outbox == st.outbox + [next.outbox[|st.outbox|]]
            && next.outbox[|st.outbox|].stream == s && next.outbox[|st.outbox|].to == st.flows[s].owner
            && next.flows[s].received == Frames(RepliesOf(next.outbox, s)) + next.flows[s].unread
  {
    var f := st.flows[s];
    var Got(d, rest) := ParseFrame(f.unread, MAX_DATAGRAM);
    RepliesSnoc(st.outbox, Reply(s, f.reader.key, d), s);
    TakeReply(f.received, RepliesOf(st.outbox, s), f.unread, d, rest);
  }

  lemma TakeReply(received: Bytes, taken: seq<Datagram>, unread: Bytes, d: Datagram, rest: Bytes)
    requires received == Frames(taken) + unread && ParseFrame(unread, MAX_DATAGRAM) == ParsedFrame.Got(d, rest)
    ensures received == Frames(taken + [d]) + rest
  {
    ParseFrameExact(unread, d, rest);
    FramesSnoc(taken, d);
    Assoc(Frames(taken), Frame(d), rest);
  }

  predicate SameReplies(f: Flow, g: Flow) {
    f.owner == g.owner && f.received == g.received && f.unread == g.unread
  }

  lemma ListenerKeepsReplies(c: Config, st: State, step: Step, s: StreamId)
    requires !ReaderMoves(step) && EnabledListener(c, st, step) && s in st.flows
    ensures s in ApplyListener(c, st, step).flows && SameReplies(st.flows[s], ApplyListener(c, st, step).flows[s])
    ensures ApplyListener(c, st, step).outbox == st.outbox
  {
  }

  lemma ReaderKeepsReplies(st: State, step: Step, s: StreamId)
    requires ReaderMoves(step) && EnabledReader(st, step) && s in st.flows
    requires !((step.PeerSends? || step.Deliver?) && step.s == s)
    ensures s in ApplyReader(st, step).flows && SameReplies(st.flows[s], ApplyReader(st, step).flows[s])
    ensures RepliesOf(ApplyReader(st, step).outbox, s) == RepliesOf(st.outbox, s)
  {
    if step.Deliver? {
      var Got(d, _) := ParseFrame(st.flows[step.s].unread, MAX_DATAGRAM);
      RepliesSnoc(st.outbox, Reply(step.s, st.flows[step.s].reader.key, d), s);
    }
  }

  lemma OthersKeepReplies(c: Config, st: State, step: Step, s: StreamId)
    requires Enabled(c, st, step) && s in st.flows && !((step.PeerSends? || step.Deliver?) && step.s == s)
    ensures s in Apply(c, st, step).flows && SameReplies(st.flows[s], Apply(c, st, step).flows[s])
    ensures RepliesOf(Apply(c, st, step).outbox, s) == RepliesOf(st.outbox, s)
  {
    if ReaderMoves(step) {
      ReaderKeepsReplies(st, step, s);
    } else {
      ListenerKeepsReplies(c, st, step, s);
    }
  }

  predicate ReplyOf(st: State, s: StreamId)
    requires s in st.flows
  {
    st.flows[s].received == Frames(RepliesOf(st.outbox, s)) + st.flows[s].unread
  }

  lemma PeerSendsKeepsReplies(c: Config, st: State, s: StreamId, bytes: Bytes)
    requires Enabled(c, st, PeerSends(s, bytes)) && ReplyOf(st, s)
    ensures ReplyOf(Apply(c, st, PeerSends(s, bytes)), s)
  {
    var f := st.flows[s];
    Assoc(Frames(RepliesOf(st.outbox, s)), f.unread, bytes);
  }

  lemma ReplyStep(c: Config, st: State, step: Step, s: StreamId)
    requires Addressed(st) && Enabled(c, st, step) && s in Apply(c, st, step).flows
    requires s in st.flows ==> FlowInv(st, s) && ReplyOf(st, s)
    ensures ReplyOf(Apply(c, st, step), s)
  {
    if s !in st.flows {
      NoReplies(st.outbox, s);
    } else if step.Deliver? && step.s == s {
      NewReply(c, st, s);
    } else if step.PeerSends? && step.s == s {
      PeerSendsKeepsReplies(c, st, s, step.bytes);
    } else {
      OthersKeepReplies(c, st, step, s);
    }
  }

  /** Every reply goes to the source that owns its stream. */
  predicate Addressed(st: State) {
    forall r :: r in st.outbox ==> r.stream in st.flows && st.flows[r.stream].owner == r.to
  }

  lemma AddressedStep(c: Config, st: State, step: Step)
    requires Addressed(st) && Enabled(c, st, step)
    requires step.Deliver? ==> FlowInv(st, step.s) && ReplyOf(st, step.s)
    ensures Addressed(Apply(c, st, step))
  {
    var next := Apply(c, st, step);
    forall r | r in next.outbox
      ensures r.stream in next.flows && next.flows[r.stream].owner == r.to
    {
      if step.Deliver? {
        NewReply(c, st, step.s);
      }
      if r in st.outbox && !(step.PeerSends? || step.Deliver?) {
        OthersKeepReplies(c, st, step, r.stream);
      }
    }
  }

  // ---------- Every run ----------

  predicate Inv(c: Config, st: State) {
    PlaceInv(st) && CarryInv(c, st) && Addressed(st) && forall s :: s in st.flows ==> ReplyOf(st, s)
  }

  lemma Preserved(c: Config, st: State, step: Step)
    requires Inv(c, st) && Enabled(c, st, step)
    ensures Inv(c, Apply(c, st, step))
  {
    var next := Apply(c, st, step);
    PlaceStep(c, st, step);
    ArrivalsGrow(c, st, step);
    AddressedStep(c, st, step);
    forall s | s in next.flows
      ensures WireInv(c, next.flows[s]) && OffersInv(next.arrivals, Unoffered(next), next.flows[s])
      ensures ReplyOf(next, s)
    {
      WireStep(c, st, step, s);
      OffersStep(c, st, step, s);
      ReplyStep(c, st, step, s);
    }
  }

  lemma {:induction false} RunInv(c: Config, steps: seq<Step>)
    requires Runs(c, steps)
    ensures Inv(c, After(c, steps))
    decreases |steps|
  {
    if steps != [] {
      var before := steps[..|steps| - 1];
      RunInv(c, before);
      Preserved(c, After(c, before), steps[|steps| - 1]);
    }
  }

  /**
   * In every run each stream that was opened is in the table under its own source, closed, or
   * about to be stored or closed; and no stream in the table has been closed.
   */
  lemma EveryStreamPlaced(c: Config, steps: seq<Step>, s: StreamId)
    requires Runs(c, steps) && s in After(c, steps).flows
    ensures var st := After(c, steps);
            && (Mapped(st, s) || st.flows[s].closed || Held(st, s))
            && !(Mapped(st, s) && st.flows[s].closed)
  {
    RunInv(c, steps);
    assert FlowInv(After(c, steps), s);
  }

  /** Once the listener has returned and its readers have finished, every stream is closed. */
  lemma NoStreamLeaks(c: Config, steps: seq<Step>)
    requires Runs(c, steps) && After(c, steps).listener.Returned?
    requires forall s :: s in After(c, steps).flows && After(c, steps).flows[s].reader.Task? ==>
               InPhase(After(c, steps), s, Phase.Finished)
    ensures forall s :: s in After(c, steps).flows ==> After(c, steps).flows[s].closed
  {
    RunInv(c, steps);
    var st := After(c, steps);
    forall s | s in st.flows
      ensures st.flows[s].closed
    {
      assert FlowInv(st, s);
    }
  }

  /** put never overwrites: in every run, when the listener stores a stream its source has none. */
  lemma PutIsFresh(c: Config, steps: seq<Step>)
    requires Runs(c, steps) && After(c, steps).listener.Storing?
    ensures After(c, steps).listener.key !in After(c, steps).table
  {
    RunInv(c, steps);
  }

  /**
   * A deleter, reader or listener, takes out of the table exactly its own stream: a flow
   * re-opened for the same source stays.
   */
  lemma StaleDeleteIsHarmless(c: Config, steps: seq<Step>, step: Step, k: Key)
    requires Runs(c, steps + [step]) && (step.ReaderUnlinks? || step.ListenerUnlinks?)
    ensures var st, next := After(c, steps), After(c, steps + [step]);
            var mine := if step.ReaderUnlinks? then step.s else st.listener.s;
            k in next.table <==> k in st.table && st.table[k] != mine
    ensures k in After(c, steps + [step]).table ==> After(c, steps + [step]).table[k] == After(c, steps).table[k]
  {
    assert (steps + [step])[..|steps|] == steps;
    RunInv(c, steps);
    UnlinkTakesOwn(c, After(c, steps), step, k);
  }

  lemma UnlinkTakesOwn(c: Config, st: State, step: Step, k: Key)
    requires PlaceInv(st) && Enabled(c, st, step) && (step.ReaderUnlinks? || step.ListenerUnlinks?)
    ensures var next := Apply(c, st, step);
            var mine := if step.ReaderUnlinks? then step.s else st.listener.s;
            && (k in next.table <==> k in st.table && st.table[k] != mine)
            && (k in next.table ==> next.table[k] == st.table[k])
  {
    if step.ReaderUnlinks? {
      assert FlowInv(st, step.s);
    }
  }

  /** After a failed write the listener never writes to that stream again. */
  lemma TornStreamStaysSilent(c: Config, steps: seq<Step>, step: Step, s: StreamId)
    requires Runs(c, steps + [step]) && s in After(c, steps).flows && After(c, steps).flows[s].cut.Cut?
    ensures s in After(c, steps + [step]).flows
    ensures After(c, steps + [step]).flows[s].wire == After(c, steps).flows[s].wire
    ensures After(c, steps + [step]).flows[s].cut == After(c, steps).flows[s].cut
  {
    assert (steps + [step])[..|steps|] == steps;
    RunInv(c, steps);
    OthersKeepWire(c, After(c, steps), step, s);
  }

  /** The listener can go on from where it is: in closeAll, it has a flow to close or is done. */
  ghost predicate CanGoOn(c: Config, st: State) {
    match st.listener
    case Receiving =>
      EnabledListener(c, st, ReceiveFails) && forall key, d :: EnabledListener(c, st, Receive(key, d))
    case Looking(_) => EnabledListener(c, st, Lookup)
    case Opening(_) =>
      && EnabledListener(c, st, OpenFails)
      && (forall s :: s !in st.flows ==> EnabledListener(c, st, Opens(s)))
      && (forall s, cut: nat :: s !in st.flows && cut <= |c.Head()| ==> EnabledListener(c, st, OpenAborts(s, cut)))
    case Storing(_, _) => EnabledListener(c, st, Put)
    case Spawning(_, _) => EnabledListener(c, st, Spawn)
    case Sending(_, _) =>
      && st.arrivals != [] && EnabledListener(c, st, Write)
      && forall cut: nat :: cut <= 2 + |Last(st).datagram| ==> EnabledListener(c, st, WriteFails(cut))
    case Unlink(_, _) => EnabledListener(c, st, ListenerUnlinks)
    case Close(_) => EnabledListener(c, st, ListenerCloses)
    case Draining =>
      EnabledListener(c, st, DrainEnds) || exists k :: k in st.table && EnabledListener(c, st, Drain(k))
    case Returned => true
  }

  lemma ListenerGoesOn(c: Config, st: State)
    requires TableInv(st) && ListenerInv(st) && HandInv(st)
    ensures CanGoOn(c, st)
  {
    if st.listener.Draining? && st.table != map[] {
      var k :| k in st.table;
      assert EnabledListener(c, st, Drain(k));
    }
  }

  /** The guards of the steps keep nobody waiting: in every run the listener can go on. */
  lemma ListenerNeverBlocked(c: Config, steps: seq<Step>)
    requires Runs(c, steps)
    ensures CanGoOn(c, After(c, steps))
  {
    RunInv(c, steps);
    ListenerGoesOn(c, After(c, steps));
  }

  /** After a failed read the reader never reads from that stream again. */
  lemma FinishedReaderStaysSilent(c: Config, steps: seq<Step>, step: Step, s: StreamId)
    requires Runs(c, steps + [step]) && s in After(c, steps).flows
    requires After(c, steps).flows[s].reader.Task? && After(c, steps).flows[s].reader.phase != Reading
    ensures var st, next := After(c, steps), After(c, steps + [step]);
            && s in next.flows && next.flows[s].reader.Task? && next.flows[s].reader.phase != Reading
            && RepliesOf(next.outbox, s) == RepliesOf(st.outbox, s)
  {
    assert (steps + [step])[..|steps|] == steps;
    RunInv(c, steps);
    SilentStep(c, After(c, steps), step, s);
  }

  lemma SilentStep(c: Config, st: State, step: Step, s: StreamId)
    requires ListenerInv(st) && Enabled(c, st, step) && s in st.flows
    requires st.flows[s].reader.Task? && st.flows[s].reader.phase != Reading
    ensures var next := Apply(c, st, step);
            && s in next.flows && next.flows[s].reader.Task? && next.flows[s].reader.phase != Reading
            && RepliesOf(next.outbox, s) == RepliesOf(st.outbox, s)
  {
    if step.Deliver? {
      OthersKeepReplies(c, st, step, s);
    }
  }

  /** All that was offered to a stream, the datagram of a failed write included. */
  function Offers(f: Flow): seq<Offer> {
    f.whole + if f.cut.Cut? then [f.cut.offer] else []
  }

  /** The offers are arrivals from one source, in their order of arrival. */
  predicate SubsequenceFrom(arrivals: seq<Arrival>, key: Key, offers: seq<Offer>) {
    && (forall i :: 0 <= i < |offers| ==>
          offers[i].at < |arrivals| && arrivals[offers[i].at] == Arrival(key, offers[i].datagram))
    && (forall i, j :: 0 <= i < j < |offers| ==> offers[i].at < offers[j].at)
  }

  lemma OffersAreArrivals(arrivals: seq<Arrival>, before: int, f: Flow)
    requires OffersInv(arrivals, before, f)
    ensures SubsequenceFrom(arrivals, f.owner, Offers(f))
  {
    forall i | 0 <= i < |Offers(f)|
      ensures OfferOf(arrivals, f.owner, Offers(f)[i], before)
    {
      assert i < |f.whole| ==> Offers(f)[i] in f.whole;
    }
    forall i, j | 0 <= i < j < |Offers(f)|
      ensures Offers(f)[i].at < Offers(f)[j].at
    {
      assert Offers(f)[i] == f.whole[i] && Offers(f)[i] in f.whole;
    }
  }

  lemma PrefixCancels(a: Bytes, b: Bytes, c: Bytes)
    requires a + b <= a + c
    ensures b <= c && (a + b == a + c ==> b == c)
  {
    assert forall i :: 0 <= i < |b| ==> b[i] == (a + b)[|a| + i];
    assert forall i :: 0 <= i < |c| ==> c[i] == (a + c)[|a| + i];
  }

  lemma FlowDelivers(c: Config, f: Flow, rest: Bytes)
    requires WireInv(c, f) && c.Head() + rest <= f.wire
    ensures DecodeAll(rest, MAX_DATAGRAM) <= Payloads(Offers(f))
    ensures c.Head() + rest == f.wire ==> Payloads(f.whole) <= DecodeAll(rest, MAX_DATAGRAM)
  {
    var done, tail := Payloads(f.whole), if f.cut.Cut? then f.cut.tail else [];
    if f.aborted {
      assert rest == [] && done == [];
    } else {
      Assoc(c.Head(), Frames(done), tail);
      assert Frames(done) + [] == Frames(done);
      PrefixCancels(c.Head(), rest, Frames(done) + tail);
    }
    if f.cut.Cut? {
      PayloadsSnoc(f.whole, f.cut.offer);
    } else {
      assert Offers(f) == f.whole;
    }
    RelayDelivers(Payloads(Offers(f)), done, tail, [], rest);
  }

  /**
   * Flow isolation.  Whatever part of a stream's bytes reaches the far end, ReadStreamHeader
   * finds there the header that open() wrote, and the datagrams decoded behind it are, in order
   * of arrival, datagrams of the one source that owns the stream.
   */
  lemma FlowIsolation(c: Config, steps: seq<Step>, s: StreamId, rest: Bytes)
    requires Runs(c, steps) && s in After(c, steps).flows
    requires c.Head() + rest <= After(c, steps).flows[s].wire
    ensures var st := After(c, steps);
            var f := st.flows[s];
            && ParseHeader(c.Head() + rest) == ParsedHeader.Got(c.kind, c.payload, rest)
            && SubsequenceFrom(st.arrivals, f.owner, Offers(f))
            && DecodeAll(rest, MAX_DATAGRAM) <= Payloads(Offers(f))
            && (c.Head() + rest == f.wire ==> Payloads(f.whole) <= DecodeAll(rest, MAX_DATAGRAM))
  {
    RunInv(c, steps);
    var f := After(c, steps).flows[s];
    OffersAreArrivals(After(c, steps).arrivals, Unoffered(After(c, steps)), f);
    ParseOfHeader(c.kind, c.payload, rest);
    FlowDelivers(c, f, rest);
  }

  /** Less than the header reaches the far end, or the header and more. */
  lemma HeaderArrives(c: Config, f: Flow, seen: Bytes)
    requires WireInv(c, f) && seen <= f.wire
    ensures match ParseHeader(seen)
            case Got(kind, payload, rest) => kind == c.kind && payload == c.payload && seen == c.Head() + rest
            case TooLong => false
            case Short => seen <= c.Head() && seen != c.Head()
  {
    if |seen| < |c.Head()| {
      assert f.cut.Cut? ==> f.wire == c.Head() + (Frames(Payloads(f.whole)) + f.cut.tail);
      assert seen <= c.Head();
      TornHeader(c.kind, c.payload, seen);
    } else {
      assert seen == c.Head() + seen[|c.Head()|..];
      ParseOfHeader(c.kind, c.payload, seen[|c.Head()|..]);
    }
  }

  /**
   * The far end of a flow, from its header to its relay loop: whatever part of the stream's bytes
   * arrives there, in whatever pieces, the target's socket is sent datagrams of the one source that
   * owns the stream, in order of arrival.  `admitted` is what the handler decides on the header.
   */
  method FarEnd(r: Reader, uc: PacketSocket, admitted: (Byte, Bytes) -> bool,
                ghost c: Config, ghost steps: seq<Step>, ghost s: StreamId)
    returns (status: HeaderStatus, refused: bool, ghost done: seq<Datagram>)
    requires Runs(c, steps) && s in After(c, steps).flows && r.Pending() <= After(c, steps).flows[s].wire
    modifies r, uc`outbox, uc`refusals
    ensures uc.refusals == old(uc.refusals) + if refused then 1 else 0
    ensures var st := After(c, steps);
            var f := st.flows[s];
            && uc.outbox == old(uc.outbox) + done && done <= Payloads(Offers(f))
            && SubsequenceFrom(st.arrivals, f.owner, Offers(f))
            && (status.Done? <==> c.Head() <= old(r.Pending()))
            && (!status.Done? || !admitted(c.kind, c.payload) ==> done == [])
            && (old(r.Pending()) == f.wire && !f.aborted && admitted(c.kind, c.payload) && !refused ==>
                  Payloads(f.whole) <= done)
  {
    ghost var f := After(c, steps).flows[s];
    ghost var seen := r.Pending();
    FlowFacts(c, steps, s, seen);
    var kind, payload;
    kind, payload, status := ReadStreamHeader(r);
    refused, done := false, [];
    if !status.Done? || !admitted(kind, payload) {
      return;
    }
    ghost var rest := r.Pending();
    FlowDelivers(c, f, rest);
    refused, done := RelayFromStream(r, uc);
  }

  lemma FlowFacts(c: Config, steps: seq<Step>, s: StreamId, seen: Bytes)
    requires Runs(c, steps) && s in After(c, steps).flows && seen <= After(c, steps).flows[s].wire
    ensures var st := After(c, steps);
            var f := st.flows[s];
            && WireInv(c, f) && SubsequenceFrom(st.arrivals, f.owner, Offers(f))
            && (!f.aborted ==> c.Head() <= f.wire)
            && match ParseHeader(seen)
               case Got(kind, payload, rest) => kind == c.kind && payload == c.payload && seen == c.Head() + rest
               case TooLong => false
               case Short => seen <= c.Head() && seen != c.Head()
  {
    RunInv(c, steps);
    var f := After(c, steps).flows[s];
    OffersAreArrivals(After(c, steps).arrivals, Unoffered(After(c, steps)), f);
    HeaderArrives(c, f, seen);
  }

  /**
   * The replies taken off a stream are the first datagrams its peer has sent, and each is
   * written to the source for which the stream was opened.
   */
  lemma RepliesReachTheOwner(c: Config, steps: seq<Step>, s: StreamId)
    requires Runs(c, steps) && s in After(c, steps).flows
    ensures var st := After(c, steps);
            && RepliesOf(st.outbox, s) <= DecodeAll(st.flows[s].received, MAX_DATAGRAM)
            && forall r :: r in st.outbox && r.stream == s ==> r.to == st.flows[s].owner
  {
    RunInv(c, steps);
    var st := After(c, steps);
    assert ReplyOf(st, s);
    DecodeAfterFrames(RepliesOf(st.outbox, s), st.flows[s].unread);
  }

  /**
   * A flow's replies end to end: when the peer's bytes are what its relay loop sent, or a part of
   * it, the replies written to the source are the first datagrams that the target's socket gave.
   */
  lemma RepliesComeFromTarget(c: Config, steps: seq<Step>, s: StreamId,
                              inbox: seq<Datagram>, done: seq<Datagram>, tail: Bytes, left: seq<Datagram>)
    requires Runs(c, steps) && s in After(c, steps).flows
    requires Relayed(inbox, done, tail, left) && After(c, steps).flows[s].received <= Frames(done) + tail
    ensures RepliesOf(After(c, steps).outbox, s) <= inbox
  {
    RepliesReachTheOwner(c, steps, s);
    RelayDelivers(inbox, done, tail, left, After(c, steps).flows[s].received);
  }
}
