/**
 * The path of a connection from the socket to an authenticated session: the asynchronous listener
 * with its carrier-handshake workers, the server's accept loop, and one handler per connection.
 * Channels are counters and a queue; a step is one channel operation, one Close, or the end of one
 * handshake.
 */
module AcceptPath {
  import opened Basics

  type Conn = nat

  const MAX_HANDSHAKE_WORKERS: nat := 512
  const QUEUE_CAPACITY: nat := 256
  const MAX_INFLIGHT_HANDSHAKES: nat := 1024

  // ---------- asyncListener ----------

  datatype Loop = Accepting | Acquiring(c: Conn) | Spawning(c: Conn) | Stopped

  /** A worker keeps its token until it has returned, whatever it did with its connection. */
  datatype Worker = SettingUp | Offering | Returning

  datatype Listener = Listener(
    loop: Loop,
    workers: map<Conn, Worker>,
    sem: nat,
    connCh: seq<Conn>,
    done: bool)

  datatype ListenerStep =
    | Accept(c: Conn)
    | AcceptFails
    | Acquire
    | AcquireAborts
    | Spawn
    | SetupDone(c: Conn)
    | SetupFails(c: Conn)
    | Enqueue(c: Conn)
    | Discard(c: Conn)
    | WorkerReturns(c: Conn)
    | CloseListener

  // ---------- Server.Run and handleConn ----------

  datatype Run = Waiting | AcquiringSlot(c: Conn) | SpawningHandler(c: Conn) | Returned

  datatype Phase = Authenticating | StartingMux | Established | Serving | Leaving

  datatype Handler = Handler(phase: Phase, slotReleased: bool)

  datatype Server = Server(
    run: Run,
    handlers: map<Conn, Handler>,
    hsSem: nat,
    done: bool,
    slotted: set<Conn>,       // every connection that has been given a slot
    released: multiset<Conn>) // every release of a slot

  datatype ServerStep =
    | Take
    | AcceptEnds
    | AcquireSlot
    | SlotAborts
    | SpawnHandler
    | AuthDone(c: Conn)
    | AuthFails(c: Conn)
    | MuxDone(c: Conn)
    | MuxFails(c: Conn)
    | ReleaseSlot(c: Conn)
    | SessionEnds(c: Conn)
    | HandlerReturns(c: Conn)
    | CloseServer

  datatype State = State(ln: Listener, srv: Server, accepted: set<Conn>, closed: multiset<Conn>)

  datatype Step = L(l: ListenerStep) | S(s: ServerStep)

  const INIT := State(
    Listener(Accepting, map[], 0, [], false),
    Server(Waiting, map[], 0, false, {}, multiset{}),
    {}, multiset{})

  predicate WorkerIn(ln: Listener, c: Conn, w: Worker) {
    c in ln.workers && ln.workers[c] == w
  }

  predicate HandlerIn(srv: Server, c: Conn, phase: Phase) {
    c in srv.handlers && srv.handlers[c].phase == phase
  }

  predicate EnabledL(st: State, step: ListenerStep) {
    var ln := st.ln;
    match step
    case Accept(c) => ln.loop.Accepting? && c !in st.accepted
    case AcceptFails => ln.loop.Accepting? && ln.done
    case Acquire => ln.loop.Acquiring? && ln.sem < MAX_HANDSHAKE_WORKERS
    case AcquireAborts => ln.loop.Acquiring? && ln.done
    case Spawn => ln.loop.Spawning?
    case SetupDone(c) => WorkerIn(ln, c, SettingUp)
    case SetupFails(c) => WorkerIn(ln, c, SettingUp)
    case Enqueue(c) => WorkerIn(ln, c, Offering) && |ln.connCh| < QUEUE_CAPACITY
    case Discard(c) => WorkerIn(ln, c, Offering) && ln.done
    case WorkerReturns(c) => WorkerIn(ln, c, Returning) && ln.sem > 0
    case CloseListener => true
  }

  function ApplyL(st: State, step: ListenerStep): State
    requires EnabledL(st, step)
  {
    var ln := st.ln;
    match step
    case Accept(c) => st.(ln := ln.(loop := Acquiring(c)), accepted := st.accepted + {c})
    case AcceptFails => st.(ln := ln.(loop := Stopped))
    case Acquire => st.(ln := ln.(loop := Spawning(ln.loop.c), sem := ln.sem + 1))
    case AcquireAborts => st.(ln := ln.(loop := Stopped), closed := st.closed + multiset{ln.loop.c})
    case Spawn => st.(ln := ln.(loop := Accepting, workers := ln.workers[ln.loop.c := SettingUp]))
    case SetupDone(c) => st.(ln := ln.(workers := ln.workers[c := Offering]))
    case SetupFails(c) => st.(ln := ln.(workers := ln.workers[c := Returning]), closed := st.closed + multiset{c})
    case Enqueue(c) => st.(ln := ln.(workers := ln.workers[c := Returning], connCh := ln.connCh + [c]))
    case Discard(c) => st.(ln := ln.(workers := ln.workers[c := Returning]), closed := st.closed + multiset{c})
    case WorkerReturns(c) => st.(ln := ln.(workers := ln.workers - {c}, sem := ln.sem - 1))
    case CloseListener => st.(ln := ln.(done := true))
  }

  predicate EnabledS(st: State, step: ServerStep) {
    var srv := st.srv;
    match step
    case Take => srv.run.Waiting? && st.ln.connCh != []
    case AcceptEnds => srv.run.Waiting? && st.ln.done
    case AcquireSlot => srv.run.AcquiringSlot? && srv.hsSem < MAX_INFLIGHT_HANDSHAKES
    case SlotAborts => srv.run.AcquiringSlot? && srv.done
    case SpawnHandler => srv.run.SpawningHandler?
    case AuthDone(c) => HandlerIn(srv, c, Authenticating)
    case AuthFails(c) => HandlerIn(srv, c, Authenticating)
    case MuxDone(c) => HandlerIn(srv, c, StartingMux)
    case MuxFails(c) => HandlerIn(srv, c, StartingMux)
    case ReleaseSlot(c) => HandlerIn(srv, c, Established) && (srv.handlers[c].slotReleased || srv.hsSem > 0)
    case SessionEnds(c) => HandlerIn(srv, c, Serving)
    case HandlerReturns(c) => HandlerIn(srv, c, Leaving) && (srv.handlers[c].slotReleased || srv.hsSem > 0)
    case CloseServer => true
  }

  /** releaseSlot: a receive from the semaphore the first time, nothing afterwards. */
  function Released(srv: Server, c: Conn): Server
    requires c in srv.handlers && (srv.handlers[c].slotReleased || srv.hsSem > 0)
  {
    if srv.handlers[c].slotReleased then srv
    else srv.(hsSem := srv.hsSem - 1, released := srv.released + multiset{c},
              handlers := srv.handlers[c := srv.handlers[c].(slotReleased := true)])
  }

  function Moved(srv: Server, c: Conn, phase: Phase): Server
    requires c in srv.handlers
  {
    srv.(handlers := srv.handlers[c := srv.handlers[c].(phase := phase)])
  }

  function ApplyS(st: State, step: ServerStep): State
    requires EnabledS(st, step)
  {
    var srv := st.srv;
    match step
    case Take =>
      st.(ln := st.ln.(connCh := st.ln.connCh[1..]), srv := srv.(run := AcquiringSlot(st.ln.connCh[0])))
    case AcceptEnds => st.(srv := srv.(run := Run.Returned))
    case AcquireSlot =>
      st.(srv := srv.(run := SpawningHandler(srv.run.c), hsSem := srv.hsSem + 1, slotted := srv.slotted + {srv.run.c}))
    case SlotAborts => st.(srv := srv.(run := Run.Returned), closed := st.closed + multiset{srv.run.c})
    case SpawnHandler =>
      st.(srv := srv.(run := Waiting, handlers := srv.handlers[srv.run.c := Handler(Authenticating, false)]))
    case AuthDone(c) => st.(srv := Moved(srv, c, StartingMux))
    case AuthFails(c) => st.(srv := Moved(srv, c, Leaving), closed := st.closed + multiset{c})
    case MuxDone(c) => st.(srv := Moved(srv, c, Established))
    case MuxFails(c) => st.(srv := Moved(srv, c, Leaving), closed := st.closed + multiset{c})
    case ReleaseSlot(c) => st.(srv := Moved(Released(srv, c), c, Serving))
    case SessionEnds(c) => st.(srv := Moved(srv, c, Leaving), closed := st.closed + multiset{c})
    case HandlerReturns(c) => var out := Released(srv, c); st.(srv := out.(handlers := out.handlers - {c}))
    case CloseServer => st.(srv := srv.(done := true))
  }

  predicate Enabled(st: State, step: Step) {
    match step
    case L(l) => EnabledL(st, l)
    case S(s) => EnabledS(st, s)
  }

  function Apply(st: State, step: Step): State
    requires Enabled(st, step)
  {
    match step
    case L(l) => ApplyL(st, l)
    case S(s) => ApplyS(st, s)
  }

  predicate Runs(st: State, steps: seq<Step>)
    decreases |steps|
  {
    steps == [] || (Enabled(st, steps[0]) && Runs(Apply(st, steps[0]), steps[1..]))
  }

  function After(st: State, steps: seq<Step>): State
    requires Runs(st, steps)
    decreases |steps|
  {
    if steps == [] then st else After(Apply(st, steps[0]), steps[1..])
  }

  // ---------- Ownership ----------

  function Occurs(q: seq<Conn>, c: Conn): nat {
    if q == [] then 0 else One(q[0] == c) + Occurs(q[1..], c)
  }

  lemma {:induction false} OccursSnoc(q: seq<Conn>, d: Conn, c: Conn)
    ensures Occurs(q + [d], c) == Occurs(q, c) + One(d == c)
  {
    if q != [] {
      assert (q + [d])[1..] == q[1..] + [d];
      OccursSnoc(q[1..], d, c);
    }
  }

  lemma {:induction false} OccursIn(q: seq<Conn>, c: Conn)
    ensures c in q <==> Occurs(q, c) > 0
  {
    if q != [] {
      OccursIn(q[1..], c);
    }
  }

  predicate InLoop(ln: Listener, c: Conn) {
    (ln.loop.Acquiring? || ln.loop.Spawning?) && ln.loop.c == c
  }

  predicate InWorker(ln: Listener, c: Conn) {
    WorkerIn(ln, c, SettingUp) || WorkerIn(ln, c, Offering)
  }

  predicate InRun(srv: Server, c: Conn) {
    (srv.run.AcquiringSlot? || srv.run.SpawningHandler?) && srv.run.c == c
  }

  predicate InHandler(srv: Server, c: Conn) {
    c in srv.handlers && !srv.handlers[c].phase.Leaving?
  }

  /** The number of places in which a connection is, counting every Close of it. */
  function Places(st: State, c: Conn): nat {
    One(InLoop(st.ln, c)) + One(InWorker(st.ln, c)) + Occurs(st.ln.connCh, c)
      + One(InRun(st.srv, c)) + One(InHandler(st.srv, c)) + st.closed[c]
  }

  predicate OwnedOnce(st: State, c: Conn) {
    Places(st, c) == One(c in st.accepted)
  }

  /** A goroutine that has let go of its connection has closed it or handed it on. */
  predicate KeysInv(st: State, c: Conn) {
    && (c in st.ln.workers ==> c in st.accepted && !InLoop(st.ln, c))
    && (c in st.srv.handlers && st.srv.handlers[c].phase.Leaving? ==> st.closed[c] > 0)
    && (c in st.srv.slotted ==>
          (st.srv.run.SpawningHandler? && st.srv.run.c == c) || c in st.srv.handlers || st.closed[c] > 0)
  }

  lemma OwnedEnqueue(st: State, d: Conn, c: Conn)
    requires EnabledL(st, Enqueue(d)) && OwnedOnce(st, c)
    ensures OwnedOnce(ApplyL(st, Enqueue(d)), c)
  {
    OccursSnoc(st.ln.connCh, d, c);
  }

  lemma OwnedStepL(st: State, step: ListenerStep, c: Conn)
    requires EnabledL(st, step) && OwnedOnce(st, c) && KeysInv(st, c)
    ensures OwnedOnce(ApplyL(st, step), c)
  {
    if step.Enqueue? {
      OwnedEnqueue(st, step.c, c);
    } else {
      assert ApplyL(st, step).ln.connCh == st.ln.connCh;
    }
  }

  lemma KeysStepL(st: State, step: ListenerStep, c: Conn)
    requires EnabledL(st, step) && OwnedOnce(st, c) && KeysInv(st, c)
    ensures KeysInv(ApplyL(st, step), c)
  {
  }

  /** The steps of the handlers; the others are those of the server's loop and of Close. */
  predicate HandlerMoves(step: ServerStep) {
    || step.AuthDone? || step.AuthFails? || step.MuxDone? || step.MuxFails?
    || step.ReleaseSlot? || step.SessionEnds? || step.HandlerReturns?
  }

  lemma OwnedStepRun(st: State, step: ServerStep, c: Conn)
    requires EnabledS(st, step) && !HandlerMoves(step) && OwnedOnce(st, c) && KeysInv(st, c)
    ensures OwnedOnce(ApplyS(st, step), c)
  {
  }

  lemma OwnedStepHandler(st: State, step: ServerStep, c: Conn)
    requires EnabledS(st, step) && HandlerMoves(step) && OwnedOnce(st, c) && KeysInv(st, c)
    ensures OwnedOnce(ApplyS(st, step), c)
  {
  }

  lemma KeysStepS(st: State, step: ServerStep, c: Conn)
    requires EnabledS(st, step) && OwnedOnce(st, c) && KeysInv(st, c)
    ensures KeysInv(ApplyS(st, step), c)
  {
  }

  lemma OtherHalfUntouched(st: State, step: ListenerStep)
    requires EnabledL(st, step)
    ensures ApplyL(st, step).srv == st.srv && st.accepted <= ApplyL(st, step).accepted
  {
  }

  // ---------- Tokens ----------

  /** The handlers that still hold their slot. */
  function SlotHolders(srv: Server): set<Conn> {
    set c | c in srv.handlers && !srv.handlers[c].slotReleased
  }

  predicate SlotHeld(srv: Server, c: Conn) {
    (srv.run.SpawningHandler? && srv.run.c == c) || c in SlotHolders(srv)
  }

  predicate TokenInv(st: State) {
    && st.ln.sem == One(st.ln.loop.Spawning?) + |st.ln.workers| <= MAX_HANDSHAKE_WORKERS
    && |st.ln.connCh| <= QUEUE_CAPACITY
    && st.srv.hsSem == One(st.srv.run.SpawningHandler?) + |SlotHolders(st.srv)| <= MAX_INFLIGHT_HANDSHAKES
  }

  /** Serving handlers hold no slot, those before hold theirs, and every slot is released once. */
  predicate SlotInv(srv: Server, c: Conn) {
    && (c in srv.handlers && srv.handlers[c].phase.Serving? ==> srv.handlers[c].slotReleased)
    && (c in srv.handlers && !srv.handlers[c].phase.Serving? && !srv.handlers[c].phase.Leaving? ==>
          !srv.handlers[c].slotReleased)
    && srv.released[c] + One(SlotHeld(srv, c)) == One(c in srv.slotted)
    && (c in srv.handlers ==> c in srv.slotted)
  }

  predicate ConnInv(st: State, c: Conn) {
    OwnedOnce(st, c) && KeysInv(st, c) && SlotInv(st.srv, c)
  }

  ghost predicate Inv(st: State) {
    TokenInv(st) && st.srv.slotted <= st.accepted && forall c :: ConnInv(st, c)
  }

  lemma SizeOfRemoval<T, U>(m: map<T, U>, k: T)
    requires k in m
    ensures |m - {k}| == |m| - 1
  {
    assert m.Keys == (m - {k}).Keys + {k};
    assert |m.Keys| == |m| && |(m - {k}).Keys| == |m - {k}|;
  }

  lemma TokenStepL(st: State, step: ListenerStep)
    requires TokenInv(st) && EnabledL(st, step)
    requires step.Spawn? ==> st.ln.loop.c !in st.ln.workers
    ensures TokenInv(ApplyL(st, step))
  {
    if step.WorkerReturns? {
      SizeOfRemoval(st.ln.workers, step.c);
    }
  }

  lemma HoldersStep(st: State, step: ServerStep)
    requires EnabledS(st, step)
    ensures SlotHolders(ApplyS(st, step).srv) ==
            if step.SpawnHandler? then SlotHolders(st.srv) + {st.srv.run.c}
            else if step.ReleaseSlot? || step.HandlerReturns? then SlotHolders(st.srv) - {step.c}
            else SlotHolders(st.srv)
  {
  }

  lemma TokenStepS(st: State, step: ServerStep)
    requires TokenInv(st) && EnabledS(st, step)
    requires step.SpawnHandler? ==> st.srv.run.c !in st.srv.handlers
    ensures TokenInv(ApplyS(st, step))
  {
    HoldersStep(st, step);
  }

  lemma SlotStepRun(st: State, step: ServerStep, c: Conn)
    requires EnabledS(st, step) && !HandlerMoves(step) && SlotInv(st.srv, c) && OwnedOnce(st, c) && KeysInv(st, c)
    ensures SlotInv(ApplyS(st, step).srv, c)
  {
  }

  lemma SlotStepHandler(st: State, step: ServerStep, c: Conn)
    requires EnabledS(st, step) && HandlerMoves(step) && SlotInv(st.srv, c) && OwnedOnce(st, c) && KeysInv(st, c)
    ensures SlotInv(ApplyS(st, step).srv, c)
  {
  }

  lemma ConnStepL(st: State, step: ListenerStep, c: Conn)
    requires EnabledL(st, step) && ConnInv(st, c)
    ensures ConnInv(ApplyL(st, step), c)
  {
    OwnedStepL(st, step, c);
    KeysStepL(st, step, c);
    OtherHalfUntouched(st, step);
  }

  lemma ConnStepS(st: State, step: ServerStep, c: Conn)
    requires EnabledS(st, step) && ConnInv(st, c)
    ensures ConnInv(ApplyS(st, step), c)
  {
    KeysStepS(st, step, c);
    if HandlerMoves(step) {
      OwnedStepHandler(st, step, c);
      SlotStepHandler(st, step, c);
    } else {
      OwnedStepRun(st, step, c);
      SlotStepRun(st, step, c);
    }
  }

  lemma PreservedL(st: State, step: ListenerStep)
    requires Inv(st) && EnabledL(st, step)
    ensures Inv(ApplyL(st, step))
  {
    var next := ApplyL(st, step);
    OtherHalfUntouched(st, step);
    if step.Spawn? {
      assert ConnInv(st, st.ln.loop.c);
    }
    TokenStepL(st, step);
    forall c
      ensures ConnInv(next, c)
    {
      assert ConnInv(st, c);
      ConnStepL(st, step, c);
    }
  }

  lemma SlottedStep(st: State, step: ServerStep)
    requires Inv(st) && EnabledS(st, step)
    ensures ApplyS(st, step).srv.slotted <= ApplyS(st, step).accepted
    ensures step.SpawnHandler? ==> st.srv.run.c !in st.srv.handlers
  {
    if step.SpawnHandler? || step.AcquireSlot? {
      assert ConnInv(st, st.srv.run.c);
    }
  }

  lemma PreservedS(st: State, step: ServerStep)
    requires Inv(st) && EnabledS(st, step)
    ensures Inv(ApplyS(st, step))
  {
    var next := ApplyS(st, step);
    SlottedStep(st, step);
    TokenStepS(st, step);
    forall c
      ensures ConnInv(next, c)
    {
      assert ConnInv(st, c);
      ConnStepS(st, step, c);
    }
  }

  lemma Preserved(st: State, step: Step)
    requires Inv(st) && Enabled(st, step)
    ensures Inv(Apply(st, step))
  {
    match step
    case L(l) => PreservedL(st, l);
    case S(s) => PreservedS(st, s);
  }

  lemma {:induction false} RunInv(st: State, steps: seq<Step>)
    requires Inv(st) && Runs(st, steps)
    ensures Inv(After(st, steps))
    decreases |steps|
  {
    if steps != [] {
      Preserved(st, steps[0]);
      RunInv(Apply(st, steps[0]), steps[1..]);
    }
  }

  lemma ReachableInv(steps: seq<Step>)
    requires Runs(INIT, steps)
    ensures Inv(After(INIT, steps))
  {
    forall c
      ensures ConnInv(INIT, c)
    {
    }
    RunInv(INIT, steps);
  }

  // ---------- Every run ----------

  /**
   * In every run each accepted connection is in exactly one place: with the accept loop, with one
   * worker, in the queue, with the server's loop, with one handler, or closed, and then once.
   */
  lemma ExactlyOnePlace(steps: seq<Step>, c: Conn)
    requires Runs(INIT, steps)
    ensures Places(After(INIT, steps), c) == One(c in After(INIT, steps).accepted)
  {
    ReachableInv(steps);
    assert ConnInv(After(INIT, steps), c);
  }

  /** Both semaphores count exactly the holders of their tokens and never pass their bounds. */
  lemma TokensConserved(steps: seq<Step>)
    requires Runs(INIT, steps)
    ensures TokenInv(After(INIT, steps))
    ensures var st := After(INIT, steps);
            st.ln.sem <= 512 && |st.ln.connCh| <= 256 && st.srv.hsSem <= 1024
    ensures var st := After(INIT, steps);
            forall c :: WorkerIn(st.ln, c, Returning) ==> EnabledL(st, WorkerReturns(c))
  {
    ReachableInv(steps);
  }

  /**
   * A connection that was given a handshake slot has released it once, or holds it still; a handler
   * that serves a session holds none; and no release ever waits on an empty semaphore.
   */
  lemma SlotReleasedOnce(steps: seq<Step>, c: Conn)
    requires Runs(INIT, steps)
    ensures var srv := After(INIT, steps).srv;
            && srv.released[c] + One(SlotHeld(srv, c)) == One(c in srv.slotted)
            && (HandlerIn(srv, c, Serving) ==> !SlotHeld(srv, c))
            && (c in srv.handlers && !srv.handlers[c].slotReleased ==> srv.hsSem > 0)
  {
    ReachableInv(steps);
    var st := After(INIT, steps);
    assert ConnInv(st, c);
    if c in SlotHolders(st.srv) {
      assert SlotHolders(st.srv) == (SlotHolders(st.srv) - {c}) + {c};
    }
  }

  /** The connections accepted and neither closed nor yet serving a session. */
  function HalfOpen(st: State): set<Conn> {
    set c | c in st.accepted && st.closed[c] == 0 && !HandlerIn(st.srv, c, Serving)
  }

  lemma UnionBound<T>(a: set<T>, b: set<T>)
    ensures |a + b| <= |a| + |b|
  {
    assert a + b == a + (b - a);
    assert b == (b - a) + (b * a);
  }

  function Elements(q: seq<Conn>): set<Conn> {
    set c | c in q
  }

  lemma {:induction false} ElementsBound(q: seq<Conn>)
    ensures |Elements(q)| <= |q|
  {
    if q == [] {
      assert Elements(q) == {};
    } else {
      ElementsBound(q[1..]);
      assert Elements(q) == Elements(q[1..]) + {q[0]};
    }
  }

  /** The connections in the hands of the two loops. */
  function Hands(st: State): (s: set<Conn>)
    ensures |s| <= 2
  {
    (if st.ln.loop.Acquiring? || st.ln.loop.Spawning? then {st.ln.loop.c} else {})
    + (if st.srv.run.AcquiringSlot? || st.srv.run.SpawningHandler? then {st.srv.run.c} else {})
  }

  lemma HalfOpenPlace(st: State, c: Conn)
    requires OwnedOnce(st, c) && SlotInv(st.srv, c) && c in HalfOpen(st)
    ensures c in Hands(st) || c in st.ln.workers.Keys || c in Elements(st.ln.connCh) || c in SlotHolders(st.srv)
  {
    OccursIn(st.ln.connCh, c);
  }

  lemma FourBound(all: set<Conn>, a: set<Conn>, b: set<Conn>, c: set<Conn>, d: set<Conn>)
    requires forall x :: x in all ==> x in a || x in b || x in c || x in d
    ensures |all| <= |a| + |b| + |c| + |d|
  {
    UnionBound(a, b);
    UnionBound(a + b, c);
    UnionBound(a + b + c, d);
    var whole := a + b + c + d;
    assert whole == all + (whole - all);
  }

  /**
   * However many peers connect and stay silent, the server never has more half-open connections
   * than one in each loop, one per worker, a full queue, and one per handshake slot.
   */
  lemma HalfOpenBound(steps: seq<Step>)
    requires Runs(INIT, steps)
    ensures |HalfOpen(After(INIT, steps))|
            <= 1 + 512 + 256 + 1 + 1024
  {
    ReachableInv(steps);
    var st := After(INIT, steps);
    forall c | c in HalfOpen(st)
      ensures c in Hands(st) || c in st.ln.workers.Keys || c in Elements(st.ln.connCh) || c in SlotHolders(st.srv)
    {
      assert ConnInv(st, c);
      HalfOpenPlace(st, c);
    }
    FourBound(HalfOpen(st), Hands(st), st.ln.workers.Keys, Elements(st.ln.connCh), SlotHolders(st.srv));
    ElementsBound(st.ln.connCh);
    assert |st.ln.workers.Keys| == |st.ln.workers|;
  }

  // ---------- Why a connection is where it is ----------

  /** The step closes connection c: it fails its set-up or its handshake, aborts it or ends it. */
  predicate Ends(st: State, step: Step, c: Conn)
    requires Enabled(st, step)
  {
    match step
    case L(AcquireAborts) => st.ln.loop.c == c
    case L(SetupFails(d)) => d == c
    case L(Discard(d)) => d == c
    case S(SlotAborts) => st.srv.run.c == c
    case S(AuthFails(d)) => d == c
    case S(MuxFails(d)) => d == c
    case S(SessionEnds(d)) => d == c
    case _ => false
  }

  function Endings(st: State, steps: seq<Step>, c: Conn): nat
    requires Runs(st, steps)
    decreases |steps|
  {
    if steps == [] then 0
    else One(Ends(st, steps[0], c)) + Endings(Apply(st, steps[0]), steps[1..], c)
  }

  lemma ClosesStep(st: State, step: Step, c: Conn)
    requires Enabled(st, step)
    ensures Apply(st, step).closed[c] == st.closed[c] + One(Ends(st, step, c))
  {
  }

  lemma {:induction false} ClosesFrom(st: State, steps: seq<Step>, c: Conn)
    requires Runs(st, steps)
    ensures After(st, steps).closed[c] == st.closed[c] + Endings(st, steps, c)
    decreases |steps|
  {
    if steps != [] {
      ClosesStep(st, steps[0], c);
      ClosesFrom(Apply(st, steps[0]), steps[1..], c);
    }
  }

  /**
   * No connection is closed without a cause: in every run the Closes of c are exactly the steps that
   * fail it, abort it or end its session, and with ExactlyOnePlace there is at most one.
   */
  lemma ClosedForCause(steps: seq<Step>, c: Conn)
    requires Runs(INIT, steps)
    ensures After(INIT, steps).closed[c] == Endings(INIT, steps, c) <= 1
  {
    ClosesFrom(INIT, steps, c);
    ExactlyOnePlace(steps, c);
  }

  /** Among the steps is this one. */
  predicate Occurred(steps: seq<Step>, step: Step) {
    steps != [] && (steps[0] == step || Occurred(steps[1..], step))
  }

  lemma FlagsStep(st: State, step: Step, c: Conn)
    requires Enabled(st, step)
    ensures var next := Apply(st, step);
            && (next.ln.done <==> st.ln.done || step == L(CloseListener))
            && (next.srv.done <==> st.srv.done || step == S(CloseServer))
            && (c in next.accepted <==> c in st.accepted || step == L(Accept(c)))
  {
  }

  lemma {:induction false} FlagsFrom(st: State, steps: seq<Step>, c: Conn)
    requires Runs(st, steps)
    ensures var end := After(st, steps);
            && (end.ln.done <==> st.ln.done || Occurred(steps, L(CloseListener)))
            && (end.srv.done <==> st.srv.done || Occurred(steps, S(CloseServer)))
            && (c in end.accepted <==> c in st.accepted || Occurred(steps, L(Accept(c))))
    decreases |steps|
  {
    if steps != [] {
      FlagsStep(st, steps[0], c);
      FlagsFrom(Apply(st, steps[0]), steps[1..], c);
    }
  }

  /** Listener and server are closed by their Close alone, and a connection is known once accepted. */
  lemma ClosedByClose(steps: seq<Step>, c: Conn)
    requires Runs(INIT, steps)
    ensures After(INIT, steps).ln.done <==> Occurred(steps, L(CloseListener))
    ensures After(INIT, steps).srv.done <==> Occurred(steps, S(CloseServer))
    ensures c in After(INIT, steps).accepted <==> Occurred(steps, L(Accept(c)))
  {
    FlagsFrom(INIT, steps, c);
  }

  /** The step is a Close of the listener or of the server. */
  predicate Closes(step: Step) {
    step == L(CloseListener) || step == S(CloseServer)
  }

  /** The step fails connection c of its own accord, or ends its session. */
  function OwnEnd(step: Step, c: Conn): nat {
    One(step == L(SetupFails(c))) + One(step == S(AuthFails(c))) + One(step == S(MuxFails(c))) + One(step == S(SessionEnds(c)))
  }

  function OwnEnds(steps: seq<Step>, c: Conn): nat {
    if steps == [] then 0 else OwnEnd(steps[0], c) + OwnEnds(steps[1..], c)
  }

  predicate Undisturbed(st: State) {
    !st.ln.done && !st.srv.done && !st.ln.loop.Stopped? && !st.srv.run.Returned?
  }

  lemma UndisturbedStep(st: State, step: Step, c: Conn)
    requires Undisturbed(st) && Enabled(st, step) && !Closes(step)
    ensures Undisturbed(Apply(st, step)) && One(Ends(st, step, c)) == OwnEnd(step, c)
  {
  }

  lemma {:induction false} UndisturbedFrom(st: State, steps: seq<Step>, c: Conn)
    requires Undisturbed(st) && Runs(st, steps) && forall step :: step in steps ==> !Closes(step)
    ensures Undisturbed(After(st, steps)) && Endings(st, steps, c) == OwnEnds(steps, c)
    decreases |steps|
  {
    if steps != [] {
      assert steps[0] in steps;
      UndisturbedStep(st, steps[0], c);
      UndisturbedFrom(Apply(st, steps[0]), steps[1..], c);
    }
  }

  /**
   * Until one of the two is closed neither loop ends, and no connection is closed but for what happens
   * to itself: its set-up, its handshake or its mux fails, or its session ends.
   */
  lemma NothingAbortsBeforeClose(steps: seq<Step>, c: Conn)
    requires Runs(INIT, steps) && forall step :: step in steps ==> !Closes(step)
    ensures !After(INIT, steps).ln.loop.Stopped? && !After(INIT, steps).srv.run.Returned?
    ensures After(INIT, steps).closed[c] == OwnEnds(steps, c)
  {
    UndisturbedFrom(INIT, steps, c);
    ClosedForCause(steps, c);
  }

  /** How far a handler has come: past the handshake, and past the start of the mux. */
  predicate PastAuth(srv: Server, c: Conn) {
    HandlerIn(srv, c, StartingMux) || PastMux(srv, c)
  }

  predicate PastMux(srv: Server, c: Conn) {
    HandlerIn(srv, c, Established) || HandlerIn(srv, c, Serving)
  }

  lemma PhaseStep(st: State, step: ServerStep, c: Conn)
    requires EnabledS(st, step)
    ensures var srv := ApplyS(st, step).srv;
            && (PastAuth(srv, c) ==> PastAuth(st.srv, c) || step == AuthDone(c))
            && (PastMux(srv, c) ==> PastMux(st.srv, c) || step == MuxDone(c))
            && (HandlerIn(srv, c, Serving) ==> HandlerIn(st.srv, c, Serving) || step == ReleaseSlot(c))
  {
  }

  lemma {:induction false} PhaseFrom(st: State, steps: seq<Step>, c: Conn)
    requires Runs(st, steps)
    ensures var end := After(st, steps);
            && (PastAuth(end.srv, c) ==> PastAuth(st.srv, c) || Occurred(steps, S(AuthDone(c))))
            && (PastMux(end.srv, c) ==> PastMux(st.srv, c) || Occurred(steps, S(MuxDone(c))))
            && (HandlerIn(end.srv, c, Serving) ==> HandlerIn(st.srv, c, Serving) || Occurred(steps, S(ReleaseSlot(c))))
    decreases |steps|
  {
    if steps != [] {
      match steps[0] {
        case L(l) => OtherHalfUntouched(st, l);
        case S(s) => PhaseStep(st, s, c);
      }
      PhaseFrom(Apply(st, steps[0]), steps[1..], c);
    }
  }

  /** Nobody is served who has not authenticated, started a mux and given back the handshake slot. */
  lemma ServedOnlyIfAuthenticated(steps: seq<Step>, c: Conn)
    requires Runs(INIT, steps) && HandlerIn(After(INIT, steps).srv, c, Serving)
    ensures Occurred(steps, S(AuthDone(c))) && Occurred(steps, S(MuxDone(c))) && Occurred(steps, S(ReleaseSlot(c)))
  {
    PhaseFrom(INIT, steps, c);
  }

  /**
   * And whoever authenticates can be served: in every run a handler in its handshake can go on to
   * serve the session, with its connection open, its slot given back and nothing else changed.
   */
  lemma AuthenticatedCanBeServed(steps: seq<Step>, c: Conn)
    requires Runs(INIT, steps) && HandlerIn(After(INIT, steps).srv, c, Authenticating)
    ensures var st, rest := After(INIT, steps), [S(AuthDone(c)), S(MuxDone(c)), S(ReleaseSlot(c))];
            && Runs(st, rest)
            && st.closed[c] == 0 && st.srv.hsSem > 0
            && After(st, rest) ==
               st.(srv := st.srv.(handlers := st.srv.handlers[c := Handler(Serving, true)],
                                  hsSem := st.srv.hsSem - 1,
                                  released := st.srv.released + multiset{c}))
  {
    ReachableInv(steps);
    var st := After(INIT, steps);
    assert ConnInv(st, c);
    SlotReleasedOnce(steps, c);
    ServeSteps(st, c);
  }

  lemma ServeSteps(st: State, c: Conn)
    requires HandlerIn(st.srv, c, Authenticating) && !st.srv.handlers[c].slotReleased && st.srv.hsSem > 0
    ensures var rest := [S(AuthDone(c)), S(MuxDone(c)), S(ReleaseSlot(c))];
            && Runs(st, rest)
            && After(st, rest) ==
               st.(srv := st.srv.(handlers := st.srv.handlers[c := Handler(Serving, true)],
                                  hsSem := st.srv.hsSem - 1,
                                  released := st.srv.released + multiset{c}))
  {
    var one := Apply(st, S(AuthDone(c)));
    var two := Apply(one, S(MuxDone(c)));
    var three := Apply(two, S(ReleaseSlot(c)));
    assert three.srv.handlers == st.srv.handlers[c := Handler(Serving, true)];
    RunsFirst(two, S(ReleaseSlot(c)), []);
    RunsFirst(one, S(MuxDone(c)), [S(ReleaseSlot(c))]);
    RunsFirst(st, S(AuthDone(c)), [S(MuxDone(c)), S(ReleaseSlot(c))]);
  }

  lemma RunsFirst(st: State, step: Step, rest: seq<Step>)
    requires Enabled(st, step) && Runs(Apply(st, step), rest)
    ensures Runs(st, [step] + rest) && After(st, [step] + rest) == After(Apply(st, step), rest)
  {
    assert ([step] + rest)[1..] == rest;
  }

  /**
   * Nobody waits but for a full channel, and nothing keeps a step from failing: the accept loop waits
   * exactly while 512 workers run, a worker exactly while 256 connections are queued, the server's loop
   * exactly while 1024 handlers hold their slot.
   */
  lemma WaitsOnlyWhenFull(steps: seq<Step>, c: Conn)
    requires Runs(INIT, steps)
    ensures var st := After(INIT, steps);
            && (st.ln.loop.Accepting? && c !in st.accepted ==> EnabledL(st, Accept(c)))
            && (st.ln.loop.Acquiring? ==> (EnabledL(st, Acquire) <==> |st.ln.workers| < 512))
            && (WorkerIn(st.ln, c, SettingUp) ==> EnabledL(st, SetupDone(c)) && EnabledL(st, SetupFails(c)))
            && (WorkerIn(st.ln, c, Offering) ==> (EnabledL(st, Enqueue(c)) <==> |st.ln.connCh| < 256))
    ensures var st := After(INIT, steps);
            && (st.srv.run.Waiting? ==> (EnabledS(st, Take) <==> |st.ln.connCh| > 0))
            && (st.srv.run.AcquiringSlot? ==> (EnabledS(st, AcquireSlot) <==> |SlotHolders(st.srv)| < 1024))
            && (HandlerIn(st.srv, c, Authenticating) ==> EnabledS(st, AuthDone(c)) && EnabledS(st, AuthFails(c)))
            && (HandlerIn(st.srv, c, StartingMux) ==> EnabledS(st, MuxDone(c)) && EnabledS(st, MuxFails(c)))
            && (HandlerIn(st.srv, c, Serving) ==> EnabledS(st, SessionEnds(c)))
  {
    ReachableInv(steps);
  }

  // ---------- The queue ----------

  function Enqueued(steps: seq<Step>): seq<Conn> {
    if steps == [] then []
    else (match steps[0] case L(Enqueue(c)) => [c] case _ => []) + Enqueued(steps[1..])
  }

  function Taken(st: State, steps: seq<Step>): seq<Conn>
    requires Runs(st, steps)
    decreases |steps|
  {
    if steps == [] then []
    else (if steps[0] == S(Take) then [st.ln.connCh[0]] else []) + Taken(Apply(st, steps[0]), steps[1..])
  }

  lemma QueueStep(st: State, step: Step)
    requires Enabled(st, step)
    ensures st.ln.connCh + (match step case L(Enqueue(c)) => [c] case _ => [])
         == (if step == S(Take) then [st.ln.connCh[0]] else []) + Apply(st, step).ln.connCh
  {
  }

  lemma {:induction false} QueueFrom(st: State, steps: seq<Step>)
    requires Runs(st, steps)
    ensures st.ln.connCh + Enqueued(steps) == Taken(st, steps) + After(st, steps).ln.connCh
    decreases |steps|
  {
    if steps == [] {
      assert st.ln.connCh + [] == [] + st.ln.connCh;
    } else {
      var next := Apply(st, steps[0]);
      var put := match steps[0] case L(Enqueue(c)) => [c] case _ => [];
      var got := if steps[0] == S(Take) then [st.ln.connCh[0]] else [];
      QueueStep(st, steps[0]);
      QueueFrom(next, steps[1..]);
      SeqSwap(st.ln.connCh, put, Enqueued(steps[1..]), got, next.ln.connCh, Taken(next, steps[1..]), After(st, steps).ln.connCh);
    }
  }

  lemma SeqSwap(q: seq<Conn>, put: seq<Conn>, puts: seq<Conn>, got: seq<Conn>, q': seq<Conn>, gots: seq<Conn>, q'': seq<Conn>)
    requires q + put == got + q' && q' + puts == gots + q''
    ensures q + (put + puts) == (got + gots) + q''
  {
    assert q + (put + puts) == (q + put) + puts;
    assert (got + q') + puts == got + (q' + puts);
    assert got + (gots + q'') == (got + gots) + q'';
  }

  /** The server takes connections in the order in which the workers queued them, and none is lost. */
  lemma FirstInFirstOut(steps: seq<Step>)
    requires Runs(INIT, steps)
    ensures Enqueued(steps) == Taken(INIT, steps) + After(INIT, steps).ln.connCh
  {
    QueueFrom(INIT, steps);
    assert [] + Enqueued(steps) == Enqueued(steps);
  }

  // ---------- Winding down ----------

  /** Every goroutine of the path has returned. */
  predicate AllReturned(st: State) {
    st.ln.loop.Stopped? && st.ln.workers == map[] && st.srv.run.Returned? && st.srv.handlers == map[]
  }

  /**
   * The step waits on no peer.  Setting up a carrier and authenticating have deadlines, so they can
   * always fail; a session that is being served may last as long as its peer likes.
   */
  predicate Urgent(step: Step) {
    match step
    case L(l) => !l.Accept? && !l.SetupDone? && !l.CloseListener?
    case S(s) => !s.AuthDone? && !s.SessionEnds? && !s.CloseServer?
  }

  /** Every goroutine has returned but for the handlers of sessions. */
  predicate OnlySessionsLeft(st: State) {
    && st.ln.loop.Stopped? && st.ln.workers == map[] && st.srv.run.Returned?
    && forall c :: c in st.srv.handlers ==> st.srv.handlers[c].phase.Serving?
  }

  // The measure of winding down: first the accept loop, then its workers, then the server's loop and
  // its handlers.
  function LoopRank(ln: Listener): nat {
    match ln.loop case Stopped => 0 case Spawning(_) => 2 case _ => 1
  }

  function Busy(ln: Listener): set<Conn> {
    set c | c in ln.workers && !ln.workers[c].Returning?
  }

  function RunRank(srv: Server): nat {
    match srv.run case Returned => 0 case SpawningHandler(_) => 2 case _ => 1
  }

  function Early(srv: Server): set<Conn> {
    set c | c in srv.handlers && (srv.handlers[c].phase.Authenticating? || srv.handlers[c].phase.StartingMux?)
  }

  function NewlyEstablished(srv: Server): set<Conn> {
    set c | c in srv.handlers && srv.handlers[c].phase.Established?
  }

  predicate ListenerWinds(ln: Listener, next: Listener) {
    || LoopRank(next) < LoopRank(ln)
    || (LoopRank(next) == LoopRank(ln) && Busy(next) < Busy(ln))
    || (LoopRank(next) == LoopRank(ln) && Busy(next) == Busy(ln) && next.workers.Keys < ln.workers.Keys)
  }

  predicate ServerWinds(srv: Server, next: Server) {
    || RunRank(next) < RunRank(srv)
    || (RunRank(next) == RunRank(srv) && Early(next) < Early(srv))
    || (RunRank(next) == RunRank(srv) && Early(next) == Early(srv) && NewlyEstablished(next) < NewlyEstablished(srv))
    || (RunRank(next) == RunRank(srv) && Early(next) == Early(srv) && NewlyEstablished(next) == NewlyEstablished(srv)
        && next.handlers.Keys < srv.handlers.Keys)
  }

  lemma NextListenerStep(st: State) returns (l: ListenerStep)
    requires Inv(st) && st.ln.done && !(st.ln.loop.Stopped? && st.ln.workers == map[])
    ensures EnabledL(st, l) && Urgent(L(l)) && ListenerWinds(st.ln, ApplyL(st, l).ln) && ApplyL(st, l).ln.done
  {
    if !st.ln.loop.Stopped? {
      l := match st.ln.loop case Accepting => AcceptFails case Acquiring(_) => AcquireAborts case _ => Spawn;
    } else {
      var c :| c in st.ln.workers;
      l := NextWorkerStep(st, c);
    }
  }

  lemma NextWorkerStep(st: State, c: Conn) returns (l: ListenerStep)
    requires Inv(st) && st.ln.done && c in st.ln.workers
    ensures EnabledL(st, l) && Urgent(L(l)) && ListenerWinds(st.ln, ApplyL(st, l).ln) && ApplyL(st, l).ln.done
  {
    l := match st.ln.workers[c]
      case SettingUp => SetupFails(c)
      case Offering => Discard(c)
      case Returning => WorkerReturns(c);
    var ln, next := st.ln, ApplyL(st, l).ln;
    if ln.workers[c].Returning? {
      assert Busy(next) == Busy(ln) && c !in next.workers.Keys;
    } else {
      assert c in Busy(ln) && c !in Busy(next);
    }
  }

  lemma NextHandlerStep(st: State, c: Conn) returns (s: ServerStep)
    requires Inv(st) && c in st.srv.handlers && !st.srv.handlers[c].phase.Serving?
    ensures EnabledS(st, s) && Urgent(S(s)) && ServerWinds(st.srv, ApplyS(st, s).srv)
    ensures ApplyS(st, s).ln == st.ln && ApplyS(st, s).srv.done == st.srv.done
  {
    if c in SlotHolders(st.srv) {
      assert SlotHolders(st.srv) == (SlotHolders(st.srv) - {c}) + {c};
    }
    s := match st.srv.handlers[c].phase
      case Authenticating => AuthFails(c)
      case StartingMux => MuxDone(c)
      case Established => ReleaseSlot(c)
      case _ => HandlerReturns(c);
    HandlerWinds(st, c, s);
  }

  lemma HandlerWinds(st: State, c: Conn, s: ServerStep)
    requires c in st.srv.handlers && EnabledS(st, s)
    requires match st.srv.handlers[c].phase
             case Authenticating => s == AuthFails(c)
             case StartingMux => s == MuxDone(c)
             case Established => s == ReleaseSlot(c)
             case Leaving => s == HandlerReturns(c)
             case Serving => false
    ensures ServerWinds(st.srv, ApplyS(st, s).srv)
    ensures ApplyS(st, s).ln == st.ln && ApplyS(st, s).srv.done == st.srv.done
  {
    var srv, next := st.srv, ApplyS(st, s).srv;
    match srv.handlers[c].phase {
      case Authenticating => assert c in Early(srv) && c !in Early(next);
      case StartingMux => assert c in Early(srv) && c !in Early(next);
      case Established =>
        assert Early(next) == Early(srv) && c in NewlyEstablished(srv) && c !in NewlyEstablished(next);
      case Leaving =>
        assert Early(next) == Early(srv) && NewlyEstablished(next) == NewlyEstablished(srv) && c !in next.handlers.Keys;
    }
  }

  lemma NextServerStep(st: State) returns (s: ServerStep)
    requires Inv(st) && st.ln.done && st.srv.done && st.ln.loop.Stopped? && st.ln.workers == map[] && !OnlySessionsLeft(st)
    ensures EnabledS(st, s) && Urgent(S(s)) && ServerWinds(st.srv, ApplyS(st, s).srv)
    ensures ApplyS(st, s).ln == st.ln && ApplyS(st, s).srv.done
  {
    if !st.srv.run.Returned? {
      s := match st.srv.run case Waiting => AcceptEnds case AcquiringSlot(_) => SlotAborts case _ => SpawnHandler;
    } else {
      var c :| c in st.srv.handlers && !st.srv.handlers[c].phase.Serving?;
      s := NextHandlerStep(st, c);
    }
  }

  lemma NextUrgent(st: State) returns (step: Step)
    requires Inv(st) && st.ln.done && st.srv.done && !OnlySessionsLeft(st)
    ensures Enabled(st, step) && Urgent(step)
    ensures var next := Apply(st, step);
            && next.ln.done && next.srv.done
            && (ListenerWinds(st.ln, next.ln) || (next.ln == st.ln && ServerWinds(st.srv, next.srv)))
  {
    if !(st.ln.loop.Stopped? && st.ln.workers == map[]) {
      var l := NextListenerStep(st);
      step := L(l);
      OtherHalfUntouched(st, l);
    } else {
      var s := NextServerStep(st);
      step := S(s);
    }
  }

  lemma {:induction false} WindDown(st: State) returns (steps: seq<Step>)
    requires Inv(st) && st.ln.done && st.srv.done
    ensures Runs(st, steps) && OnlySessionsLeft(After(st, steps))
    ensures forall step :: step in steps ==> Urgent(step)
    decreases LoopRank(st.ln), Busy(st.ln), st.ln.workers.Keys,
              RunRank(st.srv), Early(st.srv), NewlyEstablished(st.srv), st.srv.handlers.Keys
  {
    if OnlySessionsLeft(st) {
      steps := [];
    } else {
      var step := NextUrgent(st);
      Preserved(st, step);
      var rest := WindDown(Apply(st, step));
      RunsFirst(st, step, rest);
      steps := [step] + rest;
    }
  }

  /**
   * The path winds down: in every run in which listener and server have been closed, steps that wait
   * on no peer lead on until nothing is left but the handlers of sessions.
   */
  lemma NeverStuck(steps: seq<Step>) returns (more: seq<Step>)
    requires Runs(INIT, steps) && After(INIT, steps).ln.done && After(INIT, steps).srv.done
    ensures Runs(After(INIT, steps), more) && OnlySessionsLeft(After(After(INIT, steps), more))
    ensures forall step :: step in more ==> Urgent(step)
  {
    ReachableInv(steps);
    more := WindDown(After(INIT, steps));
  }

  /**
   * When all have returned, exactly the connections left in the queue are open: Close does not
   * drain it.
   */
  lemma ClosedUnlessQueued(steps: seq<Step>, c: Conn)
    requires Runs(INIT, steps) && AllReturned(After(INIT, steps)) && c in After(INIT, steps).accepted
    ensures c in After(INIT, steps).closed <==> c !in After(INIT, steps).ln.connCh
  {
    ExactlyOnePlace(steps, c);
    OccursIn(After(INIT, steps).ln.connCh, c);
  }

  /** And there may be one: a worker that has the choice may queue its connection after Close. */
  lemma QueuedOutlivesClose()
    ensures exists steps :: Runs(INIT, steps) && AllReturned(After(INIT, steps)) && After(INIT, steps).ln.connCh == [7]
  {
    var steps := WorkerOffers();
    steps := Extend(steps, L(CloseListener));
    steps := Extend(steps, L(AcceptFails));
    steps := Extend(steps, S(AcceptEnds));
    steps := Extend(steps, L(Enqueue(7)));
    steps := Extend(steps, L(WorkerReturns(7)));
  }

  lemma WorkerOffers() returns (steps: seq<Step>)
    ensures Runs(INIT, steps)
    ensures After(INIT, steps) == State(Listener(Accepting, map[7 := Offering], 1, [], false), INIT.srv, {7}, multiset{})
  {
    steps := [];
    steps := Extend(steps, L(Accept(7)));
    steps := Extend(steps, L(Acquire));
    steps := Extend(steps, L(Spawn));
    steps := Extend(steps, L(SetupDone(7)));
  }

  lemma Extend(steps: seq<Step>, step: Step) returns (longer: seq<Step>)
    requires Runs(INIT, steps) && Enabled(After(INIT, steps), step)
    ensures Runs(INIT, longer) && After(INIT, longer) == Apply(After(INIT, steps), step)
  {
    RunsSnoc(INIT, steps, step);
    longer := steps + [step];
  }

  lemma {:induction false} RunsSnoc(st: State, steps: seq<Step>, step: Step)
    requires Runs(st, steps) && Enabled(After(st, steps), step)
    ensures Runs(st, steps + [step]) && After(st, steps + [step]) == Apply(After(st, steps), step)
    decreases |steps|
  {
    if steps == [] {
      assert [step][1..] == [];
    } else {
      assert (steps + [step])[1..] == steps[1..] + [step];
      RunsSnoc(Apply(st, steps[0]), steps[1..], step);
    }
  }

  // ---------- One connection, from the socket to its session and back ----------

  function Listening(workers: map<Conn, Worker>, sem: nat, connCh: seq<Conn>): Listener {
    Listener(Accepting, workers, sem, connCh, false)
  }

  lemma ReachesQueue(c: Conn) returns (steps: seq<Step>)
    ensures Runs(INIT, steps)
    ensures After(INIT, steps) == State(Listening(map[], 0, [c]), INIT.srv, {c}, multiset{})
  {
    steps := [];
    steps := Extend(steps, L(Accept(c)));
    steps := Extend(steps, L(Acquire));
    steps := Extend(steps, L(Spawn));
    steps := Extend(steps, L(SetupDone(c)));
    steps := Extend(steps, L(Enqueue(c)));
    steps := Extend(steps, L(WorkerReturns(c)));
    assert map[c := Returning] - {c} == map[];
  }

  lemma ReachesHandler(c: Conn) returns (steps: seq<Step>)
    ensures Runs(INIT, steps)
    ensures After(INIT, steps) ==
            State(Listening(map[], 0, []),
                  Server(Waiting, map[c := Handler(Authenticating, false)], 1, false, {c}, multiset{}),
                  {c}, multiset{})
  {
    steps := ReachesQueue(c);
    assert [c][1..] == [];
    steps := Extend(steps, S(Take));
    steps := Extend(steps, S(AcquireSlot));
    steps := Extend(steps, S(SpawnHandler));
  }

  /** A connection that nothing fails comes to be served, and then holds no token of either semaphore. */
  lemma ReachesSession(c: Conn) returns (steps: seq<Step>)
    ensures Runs(INIT, steps)
    ensures After(INIT, steps) ==
            State(Listening(map[], 0, []),
                  Server(Waiting, map[c := Handler(Serving, true)], 0, false, {c}, multiset{c}),
                  {c}, multiset{})
  {
    steps := ReachesHandler(c);
    steps := Extend(steps, S(AuthDone(c)));
    steps := Extend(steps, S(MuxDone(c)));
    steps := Extend(steps, S(ReleaseSlot(c)));
  }

  /** When its session ends it is closed, once, and its handler is gone. */
  lemma ReachesEnd(c: Conn) returns (steps: seq<Step>)
    ensures Runs(INIT, steps)
    ensures After(INIT, steps) ==
            State(Listening(map[], 0, []), Server(Waiting, map[], 0, false, {c}, multiset{c}), {c}, multiset{c})
  {
    steps := ReachesSession(c);
    steps := Extend(steps, S(SessionEnds(c)));
    steps := Extend(steps, S(HandlerReturns(c)));
    assert map[c := Handler(Leaving, true)] - {c} == map[];
  }
}
