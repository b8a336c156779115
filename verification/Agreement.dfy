/**
 * Any number of clients and of server sessions over a network that delivers, drops, repeats and
 * invents bytes at will.  Nonces are drawn fresh and the MAC is ideal: a tag verifies only for an
 * input that some honest party has tagged.
 */
module Agreement {
  import opened Basics
  import opened Bytes
  import opened ReplayWindow
  import opened Handshake

  type ClientId = nat
  type ServerId = nat

  datatype Outcome = Waiting | Completed(serverNonce: Nonce) | Failed

  datatype Client = Client(ts: Stamp, nonce: Nonce, outcome: Outcome)

  /** A session the server has accepted, at a position of its log of attempts. */
  datatype Session = Session(ts: Stamp, clientNonce: Nonce, serverNonce: Nonce, at: nat)

  datatype State = State(
    issued: set<Bytes>,              // every MAC input an honest party has tagged
    clients: map<ClientId, Client>,
    sessions: map<ServerId, Session>,
    log: seq<Attempt>)               // every hello the server has read, in the order of its mutex

  datatype Setup = Setup(hmac: Hmac, token: Bytes)

  datatype Step =
    | ClientSpeaks(c: ClientId, unix: int, nonce: Nonce)
    | ServerReads(s: ServerId, hello: Bytes, clock: int, now: int, locked: int, serverNonce: Nonce)
    | ClientReads(c: ClientId, reply: Bytes)

  const INIT := State({}, map[], map[], [])

  function AttemptIn(e: Setup, step: Step): Attempt
    requires step.ServerReads? && |step.hello| == CLIENT_HELLO_LEN
  {
    AttemptOf(e.hmac, e.token, step.hello, step.clock, step.now, step.locked)
  }

  predicate Accepts(e: Setup, st: State, step: Step)
    requires step.ServerReads? && |step.hello| == CLIENT_HELLO_LEN
  {
    Verdict(AttemptIn(e, step), SeenAt(st.log, |st.log|)).Done?
  }

  predicate Enabled(e: Setup, st: State, step: Step) {
    match step
    case ClientSpeaks(c, unix, nonce) =>
      && c !in st.clients && 0 <= unix < TWO_63
      && (forall d :: d in st.clients ==> st.clients[d].nonce != nonce)
    case ServerReads(s, hello, _, _, _, serverNonce) =>
      && s !in st.sessions && |hello| == CLIENT_HELLO_LEN
      && (forall t :: t in st.sessions ==> st.sessions[t].serverNonce != serverNonce)
      && (AttemptIn(e, step).authentic ==> ClientInput(hello[..8], hello[8..40]) in st.issued)
    case ClientReads(c, reply) =>
      && c in st.clients && st.clients[c].outcome.Waiting? && |reply| == SERVER_HELLO_LEN
      && (Verifies(e.hmac, e.token, st.clients[c].nonce, reply) ==>
            ServerInput(st.clients[c].nonce, reply[..32]) in st.issued)
  }

  function Apply(e: Setup, st: State, step: Step): State
    requires Enabled(e, st, step)
  {
    match step
    case ClientSpeaks(c, unix, nonce) =>
      var ts := StampOf(unix);
      st.(issued := st.issued + {ClientInput(ts, nonce)}, clients := st.clients[c := Client(ts, nonce, Waiting)])
    case ServerReads(s, hello, _, _, _, serverNonce) =>
      var logged := st.(log := st.log + [AttemptIn(e, step)]);
      if !Accepts(e, st, step) then logged
      else
        logged.(
          issued := st.issued + {ServerInput(hello[8..40], serverNonce)},
          sessions := st.sessions[s := Session(hello[..8], hello[8..40], serverNonce, |st.log|)])
    case ClientReads(c, reply) =>
      var k := st.clients[c];
      var outcome := if Verifies(e.hmac, e.token, k.nonce, reply) then Completed(reply[..32]) else Failed;
      st.(clients := st.clients[c := k.(outcome := outcome)])
  }

  // ---------- Runs ----------

  predicate Runs(e: Setup, steps: seq<Step>)
    decreases |steps|, 0
  {
    steps == []
    || (var before := steps[..|steps| - 1];
        Runs(e, before) && Enabled(e, After(e, before), steps[|steps| - 1]))
  }

  function After(e: Setup, steps: seq<Step>): State
    requires Runs(e, steps)
    decreases |steps|, 1
  {
    if steps == [] then INIT
    else Apply(e, After(e, steps[..|steps| - 1]), steps[|steps| - 1])
  }

  lemma RunsSnoc(e: Setup, steps: seq<Step>, step: Step)
    requires Runs(e, steps) && Enabled(e, After(e, steps), step)
    ensures Runs(e, steps + [step]) && After(e, steps + [step]) == Apply(e, After(e, steps), step)
  {
    assert (steps + [step])[..|steps|] == steps;
  }

  // ---------- What every run keeps ----------

  /** Client c sent a hello with these fields. */
  ghost predicate Sent(st: State, c: ClientId, ts: Bytes, nonce: Bytes) {
    c in st.clients && st.clients[c].ts == ts && st.clients[c].nonce == nonce
  }

  /** Session s answered this client nonce with this server nonce. */
  ghost predicate Answered(st: State, s: ServerId, clientNonce: Bytes, serverNonce: Bytes) {
    s in st.sessions && st.sessions[s].clientNonce == clientNonce && st.sessions[s].serverNonce == serverNonce
  }

  ghost predicate ClientNoncesDistinct(st: State) {
    forall c, d :: c in st.clients && d in st.clients && st.clients[c].nonce == st.clients[d].nonce ==> c == d
  }

  ghost predicate ServerNoncesDistinct(st: State) {
    forall s, t :: s in st.sessions && t in st.sessions && st.sessions[s].serverNonce == st.sessions[t].serverNonce
                   ==> s == t
  }

  ghost predicate IssuedBy(st: State, x: Bytes) {
    || (exists c :: c in st.clients && x == ClientInput(st.clients[c].ts, st.clients[c].nonce))
    || (exists s :: s in st.sessions && x == ServerInput(st.sessions[s].clientNonce, st.sessions[s].serverNonce))
  }

  /** Every tag that verifies was made by a client for its hello or by a session for its answer. */
  ghost predicate IssuedInv(st: State) {
    forall x :: x in st.issued ==> IssuedBy(st, x)
  }

  /** The session's hello is some client's, and its entry in the log is an acceptance of it. */
  ghost predicate SessionInv(st: State, s: ServerId)
    requires s in st.sessions
  {
    var k := st.sessions[s];
    && (exists c :: Sent(st, c, k.ts, k.clientNonce))
    && k.at < |st.log| && Accepted(st.log, k.at) && st.log[k.at].ts == TimeOf(k.ts) && st.log[k.at].nonce == k.clientNonce
  }

  ghost predicate PlacesDistinct(st: State) {
    forall s, t :: s in st.sessions && t in st.sessions && st.sessions[s].at == st.sessions[t].at ==> s == t
  }

  ghost predicate SessionsInv(st: State) {
    PlacesDistinct(st) && forall s :: s in st.sessions ==> SessionInv(st, s)
  }

  ghost predicate CompletedInv(st: State) {
    forall c :: c in st.clients && st.clients[c].outcome.Completed? ==>
      exists s :: Answered(st, s, st.clients[c].nonce, st.clients[c].outcome.serverNonce)
  }

  ghost predicate Inv(st: State) {
    && ClientNoncesDistinct(st) && ServerNoncesDistinct(st)
    && IssuedInv(st) && SessionsInv(st) && CompletedInv(st)
  }

  lemma IssuedForClient(st: State, ts: Stamp, nonce: Nonce) returns (c: ClientId)
    requires IssuedInv(st) && ClientInput(ts, nonce) in st.issued
    ensures Sent(st, c, ts, nonce)
  {
    forall s | s in st.sessions
      ensures ClientInput(ts, nonce) != ServerInput(st.sessions[s].clientNonce, st.sessions[s].serverNonce)
    {
      InputsDisjoint(ts, nonce, st.sessions[s].clientNonce, st.sessions[s].serverNonce);
    }
    c :| c in st.clients && ClientInput(ts, nonce) == ClientInput(st.clients[c].ts, st.clients[c].nonce);
    ClientInputInjective(ts, nonce, st.clients[c].ts, st.clients[c].nonce);
  }

  lemma IssuedForServer(st: State, clientNonce: Nonce, serverNonce: Nonce) returns (s: ServerId)
    requires IssuedInv(st) && ServerInput(clientNonce, serverNonce) in st.issued
    ensures Answered(st, s, clientNonce, serverNonce)
  {
    forall c | c in st.clients
      ensures ServerInput(clientNonce, serverNonce) != ClientInput(st.clients[c].ts, st.clients[c].nonce)
    {
      InputsDisjoint(st.clients[c].ts, st.clients[c].nonce, clientNonce, serverNonce);
    }
    s :| s in st.sessions
         && ServerInput(clientNonce, serverNonce) == ServerInput(st.sessions[s].clientNonce, st.sessions[s].serverNonce);
    ServerInputInjective(clientNonce, serverNonce, st.sessions[s].clientNonce, st.sessions[s].serverNonce);
  }

  lemma {:induction false} SeenAtExtends(log: seq<Attempt>, a: Attempt, m: nat)
    requires m <= |log|
    ensures SeenAt(log + [a], m) == SeenAt(log, m)
  {
    if m > 0 {
      SeenAtExtends(log, a, m - 1);
    }
  }

  lemma AcceptedExtends(log: seq<Attempt>, a: Attempt)
    ensures forall i :: 0 <= i < |log| ==> Accepted(log + [a], i) == Accepted(log, i)
    ensures Accepted(log + [a], |log|) <==> Verdict(a, SeenAt(log, |log|)).Done?
  {
    forall i | 0 <= i <= |log|
      ensures SeenAt(log + [a], i) == SeenAt(log, i)
    {
      SeenAtExtends(log, a, i);
    }
  }

  /** The fields of clients and sessions never change, and the log only grows. */
  ghost predicate Grows(st: State, next: State) {
    && st.issued <= next.issued
    && (forall c :: c in st.clients ==> Sent(next, c, st.clients[c].ts, st.clients[c].nonce))
    && (forall s :: s in st.sessions ==> s in next.sessions && next.sessions[s] == st.sessions[s])
  }

  lemma StepGrows(e: Setup, st: State, step: Step)
    requires Enabled(e, st, step)
    ensures Grows(st, Apply(e, st, step))
  {
  }

  lemma NonceStep(e: Setup, st: State, step: Step)
    requires Enabled(e, st, step) && ClientNoncesDistinct(st) && ServerNoncesDistinct(st)
    ensures ClientNoncesDistinct(Apply(e, st, step)) && ServerNoncesDistinct(Apply(e, st, step))
  {
  }

  lemma IssuedByGrows(st: State, next: State, x: Bytes)
    requires Grows(st, next) && IssuedBy(st, x)
    ensures IssuedBy(next, x)
  {
    if c :| c in st.clients && x == ClientInput(st.clients[c].ts, st.clients[c].nonce) {
      assert Sent(next, c, st.clients[c].ts, st.clients[c].nonce);
    } else {
      var s :| s in st.sessions && x == ServerInput(st.sessions[s].clientNonce, st.sessions[s].serverNonce);
      assert next.sessions[s] == st.sessions[s];
    }
  }

  lemma NewlyIssued(e: Setup, st: State, step: Step, x: Bytes)
    requires Enabled(e, st, step) && x in Apply(e, st, step).issued && x !in st.issued
    ensures IssuedBy(Apply(e, st, step), x)
  {
    var next := Apply(e, st, step);
    if step.ClientSpeaks? {
      assert x == ClientInput(next.clients[step.c].ts, next.clients[step.c].nonce);
    } else {
      assert x == ServerInput(next.sessions[step.s].clientNonce, next.sessions[step.s].serverNonce);
    }
  }

  lemma IssuedStep(e: Setup, st: State, step: Step)
    requires IssuedInv(st) && Enabled(e, st, step)
    ensures IssuedInv(Apply(e, st, step))
  {
    forall x | x in Apply(e, st, step).issued
      ensures IssuedBy(Apply(e, st, step), x)
    {
      if x in st.issued {
        StepGrows(e, st, step);
        IssuedByGrows(st, Apply(e, st, step), x);
      } else {
        NewlyIssued(e, st, step, x);
      }
    }
  }

  lemma NewSession(e: Setup, st: State, step: Step)
    requires IssuedInv(st) && Enabled(e, st, step) && step.ServerReads? && Accepts(e, st, step)
    ensures var next := Apply(e, st, step);
            SessionInv(next, step.s) && next.sessions[step.s].at == |st.log|
  {
    var next := Apply(e, st, step);
    var c := IssuedForClient(st, step.hello[..8], step.hello[8..40]);
    assert Sent(next, c, step.hello[..8], step.hello[8..40]);
    AcceptedExtends(st.log, AttemptIn(e, step));
  }

  lemma OldSession(e: Setup, st: State, step: Step, s: ServerId)
    requires Enabled(e, st, step) && s in st.sessions && SessionInv(st, s)
    ensures var next := Apply(e, st, step);
            s in next.sessions && next.sessions[s] == st.sessions[s] && SessionInv(next, s)
  {
    StepGrows(e, st, step);
    var c :| Sent(st, c, st.sessions[s].ts, st.sessions[s].clientNonce);
    assert Sent(Apply(e, st, step), c, st.sessions[s].ts, st.sessions[s].clientNonce);
    if step.ServerReads? {
      AcceptedExtends(st.log, AttemptIn(e, step));
    }
  }

  lemma SessionStep(e: Setup, st: State, step: Step, s: ServerId)
    requires IssuedInv(st) && SessionsInv(st) && Enabled(e, st, step) && s in Apply(e, st, step).sessions
    ensures var next := Apply(e, st, step);
            && SessionInv(next, s)
            && if s in st.sessions then next.sessions[s] == st.sessions[s] && st.sessions[s].at < |st.log|
               else step.ServerReads? && s == step.s && next.sessions[s].at == |st.log|
  {
    if s in st.sessions {
      OldSession(e, st, step, s);
    } else {
      NewSession(e, st, step);
    }
  }

  lemma PlacesStep(st: State, next: State, added: ServerId)
    requires PlacesDistinct(st)
    requires forall s :: s in next.sessions ==>
               if s in st.sessions then next.sessions[s] == st.sessions[s] && st.sessions[s].at < |st.log|
               else s == added && next.sessions[s].at == |st.log|
    ensures PlacesDistinct(next)
  {
  }

  lemma SessionsStep(e: Setup, st: State, step: Step)
    requires IssuedInv(st) && SessionsInv(st) && Enabled(e, st, step)
    ensures SessionsInv(Apply(e, st, step))
  {
    var next := Apply(e, st, step);
    forall s | s in next.sessions
      ensures SessionInv(next, s)
      ensures if s in st.sessions then next.sessions[s] == st.sessions[s] && st.sessions[s].at < |st.log|
              else step.ServerReads? && s == step.s && next.sessions[s].at == |st.log|
    {
      SessionStep(e, st, step, s);
    }
    PlacesStep(st, next, if step.ServerReads? then step.s else 0);
  }

  lemma CompletedStep(e: Setup, st: State, step: Step)
    requires IssuedInv(st) && CompletedInv(st) && Enabled(e, st, step)
    ensures CompletedInv(Apply(e, st, step))
  {
    var next := Apply(e, st, step);
    StepGrows(e, st, step);
    forall c | c in next.clients && next.clients[c].outcome.Completed?
      ensures exists s :: Answered(next, s, next.clients[c].nonce, next.clients[c].outcome.serverNonce)
    {
      if step.ClientReads? && step.c == c {
        var s := IssuedForServer(st, next.clients[c].nonce, next.clients[c].outcome.serverNonce);
        assert Answered(next, s, next.clients[c].nonce, next.clients[c].outcome.serverNonce);
      } else {
        var s :| Answered(st, s, st.clients[c].nonce, st.clients[c].outcome.serverNonce);
        assert Answered(next, s, next.clients[c].nonce, next.clients[c].outcome.serverNonce);
      }
    }
  }

  lemma Preserved(e: Setup, st: State, step: Step)
    requires Inv(st) && Enabled(e, st, step)
    ensures Inv(Apply(e, st, step))
  {
    NonceStep(e, st, step);
    IssuedStep(e, st, step);
    SessionsStep(e, st, step);
    CompletedStep(e, st, step);
  }

  lemma {:induction false} RunInv(e: Setup, steps: seq<Step>)
    requires Runs(e, steps)
    ensures Inv(After(e, steps))
    decreases |steps|
  {
    if steps != [] {
      var before := steps[..|steps| - 1];
      RunInv(e, before);
      Preserved(e, After(e, before), steps[|steps| - 1]);
    }
  }

  // ---------- Agreement ----------

  /**
   * A client that completes agrees with exactly one session of the server: one that accepted this
   * client's timestamp and nonce and drew the server nonce the client holds.
   */
  lemma ClientAgrees(e: Setup, steps: seq<Step>, c: ClientId) returns (s: ServerId)
    requires Runs(e, steps) && c in After(e, steps).clients && After(e, steps).clients[c].outcome.Completed?
    ensures var st := After(e, steps);
            var k := st.clients[c];
            && Answered(st, s, k.nonce, k.outcome.serverNonce)
            && st.sessions[s].ts == k.ts
            && forall t :: Answered(st, t, k.nonce, k.outcome.serverNonce) ==> t == s
  {
    RunInv(e, steps);
    var st := After(e, steps);
    s :| Answered(st, s, st.clients[c].nonce, st.clients[c].outcome.serverNonce);
    assert SessionInv(st, s);
    var d :| Sent(st, d, st.sessions[s].ts, st.sessions[s].clientNonce);
    assert d == c;
  }

  /** No session is shared: two clients that complete agree with two different sessions. */
  lemma ClientsAgreeWithDifferentSessions(e: Setup, steps: seq<Step>, c: ClientId, d: ClientId, s: ServerId)
    requires Runs(e, steps) && c != d
    requires var st := After(e, steps);
             && c in st.clients && st.clients[c].outcome.Completed?
             && d in st.clients && st.clients[d].outcome.Completed?
             && Answered(st, s, st.clients[c].nonce, st.clients[c].outcome.serverNonce)
    ensures var st := After(e, steps); !Answered(st, s, st.clients[d].nonce, st.clients[d].outcome.serverNonce)
  {
    RunInv(e, steps);
  }

  /** The server accepts only hellos that an honest client sent, timestamp and nonce alike. */
  lemma ServerAgrees(e: Setup, steps: seq<Step>, s: ServerId) returns (c: ClientId)
    requires Runs(e, steps) && s in After(e, steps).sessions
    ensures var st := After(e, steps);
            && Sent(st, c, st.sessions[s].ts, st.sessions[s].clientNonce)
            && forall d :: Sent(st, d, st.sessions[s].ts, st.sessions[s].clientNonce) ==> d == c
  {
    RunInv(e, steps);
    var st := After(e, steps);
    assert SessionInv(st, s);
    c :| Sent(st, c, st.sessions[s].ts, st.sessions[s].clientNonce);
  }

  /** Sessions s and t stem from client c, by the handshakes a and b, in that order. */
  ghost predicate TwoSessions(st: State, c: ClientId, s: ServerId, t: ServerId, a: Attempt, b: Attempt) {
    && s in st.sessions && t in st.sessions
    && Sent(st, c, st.sessions[s].ts, st.sessions[s].clientNonce)
    && Sent(st, c, st.sessions[t].ts, st.sessions[t].clientNonce)
    && st.sessions[s].at < st.sessions[t].at < |st.log|
    && st.log[st.sessions[s].at] == a && st.log[st.sessions[t].at] == b
  }

  lemma TwoSessionsReplayed(e: Setup, steps: seq<Step>, c: ClientId, s: ServerId, t: ServerId, a: Attempt, b: Attempt)
    requires Runs(e, steps) && InLockOrder(After(e, steps).log) && TwoSessions(After(e, steps), c, s, t, a, b)
    ensures SameHello(a, b) && AcceptedBoth(After(e, steps).log, a, b) && Replayable(a, b)
  {
    RunInv(e, steps);
    var st := After(e, steps);
    assert SessionInv(st, s) && SessionInv(st, t);
    AcceptedIsReplayable(st.log, a, b);
  }

  /**
   * Whatever the clocks, the agreement is one to one unless a replay succeeds: two sessions that stem
   * from the same client were accepted by handshakes that meet the exact condition for it.
   */
  lemma OneSessionPerClient(e: Setup, steps: seq<Step>, s: ServerId, t: ServerId, c: ClientId)
    requires Runs(e, steps) && InLockOrder(After(e, steps).log)
    requires s in After(e, steps).sessions && t in After(e, steps).sessions
    requires var st := After(e, steps);
             && Sent(st, c, st.sessions[s].ts, st.sessions[s].clientNonce)
             && Sent(st, c, st.sessions[t].ts, st.sessions[t].clientNonce)
    ensures var st := After(e, steps);
            && st.sessions[s].at < |st.log| && st.sessions[t].at < |st.log|
            && var a, b := st.log[st.sessions[s].at], st.log[st.sessions[t].at];
               s == t || Replayable(a, b) || Replayable(b, a)
  {
    RunInv(e, steps);
    var st := After(e, steps);
    assert SessionInv(st, s) && SessionInv(st, t);
    var i, j := st.sessions[s].at, st.sessions[t].at;
    if i < j {
      TwoSessionsReplayed(e, steps, c, s, t, st.log[i], st.log[j]);
    } else if j < i {
      TwoSessionsReplayed(e, steps, c, t, s, st.log[j], st.log[i]);
    }
  }

  /** With a whole-second clock read once in each handshake the agreement is one to one. */
  lemma OneSessionInWholeSeconds(e: Setup, steps: seq<Step>, s: ServerId, t: ServerId, c: ClientId)
    requires Runs(e, steps) && s in After(e, steps).sessions && t in After(e, steps).sessions
    requires var log := After(e, steps).log; Monotone(log) && Possible(log) && ReadOnce(log) && WholeSeconds(log)
    requires var st := After(e, steps);
             && Sent(st, c, st.sessions[s].ts, st.sessions[s].clientNonce)
             && Sent(st, c, st.sessions[t].ts, st.sessions[t].clientNonce)
    ensures s == t
  {
    RunInv(e, steps);
    var st := After(e, steps);
    var i, j := st.sessions[s].at, st.sessions[t].at;
    assert SessionInv(st, s) && SessionInv(st, t);
    if i < j {
      AtMostOnceInWholeSeconds(st.log, i, j);
    } else if j < i {
      AtMostOnceInWholeSeconds(st.log, j, i);
    }
  }

  // ---------- What clients conclude ----------

  /** The answer that client c has read, if it has read one. */
  function AnswerTo(steps: seq<Step>, c: ClientId): Option<Bytes> {
    if steps == [] then None
    else
      var last := steps[|steps| - 1];
      if last.ClientReads? && last.c == c then Some(last.reply) else AnswerTo(steps[..|steps| - 1], c)
  }

  lemma OutcomeStep(e: Setup, st: State, step: Step, c: ClientId)
    requires Enabled(e, st, step) && c in Apply(e, st, step).clients
    ensures var k := Apply(e, st, step).clients[c];
            if step.ClientReads? && step.c == c then
              && c in st.clients && |step.reply| == SERVER_HELLO_LEN && k.nonce == st.clients[c].nonce
              && k.outcome == if Verifies(e.hmac, e.token, k.nonce, step.reply) then Completed(step.reply[..32]) else Failed
            else if c in st.clients then k == st.clients[c]
            else step.ClientSpeaks? && k.outcome.Waiting?
  {
  }

  lemma {:induction false} NoAnswerBefore(e: Setup, steps: seq<Step>, c: ClientId)
    requires Runs(e, steps) && c !in After(e, steps).clients
    ensures AnswerTo(steps, c) == None
    decreases |steps|
  {
    if steps != [] {
      NoAnswerBefore(e, steps[..|steps| - 1], c);
    }
  }

  /**
   * A client's outcome is decided by the answer it read and nothing else: none yet, completed with
   * the nonce of an answer whose tag verifies, failed on any other.
   */
  lemma {:induction false} OutcomeExactly(e: Setup, steps: seq<Step>, c: ClientId)
    requires Runs(e, steps) && c in After(e, steps).clients
    ensures var k := After(e, steps).clients[c];
            match AnswerTo(steps, c)
            case None => k.outcome.Waiting?
            case Some(reply) =>
              && |reply| == SERVER_HELLO_LEN
              && k.outcome == if Verifies(e.hmac, e.token, k.nonce, reply) then Completed(reply[..32]) else Failed
    decreases |steps|
  {
    if steps != [] {
      var before, last := steps[..|steps| - 1], steps[|steps| - 1];
      OutcomeStep(e, After(e, before), last, c);
      if c in After(e, before).clients {
        OutcomeExactly(e, before, c);
      } else {
        NoAnswerBefore(e, before, c);
      }
    }
  }

  /**
   * The network may deliver what it likes: the server reads any 72 bytes and a waiting client any 64, and
   * if their tag does not verify nothing comes of them but an entry in the log and a failed client.
   */
  lemma GarbageIsRefused(e: Setup, st: State, s: ServerId, hello: Bytes, clock: int, now: int, locked: int,
                         serverNonce: Nonce, c: ClientId, reply: Bytes)
    requires s !in st.sessions && (forall t :: t in st.sessions ==> st.sessions[t].serverNonce != serverNonce)
    requires |hello| == CLIENT_HELLO_LEN && !AttemptOf(e.hmac, e.token, hello, clock, now, locked).authentic
    requires c in st.clients && st.clients[c].outcome.Waiting?
    requires |reply| == SERVER_HELLO_LEN && !Verifies(e.hmac, e.token, st.clients[c].nonce, reply)
    ensures var taken, a := ServerReads(s, hello, clock, now, locked, serverNonce),
                            AttemptOf(e.hmac, e.token, hello, clock, now, locked);
            Enabled(e, st, taken) && Apply(e, st, taken) == st.(log := st.log + [a])
    ensures var taken := ClientReads(c, reply);
            && Enabled(e, st, taken)
            && Apply(e, st, taken) == st.(clients := st.clients[c := st.clients[c].(outcome := Failed)])
  {
    var taken := ServerReads(s, hello, clock, now, locked, serverNonce);
    assert AttemptIn(e, taken) == AttemptOf(e.hmac, e.token, hello, clock, now, locked);
    assert !Accepts(e, st, taken);
  }

  /** A new client may speak at any time, with any nonce that is not in use. */
  lemma AnyoneMaySpeak(e: Setup, st: State, c: ClientId, unix: int, nonce: Nonce)
    requires c !in st.clients && 0 <= unix < TWO_63 && forall d :: d in st.clients ==> st.clients[d].nonce != nonce
    ensures var speaks := ClientSpeaks(c, unix, nonce);
            && Enabled(e, st, speaks)
            && var next := Apply(e, st, speaks);
               && Sent(next, c, StampOf(unix), nonce) && next.clients[c].outcome.Waiting?
               && ClientInput(StampOf(unix), nonce) in next.issued
  {
  }

  /** Every hello that a client has sent is one whose tag verifies. */
  lemma {:induction false} HelloIssued(e: Setup, steps: seq<Step>, c: ClientId)
    requires Runs(e, steps) && c in After(e, steps).clients
    ensures var k := After(e, steps).clients[c]; ClientInput(k.ts, k.nonce) in After(e, steps).issued
    decreases |steps|
  {
    if steps != [] {
      var before, last := steps[..|steps| - 1], steps[|steps| - 1];
      StepGrows(e, After(e, before), last);
      if c in After(e, before).clients {
        HelloIssued(e, before, c);
      }
    }
  }

  /** The server answers the hello of a client, if it is in the window and not in the map. */
  lemma ServerAnswers(e: Setup, steps: seq<Step>, c: ClientId, s: ServerId, serverNonce: Nonce,
                      clock: int, now: int, locked: int) returns (longer: seq<Step>)
    requires Runs(e, steps) && c in After(e, steps).clients
    requires var st := After(e, steps);
             && InWindow(Unix(clock), TimeOf(st.clients[c].ts))
             && st.clients[c].nonce !in SeenAt(st.log, |st.log|)
             && s !in st.sessions && (forall t :: t in st.sessions ==> st.sessions[t].serverNonce != serverNonce)
    ensures Runs(e, longer)
    ensures var st, next := After(e, steps), After(e, longer);
            var k := st.clients[c];
            && next.clients == st.clients
            && next.sessions == st.sessions[s := Session(k.ts, k.nonce, serverNonce, |st.log|)]
            && next.issued == st.issued + {ServerInput(k.nonce, serverNonce)}
            && next.log == st.log + [Attempt(TimeOf(k.ts), k.nonce, true, clock, now, locked)]
  {
    HelloIssued(e, steps, c);
    var k := After(e, steps).clients[c];
    var hello := ClientHello(e.hmac, e.token, k.ts, k.nonce);
    assert hello[..8] == k.ts && hello[8..40] == k.nonce && hello[40..] == e.hmac(e.token, ClientInput(k.ts, k.nonce));
    var step := ServerReads(s, hello, clock, now, locked, serverNonce);
    RunsSnoc(e, steps, step);
    longer := steps + [step];
  }

  /**
   * Honest runs complete: from every state that a run reaches, a waiting client whose hello is in the
   * server's window and not in its map can come to agree with a new session, whatever the others do.
   */
  lemma WaitingClientCanComplete(e: Setup, steps: seq<Step>, c: ClientId, s: ServerId, serverNonce: Nonce,
                                 clock: int, now: int, locked: int) returns (longer: seq<Step>)
    requires Runs(e, steps) && c in After(e, steps).clients && After(e, steps).clients[c].outcome.Waiting?
    requires var st := After(e, steps);
             && InWindow(Unix(clock), TimeOf(st.clients[c].ts))
             && st.clients[c].nonce !in SeenAt(st.log, |st.log|)
             && s !in st.sessions && (forall t :: t in st.sessions ==> st.sessions[t].serverNonce != serverNonce)
    ensures Runs(e, longer)
    ensures var st, next := After(e, steps), After(e, longer);
            && c in next.clients && next.clients[c] == st.clients[c].(outcome := Completed(serverNonce))
            && Answered(next, s, st.clients[c].nonce, serverNonce)
  {
    longer := ServerAnswers(e, steps, c, s, serverNonce, clock, now, locked);
    var k := After(e, steps).clients[c];
    var reply := ServerHello(e.hmac, e.token, k.nonce, serverNonce);
    assert reply[..32] == serverNonce && reply[32..] == e.hmac(e.token, ServerInput(k.nonce, serverNonce));
    RunsSnoc(e, longer, ClientReads(c, reply));
    longer := longer + [ClientReads(c, reply)];
  }

  // ---------- Replays happen ----------

  /** A hello that its client has sent is accepted when it is in the window and not in the map. */
  lemma Accept(e: Setup, steps: seq<Step>, s: ServerId, nonce: Nonce, serverNonce: Nonce, a: Attempt)
    returns (longer: seq<Step>)
    requires Runs(e, steps) && 0 <= a.ts < TWO_63 && a.nonce == nonce && a.authentic
    requires var st := After(e, steps);
             && ClientInput(StampOf(a.ts), nonce) in st.issued && s !in st.sessions
             && (forall t :: t in st.sessions ==> st.sessions[t].serverNonce != serverNonce)
             && InWindow(Unix(a.clock), a.ts) && nonce !in SeenAt(st.log, |st.log|)
    ensures Runs(e, longer)
    ensures var st, next := After(e, steps), After(e, longer);
            && st.issued <= next.issued && next.clients == st.clients && next.log == st.log + [a]
            && next.sessions == st.sessions[s := Session(StampOf(a.ts), nonce, serverNonce, |st.log|)]
  {
    var ts := StampOf(a.ts);
    var hello := ClientHello(e.hmac, e.token, ts, nonce);
    assert hello[..8] == ts && hello[8..40] == nonce && hello[40..] == e.hmac(e.token, ClientInput(ts, nonce));
    TimeOfStamp(a.ts);
    var step := ServerReads(s, hello, a.clock, a.now, a.locked, serverNonce);
    assert AttemptIn(e, step) == a;
    RunsSnoc(e, steps, step);
    longer := steps + [step];
  }

  /** Two clients send their hellos. */
  lemma TwoSpeak(e: Setup, unix: int, nonce: Nonce, unix': int, nonce': Nonce) returns (steps: seq<Step>)
    requires 0 <= unix < TWO_63 && 0 <= unix' < TWO_63 && nonce != nonce'
    ensures Runs(e, steps)
    ensures var st := After(e, steps);
            && Sent(st, 0, StampOf(unix), nonce) && st.sessions == map[] && st.log == []
            && ClientInput(StampOf(unix), nonce) in st.issued && ClientInput(StampOf(unix'), nonce') in st.issued
  {
    var first, second := ClientSpeaks(0, unix, nonce), ClientSpeaks(1, unix', nonce');
    RunsSnoc(e, [], first);
    assert [] + [first] == [first];
    RunsSnoc(e, [first], second);
    steps := [first] + [second];
  }

  function Filled(b: Byte): Nonce {
    seq(32, _ => b)
  }

  /** Both clients have spoken and the server has accepted the first of them. */
  lemma FirstSession(e: Setup, a: Attempt, k: Attempt) returns (steps: seq<Step>)
    requires |a.nonce| == |k.nonce| == 32 && a.nonce != k.nonce
    requires 0 <= a.ts < TWO_63 && 0 <= k.ts < TWO_63 && Admissible(a)
    ensures Runs(e, steps)
    ensures var st := After(e, steps);
            && Sent(st, 0, StampOf(a.ts), a.nonce) && st.log == [a]
            && st.sessions == map[0 := Session(StampOf(a.ts), a.nonce, Filled(0), 0)]
            && ClientInput(StampOf(a.ts), a.nonce) in st.issued && ClientInput(StampOf(k.ts), k.nonce) in st.issued
  {
    steps := TwoSpeak(e, a.ts, a.nonce, k.ts, k.nonce);
    steps := Accept(e, steps, 0, a.nonce, Filled(0), a);
    assert [] + [a] == [a];
  }

  /** And then the second, at which the nonce of the first has expired. */
  lemma SecondSession(e: Setup, a: Attempt, k: Attempt) returns (steps: seq<Step>)
    requires |a.nonce| == |k.nonce| == 32 && a.nonce != k.nonce
    requires 0 <= a.ts < TWO_63 && 0 <= k.ts < TWO_63 && Admissible(a) && Admissible(k)
    ensures Runs(e, steps)
    ensures var st := After(e, steps);
            && Sent(st, 0, StampOf(a.ts), a.nonce) && st.log == [a, k]
            && st.sessions == map[0 := Session(StampOf(a.ts), a.nonce, Filled(0), 0),
                                  1 := Session(StampOf(k.ts), k.nonce, Filled(1), 1)]
            && ClientInput(StampOf(a.ts), a.nonce) in st.issued
  {
    steps := FirstSession(e, a, k);
    assert Filled(0)[0] == 0 && Filled(1)[0] == 1;
    assert SeenAt([a], 0) == map[];
    steps := Accept(e, steps, 1, k.nonce, Filled(1), k);
    assert [a] + [k] == [a, k];
  }

  lemma ReplayGivesTwoSessions(e: Setup, nonce: Nonce, a: Attempt, b: Attempt) returns (steps: seq<Step>)
    requires SameHello(a, b) && Replayable(a, b) && Possible([a]) && Possible([b])
    requires 0 <= a.ts && a.nonce == nonce
    ensures Runs(e, steps) && After(e, steps).log == Replay(a, b) && TwoSessions(After(e, steps), 0, 0, 2, a, b)
  {
    assert a == [a][0] && b == [b][0];
    var k := Replay(a, b)[1];
    ReplaySweeps(a, b);
    steps := SecondSession(e, a, k);
    assert Filled(0)[0] == 0 && Filled(1)[0] == 1 && Filled(2)[0] == 2;
    steps := Accept(e, steps, 2, nonce, Filled(2), b);
    assert [a, k] + [b] == Replay(a, b);
  }

  /**
   * One client's hello makes two sessions, by given handshakes, in some run of the network exactly
   * when those handshakes meet the condition for a replay.
   */
  lemma TwoSessionsExactly(e: Setup, nonce: Nonce, a: Attempt, b: Attempt)
    requires SameHello(a, b) && Possible([a]) && Possible([b]) && 0 <= a.ts && a.nonce == nonce
    ensures (exists steps, c, s, t :: Runs(e, steps) && Possible(After(e, steps).log) && TwoSessions(After(e, steps), c, s, t, a, b))
            <==> Replayable(a, b)
  {
    if Replayable(a, b) {
      var steps := ReplayGivesTwoSessions(e, nonce, a, b);
      ReplayAccepts(a, b);
      assert Possible(After(e, steps).log) && TwoSessions(After(e, steps), 0, 0, 2, a, b);
    }
    forall steps, c, s, t | Runs(e, steps) && Possible(After(e, steps).log) && TwoSessions(After(e, steps), c, s, t, a, b)
      ensures Replayable(a, b)
    {
      TwoSessionsReplayed(e, steps, c, s, t, a, b);
    }
  }
}
