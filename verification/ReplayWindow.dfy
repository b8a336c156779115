/**
 * The server's replay defence: a timestamp window checked against one clock reading, and a map of
 * nonces that forgets them 90 seconds after a second reading.  Times are in nanoseconds.
 */
module ReplayWindow {
  import opened Basics
  import opened Bytes

  const CLOCK_SKEW: int := 45 * SECOND
  const REPLAY_TTL: int := 2 * CLOCK_SKEW

  /** The largest Unix time (in seconds) at which the window below is exact for every timestamp. */
  const MAX_UNIX: int := TWO_63 - 46

  type Seen = map<Bytes, int>

  /** time.Time.Unix. */
  function Unix(t: int): int {
    t / SECOND
  }

  /** The skew check, in int64 arithmetic: neither the subtraction nor the negation is guarded. */
  predicate InWindow(now: int, ts: int) {
    var skew := WrapInt64(now - ts);
    var magnitude := if skew < 0 then WrapInt64(-skew) else skew;
    !(magnitude > CLOCK_SKEW / SECOND)
  }

  /**
   * The window admits the timestamps within 45 seconds, and one more: the timestamp 2^63 seconds
   * away, whose skew is the one int64 that negation leaves negative.
   */
  lemma InWindowExact(now: int, ts: int)
    requires 0 <= now <= MAX_UNIX && -TWO_63 <= ts < TWO_63
    ensures InWindow(now, ts) <==> -45 <= now - ts <= 45 || ts == now - TWO_63
  {
    var diff := now - ts;
    if diff < TWO_63 {
      assert WrapInt64(diff) == diff;
      assert WrapInt64(-diff) == -diff;
    } else {
      assert (diff + TWO_63) % TWO_64 == diff - TWO_63;
      assert WrapInt64(diff) == diff - TWO_64;
      if diff == TWO_63 {
        assert WrapInt64(TWO_63) == -TWO_63;
      }
    }
  }

  /** The map after remember(nonce) at time `now`. */
  function Remembered(seen: Seen, nonce: Bytes, now: int): Seen {
    if nonce in seen then seen
    else (map k | k in seen && !(now > seen[k]) :: seen[k])[nonce := now + REPLAY_TTL]
  }

  /**
   * One client hello as the server meets it: its fields, whether its MAC is right, the reading of
   * the clock for the window, the reading for the replay map, and the time at which the mutex of
   * the map was taken.
   */
  datatype Attempt = Attempt(ts: int, nonce: Bytes, authentic: bool, clock: int, now: int, locked: int)

  /** The hello gets as far as remember. */
  predicate Admissible(a: Attempt) {
    InWindow(Unix(a.clock), a.ts) && a.authentic
  }

  function Observe(seen: Seen, a: Attempt): Seen {
    if Admissible(a) then Remembered(seen, a.nonce, a.now) else seen
  }

  /** The map after the first `m` attempts of a run, in the order in which they took the mutex. */
  function SeenAt(run: seq<Attempt>, m: nat): Seen
    requires m <= |run|
  {
    if m == 0 then map[] else Observe(SeenAt(run, m - 1), run[m - 1])
  }

  predicate Accepted(run: seq<Attempt>, i: nat)
    requires i < |run|
  {
    Admissible(run[i]) && run[i].nonce !in SeenAt(run, i)
  }

  /** Attempt j was accepted, and no attempt accepted since, before position m, found it expired. */
  predicate Live(run: seq<Attempt>, j: nat, m: nat)
    requires j < m <= |run|
  {
    && Accepted(run, j)
    && forall k :: j < k < m && Accepted(run, k) ==> run[k].now <= run[j].now + REPLAY_TTL
  }

  lemma {:induction false} LiveIsSeen(run: seq<Attempt>, m: nat, j: nat)
    requires j < m <= |run| && Live(run, j, m)
    ensures run[j].nonce in SeenAt(run, m) && SeenAt(run, m)[run[j].nonce] == run[j].now + REPLAY_TTL
  {
    if j < m - 1 {
      LiveIsSeen(run, m - 1, j);
      assert Accepted(run, m - 1) ==> run[m - 1].now <= run[j].now + REPLAY_TTL;
    }
  }

  lemma {:induction false} SeenIsLive(run: seq<Attempt>, m: nat, nonce: Bytes) returns (j: nat)
    requires m <= |run| && nonce in SeenAt(run, m)
    ensures j < m && run[j].nonce == nonce && Live(run, j, m)
  {
    var a := run[m - 1];
    if Accepted(run, m - 1) && a.nonce == nonce {
      j := m - 1;
    } else {
      j := SeenIsLive(run, m - 1, nonce);
      LiveIsSeen(run, m - 1, j);
    }
  }

  /**
   * The map is the log of acceptances: a nonce is in it exactly when it was accepted and no later
   * acceptance found it expired.  This holds for every order of the clock readings.
   */
  lemma SeenIsTheLog(run: seq<Attempt>, m: nat, nonce: Bytes)
    requires m <= |run|
    ensures nonce in SeenAt(run, m) <==> exists j :: 0 <= j < m && run[j].nonce == nonce && Live(run, j, m)
  {
    if nonce in SeenAt(run, m) {
      var j := SeenIsLive(run, m, nonce);
    }
    forall j | 0 <= j < m && run[j].nonce == nonce && Live(run, j, m)
      ensures nonce in SeenAt(run, m)
    {
      LiveIsSeen(run, m, j);
    }
  }

  // ---------- Clocks ----------

  /** The mutex is taken in order of time, and the clock of an attempt is read before it. */
  predicate InLockOrder(run: seq<Attempt>) {
    && (forall i :: 0 <= i < |run| ==> run[i].clock <= run[i].now <= run[i].locked)
    && (forall i, j :: 0 <= i < j < |run| ==> run[i].locked <= run[j].locked)
  }

  /** The readings themselves are in order, as when handshakes do not overlap. */
  predicate Monotone(run: seq<Attempt>) {
    forall i, j :: 0 <= i < j < |run| ==> run[i].now <= run[j].now
  }

  /** The clock is in the range in which the window is exact. */
  predicate InRange(a: Attempt) {
    0 <= Unix(a.clock) && Unix(a.locked) <= MAX_UNIX && -TWO_63 <= a.ts < TWO_63
  }

  predicate AllInRange(run: seq<Attempt>) {
    forall i :: 0 <= i < |run| ==> InRange(run[i])
  }

  /** Each handshake reads the clock once. */
  predicate ReadOnce(run: seq<Attempt>) {
    forall i :: 0 <= i < |run| ==> run[i].clock == run[i].now
  }

  predicate WholeSeconds(run: seq<Attempt>) {
    forall i :: 0 <= i < |run| ==> run[i].clock % SECOND == 0
  }

  /** Attempt j was accepted and has not expired at the time of attempt i. */
  predicate Unexpired(run: seq<Attempt>, j: nat, i: nat)
    requires j <= i < |run|
  {
    Accepted(run, j) && run[i].now <= run[j].now + REPLAY_TTL
  }

  lemma LiveIsUnexpired(run: seq<Attempt>, j: nat, i: nat)
    requires j <= i < |run| && Monotone(run) && Accepted(run, i)
    ensures Live(run, j, i + 1) <==> Unexpired(run, j, i)
  {
    forall k | j < k < i + 1
      ensures run[k].now <= run[i].now
    {
      assert k < i ==> run[k].now <= run[i].now;
    }
  }

  /** Under a monotone clock, what an acceptance leaves in the map is exactly the unexpired log. */
  lemma SeenIsUnexpired(run: seq<Attempt>, i: nat, nonce: Bytes)
    requires i < |run| && Monotone(run) && Accepted(run, i)
    ensures nonce in SeenAt(run, i + 1) <==> exists j :: 0 <= j <= i && run[j].nonce == nonce && Unexpired(run, j, i)
  {
    SeenIsTheLog(run, i + 1, nonce);
    forall j | 0 <= j <= i
      ensures Live(run, j, i + 1) <==> Unexpired(run, j, i)
    {
      LiveIsUnexpired(run, j, i);
    }
  }

  /** Between acceptances the map holds at least every acceptance that has not expired. */
  lemma UnexpiredIsSeen(run: seq<Attempt>, m: nat, j: nat, now: int)
    requires j < m <= |run| && Monotone(run) && Accepted(run, j)
    requires run[m - 1].now <= now <= run[j].now + REPLAY_TTL
    ensures run[j].nonce in SeenAt(run, m)
  {
    forall k | j < k < m
      ensures run[k].now <= now
    {
      assert k < m - 1 ==> run[k].now <= run[m - 1].now;
    }
    LiveIsSeen(run, m, j);
  }

  /** A nonce is accepted again exactly when some acceptance in between found it expired. */
  lemma AcceptedAgainExactly(run: seq<Attempt>, i: nat, j: nat)
    requires i < j < |run| && Accepted(run, i) && run[i].nonce == run[j].nonce && Admissible(run[j])
    requires forall k :: i < k < j && Accepted(run, k) ==> run[k].nonce != run[i].nonce
    ensures Accepted(run, j) <==>
            exists k :: i < k < j && Accepted(run, k) && run[k].now > run[i].now + REPLAY_TTL
  {
    if Live(run, i, j) {
      LiveIsSeen(run, j, i);
    }
    if run[j].nonce in SeenAt(run, j) {
      var l := SeenIsLive(run, j, run[j].nonce);
      if l < i {
        LiveIsSeen(run, i, l);
      }
    }
  }

  /** The acceptance that made room for the second of two acceptances of one nonce. */
  lemma ExpiredBetween(run: seq<Attempt>, i: nat, j: nat) returns (k: nat)
    requires i < j < |run| && Accepted(run, i) && Accepted(run, j) && run[i].nonce == run[j].nonce
    ensures i < k < j && Accepted(run, k) && run[k].now > run[i].now + REPLAY_TTL
  {
    if Live(run, i, j) {
      LiveIsSeen(run, j, i);
    }
    k :| i < k < j && Accepted(run, k) && run[k].now > run[i].now + REPLAY_TTL;
  }

  /**
   * Two acceptances of one nonce lie more than 90 seconds apart: from the first's reading of the
   * clock to the moment the second takes the mutex and, if the readings are in order, to its
   * reading as well.
   */
  lemma AcceptancesFarApart(run: seq<Attempt>, i: nat, j: nat)
    requires i < j < |run| && InLockOrder(run)
    requires Accepted(run, i) && Accepted(run, j) && run[i].nonce == run[j].nonce
    ensures run[j].locked > run[i].now + REPLAY_TTL
    ensures Monotone(run) ==> run[j].now > run[i].now + REPLAY_TTL
  {
    var k := ExpiredBetween(run, i, j);
    assert run[k].now <= run[k].locked <= run[j].locked;
  }

  /**
   * The readings themselves may be close together: a handshake that reads the clock and then waits
   * for the mutex while another sweeps the map has its replayed nonce accepted 5 ns later.
   */
  lemma ReadingsMayBeClose()
    ensures var run := [Attempt(0, [1], true, 0, 0, 0),
                        Attempt(90, [2], true, REPLAY_TTL + 1, REPLAY_TTL + 1, REPLAY_TTL + 1),
                        Attempt(0, [1], true, 5, 5, REPLAY_TTL + 2)];
            InLockOrder(run) && Accepted(run, 0) && Accepted(run, 1) && Accepted(run, 2)
  {
    var run := [Attempt(0, [1], true, 0, 0, 0),
                Attempt(90, [2], true, REPLAY_TTL + 1, REPLAY_TTL + 1, REPLAY_TTL + 1),
                Attempt(0, [1], true, 5, 5, REPLAY_TTL + 2)];
    assert SeenAt(run, 1) == map[[1] := REPLAY_TTL];
    assert SeenAt(run, 2) == map[[2] := REPLAY_TTL + 1 + REPLAY_TTL];
  }

  // ---------- At most once ----------

  /** Handshakes a and b are both accepted, a before b. */
  ghost predicate AcceptedBoth(run: seq<Attempt>, a: Attempt, b: Attempt) {
    exists i, j :: 0 <= i < j < |run| && run[i] == a && run[j] == b && Accepted(run, i) && Accepted(run, j)
  }

  /** A run that the code can make, with any clock that does not go back. */
  predicate Possible(run: seq<Attempt>) {
    InLockOrder(run) && AllInRange(run)
  }

  /** Two handshakes with the same authentic hello. */
  predicate SameHello(a: Attempt, b: Attempt) {
    a.ts == b.ts && a.nonce == b.nonce && a.authentic && b.authentic
  }

  /** The server can be made to accept both. */
  predicate Replayable(a: Attempt, b: Attempt) {
    && InWindow(Unix(a.clock), a.ts) && InWindow(Unix(b.clock), b.ts)
    && a.locked <= b.locked && b.locked > a.now + REPLAY_TTL
  }

  /** A nonce of the same length, and another one. */
  function Other(nonce: Bytes): (other: Bytes)
    ensures other != nonce && (nonce != [] ==> |other| == |nonce|)
  {
    if nonce == [] then [0] else nonce[0 := (nonce[0] as int + 1) % 256]
  }

  /** The hello, another one that sweeps the map just before the second handshake, and the hello again. */
  function Replay(a: Attempt, b: Attempt): seq<Attempt> {
    [a, Attempt(Unix(b.locked), Other(a.nonce), true, b.locked, b.locked, b.locked), b]
  }

  /** Its second handshake leaves nothing of the first in the map. */
  lemma ReplaySweeps(a: Attempt, b: Attempt)
    requires SameHello(a, b) && Replayable(a, b) && Possible([a]) && Possible([b])
    ensures var run := Replay(a, b);
            && Possible(run) && Admissible(run[1]) && SeenAt([], 0) == map[]
            && SeenAt([a], 1) == SeenAt(run, 1) == map[a.nonce := a.now + REPLAY_TTL]
            && SeenAt([a, run[1]], 2) == SeenAt(run, 2) == map[run[1].nonce := b.locked + REPLAY_TTL]
  {
    var run := Replay(a, b);
    assert a == [a][0] && b == [b][0];
    InWindowExact(Unix(b.locked), Unix(b.locked));
    assert SeenAt([a, run[1]], 1) == SeenAt([a], 1);
  }

  lemma ReplayAccepts(a: Attempt, b: Attempt)
    requires SameHello(a, b) && Replayable(a, b) && Possible([a]) && Possible([b])
    ensures Possible(Replay(a, b)) && AcceptedBoth(Replay(a, b), a, b)
  {
    ReplaySweeps(a, b);
    assert Accepted(Replay(a, b), 0) && Accepted(Replay(a, b), 2);
  }

  lemma AcceptedIsReplayable(run: seq<Attempt>, a: Attempt, b: Attempt)
    requires InLockOrder(run) && AcceptedBoth(run, a, b) && a.nonce == b.nonce
    ensures Replayable(a, b)
    ensures Monotone(run) ==> b.now > a.now + REPLAY_TTL
  {
    var i, j :| 0 <= i < j < |run| && run[i] == a && run[j] == b && Accepted(run, i) && Accepted(run, j);
    AcceptancesFarApart(run, i, j);
  }

  /**
   * When a hello is accepted twice, for the clocks that the code reads: once before the window, once
   * more before the mutex, and each with a fraction.  Two handshakes can both be accepted exactly
   * when both are inside the window by their first readings and the later one takes the mutex more
   * than 90 seconds after the earlier one's second reading.
   */
  lemma ReplayPossibleExactly(a: Attempt, b: Attempt)
    requires SameHello(a, b) && Possible([a]) && Possible([b])
    ensures (exists run :: Possible(run) && AcceptedBoth(run, a, b)) <==> Replayable(a, b)
  {
    if Replayable(a, b) {
      ReplayAccepts(a, b);
    }
    forall run | Possible(run) && AcceptedBoth(run, a, b)
      ensures Replayable(a, b)
    {
      AcceptedIsReplayable(run, a, b);
    }
  }

  /** How far into the second of its window check a handshake reads the clock for the map. */
  function Lead(a: Attempt): int {
    a.now - Unix(a.clock) * SECOND
  }

  /** How far into, or beyond, that second it takes the mutex. */
  function Lag(a: Attempt): int {
    a.locked - Unix(a.clock) * SECOND
  }

  /**
   * The server is safe from a second handshake, whatever hello it repeats, exactly when the seconds
   * of the two window checks are more than 90 apart or the later one comes too early for the map:
   * what is lost at the edges of the window is the second's Lag over the first's Lead.
   */
  lemma SafePairExactly(a: Attempt, b: Attempt)
    requires SameHello(a, b) && Possible([a]) && Possible([b]) && a.locked <= b.locked
    ensures (forall ts :: -TWO_63 <= ts < TWO_63 ==> !Replayable(a.(ts := ts), b.(ts := ts)))
            <==> var gap := Unix(b.clock) - Unix(a.clock);
                 !(-90 <= gap <= 90) || gap * SECOND + Lag(b) - Lead(a) <= REPLAY_TTL
  {
    assert a == [a][0] && b == [b][0];
    var x, y := Unix(a.clock), Unix(b.clock);
    assert b.locked - a.now == (y - x) * SECOND + Lag(b) - Lead(a);
    if -90 <= y - x <= 90 && b.locked > a.now + REPLAY_TTL {
      var ts := MiddleOfWindows(x, y);
      assert Replayable(a.(ts := ts), b.(ts := ts));
    }
    forall ts | -TWO_63 <= ts < TWO_63 && Replayable(a.(ts := ts), b.(ts := ts))
      ensures -90 <= y - x <= 90
    {
      InWindowExact(x, ts);
      InWindowExact(y, ts);
    }
  }

  /** Two clocks at most 90 seconds apart have a timestamp in both their windows. */
  lemma MiddleOfWindows(x: int, y: int) returns (ts: int)
    requires 0 <= x <= MAX_UNIX && 0 <= y <= MAX_UNIX && -90 <= y - x <= 90
    ensures -TWO_63 <= ts < TWO_63 && InWindow(x, ts) && InWindow(y, ts)
  {
    ts := (x + y) / 2;
    InWindowExact(x, ts);
    InWindowExact(y, ts);
  }

  /**
   * No hello is accepted twice by a server whose handshakes all take the mutex no further into the
   * second of their window check than any of them reads the clock for the map.
   */
  lemma AtMostOnce(run: seq<Attempt>, i: nat, j: nat)
    requires i < j < |run| && Possible(run) && run[i].ts == run[j].ts && run[i].nonce == run[j].nonce
    requires Lag(run[j]) <= Lead(run[i])
    ensures !(Accepted(run, i) && Accepted(run, j))
  {
    if Accepted(run, i) && Accepted(run, j) {
      AcceptedIsReplayable(run, run[i], run[j]);
      InWindowExact(Unix(run[i].clock), run[i].ts);
      InWindowExact(Unix(run[j].clock), run[j].ts);
    }
  }

  /**
   * The closed form for one reading a handshake, at t and at u: the hello must be stamped 45 seconds
   * after the first and before the second, and the fraction of the second reading be the larger.
   */
  lemma OneReadingReplaysExactly(ts: int, nonce: Bytes, t: int, u: int)
    requires InRange(Attempt(ts, nonce, true, t, t, t)) && InRange(Attempt(ts, nonce, true, u, u, u))
    ensures var a, b := Attempt(ts, nonce, true, t, t, t), Attempt(ts, nonce, true, u, u, u);
            (exists run :: Possible(run) && AcceptedBoth(run, a, b))
            <==> ts == Unix(t) + 45 && Unix(u) == Unix(t) + 90 && u % SECOND > t % SECOND
  {
    var a, b := Attempt(ts, nonce, true, t, t, t), Attempt(ts, nonce, true, u, u, u);
    ReplayPossibleExactly(a, b);
    InWindowExact(Unix(t), ts);
    InWindowExact(Unix(u), ts);
    assert t == Unix(t) * SECOND + t % SECOND && u == Unix(u) * SECOND + u % SECOND;
  }

  /** With a whole-second clock, read once in each handshake, no hello is accepted twice. */
  lemma AtMostOnceInWholeSeconds(run: seq<Attempt>, i: nat, j: nat)
    requires i < j < |run| && Monotone(run) && Possible(run) && ReadOnce(run) && WholeSeconds(run)
    requires run[i].ts == run[j].ts && run[i].nonce == run[j].nonce
    ensures !(Accepted(run, i) && Accepted(run, j))
  {
    var a, b := run[i], run[j];
    if Accepted(run, i) && Accepted(run, j) {
      AcceptedIsReplayable(run, a, b);
      InWindowExact(Unix(a.clock), a.ts);
      InWindowExact(Unix(b.clock), b.ts);
    }
  }

  /**
   * For a clock with fractions of a second at most once fails: the hello stamped 45 s and accepted
   * at 0 s is accepted again at 90.5 s, since both readings round into the window.
   */
  lemma FractionalClockReplays()
    ensures var u := 90 * SECOND + SECOND / 2;
            var a, b := Attempt(45, [7], true, 0, 0, 0), Attempt(45, [7], true, u, u, u);
            exists run :: Possible(run) && Monotone(run) && ReadOnce(run) && AcceptedBoth(run, a, b)
  {
    var u := 90 * SECOND + SECOND / 2;
    var a, b := Attempt(45, [7], true, 0, 0, 0), Attempt(45, [7], true, u, u, u);
    assert Unix(0) == 0 && Unix(u) == 90;
    InWindowExact(0, 45);
    InWindowExact(90, 45);
    ReplayAccepts(a, b);
    assert Monotone(Replay(a, b)) && ReadOnce(Replay(a, b));
  }

  /**
   * Nor does a whole-second clock help when it is read twice: a handshake that passes the window at
   * 90 s and reaches the map at 91 s has its hello, accepted at 0 s, accepted again.
   */
  lemma TwoReadingsReplay()
    ensures var a, b := Attempt(45, [7], true, 0, 0, 0), Attempt(45, [7], true, 90 * SECOND, 91 * SECOND, 91 * SECOND);
            exists run :: Possible(run) && Monotone(run) && WholeSeconds(run) && AcceptedBoth(run, a, b)
  {
    var a, b := Attempt(45, [7], true, 0, 0, 0), Attempt(45, [7], true, 90 * SECOND, 91 * SECOND, 91 * SECOND);
    assert Unix(0) == 0 && Unix(90 * SECOND) == 90 && Unix(91 * SECOND) == 91;
    InWindowExact(0, 45);
    InWindowExact(90, 45);
    ReplayAccepts(a, b);
    assert Monotone(Replay(a, b)) && WholeSeconds(Replay(a, b));
  }
}
