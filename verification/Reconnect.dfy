/** The reconnect loop of one maintainer and its backoff.  Durations are int64 nanoseconds. */
module Reconnect {
  import opened Basics
  import opened Bytes

  const TWO_62: int := 0x4000_0000_0000_0000

  /**
   * Reconnect.MinMillis and MaxMillis as durations.  Nothing keeps either from being negative, and
   * neither need be the larger.
   */
  datatype Config = Config(min: int, max: int) {
    predicate Valid() {
      -TWO_63 <= min < TWO_63 && -TWO_63 <= max < TWO_63
    }

    /** Both positive, and small enough (below 146 years) for doubling to stay within int64. */
    predicate Sane() {
      0 < min < TWO_62 && 0 < max < TWO_62
    }
  }

  /**
   * One turn of the loop: how long dialling, handshake and mux took and whether one of them failed,
   * how long the session then lasted, and by how much a sleep, if there is one, overshoots.
   */
  datatype Turn = Turn(took: nat, failed: bool, uptime: nat, overshoot: nat)

  function Grow(cur: int, max: int): int {
    var next := WrapInt64(cur * 2);
    if next > max then max else next
  }

  /** grow is the capped doubling exactly as long as the doubling does not leave int64. */
  lemma GrowExactly(cur: int, max: int)
    requires 0 < cur < TWO_63 && 0 <= max < TWO_63
    ensures Grow(cur, max) == (if 2 * cur > max then max else 2 * cur) <==> 2 * cur < TWO_63
  {
    if 2 * cur >= TWO_63 {
      assert WrapInt64(2 * cur) == 2 * cur - TWO_64;
    }
  }

  /** The backoff after k turns in a row without a stable session. */
  function Backoff(c: Config, k: nat): int {
    if k == 0 then c.min else Grow(Backoff(c, k - 1), c.max)
  }

  /** The closed form that it is meant to have. */
  function Delay(c: Config, k: nat): int {
    if k == 0 then c.min
    else if c.min * Pow2(k) > c.max then c.max
    else c.min * Pow2(k)
  }

  lemma MulAtLeast(a: int, b: nat)
    requires a > 0 && b > 0
    ensures a * b >= a
  {
  }

  lemma DelayGrows(c: Config, k: nat)
    requires c.Sane()
    ensures 0 < Delay(c, k) < TWO_62
    ensures Grow(Delay(c, k), c.max) == Delay(c, k + 1)
  {
    MulAtLeast(c.min, Pow2(k));
    GrowExactly(Delay(c, k), c.max);
    assert c.min * Pow2(k + 1) == 2 * (c.min * Pow2(k));
  }

  lemma {:induction false} BackoffIsDelay(c: Config, k: nat)
    requires c.Sane()
    ensures Backoff(c, k) == Delay(c, k)
  {
    if k > 0 {
      BackoffIsDelay(c, k - 1);
      DelayGrows(c, k - 1);
    }
  }

  lemma {:induction false} BackoffFits(c: Config, k: nat)
    requires c.Valid()
    ensures -TWO_63 <= Backoff(c, k) < TWO_63
  {
    if k > 0 {
      BackoffFits(c, k - 1);
    }
  }

  /** Doubling overshoots: from a positive backoff it gets to 2^62, or past it by the cap, and wraps. */
  lemma {:induction false} BackoffWraps(c: Config, k: nat) returns (n: nat)
    requires c.Valid() && c.max >= TWO_62 && 0 < Backoff(c, k)
    ensures n > k && Backoff(c, n) < 0
    decreases TWO_63 - Backoff(c, k)
  {
    BackoffFits(c, k);
    var x := Backoff(c, k);
    if x >= TWO_62 {
      assert WrapInt64(2 * x) == 2 * x - TWO_64;
      n := k + 1;
    } else {
      assert WrapInt64(2 * x) == 2 * x;
      BackoffFits(c, k + 1);
      n := BackoffWraps(c, k + 1);
    }
  }

  /** With settings that are not sane some backoff is no wait at all. */
  lemma BackoffVanishes(c: Config) returns (k: nat)
    requires c.Valid() && !c.Sane()
    ensures Backoff(c, k) <= 0
    ensures c.min > 0 && c.max > 0 ==> Backoff(c, k) < 0
  {
    assert Backoff(c, 0) == c.min && Backoff(c, 1) == Grow(c.min, c.max);
    if c.min <= 0 {
      k := 0;
    } else if c.max >= TWO_62 {
      k := BackoffWraps(c, 0);
    } else {
      if c.min >= TWO_62 {
        assert WrapInt64(2 * c.min) == 2 * c.min - TWO_64;
      }
      k := 1;
    }
  }

  /** With positive settings the closed form holds at every turn exactly when no doubling can wrap. */
  lemma BackoffExactly(c: Config)
    requires c.Valid() && 0 < c.min && 0 < c.max
    ensures (forall k: nat :: Backoff(c, k) == Delay(c, k)) <==> c.Sane()
  {
    if c.Sane() {
      forall k: nat
        ensures Backoff(c, k) == Delay(c, k)
      {
        BackoffIsDelay(c, k);
      }
    } else {
      var k := BackoffVanishes(c);
      MulAtLeast(c.min, Pow2(k));
      assert Delay(c, k) > 0;
    }
  }

  /** Go's division by ten, which truncates. */
  function Tenth(a: int): int {
    if a >= 0 then a / 10 else -(-a / 10)
  }

  /** minStable: the uptime from which a session counts as good. */
  function MinStable(c: Config): (m: int)
    ensures m >= 5 * SECOND
    ensures 0 <= 3 * c.max < TWO_63 ==> m >= 3 * c.max / 10
  {
    var m := Tenth(WrapInt64(3 * c.max));
    if m < 5 * SECOND then 5 * SECOND else m
  }

  predicate Stable(c: Config, t: Turn) {
    !t.failed && t.uptime >= MinStable(c)
  }

  /** A session is stable exactly when it outlived both 5 seconds and three tenths of the maximum. */
  lemma StableExactly(c: Config, t: Turn)
    requires -TWO_63 <= 3 * c.max < TWO_63
    ensures Stable(c, t) <==> !t.failed && t.uptime >= 5_000_000_000 && t.uptime >= 3 * c.max / 10
  {
  }

  /** How many turns in a row, up to turn i, had no stable session. */
  function Streak(c: Config, turns: seq<Turn>, i: nat): nat
    requires i <= |turns|
  {
    if i == 0 || Stable(c, turns[i - 1]) then 0 else 1 + Streak(c, turns, i - 1)
  }

  lemma {:induction false} StreakExactly(c: Config, turns: seq<Turn>, i: nat, k: nat)
    requires k <= i <= |turns|
    ensures Streak(c, turns, i) == k <==>
            (forall j :: i - k <= j < i ==> !Stable(c, turns[j])) && (k == i || Stable(c, turns[i - k - 1]))
  {
    if k > 0 {
      StreakExactly(c, turns, i - 1, k - 1);
    }
  }

  /** How long time.After keeps the loop waiting; for a negative duration, not at all. */
  function Wait(d: int): nat {
    if d > 0 then d else 0
  }

  /** How long a turn takes that starts with the given backoff. */
  function Span(c: Config, t: Turn, backoff: int): nat {
    t.took + (if t.failed then 0 else t.uptime) + if Stable(c, t) then 0 else Wait(backoff) + t.overshoot
  }

  /** The time from the start of turn i to the start of the next. */
  function Duration(c: Config, turns: seq<Turn>, i: nat): nat
    requires i < |turns|
  {
    Span(c, turns[i], Backoff(c, Streak(c, turns, i)))
  }

  function StartOf(c: Config, turns: seq<Turn>, start: int, i: nat): int
    requires i <= |turns|
  {
    if i == 0 then start else StartOf(c, turns, start, i - 1) + Duration(c, turns, i - 1)
  }

  /** The body of the loop: the time it takes and the backoff it leaves. */
  method TakeTurn(c: Config, t: Turn, current: int) returns (elapsed: nat, backoff: int)
    ensures elapsed == Span(c, t, current)
    ensures backoff == if Stable(c, t) then c.min else Grow(current, c.max)
    ensures 0 <= 3 * c.max < TWO_63 ==>
              var good := !t.failed && t.uptime >= 5_000_000_000 && t.uptime >= 3 * c.max / 10;
              && elapsed == t.took + (if t.failed then 0 else t.uptime)
                            + (if good then 0 else (if current > 0 then current else 0) + t.overshoot)
              && backoff == if good then c.min else Grow(current, c.max)
  {
    backoff := current;
    var maxBackoff := c.max;
    elapsed := t.took;
    if t.failed {
      elapsed := elapsed + Wait(backoff) + t.overshoot;
      backoff := Grow(backoff, maxBackoff);
      return;
    }
    elapsed := elapsed + t.uptime;
    var minStable := Tenth(WrapInt64(3 * maxBackoff));
    if minStable < 5 * SECOND {
      minStable := 5 * SECOND;
    }
    if t.uptime >= minStable {
      backoff := c.min;
    } else {
      elapsed := elapsed + Wait(backoff) + t.overshoot;
      backoff := Grow(backoff, maxBackoff);
    }
  }

  /** A dial of the loop: when, and the backoff it then held. */
  datatype Dial = Dial(at: int, backoff: int)

  function Dials(c: Config, turns: seq<Turn>, start: int, i: nat): (d: seq<Dial>)
    requires i <= |turns|
    ensures |d| == i
  {
    if i == 0 then []
    else Dials(c, turns, start, i - 1) + [Dial(StartOf(c, turns, start, i - 1), Backoff(c, Streak(c, turns, i - 1)))]
  }

  lemma {:induction false} DialAt(c: Config, turns: seq<Turn>, start: int, n: nat, i: nat)
    requires i < n <= |turns|
    ensures Dials(c, turns, start, n)[i] == Dial(StartOf(c, turns, start, i), Backoff(c, Streak(c, turns, i)))
  {
    if i < n - 1 {
      DialAt(c, turns, start, n - 1, i);
    }
  }

  lemma NextTurn(c: Config, turns: seq<Turn>, start: int, i: nat)
    requires i < |turns|
    ensures var backoff := Backoff(c, Streak(c, turns, i));
            && Backoff(c, Streak(c, turns, i + 1)) == (if Stable(c, turns[i]) then c.min else Grow(backoff, c.max))
            && StartOf(c, turns, start, i + 1) == StartOf(c, turns, start, i) + Span(c, turns[i], backoff)
            && Dials(c, turns, start, i + 1) == Dials(c, turns, start, i) + [Dial(StartOf(c, turns, start, i), backoff)]
  {
  }

  /** maintainSession, until the client is closed after the given turns. */
  method MaintainSession(c: Config, turns: seq<Turn>, start: int) returns (dials: seq<Dial>)
    ensures |dials| == |turns|
    ensures forall i :: 0 <= i < |turns| ==>
              dials[i] == Dial(StartOf(c, turns, start, i), Backoff(c, Streak(c, turns, i)))
  {
    var backoff := c.min;
    var now := start;
    dials := [];
    var i := 0;
    while i < |turns|
      invariant i <= |turns| && dials == Dials(c, turns, start, i)
      invariant backoff == Backoff(c, Streak(c, turns, i))
      invariant now == StartOf(c, turns, start, i)
    {
      NextTurn(c, turns, start, i);
      dials := dials + [Dial(now, backoff)];
      var elapsed;
      elapsed, backoff := TakeTurn(c, turns[i], backoff);
      now := now + elapsed;
      i := i + 1;
    }
    forall j | 0 <= j < |turns|
      ensures dials[j] == Dial(StartOf(c, turns, start, j), Backoff(c, Streak(c, turns, j)))
    {
      DialAt(c, turns, start, |turns|, j);
    }
  }

  // ---------- How often it dials ----------

  /** The least time a turn can take: a sleep, or a session good enough to skip it. */
  function Floor(c: Config): int {
    var m := if c.min < c.max then c.min else c.max;
    if m < 5 * SECOND then m else 5 * SECOND
  }

  lemma DurationAtLeast(c: Config, turns: seq<Turn>, i: nat)
    requires c.Sane() && i < |turns|
    ensures Duration(c, turns, i) >= Floor(c)
    ensures !Stable(c, turns[i]) ==> Duration(c, turns, i) >= Delay(c, Streak(c, turns, i))
  {
    var k := Streak(c, turns, i);
    BackoffIsDelay(c, k);
    MulAtLeast(c.min, Pow2(k));
  }

  /** When the n-th turn starts, for every n. */
  function Times(c: Config, turns: seq<Turn>, start: int): (ts: seq<int>)
    ensures |ts| == |turns| + 1
    ensures forall i {:trigger ts[i]} :: 0 <= i <= |turns| ==> ts[i] == StartOf(c, turns, start, i)
  {
    seq(|turns| + 1, i requires 0 <= i <= |turns| => StartOf(c, turns, start, i))
  }

  lemma {:induction false} Climbs(ts: seq<int>, i: nat, j: nat, f: int)
    requires i <= j < |ts| && forall k :: i <= k < j ==> ts[k + 1] >= ts[k] + f
    ensures ts[j] - ts[i] >= (j - i) * f
  {
    if i < j {
      Climbs(ts, i, j - 1, f);
      assert (j - i) * f == (j - 1 - i) * f + f;
    }
  }

  lemma LeastTurn(c: Config, turns: seq<Turn>, start: int, i: nat)
    requires c.Sane() && i < |turns|
    ensures StartOf(c, turns, start, i + 1) >= StartOf(c, turns, start, i) + Floor(c)
  {
    DurationAtLeast(c, turns, i);
  }

  /** Any n + 1 dials of one maintainer span at least n times the least turn. */
  lemma RateBound(c: Config, turns: seq<Turn>, start: int, i: nat, j: nat)
    requires c.Sane() && i <= j <= |turns|
    ensures StartOf(c, turns, start, j) - StartOf(c, turns, start, i) >= (j - i) * Floor(c)
  {
    var ts := Times(c, turns, start);
    forall k | i <= k < j
      ensures ts[k + 1] >= ts[k] + Floor(c)
    {
      LeastTurn(c, turns, start, k);
    }
    Climbs(ts, i, j, Floor(c));
  }

  /** No turn sleeps longer than the larger setting, and one with a stable session not at all. */
  lemma DurationAtMost(c: Config, turns: seq<Turn>, i: nat)
    requires c.Sane() && i < |turns|
    ensures var t := turns[i];
            Duration(c, turns, i) <= t.took + (if t.failed then 0 else t.uptime)
              + if Stable(c, t) then 0 else (if c.min > c.max then c.min else c.max) + t.overshoot
  {
    BackoffIsDelay(c, Streak(c, turns, i));
    MulAtLeast(c.min, Pow2(Streak(c, turns, i)));
  }

  /** What a turn spends on everything but sleeping. */
  function Work(t: Turn): nat {
    t.took + if t.failed then 0 else t.uptime
  }

  function Busy(turns: seq<Turn>, i: nat, j: nat): nat
    requires i <= j <= |turns|
  {
    if i == j then 0 else Busy(turns, i, j - 1) + Work(turns[j - 1])
  }

  function SumOfDelays(c: Config, k: nat): int {
    if k == 0 then 0 else SumOfDelays(c, k - 1) + Delay(c, k - 1)
  }

  lemma UnstableTurn(c: Config, turns: seq<Turn>, start: int, m: nat, k: nat)
    requires c.Sane() && m < |turns| && Streak(c, turns, m) == k
    requires !Stable(c, turns[m]) && turns[m].overshoot == 0
    ensures StartOf(c, turns, start, m + 1) == StartOf(c, turns, start, m) + Work(turns[m]) + Delay(c, k)
  {
    BackoffIsDelay(c, k);
    MulAtLeast(c.min, Pow2(k));
  }

  lemma StreakRuns(c: Config, turns: seq<Turn>, i: nat, m: nat)
    requires i <= m <= |turns| && Streak(c, turns, i) == 0
    requires forall j :: i <= j < m ==> !Stable(c, turns[j])
    ensures Streak(c, turns, m) == m - i
  {
    StreakExactly(c, turns, i, 0);
    StreakExactly(c, turns, m, m - i);
  }

  lemma StreakTurn(c: Config, turns: seq<Turn>, start: int, i: nat, m: nat)
    requires c.Sane() && i <= m < |turns| && Streak(c, turns, i) == 0
    requires (forall j :: i <= j <= m ==> !Stable(c, turns[j])) && turns[m].overshoot == 0
    ensures var ts := Times(c, turns, start); ts[m + 1] == ts[m] + Work(turns[m]) + Delay(c, m - i)
  {
    StreakRuns(c, turns, i, m);
    UnstableTurn(c, turns, start, m, m - i);
  }

  /** No session is stable in turns i to j, and no sleep overshoots. */
  predicate ExactStreak(c: Config, turns: seq<Turn>, i: nat, j: nat)
    requires i <= j <= |turns|
  {
    Streak(c, turns, i) == 0 && forall m :: i <= m < j ==> !Stable(c, turns[m]) && turns[m].overshoot == 0
  }

  lemma LastOfStreak(c: Config, turns: seq<Turn>, start: int, ts: seq<int>, i: nat, m: nat)
    requires c.Sane() && i <= m < |turns| && ts == Times(c, turns, start) && ExactStreak(c, turns, i, m + 1)
    ensures ts[m + 1] == ts[m] + Work(turns[m]) + Delay(c, m - i) && ExactStreak(c, turns, i, m)
  {
    StreakTurn(c, turns, start, i, m);
  }

  lemma {:induction false} StreakAddsUp(c: Config, turns: seq<Turn>, start: int, ts: seq<int>, i: nat, k: nat)
    requires c.Sane() && i + k <= |turns| && ts == Times(c, turns, start) && ExactStreak(c, turns, i, i + k)
    ensures ts[i + k] - ts[i] == Busy(turns, i, i + k) + SumOfDelays(c, k)
  {
    if k > 0 {
      LastOfStreak(c, turns, start, ts, i, i + k - 1);
      StreakAddsUp(c, turns, start, ts, i, k - 1);
    }
  }

  /** With exact sleeps a streak takes exactly what its turns do and the sum of the delays. */
  lemma StreakTakesExactly(c: Config, turns: seq<Turn>, start: int, i: nat, k: nat)
    requires c.Sane() && i + k <= |turns| && ExactStreak(c, turns, i, i + k)
    ensures Streak(c, turns, i + k) == k
    ensures StartOf(c, turns, start, i + k) - StartOf(c, turns, start, i) == Busy(turns, i, i + k) + SumOfDelays(c, k)
  {
    StreakAddsUp(c, turns, start, Times(c, turns, start), i, k);
    StreakRuns(c, turns, i, i + k);
  }

  /** Every turn of every run takes at least d. */
  ghost predicate Limited(c: Config, d: int) {
    forall turns: seq<Turn>, i: nat :: i < |turns| ==> Duration(c, turns, i) >= d
  }

  /** n turns whose dial fails at once and whose sleep is exact. */
  function Refusals(n: nat): seq<Turn> {
    seq(n, _ => Turn(0, true, 0, 0))
  }

  lemma {:induction false} RefusalsAreAStreak(c: Config, n: nat, i: nat)
    requires i <= n
    ensures Streak(c, Refusals(n), i) == i
  {
    if i > 0 {
      RefusalsAreAStreak(c, n, i - 1);
    }
  }

  /**
   * The loop limits the rate of its dials at all exactly for sane settings: with a zero or negative
   * one, or one so large that the doubling wraps, some turn can take no time.
   */
  lemma RateLimitedExactly(c: Config)
    requires c.Valid()
    ensures (exists d :: d > 0 && Limited(c, d)) <==> c.Sane()
  {
    if c.Sane() {
      forall turns: seq<Turn>, i: nat | i < |turns|
        ensures Duration(c, turns, i) >= Floor(c)
      {
        DurationAtLeast(c, turns, i);
      }
      assert Limited(c, Floor(c));
    } else {
      var k := BackoffVanishes(c);
      RefusalsAreAStreak(c, k + 1, k);
      assert Duration(c, Refusals(k + 1), k) == 0;
    }
  }

  /** min * (2^k - 1), as the sum of the first k delays. */
  function Doubled(min: int, k: nat): int {
    if k == 0 then 0 else Doubled(min, k - 1) + min * Pow2(k - 1)
  }

  lemma {:induction false} DoubledIs(min: int, k: nat)
    ensures Doubled(min, k) == min * (Pow2(k) - 1)
  {
    if k > 0 {
      DoubledIs(min, k - 1);
      var q := Pow2(k - 1);
      assert min * (2 * q - 1) == min * (q - 1) + min * q;
    }
  }

  lemma UncappedBefore(c: Config, k: nat)
    requires c.Sane() && k > 0 && c.min * Pow2(k) <= c.max
    ensures c.min * Pow2(k - 1) <= c.max
  {
    var q := Pow2(k - 1);
    assert c.min * (2 * q) == 2 * (c.min * q);
    MulAtLeast(c.min, q);
  }

  lemma UncappedDelay(c: Config, k: nat)
    requires c.Sane() && c.min * Pow2(k) <= c.max
    ensures Delay(c, k) == c.min * Pow2(k)
  {
  }

  lemma {:induction false} StreakSums(c: Config, turns: seq<Turn>, start: int, i: nat, k: nat)
    requires c.Sane() && i + k <= |turns| && Streak(c, turns, i) == 0
    requires forall j :: i <= j < i + k ==> !Stable(c, turns[j])
    requires k > 0 ==> c.min * Pow2(k - 1) <= c.max
    ensures Streak(c, turns, i + k) == k
    ensures StartOf(c, turns, start, i + k) - StartOf(c, turns, start, i) >= Doubled(c.min, k)
  {
    if k > 0 {
      if k > 1 {
        UncappedBefore(c, k - 1);
      }
      StreakSums(c, turns, start, i, k - 1);
      DurationAtLeast(c, turns, i + k - 1);
      UncappedDelay(c, k - 1);
    }
  }

  /**
   * While no session is stable the dials thin out: as long as the delay is not capped, k turns
   * take at least min * (2^k - 1).
   */
  lemma StreakTakes(c: Config, turns: seq<Turn>, start: int, i: nat, k: nat)
    requires c.Sane() && i + k <= |turns| && Streak(c, turns, i) == 0
    requires forall j :: i <= j < i + k ==> !Stable(c, turns[j])
    requires k > 0 ==> c.min * Pow2(k - 1) <= c.max
    ensures StartOf(c, turns, start, i + k) - StartOf(c, turns, start, i) >= c.min * (Pow2(k) - 1)
  {
    StreakSums(c, turns, start, i, k);
    DoubledIs(c.min, k);
  }
}
