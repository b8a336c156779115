/**
 * Least-loaded placement under concurrency.  Pick reads the stream counts one after the other
 * while other callers open streams, and OpenStream comes later still; at most p callers are
 * between the start of their Pick and the end of their OpenStream.  The counts include the streams
 * that the far end opens, on whichever session it likes.
 */
module Balance {
  import opened Basics
  import opened SessionSet

  type Sid = nat
  type CallerId = nat

  /** The loop variables of Pick: the session preferred so far and its count when it was read. */
  datatype Best = NoBest | Best(s: Sid, n: int)

  datatype Caller =
    | Scanning(unread: set<Sid>, best: Best)
    | Holding(s: Sid, n: int)

  datatype State = State(
    loads: map<Sid, nat>,
    callers: map<CallerId, Caller>,
    remote: nat)   // how many streams the far end has opened

  datatype Step =
    | Begin(c: CallerId)
    | Read(c: CallerId, s: Sid)
    | Finish(c: CallerId)
    | Open(c: CallerId)
    | OpenFails(c: CallerId)
    | RemoteOpens(s: Sid)

  predicate Enabled(p: nat, st: State, step: Step) {
    match step
    case Begin(c) => c !in st.callers && |st.callers| < p
    case Read(c, s) => c in st.callers && st.callers[c].Scanning? && s in st.callers[c].unread && s in st.loads
    case Finish(c) => c in st.callers && st.callers[c].Scanning? && st.callers[c].unread == {}
    case Open(c) => c in st.callers && st.callers[c].Holding? && st.callers[c].s in st.loads
    case OpenFails(c) => c in st.callers && st.callers[c].Holding?
    case RemoteOpens(s) => s in st.loads
  }

  function Prefer(best: Best, s: Sid, n: nat): Best {
    if n < (if best.NoBest? then MAX_INT else best.n) then Best(s, n) else best
  }

  function Apply(p: nat, st: State, step: Step): State
    requires Enabled(p, st, step)
  {
    match step
    case Begin(c) => st.(callers := st.callers[c := Scanning(st.loads.Keys, NoBest)])
    case Read(c, s) =>
      var k := st.callers[c];
      st.(callers := st.callers[c := Scanning(k.unread - {s}, Prefer(k.best, s, st.loads[s]))])
    case Finish(c) =>
      var best := st.callers[c].best;
      st.(callers := if best.NoBest? then st.callers - {c} else st.callers[c := Holding(best.s, best.n)])
    case Open(c) =>
      var s := st.callers[c].s;
      st.(loads := st.loads[s := st.loads[s] + 1], callers := st.callers - {c})
    case OpenFails(c) => st.(callers := st.callers - {c})
    case RemoteOpens(s) => st.(loads := st.loads[s := st.loads[s] + 1], remote := st.remote + 1)
  }

  predicate Runs(p: nat, st: State, steps: seq<Step>)
    decreases |steps|
  {
    steps == [] || (Enabled(p, st, steps[0]) && Runs(p, Apply(p, st, steps[0]), steps[1..]))
  }

  function After(p: nat, st: State, steps: seq<Step>): State
    requires Runs(p, st, steps)
    decreases |steps|
  {
    if steps == [] then st else After(p, Apply(p, st, steps[0]), steps[1..])
  }

  // ---------- The bound ----------

  /** The caller prefers session s, or has picked it, on a count of at most k. */
  predicate Aims(caller: Caller, s: Sid, k: int) {
    match caller
    case Scanning(_, best) => best.Best? && best.s == s && best.n <= k
    case Holding(t, n) => t == s && n <= k
  }

  function Stake(callers: map<CallerId, Caller>, s: Sid, k: int): set<CallerId> {
    set c | c in callers && Aims(callers[c], s, k)
  }

  /** Counts only grow, so what a caller prefers was no fuller than anything it has read since is. */
  predicate CallerInv(loads: map<Sid, nat>, caller: Caller) {
    match caller
    case Scanning(unread, best) =>
      && unread <= loads.Keys && (best.Best? ==> best.s in loads)
      && forall j :: j in loads && j !in unread ==> (if best.Best? then best.n else MAX_INT) <= loads[j]
    case Holding(s, n) => s in loads && forall j :: j in loads ==> n <= loads[j]
  }

  /** At every level k that some session has not passed, s stays within p of k, but for remote streams. */
  ghost predicate LevelInv(p: nat, st: State) {
    forall s, k: int, j {:trigger st.loads[j], Stake(st.callers, s, k)} ::
      s in st.loads && j in st.loads && st.loads[j] <= k ==> st.loads[s] + |Stake(st.callers, s, k)| <= k + p + st.remote
  }

  ghost predicate Inv(p: nat, st: State) {
    && |st.callers| <= p
    && (forall c :: c in st.callers ==> CallerInv(st.loads, st.callers[c]))
    && LevelInv(p, st)
  }

  lemma SubsetBound<T>(a: set<T>, b: set<T>)
    requires a <= b
    ensures |a| <= |b|
  {
    assert b == a + (b - a);
  }

  lemma StakeBound(callers: map<CallerId, Caller>, s: Sid, k: int)
    ensures |Stake(callers, s, k)| <= |callers|
  {
    SubsetBound(Stake(callers, s, k), callers.Keys);
  }

  lemma CallerStep(p: nat, st: State, step: Step, c: CallerId)
    requires Enabled(p, st, step) && c in Apply(p, st, step).callers
    requires c in st.callers ==> CallerInv(st.loads, st.callers[c])
    ensures CallerInv(Apply(p, st, step).loads, Apply(p, st, step).callers[c])
  {
    if step.Open? || step.RemoteOpens? {
      assert forall j :: j in st.loads ==> st.loads[j] <= Apply(p, st, step).loads[j];
    }
  }

  lemma CountStep(p: nat, st: State, step: Step)
    requires |st.callers| <= p && Enabled(p, st, step)
    ensures |Apply(p, st, step).callers| <= p
  {
    var was, now := st.callers.Keys, Apply(p, st, step).callers.Keys;
    assert |was| == |st.callers| && |now| == |Apply(p, st, step).callers|;
    if step.Begin? {
      assert now == was + {step.c};
    } else {
      SubsetBound(now, was);
    }
  }

  lemma CallersStep(p: nat, st: State, step: Step)
    requires Inv(p, st) && Enabled(p, st, step)
    ensures var next := Apply(p, st, step); forall c :: c in next.callers ==> CallerInv(next.loads, next.callers[c])
  {
    forall c | c in Apply(p, st, step).callers
      ensures CallerInv(Apply(p, st, step).loads, Apply(p, st, step).callers[c])
    {
      CallerStep(p, st, step, c);
    }
  }

  /** Nobody comes to aim at s on a count it has passed; the caller that opens a stream on it leaves. */
  lemma StakeStep(p: nat, st: State, step: Step, s: Sid, k: int)
    requires Enabled(p, st, step) && s in st.loads
    requires step.Open? && st.callers[step.c].s == s ==> st.callers[step.c].n <= k
    ensures var next := Apply(p, st, step);
            next.loads[s] > k ==>
              next.loads[s] + |Stake(next.callers, s, k)| - next.remote <= st.loads[s] + |Stake(st.callers, s, k)| - st.remote
  {
    var next := Apply(p, st, step);
    var was, now := Stake(st.callers, s, k), Stake(next.callers, s, k);
    if next.loads[s] > k {
      if step.Open? && st.callers[step.c].s == s {
        assert step.c in was && now == was - {step.c};
      } else {
        assert now <= was;
        SubsetBound(now, was);
      }
    }
  }

  lemma LevelStep(p: nat, st: State, step: Step, s: Sid, k: int, j: Sid)
    requires Inv(p, st) && Enabled(p, st, step)
    requires var next := Apply(p, st, step); s in next.loads && j in next.loads && next.loads[j] <= k
    ensures var next := Apply(p, st, step); next.loads[s] + |Stake(next.callers, s, k)| <= k + p + next.remote
  {
    var next := Apply(p, st, step);
    assert st.loads[j] <= next.loads[j];
    if next.loads[s] > k {
      if step.Open? {
        assert CallerInv(st.loads, st.callers[step.c]);
      }
      StakeStep(p, st, step, s, k);
    } else {
      CountStep(p, st, step);
      StakeBound(next.callers, s, k);
    }
  }

  lemma Preserved(p: nat, st: State, step: Step)
    requires Inv(p, st) && Enabled(p, st, step)
    ensures Inv(p, Apply(p, st, step))
  {
    CountStep(p, st, step);
    CallersStep(p, st, step);
    var next := Apply(p, st, step);
    forall s, k: int, j | s in next.loads && j in next.loads && next.loads[j] <= k
      ensures next.loads[s] + |Stake(next.callers, s, k)| <= k + p + next.remote
    {
      LevelStep(p, st, step, s, k, j);
    }
  }

  lemma {:induction false} RunInv(p: nat, st: State, steps: seq<Step>)
    requires Inv(p, st) && Runs(p, st, steps)
    ensures Inv(p, After(p, st, steps))
    decreases |steps|
  {
    if steps != [] {
      Preserved(p, st, steps[0]);
      RunInv(p, Apply(p, st, steps[0]), steps[1..]);
    }
  }

  /** The callers that have picked s and not yet opened their stream. */
  function InFlight(callers: map<CallerId, Caller>, s: Sid): set<CallerId> {
    set c | c in callers && callers[c].Holding? && callers[c].s == s
  }

  /** No session has more than p streams above another. */
  predicate Spread(loads: map<Sid, nat>, p: nat) {
    forall s, j :: s in loads && j in loads ==> loads[s] <= loads[j] + p
  }

  lemma InFlightBound(p: nat, st: State, s: Sid, j: Sid)
    requires Inv(p, st) && s in st.loads && j in st.loads
    ensures st.loads[s] + |InFlight(st.callers, s)| <= st.loads[j] + p + st.remote
  {
    var k := st.loads[j];
    forall c | c in InFlight(st.callers, s)
      ensures c in Stake(st.callers, s, k)
    {
      assert CallerInv(st.loads, st.callers[c]);
    }
    SubsetBound(InFlight(st.callers, s), Stake(st.callers, s, k));
    assert st.loads[s] + |Stake(st.callers, s, k)| <= k + p + st.remote;
  }

  lemma StartInv(p: nat, loads: map<Sid, nat>)
    requires Spread(loads, p)
    ensures Inv(p, State(loads, map[], 0))
  {
    var start := State(loads, map[], 0);
    forall s, k: int
      ensures Stake(start.callers, s, k) == {}
    {
    }
  }

  /**
   * The spread never exceeds p, but for what the far end has opened: from counts that differ by at
   * most p (equal ones, say), in every interleaving with at most p callers under way, streams open
   * and about to open on one session are at most p more than the streams of any other.
   */
  lemma SpreadBound(p: nat, loads: map<Sid, nat>, steps: seq<Step>)
    requires Spread(loads, p) && Runs(p, State(loads, map[], 0), steps)
    ensures var st := After(p, State(loads, map[], 0), steps);
            && Spread(st.loads, p + st.remote)
            && forall s, j :: s in st.loads && j in st.loads ==>
                 st.loads[s] + |InFlight(st.callers, s)| <= st.loads[j] + p + st.remote
    ensures var st := After(p, State(loads, map[], 0), steps);
            forall c :: c in st.callers && st.callers[c].Holding? ==> Enabled(p, st, Open(c)) && Enabled(p, st, OpenFails(c))
  {
    var start := State(loads, map[], 0);
    StartInv(p, loads);
    RunInv(p, start, steps);
    var st := After(p, start, steps);
    forall s, j | s in st.loads && j in st.loads
      ensures st.loads[s] + |InFlight(st.callers, s)| <= st.loads[j] + p + st.remote
    {
      InFlightBound(p, st, s, j);
    }
  }

  // ---------- What the counts count ----------

  /** The step opens a stream on s. */
  predicate OpensOn(p: nat, st: State, step: Step, s: Sid)
    requires Enabled(p, st, step)
  {
    match step
    case Open(c) => st.callers[c].s == s
    case RemoteOpens(t) => t == s
    case _ => false
  }

  function Opened(p: nat, st: State, steps: seq<Step>, s: Sid): nat
    requires Runs(p, st, steps)
    decreases |steps|
  {
    if steps == [] then 0
    else One(OpensOn(p, st, steps[0], s)) + Opened(p, Apply(p, st, steps[0]), steps[1..], s)
  }

  function RemoteOpened(steps: seq<Step>): nat {
    if steps == [] then 0 else One(steps[0].RemoteOpens?) + RemoteOpened(steps[1..])
  }

  /** The counts are those of the streams opened, by whom ever, and the sessions stay the same. */
  lemma {:induction false} LoadsExactly(p: nat, st: State, steps: seq<Step>, s: Sid)
    requires Runs(p, st, steps) && s in st.loads
    ensures var end := After(p, st, steps);
            && end.loads.Keys == st.loads.Keys
            && end.loads[s] == st.loads[s] + Opened(p, st, steps, s)
            && end.remote == st.remote + RemoteOpened(steps)
    decreases |steps|
  {
    if steps != [] {
      LoadStep(p, st, steps[0], s);
      LoadsExactly(p, Apply(p, st, steps[0]), steps[1..], s);
    }
  }

  lemma LoadStep(p: nat, st: State, step: Step, s: Sid)
    requires Enabled(p, st, step) && s in st.loads
    ensures var next := Apply(p, st, step);
            && next.loads.Keys == st.loads.Keys
            && next.loads[s] == st.loads[s] + One(OpensOn(p, st, step, s))
            && next.remote == st.remote + One(step.RemoteOpens?)
  {
  }

  /** The steps can be taken from one state and lead to the other. */
  predicate Leads(p: nat, st: State, steps: seq<Step>, end: State) {
    Runs(p, st, steps) && After(p, st, steps) == end
  }

  lemma LeadsFirst(p: nat, st: State, step: Step, rest: seq<Step>, end: State)
    requires Enabled(p, st, step) && Leads(p, Apply(p, st, step), rest, end)
    ensures Leads(p, st, [step] + rest, end)
  {
    assert ([step] + rest)[1..] == rest;
  }

  // ---------- Callers come and go ----------

  /** Whoever has picked a session may fail to open a stream, and is then gone. */
  lemma HolderLeaves(p: nat, st: State, c: CallerId)
    requires c in st.callers && st.callers[c].Holding?
    ensures Leads(p, st, [OpenFails(c)], st.(callers := st.callers - {c}))
  {
    assert [OpenFails(c)][1..] == [];
  }

  lemma FinishLeaves(p: nat, st: State, c: CallerId) returns (steps: seq<Step>)
    requires c in st.callers && st.callers[c].Scanning? && st.callers[c].unread == {}
    ensures Leads(p, st, steps, st.(callers := st.callers - {c}))
  {
    var next := Apply(p, st, Finish(c));
    var end := st.(callers := st.callers - {c});
    if st.callers[c].best.NoBest? {
      LeadsFirst(p, st, Finish(c), [], end);
      steps := [Finish(c)] + [];
    } else {
      HolderLeaves(p, next, c);
      assert next.callers - {c} == st.callers - {c};
      LeadsFirst(p, st, Finish(c), [OpenFails(c)], end);
      steps := [Finish(c)] + [OpenFails(c)];
    }
  }

  /** A caller can go through with its Pick and leave, whatever it has read so far. */
  lemma {:induction false} CallerLeaves(p: nat, st: State, c: CallerId) returns (steps: seq<Step>)
    requires c in st.callers && CallerInv(st.loads, st.callers[c])
    ensures Leads(p, st, steps, st.(callers := st.callers - {c}))
    decreases if st.callers[c].Scanning? then |st.callers[c].unread| else 0
  {
    if st.callers[c].Holding? {
      HolderLeaves(p, st, c);
      steps := [OpenFails(c)];
    } else if st.callers[c].unread == {} {
      steps := FinishLeaves(p, st, c);
    } else {
      var s :| s in st.callers[c].unread;
      var next := Apply(p, st, Read(c, s));
      CallerStep(p, st, Read(c, s), c);
      var rest := CallerLeaves(p, next, c);
      assert next.callers - {c} == st.callers - {c};
      LeadsFirst(p, st, Read(c, s), rest, st.(callers := st.callers - {c}));
      steps := [Read(c, s)] + rest;
    }
  }

  /** In every run: a caller under way can leave without a stream, and without a trace on the counts. */
  lemma UnderWayCanLeave(p: nat, loads: map<Sid, nat>, steps: seq<Step>, c: CallerId) returns (more: seq<Step>)
    requires Spread(loads, p) && Runs(p, State(loads, map[], 0), steps)
    requires c in After(p, State(loads, map[], 0), steps).callers
    ensures var st := After(p, State(loads, map[], 0), steps);
            Leads(p, st, more, st.(callers := st.callers - {c}))
  {
    StartInv(p, loads);
    RunInv(p, State(loads, map[], 0), steps);
    more := CallerLeaves(p, After(p, State(loads, map[], 0), steps), c);
  }

  // ---------- The bound is reached ----------

  /** Callers lo..hi, all holding session 0 on a count of 0. */
  function Crew(lo: nat, hi: nat): (m: map<CallerId, Caller>)
    requires lo <= hi
    ensures |m| == hi - lo
    ensures forall c {:trigger c in m} :: c in m <==> lo <= c < hi
    ensures forall c :: c in m ==> m[c] == Holding(0, 0)
    decreases hi - lo
  {
    if lo == hi then map[] else Crew(lo + 1, hi)[lo := Holding(0, 0)]
  }

  /** Two sessions, `load` streams on the first, and callers lo..hi about to open more on it. */
  function Crowd(load: nat, lo: nat, hi: nat): State
    requires lo <= hi
  {
    State(map[0 := load, 1 := 0], Crew(lo, hi), 0)
  }

  lemma OpenOne(p: nat, lo: nat, hi: nat)
    requires lo < hi
    ensures Enabled(p, Crowd(lo, lo, hi), Open(lo))
    ensures Apply(p, Crowd(lo, lo, hi), Open(lo)) == Crowd(lo + 1, lo + 1, hi)
  {
    assert Crew(lo, hi) - {lo} == Crew(lo + 1, hi);
  }

  /** Two sessions, `load` streams on the first, nobody under way and `remote` streams by the far end. */
  function Quiet(load: nat, remote: nat): State {
    State(map[0 := load, 1 := 0], map[], remote)
  }

  lemma FarEndOpensOne(p: nat, load: nat, remote: nat)
    ensures Enabled(p, Quiet(load, remote), RemoteOpens(0))
    ensures Apply(p, Quiet(load, remote), RemoteOpens(0)) == Quiet(load + 1, remote + 1)
  {
  }

  lemma {:induction false} FarEndOpens(p: nat, load: nat, remote: nat, r: nat) returns (steps: seq<Step>)
    ensures Leads(p, Quiet(load, remote), steps, Quiet(load + r, remote + r))
    decreases r
  {
    if r == 0 {
      steps := [];
    } else {
      var rest := FarEndOpens(p, load + 1, remote + 1, r - 1);
      FarEndOpensOne(p, load, remote);
      LeadsFirst(p, Quiet(load, remote), RemoteOpens(0), rest, Quiet(load + r, remote + r));
      steps := [RemoteOpens(0)] + rest;
    }
  }

  /** One caller of the crowd opens its stream. */
  lemma OpenFirst(p: nat, lo: nat, hi: nat, rest: seq<Step>, end: State) returns (steps: seq<Step>)
    requires lo < hi && Leads(p, Crowd(lo + 1, lo + 1, hi), rest, end)
    ensures Leads(p, Crowd(lo, lo, hi), steps, end)
  {
    OpenOne(p, lo, hi);
    LeadsFirst(p, Crowd(lo, lo, hi), Open(lo), rest, end);
    steps := [Open(lo)] + rest;
  }

  /** Then the far end has its turn. */
  lemma CrowdGone(p: nat, hi: nat, r: nat) returns (steps: seq<Step>)
    ensures Leads(p, Crowd(hi, hi, hi), steps, Quiet(hi + r, r))
  {
    assert Crowd(hi, hi, hi) == Quiet(hi, 0);
    steps := FarEndOpens(p, hi, 0, r);
  }

  lemma {:induction false} OpenCrowd(p: nat, lo: nat, hi: nat, r: nat) returns (steps: seq<Step>)
    requires lo <= hi
    ensures Leads(p, Crowd(lo, lo, hi), steps, Quiet(hi + r, r))
    decreases hi - lo
  {
    if lo == hi {
      steps := CrowdGone(p, hi, r);
    } else {
      var rest := OpenCrowd(p, lo + 1, hi, r);
      steps := OpenFirst(p, lo, hi, rest, Quiet(hi + r, r));
    }
  }

  /** The crowd with one more caller, at the given point of its Pick. */
  function Joining(hi: nat, caller: Caller): State {
    State(map[0 := 0, 1 := 0], Crew(0, hi)[hi := caller], 0)
  }

  lemma PickZero(p: nat, hi: nat)
    requires hi < p
    ensures Enabled(p, Crowd(0, 0, hi), Begin(hi))
    ensures Apply(p, Crowd(0, 0, hi), Begin(hi)) == Joining(hi, Scanning({0, 1}, NoBest))
    ensures Apply(p, Joining(hi, Scanning({0, 1}, NoBest)), Read(hi, 0)) == Joining(hi, Scanning({1}, Best(0, 0)))
    ensures Apply(p, Joining(hi, Scanning({1}, Best(0, 0))), Read(hi, 1)) == Joining(hi, Scanning({}, Best(0, 0)))
  {
    assert Crowd(0, 0, hi).loads.Keys == {0, 1};
    assert {0, 1} - {0} == {1} && {1} - {1} == {};
    assert Prefer(NoBest, 0, 0) == Best(0, 0) == Prefer(Best(0, 0), 1, 0);
  }

  lemma PickedZero(p: nat, hi: nat)
    ensures Apply(p, Joining(hi, Scanning({}, Best(0, 0))), Finish(hi)) == Crowd(0, 0, hi + 1)
  {
    assert Crew(0, hi)[hi := Holding(0, 0)] == Crew(0, hi + 1);
  }

  /** One more caller picks session 0. */
  lemma JoinCrowd(p: nat, hi: nat, rest: seq<Step>, end: State) returns (steps: seq<Step>)
    requires hi < p && Leads(p, Crowd(0, 0, hi + 1), rest, end)
    ensures Leads(p, Crowd(0, 0, hi), steps, end)
  {
    PickZero(p, hi);
    PickedZero(p, hi);
    LeadsFirst(p, Joining(hi, Scanning({}, Best(0, 0))), Finish(hi), rest, end);
    steps := [Finish(hi)] + rest;
    LeadsFirst(p, Joining(hi, Scanning({1}, Best(0, 0))), Read(hi, 1), steps, end);
    steps := [Read(hi, 1)] + steps;
    LeadsFirst(p, Joining(hi, Scanning({0, 1}, NoBest)), Read(hi, 0), steps, end);
    steps := [Read(hi, 0)] + steps;
    LeadsFirst(p, Crowd(0, 0, hi), Begin(hi), steps, end);
    steps := [Begin(hi)] + steps;
  }

  lemma {:induction false} GatherCrowd(p: nat, hi: nat, r: nat) returns (steps: seq<Step>)
    requires hi <= p
    ensures Leads(p, Crowd(0, 0, hi), steps, Quiet(p + r, r))
    decreases p - hi
  {
    if hi == p {
      steps := OpenCrowd(p, 0, p, r);
    } else {
      var rest := GatherCrowd(p, hi + 1, r);
      steps := JoinCrowd(p, hi, rest, Quiet(p + r, r));
    }
  }

  /** The bound is tight: p callers and r remote streams can put two idle sessions p + r apart. */
  lemma SpreadReached(p: nat, r: nat) returns (steps: seq<Step>)
    ensures Leads(p, Quiet(0, 0), steps, Quiet(p + r, r))
  {
    assert Crowd(0, 0, 0) == Quiet(0, 0);
    steps := GatherCrowd(p, 0, r);
  }
}
