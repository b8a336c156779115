/**
 * The client's pool: PoolSize maintainers, each registering one session at a time, and Close,
 * which may empty the set at any moment.
 */
module Pool {
  import opened Bytes
  import opened SessionSet

  type MaintainerId = nat

  /** A session is told apart by its maintainer and by the number of the Add that registered it. */
  datatype Registered = Registered(owner: MaintainerId, serial: nat)

  datatype Maintainer = Idle | Serving(id: SessionId, serial: nat)

  datatype State = State(
    sessions: map<SessionId, Registered>,
    nextID: SessionId,
    maintainers: map<MaintainerId, Maintainer>,
    adds: nat,                   // how often Add has been called
    issued: set<SessionId>)      // the ids it has returned

  datatype Step =
    | Add(m: MaintainerId)
    | Remove(m: MaintainerId)
    | CloseAll

  predicate Enabled(st: State, step: Step) {
    match step
    case Add(m) => m in st.maintainers && st.maintainers[m].Idle?
    case Remove(m) => m in st.maintainers && st.maintainers[m].Serving?
    case CloseAll => true
  }

  function Apply(st: State, step: Step): State
    requires Enabled(st, step)
  {
    match step
    case Add(m) =>
      State(
        st.sessions[st.nextID := Registered(m, st.adds)],
        NextId(st.nextID),
        st.maintainers[m := Serving(st.nextID, st.adds)],
        st.adds + 1,
        st.issued + {st.nextID})
    case Remove(m) =>
      st.(sessions := st.sessions - {st.maintainers[m].id}, maintainers := st.maintainers[m := Idle])
    case CloseAll => st.(sessions := map[])
  }

  predicate Runs(st: State, steps: seq<Step>)
    decreases |steps|
  {
    steps == [] || (Enabled(st, steps[0]) && Runs(Apply(st, steps[0]), steps[1..]))
  }

  function After(st: State, steps: seq<Step>): State
    requires Runs(st, steps)
    decreases |steps|
  {
    if steps == [] then st else After(Apply(st, steps[0]), steps[1..])
  }

  /** A pool whose maintainers have not registered anything yet. */
  predicate Initial(st: State) {
    && st.sessions == map[] && st.nextID == 0 && st.adds == 0 && st.issued == {}
    && forall m :: m in st.maintainers ==> st.maintainers[m].Idle?
  }

  /** Until the 64-bit counter has gone all the way round, ids are the numbers of their Adds. */
  predicate Inv(st: State) {
    st.adds < TWO_64 ==>
      && st.nextID == st.adds
      && (forall id :: id in st.issued ==> id < st.adds)
      && (forall id :: id in st.sessions ==>
            var r := st.sessions[id];
            r.serial == id && r.owner in st.maintainers && st.maintainers[r.owner] == Serving(id, r.serial))
      && (forall m :: m in st.maintainers && st.maintainers[m].Serving? ==>
            st.maintainers[m].serial == st.maintainers[m].id < st.adds)
      && (forall m, n ::
            (&& m in st.maintainers && st.maintainers[m].Serving?
             && n in st.maintainers && st.maintainers[n].Serving?
             && st.maintainers[m].id == st.maintainers[n].id) ==> m == n)
  }

  lemma Preserved(st: State, step: Step)
    requires Inv(st) && Enabled(st, step)
    ensures Inv(Apply(st, step)) && Apply(st, step).maintainers.Keys == st.maintainers.Keys
    ensures st.adds <= Apply(st, step).adds
  {
  }

  lemma {:induction false} RunInv(st: State, steps: seq<Step>)
    requires Inv(st) && Runs(st, steps)
    ensures Inv(After(st, steps)) && After(st, steps).maintainers.Keys == st.maintainers.Keys
    decreases |steps|
  {
    if steps != [] {
      Preserved(st, steps[0]);
      RunInv(Apply(st, steps[0]), steps[1..]);
    }
  }

  /** A set that maps one-to-one into another is no larger. */
  lemma {:induction false} InjectionBound(ids: set<SessionId>, owner: map<SessionId, MaintainerId>, owners: set<MaintainerId>)
    requires forall id :: id in ids ==> id in owner && owner[id] in owners
    requires forall a, b :: a in ids && b in ids && owner[a] == owner[b] ==> a == b
    ensures |ids| <= |owners|
  {
    if ids != {} {
      var id :| id in ids;
      InjectionBound(ids - {id}, owner, owners - {owner[id]});
    }
  }

  /** In every interleaving, CloseAll included, no more sessions are registered than maintainers. */
  lemma CountBound(start: State, steps: seq<Step>)
    requires Initial(start) && Runs(start, steps) && After(start, steps).adds < TWO_64
    ensures |After(start, steps).sessions| <= |start.maintainers|
  {
    RunInv(start, steps);
    var st := After(start, steps);
    var owner := map id | id in st.sessions :: st.sessions[id].owner;
    InjectionBound(st.sessions.Keys, owner, st.maintainers.Keys);
    assert |st.sessions.Keys| == |st.sessions| && |st.maintainers.Keys| == |start.maintainers|;
  }

  /** Add never returns an id it has returned before. */
  lemma IdsNeverReused(start: State, steps: seq<Step>)
    requires Initial(start) && Runs(start, steps) && After(start, steps).adds < TWO_64
    ensures After(start, steps).nextID !in After(start, steps).issued
  {
    RunInv(start, steps);
  }

  /**
   * Remove drops its caller's own session and no other; if CloseAll came first it drops nothing,
   * even when other sessions have been registered since.
   */
  lemma RemoveDropsOwn(start: State, steps: seq<Step>, m: MaintainerId)
    requires Initial(start) && Runs(start, steps) && Enabled(After(start, steps), Remove(m))
    requires After(start, steps).adds < TWO_64
    ensures var st := After(start, steps);
            var mine := Registered(m, st.maintainers[m].serial);
            forall id :: id in st.sessions ==>
              (id in Apply(st, Remove(m)).sessions <==> st.sessions[id] != mine)
  {
    RunInv(start, steps);
  }

  // ---------- What is registered ----------

  /** Whether m serves a session after the steps, given whether it does before. */
  predicate Serves(steps: seq<Step>, m: MaintainerId, before: bool) {
    if steps == [] then before
    else Serves(steps[1..], m, if steps[0] == Add(m) then true else if steps[0] == Remove(m) then false else before)
  }

  /** How often Add had been called at the last CloseAll, given both numbers before the steps. */
  function Cleared(steps: seq<Step>, adds: nat, cleared: nat): nat {
    if steps == [] then cleared
    else match steps[0]
      case Add(_) => Cleared(steps[1..], adds + 1, cleared)
      case Remove(_) => Cleared(steps[1..], adds, cleared)
      case CloseAll => Cleared(steps[1..], adds, adds)
  }

  /** What is registered is exactly the sessions served that were added since the last CloseAll. */
  predicate RegisteredInv(st: State, cleared: nat) {
    && cleared <= st.adds
    && (st.adds < TWO_64 ==>
          forall m :: m in st.maintainers && st.maintainers[m].Serving? ==>
            var id := st.maintainers[m].id;
            (id in st.sessions <==> id >= cleared) && (id in st.sessions ==> st.sessions[id] == Registered(m, id)))
  }

  lemma RegisteredStep(st: State, step: Step, cleared: nat)
    requires Inv(st) && RegisteredInv(st, cleared) && Enabled(st, step)
    ensures RegisteredInv(Apply(st, step), if step.CloseAll? then st.adds else cleared)
  {
  }

  lemma {:induction false} RegisteredFrom(st: State, steps: seq<Step>, cleared: nat)
    requires Inv(st) && RegisteredInv(st, cleared) && Runs(st, steps)
    ensures RegisteredInv(After(st, steps), Cleared(steps, st.adds, cleared))
    decreases |steps|
  {
    if steps != [] {
      Preserved(st, steps[0]);
      RegisteredStep(st, steps[0], cleared);
      RegisteredFrom(Apply(st, steps[0]), steps[1..], if steps[0].CloseAll? then st.adds else cleared);
    }
  }

  lemma ServesStep(st: State, step: Step, m: MaintainerId)
    requires Enabled(st, step) && m in st.maintainers
    ensures m in Apply(st, step).maintainers
    ensures Apply(st, step).maintainers[m].Serving?
            <==> if step == Add(m) then true else if step == Remove(m) then false else st.maintainers[m].Serving?
  {
  }

  lemma {:induction false} ServesFrom(st: State, steps: seq<Step>, m: MaintainerId)
    requires Runs(st, steps) && m in st.maintainers
    ensures m in After(st, steps).maintainers
    ensures After(st, steps).maintainers[m].Serving? <==> Serves(steps, m, st.maintainers[m].Serving?)
    decreases |steps|
  {
    if steps != [] {
      ServesStep(st, steps[0], m);
      ServesFrom(Apply(st, steps[0]), steps[1..], m);
    }
  }

  /**
   * A maintainer serves a session exactly from its Add to its Remove, and that session is registered,
   * as its own, exactly if no CloseAll has come since; nothing else is registered.
   */
  lemma RegisteredExactly(start: State, steps: seq<Step>, m: MaintainerId)
    requires Initial(start) && Runs(start, steps) && After(start, steps).adds < TWO_64 && m in start.maintainers
    ensures var st := After(start, steps);
            && m in st.maintainers
            && (st.maintainers[m].Serving? <==> Serves(steps, m, false))
            && (st.maintainers[m].Serving? ==>
                  var id := st.maintainers[m].id;
                  && (id in st.sessions <==> id >= Cleared(steps, 0, 0))
                  && (id in st.sessions ==> st.sessions[id] == Registered(m, id)))
    ensures var st := After(start, steps);
            forall id :: id in st.sessions ==>
              var r := st.sessions[id];
              r.owner in st.maintainers && st.maintainers[r.owner] == Serving(id, r.serial)
  {
    RunInv(start, steps);
    ServesFrom(start, steps, m);
    RegisteredFrom(start, steps, 0);
  }

  /** Nothing keeps a maintainer waiting: an idle one can register, a serving one deregister. */
  lemma MaintainersNeverBlocked(start: State, steps: seq<Step>, m: MaintainerId)
    requires Runs(start, steps) && m in start.maintainers
    ensures Enabled(After(start, steps), Remove(m)) <==> Serves(steps, m, start.maintainers[m].Serving?)
    ensures Enabled(After(start, steps), Add(m)) <==> !Serves(steps, m, start.maintainers[m].Serving?)
    ensures Enabled(After(start, steps), CloseAll)
  {
    ServesFrom(start, steps, m);
  }
}
