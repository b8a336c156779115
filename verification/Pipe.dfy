/**
 * pipe: two goroutines copy between two connections; the third waits for one of them, closes both
 * connections, and waits for the other.
 */
module Pipe {
  import opened Basics
  import opened Bytes
  import opened ByteStreams

  /**
   * copyOneWay: all that it reads goes out, in order, up to a write that fails.  `moved` is what it
   * has read.  io.CopyBuffer uses the buffer unless one of the connections offers a WriteTo or a
   * ReadFrom of its own (`direct`), which may then pass on pieces of any size.
   */
  method CopyOneWay(dst: Writer, src: Reader, buf: array<Byte>, direct: bool)
    returns (broken: bool, ghost moved: Bytes)
    requires buf.Length > 0
    modifies dst, src, buf
    ensures old(src.Pending()) == moved + src.Pending()
    ensures old(dst.wire) <= dst.wire <= old(dst.wire) + moved
    ensures !broken ==> dst.wire == old(dst.wire) + moved && src.Pending() == []
    ensures dst.failures == old(dst.failures) + if broken then 1 else 0
  {
    moved, broken := [], false;
    var ended := false;
    while !ended
      invariant old(src.Pending()) == moved + src.Pending()
      invariant dst.wire == old(dst.wire) + moved && !broken && dst.failures == old(dst.failures)
      invariant ended ==> src.Pending() == []
      decreases !ended, src.Measure()
    {
      var window := buf;
      if direct {
        var size: nat :| size > 0;
        window := new Byte[size];
      }
      ghost var before := moved;
      ghost var piece;
      piece, ended, broken := MovePiece(dst, src, window);
      moved := moved + piece;
      Assoc(before, piece, src.Pending());
      Assoc(old(dst.wire), before, piece);
      if broken {
        PrefixOfSum(old(dst.wire), before, piece, dst.wire);
        return;
      }
    }
  }

  lemma PrefixOfSum(a: Bytes, b: Bytes, c: Bytes, wire: Bytes)
    requires a + b <= wire <= (a + b) + c
    ensures a <= wire <= a + (b + c)
  {
    Assoc(a, b, c);
  }

  /** One read and the write of what it gave. */
  method MovePiece(dst: Writer, src: Reader, window: array<Byte>)
    returns (ghost piece: Bytes, ended: bool, broken: bool)
    requires window.Length > 0
    modifies dst, src, window
    ensures old(src.Pending()) == piece + src.Pending()
    ensures old(dst.wire) <= dst.wire <= old(dst.wire) + piece
    ensures !broken ==> dst.wire == old(dst.wire) + piece
    ensures dst.failures == old(dst.failures) + if broken then 1 else 0
    ensures ended && !broken ==> src.Pending() == []
    ensures !ended && !broken ==> src.Measure() < old(src.Measure())
  {
    broken := false;
    var n, status := src.Read(window, 0, window.Length);
    piece := window[0..0 + n];
    assert window[..n] == piece;
    ended := status.Failed?;
    if n > 0 {
      var written, io := dst.Write(window[..n]);
      broken := io.Failed?;
      assert io.Ok? ==> piece[..written] == piece;
    } else {
      assert piece == [];
    }
  }

  // ---------- Three processes ----------

  datatype Copier = Reading | Writing(chunk: Bytes) | Signalling | Ended

  datatype Waiter = WaitingFirst | ClosingA | ClosingB | WaitingSecond | Returned

  /** The copier to a reads b, and the other way round. */
  datatype Direction = ToA | ToB

  datatype Half = Half(task: Copier, read: Bytes, written: Bytes, failed: bool)

  datatype State = State(toA: Half, toB: Half, done: nat, waiter: Waiter, closedA: bool, closedB: bool)

  datatype Step =
    | Reads(d: Direction, bytes: Bytes)
    | ReadEnds(d: Direction)
    | Writes(d: Direction)
    | WriteFails(d: Direction, cut: nat)
    | Signals(d: Direction)
    | ReceivesFirst
    | ClosesA
    | ClosesB
    | ReceivesSecond

  const DONE_CAPACITY: nat := 2

  const INIT := State(Half(Reading, [], [], false), Half(Reading, [], [], false), 0, WaitingFirst, false, false)

  function At(st: State, d: Direction): Half {
    if d.ToA? then st.toA else st.toB
  }

  function With(st: State, d: Direction, h: Half): State {
    if d.ToA? then st.(toA := h) else st.(toB := h)
  }

  predicate SourceClosed(st: State, d: Direction) {
    if d.ToA? then st.closedB else st.closedA
  }

  predicate TargetClosed(st: State, d: Direction) {
    if d.ToA? then st.closedA else st.closedB
  }

  /** A closed connection gives no more bytes and takes none; an open one may fail at any time. */
  predicate Enabled(st: State, step: Step) {
    match step
    case Reads(d, bytes) => At(st, d).task.Reading? && !SourceClosed(st, d) && bytes != []
    case ReadEnds(d) => At(st, d).task.Reading?
    case Writes(d) => At(st, d).task.Writing? && !TargetClosed(st, d)
    case WriteFails(d, cut) => At(st, d).task.Writing? && cut <= |At(st, d).task.chunk|
    case Signals(d) => At(st, d).task.Signalling? && st.done < DONE_CAPACITY
    case ReceivesFirst => st.waiter.WaitingFirst? && st.done > 0
    case ClosesA => st.waiter.ClosingA?
    case ClosesB => st.waiter.ClosingB?
    case ReceivesSecond => st.waiter.WaitingSecond? && st.done > 0
  }

  function Apply(st: State, step: Step): State
    requires Enabled(st, step)
  {
    match step
    case Reads(d, bytes) =>
      var h := At(st, d);
      With(st, d, h.(task := Writing(bytes), read := h.read + bytes))
    case ReadEnds(d) => With(st, d, At(st, d).(task := Signalling))
    case Writes(d) =>
      var h := At(st, d);
      With(st, d, h.(task := Reading, written := h.written + h.task.chunk))
    case WriteFails(d, cut) =>
      var h := At(st, d);
      With(st, d, h.(task := Signalling, written := h.written + h.task.chunk[..cut], failed := true))
    case Signals(d) => With(st, d, At(st, d).(task := Ended)).(done := st.done + 1)
    case ReceivesFirst => st.(done := st.done - 1, waiter := ClosingA)
    case ClosesA => st.(closedA := true, waiter := ClosingB)
    case ClosesB => st.(closedB := true, waiter := WaitingSecond)
    case ReceivesSecond => st.(done := st.done - 1, waiter := Returned)
  }

  predicate Runs(st: State, steps: seq<Step>)
    decreases |steps|
  {
    steps == [] || (Enabled(st, steps[0]) && Runs(Apply(st, steps[0]), steps[1..]))
  }

  function After(st: State, steps: seq<Step>): State
    requires Runs(st, steps)
    decreases |steps|
  {
    if steps == [] then st else After(Apply(st, steps[0]), steps[1..])
  }

  function Received(w: Waiter): nat {
    if w.WaitingFirst? then 0 else if w.Returned? then 2 else 1
  }

  predicate HalfInv(h: Half) {
    && (h.failed ==> (h.task.Signalling? || h.task.Ended?) && h.written <= h.read)
    && (!h.failed ==> h.read == h.written + if h.task.Writing? then h.task.chunk else [])
  }

  predicate Inv(st: State) {
    && st.done + Received(st.waiter) == One(st.toA.task.Ended?) + One(st.toB.task.Ended?)
    && (st.closedA <==> !st.waiter.WaitingFirst? && !st.waiter.ClosingA?)
    && (st.closedB <==> st.waiter.WaitingSecond? || st.waiter.Returned?)
    && HalfInv(st.toA) && HalfInv(st.toB)
  }

  lemma HalfStep(st: State, step: Step, d: Direction)
    requires Enabled(st, step) && HalfInv(At(st, d))
    ensures HalfInv(At(Apply(st, step), d))
  {
    var h := At(st, d);
    match step
    case Reads(_, bytes) => assert h.written + [] == h.written;
    case Writes(_) => assert h.task.Writing? ==> h.written + h.task.chunk == (h.written + h.task.chunk) + [];
    case _ =>
  }

  lemma Preserved(st: State, step: Step)
    requires Inv(st) && Enabled(st, step)
    ensures Inv(Apply(st, step))
  {
    HalfStep(st, step, ToA);
    HalfStep(st, step, ToB);
  }

  lemma {:induction false} RunInv(st: State, steps: seq<Step>)
    requires Inv(st) && Runs(st, steps)
    ensures Inv(After(st, steps))
    decreases |steps|
  {
    if steps != [] {
      Preserved(st, steps[0]);
      RunInv(Apply(st, steps[0]), steps[1..]);
    }
  }

  /**
   * In every run and each direction, what was written is a prefix of what was read, and all of it
   * but the chunk in hand unless a write has failed.
   */
  lemma BytesConserved(steps: seq<Step>, d: Direction)
    requires Runs(INIT, steps)
    ensures var h := At(After(INIT, steps), d);
            && h.written <= h.read
            && (!h.failed ==> h.read == h.written + if h.task.Writing? then h.task.chunk else [])
  {
    RunInv(INIT, steps);
  }

  /** When pipe has returned, both goroutines have ended and both connections are closed. */
  lemma NothingLeftBehind(steps: seq<Step>)
    requires Runs(INIT, steps) && After(INIT, steps).waiter.Returned?
    ensures var st := After(INIT, steps); st.toA.task.Ended? && st.toB.task.Ended? && st.closedA && st.closedB
  {
    RunInv(INIT, steps);
  }

  /** The step waits on nobody outside: no peer need send, receive or hang up for it. */
  predicate Urgent(st: State, step: Step) {
    match step
    case Reads(_, _) => false
    case ReadEnds(d) => SourceClosed(st, d)
    case Writes(_) => false
    case WriteFails(d, _) => TargetClosed(st, d)
    case _ => true
  }

  /** Both directions are open and copying. */
  predicate Flowing(st: State) {
    && st.waiter.WaitingFirst? && st.done == 0 && !st.closedA && !st.closedB
    && (st.toA.task.Reading? || st.toA.task.Writing?)
    && (st.toB.task.Reading? || st.toB.task.Writing?)
  }

  /**
   * pipe never gets stuck: until it has returned, either both directions flow or some step is
   * enabled that waits on no peer; and no signal ever finds the channel full.
   */
  lemma NeverStuck(steps: seq<Step>)
    requires Runs(INIT, steps) && !After(INIT, steps).waiter.Returned?
    ensures var st := After(INIT, steps);
            Flowing(st) || exists step :: Enabled(st, step) && Urgent(st, step)
    ensures var st := After(INIT, steps);
            forall d :: At(st, d).task.Signalling? ==> Enabled(st, Signals(d))
  {
    RunInv(INIT, steps);
    var st := After(INIT, steps);
    var step := NextUrgent(st);
  }

  lemma NextUrgent(st: State) returns (step: Step)
    requires Inv(st) && !st.waiter.Returned?
    ensures Flowing(st) || (Enabled(st, step) && Urgent(st, step))
  {
    var d := if st.toA.task.Ended? then ToB else ToA;
    if st.waiter.ClosingA? {
      step := ClosesA;
    } else if st.waiter.ClosingB? {
      step := ClosesB;
    } else if st.done > 0 {
      step := if st.waiter.WaitingFirst? then ReceivesFirst else ReceivesSecond;
    } else if st.waiter.WaitingFirst? {
      step := Signals(if st.toA.task.Signalling? then ToA else ToB);
    } else {
      step := match At(st, d).task
        case Reading => ReadEnds(d)
        case Writing(chunk) => WriteFails(d, |chunk|)
        case _ => Signals(d);
    }
  }

  /** An upper bound on the steps left once both connections are closed. */
  function StepsLeft(st: State): nat {
    (match st.waiter case WaitingFirst => 4 case ClosingA => 3 case ClosingB => 2 case WaitingSecond => 1 case Returned => 0)
      + CopierLeft(st.toA.task) + CopierLeft(st.toB.task)
  }

  function CopierLeft(c: Copier): nat {
    match c case Reading => 2 case Writing(_) => 2 case Signalling => 1 case Ended => 0
  }

  /** Once both connections are closed at most five more steps are possible, of any kind. */
  lemma {:induction false} ClosedEndsSoon(st: State, steps: seq<Step>)
    requires Inv(st) && st.closedA && st.closedB && Runs(st, steps)
    ensures |steps| <= StepsLeft(st) <= 5
    decreases |steps|
  {
    if steps != [] {
      Preserved(st, steps[0]);
      ClosedEndsSoon(Apply(st, steps[0]), steps[1..]);
    }
  }

  // ---------- Why a run is where it is ----------

  predicate Stopped(h: Half) {
    h.task.Signalling? || h.task.Ended?
  }

  predicate FailsWrite(step: Step, d: Direction) {
    step.WriteFails? && step.d == d
  }

  predicate EndsRead(step: Step, d: Direction) {
    step.ReadEnds? && step.d == d
  }

  /** Some write of the copier failed. */
  predicate WriteFailed(steps: seq<Step>, d: Direction) {
    steps != [] && (FailsWrite(steps[0], d) || WriteFailed(steps[1..], d))
  }

  /** The copier met the end of its source, or an error there. */
  predicate ReadEnded(steps: seq<Step>, d: Direction) {
    steps != [] && (EndsRead(steps[0], d) || ReadEnded(steps[1..], d))
  }

  function BytesOf(step: Step, d: Direction): Bytes {
    if step.Reads? && step.d == d then step.bytes else []
  }

  /** The bytes that the steps read in one direction. */
  function BytesRead(steps: seq<Step>, d: Direction): Bytes {
    if steps == [] then [] else BytesOf(steps[0], d) + BytesRead(steps[1..], d)
  }

  lemma HistoryStep(st: State, step: Step, d: Direction)
    requires Enabled(st, step)
    ensures var h, g := At(st, d), At(Apply(st, step), d);
            && g.read == h.read + BytesOf(step, d)
            && (g.failed <==> h.failed || FailsWrite(step, d))
            && (Stopped(g) <==> Stopped(h) || FailsWrite(step, d) || EndsRead(step, d))
  {
  }

  lemma {:induction false} HistoryFrom(st: State, steps: seq<Step>, d: Direction)
    requires Runs(st, steps)
    ensures var h, g := At(st, d), At(After(st, steps), d);
            && g.read == h.read + BytesRead(steps, d)
            && (g.failed <==> h.failed || WriteFailed(steps, d))
            && (Stopped(g) <==> Stopped(h) || WriteFailed(steps, d) || ReadEnded(steps, d))
    decreases |steps|
  {
    if steps != [] {
      HistoryStep(st, steps[0], d);
      HistoryFrom(Apply(st, steps[0]), steps[1..], d);
      Assoc(At(st, d).read, BytesOf(steps[0], d), BytesRead(steps[1..], d));
    }
  }

  /**
   * A copier has failed exactly if a write of its has, it has stopped exactly if that or the end of
   * its source came, it has read exactly what its source gave, and no connection is closed before one
   * of the copiers has ended.
   */
  lemma StopsForCause(steps: seq<Step>, d: Direction)
    requires Runs(INIT, steps)
    ensures var st := After(INIT, steps);
            var h := At(st, d);
            && h.read == BytesRead(steps, d)
            && (h.failed <==> WriteFailed(steps, d))
            && (Stopped(h) <==> WriteFailed(steps, d) || ReadEnded(steps, d))
            && (st.closedA || st.closedB ==> st.toA.task.Ended? || st.toB.task.Ended?)
  {
    HistoryFrom(INIT, steps, d);
    assert [] + BytesRead(steps, d) == BytesRead(steps, d);
    RunInv(INIT, steps);
  }

  /** While both connections are open, whatever a copier is given it can pass on, and go on reading. */
  lemma Forwards(st: State, d: Direction, bytes: Bytes)
    requires At(st, d).task.Reading? && !SourceClosed(st, d) && !TargetClosed(st, d) && bytes != []
    ensures Enabled(st, Reads(d, bytes)) && Enabled(Apply(st, Reads(d, bytes)), Writes(d))
    ensures var h := At(st, d);
            Apply(Apply(st, Reads(d, bytes)), Writes(d))
            == With(st, d, Half(Reading, h.read + bytes, h.written + bytes, h.failed))
  {
  }

  /** From every state that a run reaches, pipe can come to return. */
  lemma {:induction false} CanReturn(st: State) returns (steps: seq<Step>)
    requires Inv(st)
    ensures Runs(st, steps) && After(st, steps).waiter.Returned?
    decreases StepsLeft(st)
  {
    if st.waiter.Returned? {
      steps := [];
    } else {
      var step := NextUrgent(st);
      if Flowing(st) {
        step := match st.toA.task case Writing(chunk) => WriteFails(ToA, 0) case _ => ReadEnds(ToA);
      }
      Preserved(st, step);
      var rest := CanReturn(Apply(st, step));
      steps := [step] + rest;
      assert steps[1..] == rest;
    }
  }

  /** In every run: what has happened so far never keeps pipe from returning. */
  lemma ReturnsInTheEnd(steps: seq<Step>) returns (more: seq<Step>)
    requires Runs(INIT, steps)
    ensures Runs(After(INIT, steps), more) && After(After(INIT, steps), more).waiter.Returned?
  {
    RunInv(INIT, steps);
    more := CanReturn(After(INIT, steps));
  }
}
