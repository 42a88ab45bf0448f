/** The threading library as a state machine: what a step of the current thread, or a timer
    tick, does to the thread table and the semaphores, and what every run keeps. */
module ThreadMachine {

  const MAX_THREADS: int := 128
  const MAX_SEMAPHORES: int := 128
  const INT_LIMIT: int := 0x8000_0000
  const WORD_LIMIT: int := 0x1_0000_0000

  datatype ThreadState = Ready | Running | Exited | Blocked

  /** What a thread does when it is resumed: go on in its own code, look again at the thread it
      joins, or spin after its exit. */
  datatype Context = Own | Joining(target: nat) | Spinning

  datatype Tcb = Tcb(id: nat, state: ThreadState, exitValue: int, context: Context)

  /** A live semaphore with its stack of waiting threads. */
  datatype Sem = Sem(value: int, waiting: seq<nat>)

  datatype Slot = Gone | Live(sem: Sem)

  datatype Machine = Machine(tcb: seq<Tcb>, current: nat, sems: seq<Slot>)

  datatype Step =
    | Tick
    | Create
    | Exit(value: int)
    | Join(target: nat)
    | Retry
    | SemInit(initial: nat)
    | SemWait(sem: int)
    | SemPost(sem: int)
    | SemDestroy(sem: int)

  /** What the call returns at once. `Scheduled` means that it ended in the scheduler: it returns
      when its thread is next resumed. */
  datatype Result = Scheduled | Code(code: int) | Joined(target: nat, value: int)

  const Start := Machine([Tcb(0, Running, 0, Own)], 0, [])

  predicate Sane(m: Machine) {
    0 < |m.tcb| <= MAX_THREADS && m.current < |m.tcb| && |m.sems| <= MAX_SEMAPHORES &&
    forall i :: 0 <= i < |m.tcb| ==>
      m.tcb[i].id == i && (m.tcb[i].context.Joining? ==> m.tcb[i].context.target < |m.tcb|)
  }

  /** Round-robin order. */
  function Following(c: nat, n: nat): (d: nat)
    requires c < n
    ensures d == if c + 1 == n then 0 else c + 1
  {
    (c + 1) % n
  }

  /** The scheduler's search: the next READY thread in cyclic order, stopping at thread 0. */
  function NextThread(tcb: seq<Tcb>, from: nat): (c: nat)
    requires from < |tcb|
    ensures c < |tcb| && (c == 0 || (from < c && tcb[c].state == Ready))
    ensures forall t :: from < t < |tcb| && (c == 0 || t < c) ==> tcb[t].state != Ready
    decreases |tcb| - from
  {
    var c := Following(from, |tcb|);
    if tcb[c].state != Ready && c != 0 then NextThread(tcb, c) else c
  }

  /** One turn of the search. */
  lemma SearchTurn(tcb: seq<Tcb>, from: nat)
    requires from < |tcb|
    ensures var c := Following(from, |tcb|);
            (c == 0 || c == from + 1) &&
            NextThread(tcb, from) == if tcb[c].state != Ready && c != 0 then NextThread(tcb, c) else c
  {
  }

  function Switched(m: Machine): Machine
    requires Sane(m)
  {
    m.(current := NextThread(m.tcb, m.current))
  }

  predicate IsLive(m: Machine, i: int) {
    0 <= i < |m.sems| && m.sems[i].Live?
  }

  /** The int that an unsigned argument becomes. */
  function ToInt(v: nat): int {
    var w := v % WORD_LIMIT;
    if w < INT_LIMIT then w else w - WORD_LIMIT
  }

  /** Steps that thread `current` can take. */
  predicate Enabled(m: Machine, step: Step)
    requires Sane(m)
  {
    match step
    case Tick => true
    case Retry => m.tcb[m.current].context.Joining?
    case _ => m.tcb[m.current].context.Own?
  }

  function JoinStep(m: Machine, target: nat): (Machine, Result)
    requires Sane(m) && target < |m.tcb|
  {
    var me := m.tcb[m.current];
    if m.tcb[target].state == Exited then
      (m.(tcb := m.tcb[m.current := me.(context := Own)]), Joined(target, m.tcb[target].exitValue))
    else
      var blocked := me.(state := Blocked, context := Joining(target));
      (Switched(m.(tcb := m.tcb[m.current := blocked])), Scheduled)
  }

  function WaitStep(m: Machine, i: int): (Machine, Result)
    requires Sane(m)
  {
    if !IsLive(m, i) then (m, Code(-1))
    else
      var s := m.sems[i].sem;
      if s.value > 0 then (m.(sems := m.sems[i := Live(s.(value := s.value - 1))]), Code(0))
      else
        var blocked := m.tcb[m.current].(state := Blocked);
        (Switched(m.(tcb := m.tcb[m.current := blocked],
                     sems := m.sems[i := Live(s.(waiting := s.waiting + [m.current]))])), Scheduled)
  }

  function PostStep(m: Machine, i: int): (Machine, Result) {
    if !IsLive(m, i) then (m, Code(-1))
    else
      var s := m.sems[i].sem;
      if s.waiting != [] then
        // the thread that came last is the one that is woken
        var last := s.waiting[|s.waiting| - 1];
        (m.(tcb := if last < |m.tcb| then m.tcb[last := m.tcb[last].(state := Ready)] else m.tcb,
            sems := m.sems[i := Live(s.(waiting := s.waiting[..|s.waiting| - 1]))]), Code(0))
      else (m.(sems := m.sems[i := Live(s.(value := s.value + 1))]), Code(0))
  }

  function Next(m: Machine, step: Step): (r: (Machine, Result))
    requires Sane(m) && Enabled(m, step)
    ensures Sane(r.0) && |m.tcb| <= |r.0.tcb| && |m.sems| <= |r.0.sems|
  {
    match step
    case Tick => (Switched(m), Scheduled)
    case Create =>
      if |m.tcb| >= MAX_THREADS then (m, Code(-1))
      else (Switched(m.(tcb := m.tcb + [Tcb(|m.tcb|, Ready, 0, Own)])), Scheduled)
    case Exit(value) =>
      var gone := m.tcb[m.current].(state := Exited, exitValue := value, context := Spinning);
      (Switched(m.(tcb := m.tcb[m.current := gone])), Scheduled)
    case Join(target) => if target >= |m.tcb| then (m, Code(-1)) else JoinStep(m, target)
    case Retry => JoinStep(m, m.tcb[m.current].context.target)
    case SemInit(initial) =>
      if |m.sems| >= MAX_SEMAPHORES then (m, Code(-1))
      else (m.(sems := m.sems + [Live(Sem(ToInt(initial), []))]), Code(0))
    case SemWait(i) => WaitStep(m, i)
    case SemPost(i) => PostStep(m, i)
    case SemDestroy(i) =>
      if !IsLive(m, i) then (m, Code(-1)) else (m.(sems := m.sems[i := Gone]), Code(0))
  }

  // ---------------------------------------------------------------- runs

  /** Every step of the run is one that the thread then current can take. */
  predicate Allowed(m: Machine, steps: seq<Step>)
    requires Sane(m)
    decreases |steps|
  {
    steps == [] ||
    (Enabled(m, steps[0]) && Allowed(Next(m, steps[0]).0, steps[1..]))
  }

  function Exec(m: Machine, steps: seq<Step>): (r: Machine)
    requires Sane(m) && Allowed(m, steps)
    ensures Sane(r)
    decreases |steps|
  {
    if steps == [] then m else Exec(Next(m, steps[0]).0, steps[1..])
  }

  /** What the calls of the run return at once, in order. */
  function Results(m: Machine, steps: seq<Step>): (r: seq<Result>)
    requires Sane(m) && Allowed(m, steps)
    ensures |r| == |steps|
    decreases |steps|
  {
    if steps == [] then [] else var (n, result) := Next(m, steps[0]); [result] + Results(n, steps[1..])
  }

  /** The step neither overflows a semaphore's waiting array nor its int value. */
  predicate Fits(m: Machine, step: Step) {
    match step
    case SemWait(i) => IsLive(m, i) && m.sems[i].sem.value <= 0 ==> |m.sems[i].sem.waiting| < MAX_THREADS
    case SemPost(i) => IsLive(m, i) && m.sems[i].sem.waiting == [] ==> m.sems[i].sem.value < INT_LIMIT - 1
    case _ => true
  }

  predicate RunFits(m: Machine, steps: seq<Step>)
    requires Sane(m) && Allowed(m, steps)
    decreases |steps|
  {
    steps == [] || (Fits(m, steps[0]) && RunFits(Next(m, steps[0]).0, steps[1..]))
  }

  // ---------------------------------------------------------------- the invariant

  /** Thread t waits at place p of semaphore i. */
  ghost predicate WaitsAt(m: Machine, i: nat, p: nat, t: nat) {
    i < |m.sems| && m.sems[i].Live? && p < |m.sems[i].sem.waiting| && m.sems[i].sem.waiting[p] == t
  }

  /** Waiting threads are blocked and outside any join; thread 0 need not be. */
  ghost predicate WaitersBlocked(m: Machine) {
    forall i: nat, p: nat, t: nat :: WaitsAt(m, i, p, t) ==>
      t < |m.tcb| && (t != 0 ==> m.tcb[t].state == Blocked && m.tcb[t].context.Own?)
  }

  ghost predicate WaitersDistinct(m: Machine) {
    forall i: nat, p: nat, j: nat, q: nat, t: nat :: WaitsAt(m, i, p, t) && WaitsAt(m, j, q, t) && t != 0 ==> i == j && p == q
  }

  ghost predicate ThreadsGood(tcb: seq<Tcb>) {
    forall t :: 0 < t < |tcb| ==>
      tcb[t].state != Running &&
      (tcb[t].context.Spinning? <==> tcb[t].state == Exited) &&
      (tcb[t].context.Joining? ==> tcb[t].state == Blocked)
  }

  /** Thread 0 apart: the current thread is ready, exited threads spin, and waiting threads are
      blocked and wait in one place only. */
  ghost predicate Good(m: Machine) {
    Sane(m) && ThreadsGood(m.tcb) && WaitersBlocked(m) && WaitersDistinct(m) &&
    (m.current != 0 ==> m.tcb[m.current].state == Ready)
  }

  lemma LastWaiterIsAThread(m: Machine, i: int)
    requires WaitersBlocked(m) && IsLive(m, i) && m.sems[i].sem.waiting != []
    ensures var w := m.sems[i].sem.waiting; w[|w| - 1] < |m.tcb|
  {
    var w := m.sems[i].sem.waiting;
    assert WaitsAt(m, i, |w| - 1, w[|w| - 1]);
  }

  lemma StartGood()
    ensures Good(Start)
  {
  }

  lemma SwitchGood(m: Machine)
    requires Good(m.(current := 0)) && Sane(m)
    ensures Good(Switched(m))
  {
    var z, r := m.(current := 0), Switched(m);
    forall i: nat, p: nat, t: nat ensures WaitsAt(r, i, p, t) == WaitsAt(z, i, p, t) {
    }
  }

  /** A step that only removes waiters leaves the rest of the invariant on waiters alone. */
  lemma FewerWaiters(m: Machine, r: Machine)
    requires WaitersBlocked(m) && WaitersDistinct(m)
    requires |m.tcb| <= |r.tcb|
    requires forall i: nat, p: nat, t: nat :: WaitsAt(r, i, p, t) ==>
               WaitsAt(m, i, p, t) && (t < |m.tcb| && t != 0 ==> r.tcb[t].state == Blocked && r.tcb[t].context.Own?)
    ensures WaitersBlocked(r) && WaitersDistinct(r)
  {
  }

  lemma ThreadStepGood(m: Machine, tcb: seq<Tcb>)
    requires Good(m) && |m.tcb| <= |tcb| <= MAX_THREADS && ThreadsGood(tcb)
    requires Sane(m.(tcb := tcb))
    requires forall t :: 0 < t < |m.tcb| && t != m.current ==> tcb[t] == m.tcb[t]
    ensures Good(Switched(m.(tcb := tcb)))
  {
    var r := m.(tcb := tcb, current := 0);
    forall i: nat, p: nat, t: nat | WaitsAt(r, i, p, t) ensures WaitsAt(m, i, p, t) && (t != 0 ==> t != m.current) {
      assert WaitsAt(m, i, p, t);
      assert t != 0 ==> m.tcb[t].state == Blocked;
    }
    FewerWaiters(m, r);
    SwitchGood(m.(tcb := tcb));
  }

  lemma JoinGood(m: Machine, target: nat)
    requires Good(m) && target < |m.tcb| && !m.tcb[m.current].context.Spinning?
    ensures Good(JoinStep(m, target).0)
  {
    if m.tcb[target].state == Exited {
      var r := JoinStep(m, target).0;
      forall i: nat, p: nat, t: nat | WaitsAt(r, i, p, t) ensures WaitsAt(m, i, p, t) && (t != 0 ==> t != m.current) {
        assert WaitsAt(m, i, p, t);
        assert t != 0 ==> m.tcb[t].state == Blocked;
      }
      FewerWaiters(m, r);
    } else {
      ThreadStepGood(m, m.tcb[m.current := m.tcb[m.current].(state := Blocked, context := Joining(target))]);
    }
  }

  lemma WaitGood(m: Machine, i: int)
    requires Good(m) && m.tcb[m.current].context.Own?
    ensures Good(WaitStep(m, i).0)
  {
    if !IsLive(m, i) {
    } else if m.sems[i].sem.value > 0 {
      FewerWaiters(m, WaitStep(m, i).0);
    } else {
      var s := m.sems[i].sem;
      var blocked := m.(tcb := m.tcb[m.current := m.tcb[m.current].(state := Blocked)],
                        sems := m.sems[i := Live(s.(waiting := s.waiting + [m.current]))]);
      var z := blocked.(current := 0);
      forall j: nat, p: nat, t: nat
        ensures WaitsAt(z, j, p, t) <==> WaitsAt(m, j, p, t) || (j == i && p == |s.waiting| && t == m.current)
      {
      }
      SwitchGood(blocked);
    }
  }

  lemma PostGood(m: Machine, i: int)
    requires Good(m) && m.tcb[m.current].context.Own?
    ensures Good(PostStep(m, i).0)
  {
    var r := PostStep(m, i).0;
    if IsLive(m, i) {
      var w := m.sems[i].sem.waiting;
      assert w != [] ==> WaitsAt(m, i, |w| - 1, w[|w| - 1]);
      forall j: nat, p: nat, t: nat | WaitsAt(r, j, p, t)
        ensures WaitsAt(m, j, p, t) && (t < |m.tcb| && t != 0 ==> r.tcb[t] == m.tcb[t])
      {
        assert WaitsAt(m, j, p, t);
      }
      FewerWaiters(m, r);
    }
  }

  lemma SlotGood(m: Machine, step: Step)
    requires Good(m) && Enabled(m, step) && (step.SemInit? || step.SemDestroy?)
    ensures Good(Next(m, step).0)
  {
    var r := Next(m, step).0;
    forall i: nat, p: nat, t: nat | WaitsAt(r, i, p, t) ensures WaitsAt(m, i, p, t) {
    }
    FewerWaiters(m, r);
  }

  lemma NextGood(m: Machine, step: Step)
    requires Good(m) && Enabled(m, step)
    ensures Good(Next(m, step).0)
  {
    match step
    case Tick => ThreadStepGood(m, m.tcb);
    case Create =>
      if |m.tcb| < MAX_THREADS { ThreadStepGood(m, m.tcb + [Tcb(|m.tcb|, Ready, 0, Own)]); }
    case Exit(v) =>
      ThreadStepGood(m, m.tcb[m.current := m.tcb[m.current].(state := Exited, exitValue := v, context := Spinning)]);
    case Join(target) => if target < |m.tcb| { JoinGood(m, target); }
    case Retry => JoinGood(m, m.tcb[m.current].context.target);
    case SemInit(_) => SlotGood(m, step);
    case SemWait(i) => WaitGood(m, i);
    case SemPost(i) => PostGood(m, i);
    case SemDestroy(_) => SlotGood(m, step);
  }

  /** The invariant holds in every state of every run. */
  lemma {:induction false} RunGood(m: Machine, steps: seq<Step>)
    requires Good(m) && Allowed(m, steps)
    ensures Good(Exec(m, steps))
    decreases |steps|
  {
    if steps != [] {
      NextGood(m, steps[0]);
      RunGood(Next(m, steps[0]).0, steps[1..]);
    }
  }
}
