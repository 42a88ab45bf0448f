/** What every run of the threading library keeps: exits are permanent, joins on running threads
    never return, ready threads are scheduled in bounded time. */
module ThreadRuns {
  import opened ThreadMachine

  // ---------------------------------------------------------------- stuck threads

  /** A thread other than 0 that no step can resume: it is not ready and waits at no semaphore. */
  ghost predicate Stuck(m: Machine, t: nat) {
    0 < t < |m.tcb| && m.tcb[t].state != Ready && forall i: nat, p: nat :: !WaitsAt(m, i, p, t)
  }

  lemma StuckStep(m: Machine, step: Step, t: nat)
    requires Good(m) && Enabled(m, step) && Stuck(m, t)
    ensures m.current != t
    ensures Stuck(Next(m, step).0, t) && Next(m, step).0.tcb[t] == m.tcb[t]
  {
    var r := Next(m, step).0;
    if step.SemPost? && IsLive(m, step.sem) && m.sems[step.sem].sem.waiting != [] {
      var w := m.sems[step.sem].sem.waiting;
      assert WaitsAt(m, step.sem, |w| - 1, w[|w| - 1]);
    }
    forall i: nat, p: nat ensures !WaitsAt(r, i, p, t) {
      assert !WaitsAt(m, i, p, t);
    }
  }

  /** A stuck thread stays as it is, and is never current, in every later state. */
  lemma {:induction false} StuckForever(m: Machine, steps: seq<Step>, t: nat)
    requires Good(m) && Allowed(m, steps) && Stuck(m, t)
    ensures var r := Exec(m, steps); Stuck(r, t) && r.tcb[t] == m.tcb[t] && r.current != t
    decreases |steps|
  {
    if steps == [] {
    } else {
      NextGood(m, steps[0]);
      StuckStep(m, steps[0], t);
      StuckForever(Next(m, steps[0]).0, steps[1..], t);
    }
  }

  /** Exit permanence: after thread t, not 0, calls pthread_exit(v), every later state has it
      exited with value v, and it never runs. */
  lemma ExitIsPermanent(m: Machine, v: int, steps: seq<Step>)
    requires Good(m) && m.current != 0 && Enabled(m, Exit(v)) && Allowed(Next(m, Exit(v)).0, steps)
    ensures var r := Exec(Next(m, Exit(v)).0, steps);
            m.current < |r.tcb| && r.tcb[m.current].state == Exited && r.tcb[m.current].exitValue == v && r.current != m.current
  {
    var t, r := m.current, Next(m, Exit(v)).0;
    NextGood(m, Exit(v));
    forall i: nat, p: nat ensures !WaitsAt(r, i, p, t) {
      assert !WaitsAt(m, i, p, t);
    }
    StuckForever(r, steps, t);
  }

  /** Whatever join returns for a thread other than 0, at any later time, is the value that the
      thread passed to pthread_exit. */
  lemma JoinYieldsTheExitValue(m: Machine, v: int, steps: seq<Step>, join: Step)
    requires Good(m) && m.current != 0 && Enabled(m, Exit(v)) && Allowed(Next(m, Exit(v)).0, steps)
    requires join.Join? || join.Retry?
    requires Enabled(Exec(Next(m, Exit(v)).0, steps), join)
    ensures var r := Next(Exec(Next(m, Exit(v)).0, steps), join).1;
            r.Joined? && r.target == m.current ==> r.value == v
    ensures join == Join(m.current) ==> Next(Exec(Next(m, Exit(v)).0, steps), join).1 == Joined(m.current, v)
  {
    ExitIsPermanent(m, v, steps);
  }

  /** A join by a thread other than 0 returns at once or never: at once exactly when the target
      has exited by the time of the call, since no later exit wakes the caller. */
  lemma JoinReturnsNowOrNever(m: Machine, target: nat, steps: seq<Step>)
    requires Good(m) && m.current != 0 && Enabled(m, Join(target)) && target < |m.tcb|
    requires Allowed(Next(m, Join(target)).0, steps)
    ensures m.tcb[target].state == Exited <==> Next(m, Join(target)).1 == Joined(target, m.tcb[target].exitValue)
    ensures m.tcb[target].state != Exited ==>
              var r := Exec(Next(m, Join(target)).0, steps);
              r.current != m.current && m.current < |r.tcb| && r.tcb[m.current].state == Blocked
  {
    if m.tcb[target].state != Exited {
      var t, r := m.current, Next(m, Join(target)).0;
      NextGood(m, Join(target));
      forall i: nat, p: nat ensures !WaitsAt(r, i, p, t) {
        assert !WaitsAt(m, i, p, t);
      }
      StuckForever(r, steps, t);
    }
  }

  /** A thread other than 0 that waits at a semaphore when it is destroyed never runs again. */
  lemma DestroyStrandsWaiters(m: Machine, i: nat, p: nat, t: nat, steps: seq<Step>)
    requires Good(m) && Enabled(m, SemDestroy(i)) && WaitsAt(m, i, p, t) && t != 0
    requires Allowed(Next(m, SemDestroy(i)).0, steps)
    ensures var r := Exec(Next(m, SemDestroy(i)).0, steps); r.current != t && t < |r.tcb| && r.tcb[t].state == Blocked
  {
    var r := Next(m, SemDestroy(i)).0;
    NextGood(m, SemDestroy(i));
    forall j: nat, q: nat ensures !WaitsAt(r, j, q, t) {
      assert WaitsAt(r, j, q, t) ==> WaitsAt(m, j, q, t);
    }
    StuckForever(r, steps, t);
  }

  // ---------------------------------------------------------------- bounded waiting

  /** The number of steps of the run that call the scheduler. */
  function Schedulings(m: Machine, steps: seq<Step>): (n: nat)
    requires Sane(m) && Allowed(m, steps)
    ensures n <= |steps|
    decreases |steps|
  {
    if steps == [] then 0
    else
      var (r, result) := Next(m, steps[0]);
      (if result.Scheduled? then 1 else 0) + Schedulings(r, steps[1..])
  }

  /** Some scheduler call of the run chooses thread t. */
  predicate Chosen(m: Machine, steps: seq<Step>, t: nat)
    requires Sane(m) && Allowed(m, steps)
    decreases |steps|
  {
    steps != [] &&
    (var (r, result) := Next(m, steps[0]);
     (result.Scheduled? && r.current == t) || Chosen(r, steps[1..], t))
  }

  /** How far thread t is from the current thread in the cyclic order of n threads. */
  function Distance(current: nat, t: nat, n: nat): (d: nat)
    requires current < n && t < n
    ensures 1 <= d <= n && (current + d == t || current + d == t + n)
  {
    if current < t then t - current else t + n - current
  }

  /** Thread t is 0, which the search never passes over, or ready and not running. */
  predicate WaitsForTurn(m: Machine, t: nat) {
    t < |m.tcb| && (t == 0 || (m.tcb[t].state == Ready && m.current != t))
  }

  /** The scheduler's search stops at t or before it. */
  lemma SearchBringsNearer(tcb: seq<Tcb>, from: nat, t: nat, n: nat)
    requires from < |tcb| <= n && t < |tcb| && (t == 0 || (tcb[t].state == Ready && from != t))
    ensures var c := NextThread(tcb, from); c == t || Distance(c, t, n) < Distance(from, t, n)
  {
    var c := NextThread(tcb, from);
    assert c == 0 || from < c;
  }

  /** One step keeps t in line, and a scheduler call chooses it or brings it nearer, even when
      it adds a thread. */
  lemma StepBringsNearer(m: Machine, step: Step, t: nat, n: nat)
    requires Good(m) && Enabled(m, step) && WaitsForTurn(m, t)
    requires |Next(m, step).0.tcb| <= n
    ensures var (r, result) := Next(m, step);
            if !result.Scheduled? then WaitsForTurn(r, t) && r.current == m.current
            else r.current == t || (WaitsForTurn(r, t) && Distance(r.current, t, n) < Distance(m.current, t, n))
  {
    hide NextThread, Distance;
    var (r, result) := Next(m, step);
    if result.Scheduled? { SearchBringsNearer(r.tcb, m.current, t, n); }
  }

  /** Bounded waiting: a ready thread, and thread 0 in any state, is chosen within as many
      scheduler calls as its distance from the current thread, so within the number of
      threads at the end of the run. */
  lemma {:induction false} BoundedWaiting(m: Machine, steps: seq<Step>, t: nat)
    requires Good(m) && Allowed(m, steps) && WaitsForTurn(m, t)
    ensures |m.tcb| <= |Exec(m, steps).tcb|
    ensures Schedulings(m, steps) >= Distance(m.current, t, |Exec(m, steps).tcb|) ==> Chosen(m, steps, t)
    ensures Schedulings(m, steps) >= |Exec(m, steps).tcb| ==> Chosen(m, steps, t)
  {
    WithinDistance(m, steps, t, |Exec(m, steps).tcb|);
  }

  lemma {:induction false} ThreadsGrow(m: Machine, steps: seq<Step>)
    requires Sane(m) && Allowed(m, steps)
    ensures |m.tcb| <= |Exec(m, steps).tcb|
    decreases |steps|
  {
    if steps != [] {
      ThreadsGrow(Next(m, steps[0]).0, steps[1..]);
    }
  }

  lemma {:induction false} WithinDistance(m: Machine, steps: seq<Step>, t: nat, n: nat)
    requires Good(m) && Allowed(m, steps) && WaitsForTurn(m, t) && |Exec(m, steps).tcb| <= n
    ensures |m.tcb| <= n
    ensures Schedulings(m, steps) >= Distance(m.current, t, n) ==> Chosen(m, steps, t)
    decreases |steps|
  {
    ThreadsGrow(m, steps);
    if steps != [] {
      NextGood(m, steps[0]);
      var (r, result) := Next(m, steps[0]);
      ThreadsGrow(r, steps[1..]);
      StepBringsNearer(m, steps[0], t, n);
      if !(result.Scheduled? && r.current == t) { WithinDistance(r, steps[1..], t, n); }
    }
  }

  // ---------------------------------------------------------------- joins by thread 0

  /** Some state of the run, the first included, has thread 0 running inside its join on target. */
  predicate MainLooksAgain(m: Machine, steps: seq<Step>, target: nat)
    requires Sane(m) && Allowed(m, steps)
    decreases |steps|
  {
    (m.current == 0 && m.tcb[0].context == Joining(target)) ||
    (steps != [] && MainLooksAgain(Next(m, steps[0]).0, steps[1..], target))
  }

  lemma {:induction false} MainLooksWithin(m: Machine, steps: seq<Step>, target: nat, n: nat)
    requires Good(m) && Allowed(m, steps) && m.tcb[0].context == Joining(target) && |Exec(m, steps).tcb| <= n
    ensures |m.tcb| <= n
    ensures m.current == 0 || Schedulings(m, steps) >= Distance(m.current, 0, n) ==> MainLooksAgain(m, steps, target)
    decreases |steps|
  {
    ThreadsGrow(m, steps);
    if m.current != 0 && steps != [] {
      NextGood(m, steps[0]);
      var r := Next(m, steps[0]).0;
      ThreadsGrow(r, steps[1..]);
      StepBringsNearer(m, steps[0], 0, n);
      assert r.tcb[0].context == Joining(target);
      MainLooksWithin(r, steps[1..], target, n);
    }
  }

  /** Thread 0 polls: inside a join it looks at its target again within as many scheduler calls as
      there are threads, and a look returns the exit value if the target has exited, and goes
      back to waiting if not. */
  lemma MainJoinPolls(m: Machine, steps: seq<Step>, target: nat)
    requires Good(m) && Allowed(m, steps) && m.tcb[0].context == Joining(target)
    ensures m.current == 0 || Schedulings(m, steps) >= |Exec(m, steps).tcb| ==> MainLooksAgain(m, steps, target)
    ensures m.current == 0 ==>
              Enabled(m, Retry) && target < |m.tcb| &&
              (Next(m, Retry).1 == Joined(target, m.tcb[target].exitValue) <==> m.tcb[target].state == Exited) &&
              (m.tcb[target].state != Exited ==>
                 Next(m, Retry).1 == Scheduled && Next(m, Retry).0.tcb[0].context == Joining(target))
  {
    MainLooksWithin(m, steps, target, |Exec(m, steps).tcb|);
  }

  /** The join returns the value: once the target, not thread 0, has exited, thread 0 is found
      running inside its join, with that value there for it, within as many scheduler calls as
      there are threads. */
  lemma {:induction false} MainJoinReturns(m: Machine, steps: seq<Step>, target: nat)
    requires Good(m) && Allowed(m, steps) && m.tcb[0].context == Joining(target)
    requires 0 < target < |m.tcb| && m.tcb[target].state == Exited
    ensures m.current == 0 || Schedulings(m, steps) >= |Exec(m, steps).tcb| ==>
              MainGets(m, steps, target, m.tcb[target].exitValue)
  {
    ExitedIsStuck(m, target);
    MainJoinPolls(m, steps, target);
    if m.current == 0 || Schedulings(m, steps) >= |Exec(m, steps).tcb| {
      LookGets(m, steps, target);
    }
  }

  lemma ExitedIsStuck(m: Machine, t: nat)
    requires Good(m) && 0 < t < |m.tcb| && m.tcb[t].state == Exited
    ensures Stuck(m, t)
  {
    forall i: nat, p: nat ensures !WaitsAt(m, i, p, t) {
      if WaitsAt(m, i, p, t) {
        assert false;
      }
    }
  }

  /** Some state of the run has thread 0 at a look that returns this value. */
  predicate MainGets(m: Machine, steps: seq<Step>, target: nat, value: int)
    requires Sane(m) && Allowed(m, steps)
    decreases |steps|
  {
    (m.current == 0 && Enabled(m, Retry) && Next(m, Retry).1 == Joined(target, value)) ||
    (steps != [] && MainGets(Next(m, steps[0]).0, steps[1..], target, value))
  }

  lemma {:induction false} LookGets(m: Machine, steps: seq<Step>, target: nat)
    requires Good(m) && Allowed(m, steps) && MainLooksAgain(m, steps, target)
    requires Stuck(m, target) && m.tcb[target].state == Exited
    ensures MainGets(m, steps, target, m.tcb[target].exitValue)
    decreases |steps|
  {
    if !(m.current == 0 && m.tcb[0].context == Joining(target)) {
      NextGood(m, steps[0]);
      StuckStep(m, steps[0], target);
      LookGets(Next(m, steps[0]).0, steps[1..], target);
    }
  }

  // ---------------------------------------------------------------- the exit of thread 0

  /** Thread 0 has exited, with value v, and spins. */
  predicate MainExited(m: Machine, v: int) {
    Sane(m) && m.tcb[0].context.Spinning? && m.tcb[0].exitValue == v && m.tcb[0].state == Exited
  }

  ghost predicate MainWaits(m: Machine) {
    exists i: nat, p: nat :: WaitsAt(m, i, p, 0)
  }

  ghost predicate OthersReady(m: Machine) {
    exists t :: 0 < t < |m.tcb| && m.tcb[t].state == Ready
  }

  lemma MainExitKept(m: Machine, step: Step, v: int)
    requires Good(m) && Enabled(m, step) && MainExited(m, v) && (MainWaits(m) ==> !OthersReady(m))
    ensures var r := Next(m, step).0; MainExited(r, v) && (MainWaits(r) ==> !OthersReady(r))
  {
    var r := Next(m, step).0;
    if !OthersReady(m) {
      assert m.current == 0 && step == Tick;
      assert r.tcb == m.tcb;
    } else {
      if step.SemPost? && IsLive(m, step.sem) && m.sems[step.sem].sem.waiting != [] {
        var w := m.sems[step.sem].sem.waiting;
        assert WaitsAt(m, step.sem, |w| - 1, w[|w| - 1]);
      }
      forall i: nat, p: nat ensures !WaitsAt(r, i, p, 0) {
        assert !WaitsAt(m, i, p, 0);
      }
    }
  }

  lemma {:induction false} MainExitStays(m: Machine, steps: seq<Step>, v: int)
    requires Good(m) && Allowed(m, steps) && MainExited(m, v) && (MainWaits(m) ==> !OthersReady(m))
    ensures MainExited(Exec(m, steps), v)
    decreases |steps|
  {
    if steps != [] {
      MainExitKept(m, steps[0], v);
      NextGood(m, steps[0]);
      MainExitStays(Next(m, steps[0]).0, steps[1..], v);
    }
  }

  /** Enough posts by another thread make thread 0 ready again. */
  lemma {:induction false} PostsReviveMain(m: Machine, i: nat, p: nat) returns (steps: seq<Step>)
    requires Good(m) && m.current != 0 && WaitsAt(m, i, p, 0)
    ensures Allowed(m, steps) && Exec(m, steps).tcb[0].state == Ready
    decreases |m.sems[i].sem.waiting|
  {
    var w := m.sems[i].sem.waiting;
    var r := Next(m, SemPost(i)).0;
    assert WaitsAt(m, i, |w| - 1, w[|w| - 1]);
    NextGood(m, SemPost(i));
    if p == |w| - 1 {
      steps := [SemPost(i)];
      assert Allowed(r, steps[1..]) && Exec(r, steps[1..]) == r;
    } else {
      assert WaitsAt(r, i, p, 0);
      var rest := PostsReviveMain(r, i, p);
      steps := [SemPost(i)] + rest;
      assert steps[1..] == rest;
    }
  }

  /** The exit of thread 0 is permanent exactly when, at its pthread_exit, it stands in no
      semaphore's waiting list or no other thread is ready. */
  lemma MainExitPermanentIff(m: Machine, v: int)
    requires Good(m) && m.current == 0 && Enabled(m, Exit(v))
    ensures var n := Next(m, Exit(v)).0;
            (forall steps :: Allowed(n, steps) ==> Exec(n, steps).tcb[0].state == Exited)
            <==> !MainWaits(m) || !OthersReady(m)
  {
    var n := Next(m, Exit(v)).0;
    NextGood(m, Exit(v));
    assert n.sems == m.sems;
    forall i: nat, p: nat ensures WaitsAt(m, i, p, 0) == WaitsAt(n, i, p, 0) {
    }
    assert MainWaits(m) == MainWaits(n);
    assert OthersReady(m) == OthersReady(n) by {
      assert forall t :: 0 < t < |m.tcb| ==> n.tcb[t] == m.tcb[t];
    }
    if MainWaits(m) && OthersReady(m) {
      var i: nat, p: nat :| WaitsAt(n, i, p, 0);
      var t :| 0 < t < |m.tcb| && m.tcb[t].state == Ready;
      assert n.tcb[t].state == Ready;
      assert n.current != 0;
      var steps := PostsReviveMain(n, i, p);
      assert Exec(n, steps).tcb[0].state != Exited;
    } else {
      forall steps | Allowed(n, steps) ensures Exec(n, steps).tcb[0].state == Exited {
        MainExitStays(n, steps, v);
      }
    }
  }

  // ---------------------------------------------------------------- concrete runs

  /** The states that a run goes through. */
  ghost predicate Trace(ms: seq<Machine>, steps: seq<Step>) {
    |ms| == |steps| + 1 && (forall k :: 0 <= k < |ms| ==> Sane(ms[k])) &&
    forall k :: 0 <= k < |steps| ==> Enabled(ms[k], steps[k]) && Next(ms[k], steps[k]).0 == ms[k + 1]
  }

  lemma {:induction false} TraceRuns(ms: seq<Machine>, steps: seq<Step>)
    requires Trace(ms, steps)
    ensures Allowed(ms[0], steps) && Exec(ms[0], steps) == ms[|steps|]
    decreases |steps|
  {
    if steps != [] {
      TraceRuns(ms[1..], steps[1..]);
    }
  }

  lemma NextIs(tcb: seq<Tcb>, from: nat, c: nat)
    requires from < c < |tcb| && tcb[c].state == Ready
    requires forall t :: from < t < c ==> tcb[t].state != Ready
    ensures NextThread(tcb, from) == c
  {
    assert tcb[c].state == Ready;
  }

  /** Thread 0 makes thread 1, which joins the running thread 0; thread 0 exits, and thread 1 is
      not woken: only thread 0 is ever scheduled again. */
  lemma JoinIsNotWoken() returns (r: Machine)
    ensures Allowed(Start, [Create, Join(0), Exit(7)]) && r == Exec(Start, [Create, Join(0), Exit(7)])
    ensures r.tcb[0].state == Exited && |r.tcb| == 2 && r.tcb[1].state == Blocked && r.current == 0
    ensures NextThread(r.tcb, r.current) == 0
  {
    hide NextThread;
    var main, joiner := Tcb(0, Running, 0, Own), Tcb(1, Blocked, 0, Joining(0));
    var a, b := Machine([main, Tcb(1, Ready, 0, Own)], 1, []), Machine([main, joiner], 0, []);
    r := Machine([Tcb(0, Exited, 7, Spinning), joiner], 0, []);
    assert Next(Start, Create).0.tcb == a.tcb;
    NextIs(a.tcb, 0, 1);
    assert Next(Start, Create).0 == a;
    assert Next(a, Join(0)).0 == b;
    assert Next(b, Exit(7)).0 == r;
    TraceRuns([Start, a, b, r], [Create, Join(0), Exit(7)]);
  }

  lemma MainSwitches() returns (a: Machine, b: Machine, c: Machine)
    ensures Sane(a) && Sane(b) && Enabled(Start, SemInit(0)) && Enabled(a, Create) && Enabled(b, Tick)
    ensures Next(Start, SemInit(0)).0 == a && Next(a, Create).0 == b && Next(b, Tick).0 == c
    ensures c == Machine([Tcb(0, Running, 0, Own), Tcb(1, Ready, 0, Own)], 0, [Live(Sem(0, []))])
  {
    hide NextThread;
    var main, other, idle := Tcb(0, Running, 0, Own), Tcb(1, Ready, 0, Own), [Live(Sem(0, []))];
    a, b, c := Machine([main], 0, idle), Machine([main, other], 1, idle), Machine([main, other], 0, idle);
    assert Next(a, Create).0.tcb == b.tcb;
    NextIs(b.tcb, 0, 1);
  }

  lemma MainExitsWaiting(c: Machine) returns (d: Machine, e: Machine, f: Machine)
    requires c == Machine([Tcb(0, Running, 0, Own), Tcb(1, Ready, 0, Own)], 0, [Live(Sem(0, []))])
    ensures Sane(d) && Sane(e) && Enabled(c, SemWait(0)) && Enabled(d, Tick) && Enabled(e, Exit(7))
    ensures Next(c, SemWait(0)).0 == d && Next(d, Tick).0 == e && Next(e, Exit(7)).0 == f
    ensures f == Machine([Tcb(0, Exited, 7, Spinning), Tcb(1, Ready, 0, Own)], 1, [Live(Sem(0, [0]))])
  {
    hide NextThread;
    var waiter, other, taken := Tcb(0, Blocked, 0, Own), Tcb(1, Ready, 0, Own), [Live(Sem(0, [0]))];
    d, e := Machine([waiter, other], 1, taken), Machine([waiter, other], 0, taken);
    f := Machine([Tcb(0, Exited, 7, Spinning), other], 1, taken);
    assert Next(c, SemWait(0)).0.tcb == d.tcb && Next(c, SemWait(0)).0.sems[0].sem.waiting == [0];
    NextIs(d.tcb, 0, 1);
    assert Next(e, Exit(7)).0.tcb == f.tcb;
    NextIs(f.tcb, 0, 1);
  }

  lemma PostRevives(f: Machine) returns (r: Machine)
    requires f == Machine([Tcb(0, Exited, 7, Spinning), Tcb(1, Ready, 0, Own)], 1, [Live(Sem(0, [0]))])
    ensures Enabled(f, SemPost(0)) && Next(f, SemPost(0)).0 == r && r.tcb[..1] == [Tcb(0, Ready, 7, Spinning)]
  {
    r := Next(f, SemPost(0)).0;
  }

  /** Thread 0 waits at a semaphore, runs on all the same and exits; the post of thread 1 makes it
      ready again. */
  lemma MainExitUndone() returns (r: Machine)
    ensures var s := [SemInit(0), Create, Tick, SemWait(0), Tick, Exit(7), SemPost(0)];
            Allowed(Start, s) && r == Exec(Start, s)
    ensures r.tcb[0] == Tcb(0, Ready, 7, Spinning)
  {
    hide Next, Allowed, Exec, Enabled;
    var a, b, c := MainSwitches();
    var d, e, f := MainExitsWaiting(c);
    r := PostRevives(f);
    TraceRuns([Start, a, b, c, d, e, f, r], [SemInit(0), Create, Tick, SemWait(0), Tick, Exit(7), SemPost(0)]);
  }
}
