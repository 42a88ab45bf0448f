/** What each step does, to whom, and to nobody else. */
module ThreadLaws {
  import opened ThreadMachine
  import opened ThreadRuns
  import opened ThreadSemaphores

  /** The thread that a post takes off the waiting stack. */
  ghost predicate TakenBy(m: Machine, step: Step, t: nat) {
    step.SemPost? && IsLive(m, step.sem) &&
    var w := m.sems[step.sem].sem.waiting;
    w != [] && w[|w| - 1] == t
  }

  /** A step changes the entry of no thread but the current one and the one that a post takes. */
  lemma OtherThreadsKept(m: Machine, step: Step, t: nat)
    requires Sane(m) && Enabled(m, step) && t < |m.tcb| && t != m.current && !TakenBy(m, step, t)
    ensures Next(m, step).0.tcb[t] == m.tcb[t]
  {
    hide NextThread;
  }

  /** A step changes no semaphore but the one that it is about. */
  lemma OtherSemaphoresKept(m: Machine, step: Step, i: nat)
    requires Sane(m) && Enabled(m, step) && i < |m.sems|
    requires step != SemWait(i) && step != SemPost(i) && step != SemDestroy(i)
    ensures Next(m, step).0.sems[i] == m.sems[i]
  {
    hide NextThread;
  }

  /** A refused call changes nothing. */
  lemma RefusalChangesNothing(m: Machine, step: Step)
    requires Sane(m) && Enabled(m, step) && Next(m, step).1 == Code(-1)
    ensures Next(m, step).0 == m
  {
    hide NextThread;
  }

  /** The current thread goes on if its call did not end in the scheduler. */
  lemma CallerGoesOn(m: Machine, step: Step)
    requires Sane(m) && Enabled(m, step) && !Next(m, step).1.Scheduled?
    ensures var r := Next(m, step).0;
            r.current == m.current && r.tcb[r.current].context == Own && |r.tcb| == |m.tcb| &&
            r.tcb[r.current].exitValue == m.tcb[m.current].exitValue
  {
    hide NextThread;
  }

  /** A tick only switches. */
  lemma TickLaw(m: Machine)
    requires Sane(m)
    ensures Next(m, Tick) == (m.(current := NextThread(m.tcb, m.current)), Scheduled)
  {
  }

  // ---------------------------------------------------------------- posting

  /** A post on waiters makes exactly the last one ready and takes exactly it off the stack; a
      post without waiters adds one unit. */
  lemma PostLaw(m: Machine, i: nat)
    requires Good(m) && Enabled(m, SemPost(i))
    ensures var (r, result) := Next(m, SemPost(i));
            (result == Code(0) <==> IsLive(m, i)) && (result == Code(0) || result == Code(-1)) && r.current == m.current
    ensures IsLive(m, i) ==>
              var s, r := m.sems[i].sem, Next(m, SemPost(i)).0;
              IsLive(r, i) && |r.tcb| == |m.tcb| &&
              (forall t :: 0 <= t < |m.tcb| && !TakenBy(m, SemPost(i), t) ==> r.tcb[t] == m.tcb[t]) &&
              if s.waiting == [] then r.sems[i].sem == Sem(s.value + 1, [])
              else
                var t := s.waiting[|s.waiting| - 1];
                t < |r.tcb| && r.tcb[t].state == Ready && r.tcb[t] == m.tcb[t].(state := Ready) &&
                r.sems[i].sem.value == s.value && r.sems[i].sem.waiting + [t] == s.waiting
  {
    if IsLive(m, i) && m.sems[i].sem.waiting != [] {
      LastWaiterIsAThread(m, i);
    }
  }

  /** A waiter that a post takes runs again within as many scheduler calls as there are threads. */
  lemma TakenWaiterRuns(m: Machine, i: nat, t: nat, steps: seq<Step>)
    requires Good(m) && Enabled(m, SemPost(i)) && TakenBy(m, SemPost(i), t)
    requires Allowed(Next(m, SemPost(i)).0, steps)
    ensures var n := Next(m, SemPost(i)).0;
            t == n.current || (Schedulings(n, steps) >= |Exec(n, steps).tcb| ==> Chosen(n, steps, t))
  {
    var n := Next(m, SemPost(i)).0;
    PostLaw(m, i);
    NextGood(m, SemPost(i));
    if t != n.current {
      BoundedWaiting(n, steps, t);
    }
  }

  // ---------------------------------------------------------------- waiting

  /** A wait takes a unit if there is one; otherwise the caller, blocked, goes on top of the stack,
      and unless it is thread 0 the scheduler has turned to another thread. */
  lemma WaitLaw(m: Machine, i: nat)
    requires Good(m) && Enabled(m, SemWait(i))
    ensures Next(m, SemWait(i)).1 == Code(-1) <==> !IsLive(m, i)
    ensures IsLive(m, i) ==>
              var s, (r, result) := m.sems[i].sem, Next(m, SemWait(i));
              IsLive(r, i) && |r.tcb| == |m.tcb| &&
              (forall t :: 0 <= t < |m.tcb| && t != m.current ==> r.tcb[t] == m.tcb[t]) &&
              if s.value > 0 then
                result == Code(0) && r.tcb == m.tcb && r.current == m.current &&
                r.sems[i].sem == Sem(s.value - 1, s.waiting)
              else
                result == Scheduled && r.tcb[m.current] == m.tcb[m.current].(state := Blocked) &&
                r.sems[i].sem == Sem(s.value, s.waiting + [m.current]) && (m.current != 0 ==> r.current != m.current)
  {
  }

  /** Post undoes wait: the waiter on top is ready again and the semaphore is as before. */
  lemma PostAfterWait(m: Machine, i: nat)
    requires Good(m) && Enabled(m, SemWait(i)) && IsLive(m, i) && Enabled(Next(m, SemWait(i)).0, SemPost(i))
    ensures var n := Next(m, SemWait(i)).0;
            var r := Next(n, SemPost(i)).0;
            (m.sems[i].sem.value > 0 && m.sems[i].sem.waiting == [] ==> r == m) &&
            (m.sems[i].sem.value <= 0 ==> r.sems == m.sems && r.tcb == m.tcb[m.current := m.tcb[m.current].(state := Ready)])
  {
    hide NextThread;
    WaitLaw(m, i);
    NextGood(m, SemWait(i));
    PostLaw(Next(m, SemWait(i)).0, i);
    var n := Next(m, SemWait(i)).0;
    var r := Next(n, SemPost(i)).0;
    var s := m.sems[i].sem;
    if s.value <= 0 {
      assert (s.waiting + [m.current])[..|s.waiting|] == s.waiting;
      assert r.sems[i] == m.sems[i];
      assert r.sems == m.sems;
      assert r.tcb == m.tcb[m.current := m.tcb[m.current].(state := Ready)];
    } else if s.waiting == [] {
      assert r.sems[i] == m.sems[i];
      assert r.sems == m.sems;
    }
  }

  // ---------------------------------------------------------------- making and destroying

  /** A new semaphore has the next index, the value asked for and no waiters. */
  lemma InitLaw(m: Machine, initial: nat)
    requires Sane(m) && Enabled(m, SemInit(initial))
    ensures var (r, result) := Next(m, SemInit(initial));
            (result == Code(0) <==> |m.sems| < MAX_SEMAPHORES) && (result == Code(0) || result == Code(-1)) &&
            r.tcb == m.tcb && r.current == m.current &&
            (result == Code(0) ==>
               |r.sems| == |m.sems| + 1 && (forall i :: 0 <= i < |m.sems| ==> r.sems[i] == m.sems[i]) &&
               IsLive(r, |m.sems|) && r.sems[|m.sems|].sem.waiting == [] &&
               (r.sems[|m.sems|].sem.value - initial) % WORD_LIMIT == 0 &&
               -INT_LIMIT <= r.sems[|m.sems|].sem.value < INT_LIMIT)
  {
    ToIntLaw(initial);
  }

  lemma ToIntLaw(v: nat)
    ensures (ToInt(v) - v) % WORD_LIMIT == 0 && -INT_LIMIT <= ToInt(v) < INT_LIMIT
  {
    var q := v / WORD_LIMIT;
    assert v == q * WORD_LIMIT + v % WORD_LIMIT;
    assert ToInt(v) - v == -q * WORD_LIMIT || ToInt(v) - v == (-q - 1) * WORD_LIMIT;
  }

  /** A semaphore that has been destroyed refuses every call about it from then on. */
  lemma DestroyLaw(m: Machine, i: nat, steps: seq<Step>, later: Step)
    requires Sane(m) && Enabled(m, SemDestroy(i)) && Next(m, SemDestroy(i)).1 == Code(0)
    requires Allowed(Next(m, SemDestroy(i)).0, steps)
    requires later in {SemWait(i), SemPost(i), SemDestroy(i)}
    requires Enabled(Exec(Next(m, SemDestroy(i)).0, steps), later)
    ensures IsLive(m, i) && !IsLive(Next(m, SemDestroy(i)).0, i) && Next(m, SemDestroy(i)).0.tcb == m.tcb
    ensures var n := Exec(Next(m, SemDestroy(i)).0, steps);
            !IsLive(n, i) && Next(n, later) == (n, Code(-1))
  {
    GoneForGood(Next(m, SemDestroy(i)).0, steps, i);
  }

  /** Destroying succeeds exactly for a live semaphore. */
  lemma DestroySucceedsIffLive(m: Machine, i: int)
    requires Sane(m) && Enabled(m, SemDestroy(i))
    ensures Next(m, SemDestroy(i)).1 == (if IsLive(m, i) then Code(0) else Code(-1))
  {
  }

  // ---------------------------------------------------------------- threads

  /** A new thread gets the next number and is ready; the others stay as they are. */
  lemma CreateLaw(m: Machine)
    requires Sane(m) && Enabled(m, Create)
    ensures var (r, result) := Next(m, Create);
            (result == Scheduled <==> |m.tcb| < MAX_THREADS) && (result == Scheduled || result == Code(-1)) &&
            r.sems == m.sems && |r.tcb| == |m.tcb| + (if result == Scheduled then 1 else 0) &&
            (forall t :: 0 <= t < |m.tcb| ==> r.tcb[t] == m.tcb[t]) &&
            (result == Scheduled ==>
               var t := |m.tcb|;
               r.tcb[t].id == t && r.tcb[t].state == Ready && r.tcb[t].context == Own)
  {
    hide NextThread;
  }

  /** It runs within as many scheduler calls, its creation included, as there are threads. */
  lemma NewThreadRuns(m: Machine, steps: seq<Step>)
    requires Good(m) && Enabled(m, Create) && |m.tcb| < MAX_THREADS && Allowed(Next(m, Create).0, steps)
    ensures var n, t := Next(m, Create).0, |m.tcb|;
            n.current == t || (Schedulings(n, steps) >= |Exec(n, steps).tcb| ==> Chosen(n, steps, t))
  {
    var n, t := Next(m, Create).0, |m.tcb|;
    CreateLaw(m);
    NextGood(m, Create);
    if n.current != t {
      BoundedWaiting(n, steps, t);
    }
  }

  /** An exit marks the caller and nobody else. */
  lemma ExitLaw(m: Machine, v: int)
    requires Sane(m) && Enabled(m, Exit(v))
    ensures var (r, result) := Next(m, Exit(v));
            result == Scheduled && r.sems == m.sems && |r.tcb| == |m.tcb| &&
            r.tcb[m.current].state == Exited && r.tcb[m.current].exitValue == v &&
            (forall t :: 0 <= t < |m.tcb| && t != m.current ==> r.tcb[t] == m.tcb[t]) &&
            (forall step :: r.current == m.current && Enabled(r, step) ==> step == Tick)
  {
    hide NextThread;
  }

  /** A join is refused for an unknown thread, returns the value of an exited one, and otherwise
      blocks the caller inside it; nobody else changes. */
  lemma JoinLaw(m: Machine, target: nat)
    requires Sane(m) && Enabled(m, Join(target))
    ensures var (r, result) := Next(m, Join(target));
            r.sems == m.sems && |r.tcb| == |m.tcb| &&
            (forall t :: 0 <= t < |m.tcb| && t != m.current ==> r.tcb[t] == m.tcb[t]) &&
            (result == Code(-1) <==> target >= |m.tcb|) &&
            (target < |m.tcb| && m.tcb[target].state == Exited ==>
               r == m && result == Joined(target, m.tcb[target].exitValue)) &&
            (target < |m.tcb| && m.tcb[target].state != Exited ==>
               result == Scheduled && r.tcb[m.current] == m.tcb[m.current].(state := Blocked, context := Joining(target)))
  {
    hide NextThread;
    if target < |m.tcb| && m.tcb[target].state == Exited {
      assert Next(m, Join(target)).0.tcb == m.tcb;
    }
  }

  /** The scheduler never turns to a thread other than 0 that is not ready. */
  lemma OnlyReadyThreadsRun(m: Machine, step: Step)
    requires Good(m) && Enabled(m, step)
    ensures var (r, result) := Next(m, step);
            (result.Scheduled? ==> r.current == 0 || r.tcb[r.current].state == Ready) &&
            (!result.Scheduled? ==> r.current == m.current)
  {
    NextGood(m, step);
    if !Next(m, step).1.Scheduled? { CallerGoesOn(m, step); }
  }
}
