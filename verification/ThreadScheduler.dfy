/** The threading library itself: the thread table, the scheduler's loop and the semaphores,
    updated in place, step for step as the machine of ThreadMachine says. */
module ThreadScheduler {
  import opened ThreadMachine

  class Semaphore {
    var value: int
    var initialized: bool
    const waitingThreads: array<nat>
    var waitCount: nat

    ghost predicate Valid() reads this {
      initialized && waitingThreads.Length == MAX_THREADS && waitCount <= MAX_THREADS
    }

    ghost function Abs(): Sem
      reads this, waitingThreads
      requires Valid()
    {
      Sem(value, waitingThreads[..waitCount])
    }

    constructor (initial: int)
      ensures Valid() && fresh(waitingThreads) && Abs() == Sem(initial, [])
    {
      value := initial;
      initialized := true;
      waitingThreads := new nat[MAX_THREADS];
      waitCount := 0;
    }
  }

  const NoThread := Tcb(0, Ready, 0, Own)

  class Scheduler {
    const tcb: array<Tcb>
    var threadCount: nat
    var currentThread: nat
    var nextThread: nat
    const semaphores: array<Semaphore?>
    var nextSemaphoreId: nat
    ghost var Repr: set<object>

    ghost predicate SemaphoresValid()
      reads this`nextSemaphoreId, this`Repr, semaphores, Repr
    {
      semaphores.Length == MAX_SEMAPHORES && nextSemaphoreId <= MAX_SEMAPHORES &&
      (forall i :: 0 <= i < MAX_SEMAPHORES && semaphores[i] != null ==>
         i < nextSemaphoreId && semaphores[i] in Repr && semaphores[i].waitingThreads in Repr &&
         semaphores[i].Valid()) &&
      (forall i, j :: 0 <= i < j < MAX_SEMAPHORES && semaphores[i] != null && semaphores[j] != null ==>
         semaphores[i] != semaphores[j] && semaphores[i].waitingThreads != semaphores[j].waitingThreads)
    }

    ghost predicate Valid()
      reads this, tcb, semaphores, Repr
    {
      this !in Repr && tcb !in Repr && semaphores !in Repr &&
      tcb.Length == MAX_THREADS && 0 < threadCount <= MAX_THREADS && currentThread < threadCount &&
      Sane(Machine(tcb[..threadCount], currentThread, [])) &&
      (forall i :: threadCount <= i < MAX_THREADS ==> tcb[i] == NoThread) &&
      SemaphoresValid()
    }

    ghost function SlotAt(i: int): Slot
      reads this`nextSemaphoreId, this`Repr, semaphores, Repr
      requires SemaphoresValid() && 0 <= i < MAX_SEMAPHORES
    {
      if semaphores[i] == null then Gone else Live(semaphores[i].Abs())
    }

    ghost function SlotsTo(n: nat): (s: seq<Slot>)
      reads this`nextSemaphoreId, this`Repr, semaphores, Repr
      requires SemaphoresValid() && n <= MAX_SEMAPHORES
      ensures |s| == n && forall i :: 0 <= i < n ==> s[i] == SlotAt(i)
    {
      if n == 0 then [] else SlotsTo(n - 1) + [SlotAt(n - 1)]
    }

    ghost function Slots(): (s: seq<Slot>)
      reads this`nextSemaphoreId, this`Repr, semaphores, Repr
      requires SemaphoresValid()
      ensures |s| == nextSemaphoreId && forall i :: 0 <= i < |s| ==> s[i] == SlotAt(i)
    {
      SlotsTo(nextSemaphoreId)
    }

    ghost function State(): (m: Machine)
      reads this, tcb, semaphores, Repr
      requires Valid()
      ensures Sane(m)
    {
      Machine(tcb[..threadCount], currentThread, Slots())
    }

    constructor ()
      ensures Valid() && State() == Start && fresh(tcb) && fresh(semaphores) && fresh(Repr)
    {
      tcb := new Tcb[MAX_THREADS](_ => NoThread);
      semaphores := new Semaphore?[MAX_SEMAPHORES](_ => null);
      threadCount, currentThread, nextThread, nextSemaphoreId := 1, 0, 0, 0;
      Repr := {};
      new;
      tcb[0] := Tcb(0, Running, 0, Own);
      assert tcb[..threadCount] == [Tcb(0, Running, 0, Own)];
    }

    /** The switch: search for a thread to run and make it current. */
    method Schedule()
      requires Valid()
      modifies this`currentThread, this`nextThread
      ensures Valid() && State() == Switched(old(State()))
    {
      hide NextThread;
      ghost var table := tcb[..threadCount];
      ghost var from := currentThread;
      var again := true;
      while again
        invariant currentThread < threadCount
        invariant NextThread(table, from) == if again then NextThread(table, currentThread) else currentThread
        decreases again, threadCount - currentThread
      {
        SearchTurn(table, currentThread);
        nextThread := Following(currentThread, threadCount);
        currentThread := nextThread;
        again := tcb[currentThread].state != Ready && currentThread != 0;
      }
    }

    method PthreadExit(value: int) returns (result: Result)
      requires Valid()
      modifies this`currentThread, this`nextThread, tcb
      requires Enabled(State(), Exit(value))
      ensures Valid() && (State(), result) == Next(old(State()), Exit(value))
    {
      hide NextThread;
      tcb[currentThread] := tcb[currentThread].(exitValue := value);
      tcb[currentThread] := tcb[currentThread].(state := Exited, context := Spinning);
      ghost var table := tcb[..];
      // meant to wake the joiners, but it looks for a blocked entry with the id of the exiting thread
      for i := 0 to threadCount
        invariant tcb[..] == table
        modifies tcb
      {
        assert tcb[i] == table[i];
        if tcb[i].state == Blocked && tcb[i].id == currentThread {
          tcb[i] := tcb[i].(state := Ready);
        }
      }
      assert Slots() == old(Slots());
      assert State().tcb == old(State()).tcb[old(currentThread) := table[old(currentThread)]];
      Schedule();
      result := Scheduled;
    }

    method PthreadCreate() returns (result: Result)
      requires Valid()
      modifies this`currentThread, this`nextThread, this`threadCount, tcb
      requires Enabled(State(), Create)
      ensures Valid() && (State(), result) == Next(old(State()), Create)
    {
      hide NextThread;
      if threadCount >= MAX_THREADS { return Code(-1); }
      tcb[threadCount] := tcb[threadCount].(id := threadCount, state := Ready, context := Own);
      threadCount := threadCount + 1;
      assert tcb[..threadCount] == old(tcb[..threadCount]) + [Tcb(old(threadCount), Ready, 0, Own)];
      assert Slots() == old(Slots());
      Schedule();
      return Scheduled;
    }

    /** One turn of the waiting loop of join. */
    method LookAtTarget(target: nat) returns (result: Result)
      requires Valid() && target < threadCount
      modifies this`currentThread, this`nextThread, tcb
      ensures Valid() && (State(), result) == JoinStep(old(State()), target)
    {
      hide NextThread;
      var me := tcb[currentThread];
      if tcb[target].state != Exited {
        tcb[currentThread] := me.(state := Blocked, context := Joining(target));
        assert Slots() == old(Slots());
        Schedule();
        return Scheduled;
      }
      result := Joined(target, tcb[target].exitValue);
      tcb[currentThread] := me.(context := Own);
      assert Slots() == old(Slots());
    }

    method PthreadJoin(thread: nat) returns (result: Result)
      requires Valid()
      modifies this`currentThread, this`nextThread, tcb
      requires Enabled(State(), Join(thread))
      ensures Valid() && (State(), result) == Next(old(State()), Join(thread))
    {
      var targetIndex := -1;
      for i := 0 to threadCount
        invariant targetIndex == -1 && (thread < threadCount ==> i <= thread)
      {
        if tcb[i].id == thread {
          targetIndex := i;
          break;
        }
      }
      if targetIndex == -1 { return Code(-1); }
      result := LookAtTarget(targetIndex);
    }

    method SemInit(initial: nat) returns (result: Result)
      requires Valid()
      modifies this`nextSemaphoreId, this`Repr, semaphores
      requires Enabled(State(), Step.SemInit(initial))
      ensures Valid() && (State(), result) == Next(old(State()), Step.SemInit(initial))
      ensures fresh(Repr - old(Repr))
    {
      hide NextThread, ToInt;
      if nextSemaphoreId >= MAX_SEMAPHORES { return Code(-1); }
      var csem := new Semaphore(ToInt(initial));
      semaphores[nextSemaphoreId] := csem;
      nextSemaphoreId := nextSemaphoreId + 1;
      Repr := Repr + {csem, csem.waitingThreads};
      assert tcb[..threadCount] == old(tcb[..threadCount]) && Valid();
      assert Slots() == old(Slots()) + [Live(Sem(ToInt(initial), []))];
      return Code(0);
    }

    /** The semaphore behind an index that names a live one. */
    method FindSemaphore(semIndex: int) returns (csem: Semaphore?)
      requires Valid()
      ensures csem != null <==> IsLive(State(), semIndex)
      ensures csem != null ==> csem == semaphores[semIndex]
    {
      if semIndex < 0 || semIndex >= MAX_SEMAPHORES { return null; }
      csem := semaphores[semIndex];
      if csem == null || !csem.initialized { return null; }
    }

    /** The current thread goes on top of the waiting stack. */
    method PushWaiter(semIndex: int, csem: Semaphore)
      requires Valid() && IsLive(State(), semIndex) && csem == semaphores[semIndex] && csem.waitCount < MAX_THREADS
      modifies csem`waitCount, csem.waitingThreads
      ensures Valid()
      ensures var s := old(State()).sems[semIndex].sem;
              Slots() == old(Slots())[semIndex := Live(s.(waiting := s.waiting + [currentThread]))]
    {
      csem.waitingThreads[csem.waitCount] := currentThread;
      csem.waitCount := csem.waitCount + 1;
      assert csem.Abs().waiting == old(csem.Abs().waiting) + [currentThread];
    }

    /** The thread on top of the waiting stack leaves it. */
    method PopWaiter(semIndex: int, csem: Semaphore) returns (thread: nat)
      requires Valid() && IsLive(State(), semIndex) && csem == semaphores[semIndex] && csem.waitCount > 0
      modifies csem`waitCount
      ensures Valid()
      ensures var s := old(State()).sems[semIndex].sem;
              s.waiting != [] && thread == s.waiting[|s.waiting| - 1] &&
              Slots() == old(Slots())[semIndex := Live(s.(waiting := s.waiting[..|s.waiting| - 1]))]
    {
      csem.waitCount := csem.waitCount - 1;
      thread := csem.waitingThreads[csem.waitCount];
      assert csem.Abs().waiting == old(csem.Abs().waiting)[..csem.waitCount];
    }

    method AddToValue(semIndex: int, csem: Semaphore, d: int)
      requires Valid() && IsLive(State(), semIndex) && csem == semaphores[semIndex]
      modifies csem`value
      ensures Valid()
      ensures var s := old(State()).sems[semIndex].sem;
              Slots() == old(Slots())[semIndex := Live(s.(value := s.value + d))]
    {
      csem.value := csem.value + d;
      assert csem.waitingThreads[..csem.waitCount] == old(csem.waitingThreads[..csem.waitCount]);
    }

    method SemWait(semIndex: int) returns (result: Result)
      requires Valid() && Enabled(State(), Step.SemWait(semIndex)) && Fits(State(), Step.SemWait(semIndex))
      modifies this`currentThread, this`nextThread, tcb, Repr
      ensures Valid() && (State(), result) == Next(old(State()), Step.SemWait(semIndex))
    {
      hide NextThread;
      var csem := FindSemaphore(semIndex);
      if csem == null { return Code(-1); }
      if csem.value > 0 {
        AddToValue(semIndex, csem, -1);
        return Code(0);
      }
      PushWaiter(semIndex, csem);
      tcb[currentThread] := tcb[currentThread].(state := Blocked);
      Schedule();
      return Scheduled;
    }

    method SemPost(semIndex: int) returns (result: Result)
      requires Valid() && Enabled(State(), Step.SemPost(semIndex)) && Fits(State(), Step.SemPost(semIndex))
      requires WaitersBlocked(State())
      modifies tcb, Repr
      ensures Valid() && (State(), result) == Next(old(State()), Step.SemPost(semIndex))
    {
      hide WaitersBlocked;
      var csem := FindSemaphore(semIndex);
      if csem == null { return Code(-1); }
      if csem.waitCount > 0 {
        LastWaiterIsAThread(State(), semIndex);
        var woken := PopWaiter(semIndex, csem);
        tcb[woken] := tcb[woken].(state := Ready);
        return Code(0);
      }
      AddToValue(semIndex, csem, 1);
      return Code(0);
    }

    method SemDestroy(semIndex: int) returns (result: Result)
      requires Valid()
      modifies semaphores
      requires Enabled(State(), Step.SemDestroy(semIndex))
      ensures Valid() && (State(), result) == Next(old(State()), Step.SemDestroy(semIndex))
    {
      var csem := FindSemaphore(semIndex);
      if csem == null { return Code(-1); }
      semaphores[semIndex] := null;
      assert Slots() == old(Slots())[semIndex := Gone];
      return Code(0);
    }

    method Perform(step: Step) returns (result: Result)
      requires Valid() && Good(State()) && Enabled(State(), step) && Fits(State(), step)
      modifies this, tcb, semaphores, Repr
      ensures Valid() && fresh(Repr - old(Repr)) && Good(State())
      ensures (State(), result) == Next(old(State()), step)
    {
      NextGood(State(), step);
      match step
      case Tick => Schedule(); result := Scheduled;
      case Create => result := PthreadCreate();
      case Exit(value) => result := PthreadExit(value);
      case Join(target) => result := PthreadJoin(target);
      case Retry => result := LookAtTarget(tcb[currentThread].context.target);
      case SemInit(initial) => result := SemInit(initial);
      case SemWait(i) => result := SemWait(i);
      case SemPost(i) => result := SemPost(i);
      case SemDestroy(i) => result := SemDestroy(i);
    }

    /** A whole run ends in the state, and gives the results, that the machine says. */
    method RunSteps(steps: seq<Step>) returns (results: seq<Result>)
      requires Valid() && Good(State()) && Allowed(State(), steps) && RunFits(State(), steps)
      modifies this, tcb, semaphores, Repr
      ensures Valid() && Good(State()) && State() == Exec(old(State()), steps)
      ensures results == Results(old(State()), steps)
    {
      hide Next, Enabled, Good, Sane, Fits;
      ghost var start := State();
      results := [];
      for i := 0 to |steps|
        invariant Valid() && Good(State()) && fresh(Repr - old(Repr))
        invariant Allowed(State(), steps[i..]) && RunFits(State(), steps[i..])
        invariant Exec(State(), steps[i..]) == Exec(start, steps)
        invariant results + Results(State(), steps[i..]) == Results(start, steps)
      {
        assert steps[i..][0] == steps[i] && steps[i..][1..] == steps[i + 1..];
        var result := Perform(steps[i]);
        results := results + [result];
      }
    }
  }
}
