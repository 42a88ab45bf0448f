/** Semaphores over whole runs: how value and waiters follow from the accepted posts and waits,
    in which order waiters leave, and how many there can be. */
module ThreadSemaphores {
  import opened ThreadMachine
  import opened ThreadRuns
  import opened Collections

  // ---------------------------------------------------------------- conservation

  /** The number of times the run takes `step` and the call is not refused. */
  function Accepted(m: Machine, steps: seq<Step>, step: Step): (n: nat)
    requires Sane(m) && Allowed(m, steps)
    ensures n <= |steps|
    decreases |steps|
  {
    if steps == [] then 0
    else
      var (r, result) := Next(m, steps[0]);
      (if steps[0] == step && result != Code(-1) then 1 else 0) + Accepted(r, steps[1..], step)
  }

  function Balance(m: Machine, i: nat): int
    requires IsLive(m, i)
  {
    m.sems[i].sem.value - |m.sems[i].sem.waiting|
  }

  /** What every step keeps of a live semaphore: a positive value means that nobody waits, and a
      negative value only ever comes from its initialisation. */
  ghost predicate Settled(m: Machine, i: nat, low: int) {
    IsLive(m, i) ==> m.sems[i].sem.value >= low && (m.sems[i].sem.value > 0 ==> m.sems[i].sem.waiting == [])
  }

  lemma StepBalance(m: Machine, step: Step, i: nat, low: int)
    requires Sane(m) && Enabled(m, step) && i < |m.sems| && IsLive(Next(m, step).0, i)
    ensures IsLive(m, i)
    ensures var (r, result) := Next(m, step);
            Balance(r, i) == Balance(m, i)
              + (if step == SemPost(i) && result != Code(-1) then 1 else 0)
              - (if step == SemWait(i) && result != Code(-1) then 1 else 0)
    ensures Settled(m, i, low) && low <= 0 ==> Settled(Next(m, step).0, i, low)
  {
  }

  lemma {:induction false} GoneForGood(m: Machine, steps: seq<Step>, i: nat)
    requires Sane(m) && Allowed(m, steps) && i < |m.sems| && !IsLive(m, i)
    ensures !IsLive(Exec(m, steps), i)
    decreases |steps|
  {
    if steps != [] {
      GoneForGood(Next(m, steps[0]).0, steps[1..], i);
    }
  }

  /** Conservation: over any run that a semaphore survives, its value less its waiters moves by
      the accepted posts less the accepted waits. */
  lemma {:induction false} Conservation(m: Machine, steps: seq<Step>, i: nat, low: int)
    requires Sane(m) && Allowed(m, steps) && i < |m.sems| && IsLive(Exec(m, steps), i)
    ensures IsLive(m, i)
    ensures Balance(Exec(m, steps), i)
            == Balance(m, i) + Accepted(m, steps, SemPost(i)) - Accepted(m, steps, SemWait(i))
    ensures Settled(m, i, low) && low <= 0 ==> Settled(Exec(m, steps), i, low)
    decreases |steps|
  {
    if steps != [] {
      var r := Next(m, steps[0]).0;
      if !IsLive(r, i) { GoneForGood(r, steps[1..], i); }
      StepBalance(m, steps[0], i, low);
      Conservation(r, steps[1..], i, low);
    }
  }

  /** A semaphore made by sem_init(initial), in every later state in which it lives: its value
      and its waiters follow from the posts and waits since; one of the two is zero. */
  lemma SemaphoreCounts(m: Machine, initial: nat, steps: seq<Step>)
    requires Sane(m) && |m.sems| < MAX_SEMAPHORES && Enabled(m, SemInit(initial))
    requires Allowed(Next(m, SemInit(initial)).0, steps)
    requires IsLive(Exec(Next(m, SemInit(initial)).0, steps), |m.sems|)
    ensures var i, n := |m.sems|, Next(m, SemInit(initial)).0;
            var s := Exec(n, steps).sems[i].sem;
            var b := ToInt(initial) + Accepted(n, steps, SemPost(i)) - Accepted(n, steps, SemWait(i));
            s.value - |s.waiting| == b && (s.value <= 0 || s.waiting == []) &&
            (initial % WORD_LIMIT < INT_LIMIT ==>
               s.value == (if b > 0 then b else 0) && |s.waiting| == (if b < 0 then -b else 0))
  {
    var i, n := |m.sems|, Next(m, SemInit(initial)).0;
    Conservation(n, steps, i, if ToInt(initial) < 0 then ToInt(initial) else 0);
  }

  /** In no run does the value of semaphore i turn negative. */
  ghost predicate NeverNegative(m: Machine, i: nat)
    requires Sane(m)
  {
    forall steps :: Allowed(m, steps) && IsLive(Exec(m, steps), i) ==> Exec(m, steps).sems[i].sem.value >= 0
  }

  /** The value never turns negative, in any run, exactly when the unsigned argument of sem_init
      fits an int. */
  lemma NonNegativeIffFits(m: Machine, initial: nat)
    requires Sane(m) && |m.sems| < MAX_SEMAPHORES && Enabled(m, SemInit(initial))
    ensures NeverNegative(Next(m, SemInit(initial)).0, |m.sems|) <==> initial % WORD_LIMIT < INT_LIMIT
  {
    var i, n := |m.sems|, Next(m, SemInit(initial)).0;
    if initial % WORD_LIMIT < INT_LIMIT {
      forall steps | Allowed(n, steps) && IsLive(Exec(n, steps), i) ensures Exec(n, steps).sems[i].sem.value >= 0 {
        SemaphoreCounts(m, initial, steps);
      }
    } else if NeverNegative(n, i) {
      AtOnce(n, i);
    }
  }

  lemma AtOnce(m: Machine, i: nat)
    requires Sane(m) && IsLive(m, i) && NeverNegative(m, i)
    ensures m.sems[i].sem.value >= 0
  {
    var none: seq<Step> := [];
    assert Allowed(m, none) && Exec(m, none) == m;
  }

  // ---------------------------------------------------------------- order of waking

  /** In every state of the run, more than p threads wait at semaphore i. */
  predicate AlwaysAbove(m: Machine, steps: seq<Step>, i: nat, p: nat)
    requires Sane(m) && Allowed(m, steps)
    decreases |steps|
  {
    IsLive(m, i) && |m.sems[i].sem.waiting| > p &&
    (steps == [] || AlwaysAbove(Next(m, steps[0]).0, steps[1..], i, p))
  }

  /** Last come, first woken: whoever waits at place p keeps waiting, through any posts, as long
      as the later ones have not all left. */
  lemma {:induction false} WaitersLeaveLastFirst(m: Machine, steps: seq<Step>, i: nat, p: nat)
    requires Good(m) && Allowed(m, steps) && AlwaysAbove(m, steps, i, p)
    ensures var r := Exec(m, steps);
            IsLive(r, i) && |r.sems[i].sem.waiting| > p &&
            r.sems[i].sem.waiting[..p + 1] == m.sems[i].sem.waiting[..p + 1]
    ensures var t, r := m.sems[i].sem.waiting[p], Exec(m, steps);
            t != 0 ==> r.current != t && t < |r.tcb| && r.tcb[t].state == Blocked
    decreases |steps|
  {
    if steps == [] {
      assert WaitsAt(m, i, p, m.sems[i].sem.waiting[p]);
    } else {
      var r := Next(m, steps[0]).0;
      NextGood(m, steps[0]);
      var w := m.sems[i].sem.waiting;
      assert r.sems[i].sem.waiting in {w, w + [m.current], w[..|w| - 1]};
      assert r.sems[i].sem.waiting[..p + 1] == w[..p + 1];
      assert r.sems[i].sem.waiting[p] == r.sems[i].sem.waiting[..p + 1][p];
      WaitersLeaveLastFirst(r, steps[1..], i, p);
    }
  }

  /** A post takes the first waiter exactly when there is only one. */
  lemma PostTakesFirstIffAlone(m: Machine, i: nat)
    requires Good(m) && Enabled(m, SemPost(i)) && IsLive(m, i)
    requires m.sems[i].sem.waiting != [] && 0 !in m.sems[i].sem.waiting
    ensures var w, r := m.sems[i].sem.waiting, Next(m, SemPost(i)).0;
            w[0] < |r.tcb| &&
            (r.sems[i].sem.waiting == w[1..] <==> |w| == 1) && (r.tcb[w[0]].state == Ready <==> |w| == 1)
  {
    var w := m.sems[i].sem.waiting;
    var last := |w| - 1;
    assert WaitsAt(m, i, 0, w[0]) && WaitsAt(m, i, last, w[last]);
    if last > 0 {
      assert w[0] != w[last];
      assert w[..last][0] == w[0];
      if w[..last] == w[1..] {
        assert w[1..][0] == w[1] && WaitsAt(m, i, 1, w[1]);
        assert false;
      }
    } else {
      assert w[..last] == [] == w[1..];
    }
  }

  lemma BothCreated(s: seq<Step>) returns (ms: seq<Machine>)
    requires s == [SemInit(0), Create, Tick, Create]
    ensures Trace(ms, s) && ms[0] == Start && ms[4] == Waits([], Ready, Ready, 1)
  {
    hide NextThread;
    var main, one := Tcb(0, Running, 0, Own), Tcb(1, Ready, 0, Own);
    var idle := [Live(Sem(0, []))];
    var a, b, c := Machine([main], 0, idle), Machine([main, one], 1, idle), Machine([main, one], 0, idle);
    var d := Waits([], Ready, Ready, 1);
    assert Next(a, Create).0.tcb == b.tcb;
    NextIs(b.tcb, 0, 1);
    assert Next(c, Create).0.tcb == d.tcb;
    NextIs(d.tcb, 0, 1);
    ms := [Start, a, b, c, d];
  }

  /** Threads 1 and 2 beside thread 0, and one semaphore with these waiters. */
  function Waits(waiting: seq<nat>, one: ThreadState, two: ThreadState, current: nat): Machine {
    Machine([Tcb(0, Running, 0, Own), Tcb(1, one, 0, Own), Tcb(2, two, 0, Own)], current, [Live(Sem(0, waiting))])
  }

  lemma FirstWaits()
    ensures var a, b := Waits([], Ready, Ready, 1), Waits([1], Blocked, Ready, 2);
            Sane(a) && Enabled(a, SemWait(0)) && Sane(b) && Next(a, SemWait(0)).0 == b
  {
    hide NextThread;
    var a, b := Waits([], Ready, Ready, 1), Waits([1], Blocked, Ready, 2);
    assert Next(a, SemWait(0)).0.tcb == b.tcb && Next(a, SemWait(0)).0.sems[0].sem.waiting == [1];
    NextIs(b.tcb, 1, 2);
  }

  lemma SecondWaits()
    ensures var b, c := Waits([1], Blocked, Ready, 2), Waits([1, 2], Blocked, Blocked, 0);
            Sane(b) && Enabled(b, SemWait(0)) && Sane(c) && Next(b, SemWait(0)).0 == c
  {
    hide NextThread;
    var b, c := Waits([1], Blocked, Ready, 2), Waits([1, 2], Blocked, Blocked, 0);
    assert Next(b, SemWait(0)).0.tcb == c.tcb && Next(b, SemWait(0)).0.sems[0].sem.waiting == [1, 2];
  }

  lemma PostWakesSecond()
    ensures var c, d := Waits([1, 2], Blocked, Blocked, 0), Waits([1], Blocked, Ready, 0);
            Sane(c) && Enabled(c, SemPost(0)) && Sane(d) && Next(c, SemPost(0)).0 == d
  {
    var c, d := Waits([1, 2], Blocked, Blocked, 0), Waits([1], Blocked, Ready, 0);
    assert Next(c, SemPost(0)).0.tcb == d.tcb && Next(c, SemPost(0)).0.sems[0].sem.waiting == [1];
  }

  lemma BothWait(s: seq<Step>) returns (ms: seq<Machine>)
    requires s == [SemWait(0), SemWait(0), SemPost(0)]
    ensures Trace(ms, s) && ms[0] == Waits([], Ready, Ready, 1) && ms[3] == Waits([1], Blocked, Ready, 0)
  {
    hide Next, Sane, Enabled;
    FirstWaits();
    SecondWaits();
    PostWakesSecond();
    ms := [Waits([], Ready, Ready, 1), Waits([1], Blocked, Ready, 2),
           Waits([1, 2], Blocked, Blocked, 0), Waits([1], Blocked, Ready, 0)];
  }

  /** Thread 1 and then thread 2 wait; thread 0 posts, and it is thread 2 that becomes ready. */
  lemma SecondWaiterFirst() returns (r: Machine)
    ensures var s := [SemInit(0), Create, Tick, Create] + [SemWait(0), SemWait(0), SemPost(0)];
            Allowed(Start, s) && r == Exec(Start, s)
    ensures |r.tcb| == 3 && r.tcb[1].state == Blocked && r.tcb[2].state == Ready && r.sems == [Live(Sem(0, [1]))]
  {
    var s, t := [SemInit(0), Create, Tick, Create], [SemWait(0), SemWait(0), SemPost(0)];
    var ms := BothCreated(s);
    var ns := BothWait(t);
    TraceRuns(ms + ns[1..], s + t);
    r := ns[3];
  }

  // ---------------------------------------------------------------- how many can wait

  /** All waiting threads, semaphore by semaphore. */
  function Waiting(sems: seq<Slot>): (w: seq<nat>) {
    if sems == [] then [] else WaitingAt(sems[0]) + Waiting(sems[1..])
  }

  function WaitingAt(slot: Slot): (w: seq<nat>) {
    if slot.Live? then slot.sem.waiting else []
  }

  function MainEntries(s: seq<nat>): (n: nat)
    ensures n <= |s|
  {
    if s == [] then 0 else (if s[0] == 0 then 1 else 0) + MainEntries(s[1..])
  }

  /** The semaphore and the place that entry a of the list stands for. */
  lemma {:induction false} PlaceOf(sems: seq<Slot>, a: nat) returns (i: nat, p: nat)
    requires a < |Waiting(sems)|
    ensures i < |sems| && p < |WaitingAt(sems[i])| && WaitingAt(sems[i])[p] == Waiting(sems)[a]
    ensures a == |Waiting(sems[..i])| + p
  {
    var n := |WaitingAt(sems[0])|;
    if a < n {
      i, p := 0, a;
    } else {
      i, p := PlaceOf(sems[1..], a - n);
      i := i + 1;
      assert sems[..i][1..] == sems[1..][..i - 1];
    }
  }

  lemma {:induction false} SlotWithinTotal(sems: seq<Slot>, i: nat)
    requires i < |sems|
    ensures |WaitingAt(sems[i])| <= |Waiting(sems)|
  {
    if i > 0 { SlotWithinTotal(sems[1..], i - 1); }
  }

  /** The entries of s that are not 0. */
  function Others(s: seq<nat>): (o: set<nat>)
    ensures forall x :: x in o <==> x in s && x != 0
  {
    if s == [] then {} else (if s[0] == 0 then {} else {s[0]}) + Others(s[1..])
  }

  /** The numbers of the threads 1 to n - 1. */
  function ThreadsFrom1(n: nat): (o: set<nat>)
    ensures forall x :: x in o <==> 0 < x < n
    ensures |o| == if n == 0 then 0 else n - 1
  {
    if n <= 1 then {} else ThreadsFrom1(n - 1) + {n - 1}
  }

  lemma {:induction false} OtherEntries(s: seq<nat>)
    requires forall a, b :: 0 <= a < b < |s| && s[a] == s[b] ==> s[a] == 0
    ensures |s| == MainEntries(s) + |Others(s)|
  {
    if s != [] {
      OtherEntries(s[1..]);
      assert s[0] != 0 ==> s[0] !in Others(s[1..]);
    }
  }

  lemma DistinctBound(s: seq<nat>, n: nat)
    requires 0 < n && forall a :: 0 <= a < |s| ==> s[a] < n
    requires forall a, b :: 0 <= a < b < |s| && s[a] == s[b] ==> s[a] == 0
    ensures |s| <= n - 1 + MainEntries(s)
  {
    OtherEntries(s);
    SubsetSize(Others(s), ThreadsFrom1(n));
  }

  /** In every good state all waiters together, over all semaphores, are fewer than the threads,
      once the entries of thread 0 are set aside. */
  lemma WaitersBound(m: Machine)
    requires Good(m)
    ensures |Waiting(m.sems)| < |m.tcb| + MainEntries(Waiting(m.sems))
  {
    var w := Waiting(m.sems);
    forall a | 0 <= a < |w| ensures w[a] < |m.tcb| {
      var i, p := PlaceOf(m.sems, a);
      assert WaitsAt(m, i, p, w[a]);
    }
    forall a, b | 0 <= a < b < |w| && w[a] == w[b] ensures w[a] == 0 {
      var i, p := PlaceOf(m.sems, a);
      var j, q := PlaceOf(m.sems, b);
      assert WaitsAt(m, i, p, w[a]) && WaitsAt(m, j, q, w[b]);
    }
    DistinctBound(w, |m.tcb|);
  }

  /** Thread 0 never takes the waiting branch of sem_wait in the run. */
  predicate MainNeverWaits(m: Machine, steps: seq<Step>)
    requires Sane(m) && Allowed(m, steps)
    decreases |steps|
  {
    steps == [] ||
    (var (r, result) := Next(m, steps[0]);
     !(m.current == 0 && steps[0].SemWait? && result.Scheduled?) && MainNeverWaits(r, steps[1..]))
  }

  ghost predicate MainIdle(m: Machine) {
    forall i: nat, p: nat :: !WaitsAt(m, i, p, 0)
  }

  lemma MainIdleStep(m: Machine, step: Step)
    requires Sane(m) && Enabled(m, step) && MainIdle(m)
    requires !(m.current == 0 && step.SemWait? && Next(m, step).1.Scheduled?)
    ensures MainIdle(Next(m, step).0)
  {
    var r := Next(m, step).0;
    forall i: nat, p: nat ensures !WaitsAt(r, i, p, 0) {
      assert !WaitsAt(m, i, p, 0);
    }
  }

  lemma {:induction false} MainStaysIdle(m: Machine, steps: seq<Step>)
    requires Sane(m) && Allowed(m, steps) && MainIdle(m) && MainNeverWaits(m, steps)
    ensures MainIdle(Exec(m, steps))
    decreases |steps|
  {
    if steps != [] {
      MainIdleStep(m, steps[0]);
      MainStaysIdle(Next(m, steps[0]).0, steps[1..]);
    }
  }

  lemma {:induction false} NoMainEntries(s: seq<nat>)
    requires 0 !in s
    ensures MainEntries(s) == 0
  {
    if s != [] { NoMainEntries(s[1..]); }
  }

  /** From the start, as long as thread 0 never waits: fewer threads wait, at all semaphores
      together, than there are, so the waiting array of 128 entries never overflows. */
  lemma WaitersAlwaysFit(steps: seq<Step>, i: nat)
    requires Allowed(Start, steps) && MainNeverWaits(Start, steps)
    ensures var r := Exec(Start, steps);
            |Waiting(r.sems)| < |r.tcb| <= MAX_THREADS &&
            (IsLive(r, i) ==> |r.sems[i].sem.waiting| < |r.tcb|)
  {
    var r := Exec(Start, steps);
    StartGood();
    RunGood(Start, steps);
    MainStaysIdle(Start, steps);
    var w := Waiting(r.sems);
    if 0 in w {
      var a :| 0 <= a < |w| && w[a] == 0;
      var j, p := PlaceOf(r.sems, a);
      assert WaitsAt(r, j, p, 0);
      assert false;
    }
    NoMainEntries(w);
    WaitersBound(r);
    if IsLive(r, i) { SlotWithinTotal(r.sems, i); }
  }

  /** Without that condition there is no bound: thread 0 alone, which the scheduler always
      resumes, can be entered k times for any k. */
  lemma {:induction false} MainWaitsAgainAndAgain(m: Machine, k: nat)
    requires Sane(m) && m.current == 0 && |m.tcb| == 1 && m.tcb[0].context.Own?
    requires IsLive(m, 0) && m.sems[0].sem.value == 0
    ensures var steps := seq(k, _ => SemWait(0));
            Allowed(m, steps) && var r := Exec(m, steps);
            r.current == 0 && IsLive(r, 0) && |r.sems[0].sem.waiting| == |m.sems[0].sem.waiting| + k
    decreases k
  {
    var steps := seq(k, _ => SemWait(0));
    if k > 0 {
      assert steps[1..] == seq(k - 1, _ => SemWait(0));
      MainWaitsAgainAndAgain(Next(m, SemWait(0)).0, k - 1);
    }
  }

  // ---------------------------------------------------------------- waits that have returned

  /** The threads inside a wait at semaphore i after the step: entered the scheduler there and not
      resumed since. */
  function InsideNext(m: Machine, step: Step, i: nat, inside: set<nat>): set<nat>
    requires Sane(m) && Enabled(m, step)
  {
    var (r, result) := Next(m, step);
    if result.Scheduled? then Entered(m, step, i, inside) - {r.current} else inside
  }

  function Entered(m: Machine, step: Step, i: nat, inside: set<nat>): set<nat> {
    if step == SemWait(i) then inside + {m.current} else inside
  }

  /** The number of waits at semaphore i that return by the step: at once, or because their thread
      is resumed. */
  function ReturnsNow(m: Machine, step: Step, i: nat, inside: set<nat>): nat
    requires Sane(m) && Enabled(m, step)
  {
    var (r, result) := Next(m, step);
    if result.Scheduled? then (if r.current in Entered(m, step, i, inside) then 1 else 0)
    else if step == SemWait(i) && result == Code(0) then 1
    else 0
  }

  function InsideAfter(m: Machine, steps: seq<Step>, i: nat, inside: set<nat>): set<nat>
    requires Sane(m) && Allowed(m, steps)
    decreases |steps|
  {
    if steps == [] then inside
    else InsideAfter(Next(m, steps[0]).0, steps[1..], i, InsideNext(m, steps[0], i, inside))
  }

  /** The number of waits at semaphore i that return during the run. */
  function Returned(m: Machine, steps: seq<Step>, i: nat, inside: set<nat>): nat
    requires Sane(m) && Allowed(m, steps)
    decreases |steps|
  {
    if steps == [] then 0
    else
      ReturnsNow(m, steps[0], i, inside)
      + Returned(Next(m, steps[0]).0, steps[1..], i, InsideNext(m, steps[0], i, inside))
  }

  ghost predicate WaitersInside(m: Machine, i: nat, inside: set<nat>) {
    forall p: nat, t: nat :: WaitsAt(m, i, p, t) ==> t in inside
  }

  lemma StepAnswers(m: Machine, step: Step)
    requires Sane(m) && Enabled(m, step)
    ensures var (r, result) := Next(m, step);
            (!result.Scheduled? ==> r.current == m.current) &&
            (step.SemWait? && !result.Scheduled? ==> result == Code(0) || result == Code(-1))
  {
  }

  lemma SizeWithout(s: set<nat>, t: nat)
    ensures |s - {t}| + (if t in s then 1 else 0) == |s|
  {
    if t in s {
      assert s == (s - {t}) + {t};
    } else {
      assert s - {t} == s;
    }
  }

  lemma StepReturns(m: Machine, step: Step, i: nat, inside: set<nat>)
    requires Sane(m) && Enabled(m, step) && m.current !in inside
    ensures Next(m, step).0.current !in InsideNext(m, step, i, inside)
    ensures ReturnsNow(m, step, i, inside) + |InsideNext(m, step, i, inside)|
            == |inside| + if step == SemWait(i) && Next(m, step).1 != Code(-1) then 1 else 0
  {
    hide Next, Sane, Enabled;
    StepAnswers(m, step);
    SizeWithout(Entered(m, step, i, inside), Next(m, step).0.current);
  }

  lemma StepInside(m: Machine, step: Step, i: nat, inside: set<nat>)
    requires Good(m) && Enabled(m, step) && WaitersInside(m, i, inside)
    requires Good(Next(m, step).0) && MainIdle(Next(m, step).0)
    ensures WaitersInside(Next(m, step).0, i, InsideNext(m, step, i, inside))
  {
    hide NextThread;
    var (r, result) := Next(m, step);
    forall p: nat, t: nat | WaitsAt(r, i, p, t) ensures t in InsideNext(m, step, i, inside) {
      assert t != 0 && r.tcb[t].state == Blocked;
      assert t != r.current;
      assert WaitsAt(m, i, p, t) || (step == SemWait(i) && t == m.current && result.Scheduled?);
    }
  }

  lemma {:induction false} EntriesReturnOrStay(m: Machine, steps: seq<Step>, i: nat, inside: set<nat>)
    requires Good(m) && Allowed(m, steps) && MainIdle(m) && MainNeverWaits(m, steps)
    requires m.current !in inside && WaitersInside(m, i, inside)
    ensures Returned(m, steps, i, inside) + |InsideAfter(m, steps, i, inside)|
            == |inside| + Accepted(m, steps, SemWait(i))
    ensures WaitersInside(Exec(m, steps), i, InsideAfter(m, steps, i, inside))
    decreases |steps|
  {
    if steps != [] {
      NextGood(m, steps[0]);
      MainIdleStep(m, steps[0]);
      StepReturns(m, steps[0], i, inside);
      StepInside(m, steps[0], i, inside);
      EntriesReturnOrStay(Next(m, steps[0]).0, steps[1..], i, InsideNext(m, steps[0], i, inside));
    }
  }

  lemma WaitersCounted(m: Machine, i: nat, inside: set<nat>)
    requires Good(m) && MainIdle(m) && IsLive(m, i) && WaitersInside(m, i, inside)
    ensures |m.sems[i].sem.waiting| <= |inside|
  {
    var w := m.sems[i].sem.waiting;
    forall p | 0 <= p < |w| ensures w[p] != 0 && w[p] in inside {
      assert WaitsAt(m, i, p, w[p]);
    }
    forall p, q | 0 <= p < q < |w| ensures w[p] != w[q] {
      assert WaitsAt(m, i, p, w[p]) && WaitsAt(m, i, q, w[q]);
    }
    NoMainEntries(w);
    OtherEntries(w);
    SubsetSize(Others(w), inside);
  }

  /** What a semaphore is for: as long as thread 0 never waits, no more waits return than its
      initial value and the accepted posts allow. */
  lemma ReturnsBounded(m: Machine, initial: nat, steps: seq<Step>)
    requires Good(m) && MainIdle(m) && |m.sems| < MAX_SEMAPHORES && Enabled(m, SemInit(initial))
    requires initial % WORD_LIMIT < INT_LIMIT
    requires Allowed(Next(m, SemInit(initial)).0, steps) && MainNeverWaits(Next(m, SemInit(initial)).0, steps)
    requires IsLive(Exec(Next(m, SemInit(initial)).0, steps), |m.sems|)
    ensures var i, n := |m.sems|, Next(m, SemInit(initial)).0;
            Returned(n, steps, i, {}) <= initial % WORD_LIMIT + Accepted(n, steps, SemPost(i))
  {
    var i, n := |m.sems|, Next(m, SemInit(initial)).0;
    NextGood(m, SemInit(initial));
    MainIdleStep(m, SemInit(initial));
    EntriesReturnOrStay(n, steps, i, {});
    RunGood(n, steps);
    MainStaysIdle(n, steps);
    WaitersCounted(Exec(n, steps), i, InsideAfter(n, steps, i, {}));
    SemaphoreCounts(m, initial, steps);
  }

  /** Thread 0 slips through: its wait at a semaphore of value 0 returns without any post. */
  lemma MainSlipsThrough()
    ensures var n := Next(Start, SemInit(0)).0;
            Allowed(n, [SemWait(0)]) && Returned(n, [SemWait(0)], 0, {}) == 1
    ensures Accepted(Next(Start, SemInit(0)).0, [SemWait(0)], SemPost(0)) == 0
  {
    var n := Next(Start, SemInit(0)).0;
    var s := [SemWait(0)];
    assert s[1..] == [];
    assert Next(n, SemWait(0)).1 == Scheduled && Next(n, SemWait(0)).0.current == 0;
  }

  predicate NoPosts(steps: seq<Step>, i: nat) {
    forall k :: 0 <= k < |steps| ==> steps[k] != SemPost(i)
  }

  /** Thread t, not 0, is blocked and waits at no semaphore but i. */
  ghost predicate HeldAt(m: Machine, i: nat, t: nat) {
    0 < t < |m.tcb| && m.tcb[t].state == Blocked && forall j: nat, p: nat :: WaitsAt(m, j, p, t) ==> j == i
  }

  lemma StepHolds(m: Machine, step: Step, i: nat, t: nat)
    requires Good(m) && Enabled(m, step) && HeldAt(m, i, t) && step != SemPost(i)
    ensures HeldAt(Next(m, step).0, i, t)
  {
    hide NextThread;
    var r := Next(m, step).0;
    if step.SemPost? && IsLive(m, step.sem) && m.sems[step.sem].sem.waiting != [] {
      var w := m.sems[step.sem].sem.waiting;
      assert WaitsAt(m, step.sem, |w| - 1, w[|w| - 1]);
    }
    forall j: nat, p: nat | WaitsAt(r, j, p, t) ensures j == i {
      assert WaitsAt(m, j, p, t);
    }
  }

  lemma {:induction false} HeldWithoutPosts(m: Machine, steps: seq<Step>, i: nat, t: nat)
    requires Good(m) && Allowed(m, steps) && HeldAt(m, i, t) && NoPosts(steps, i)
    ensures Exec(m, steps).current != t
    decreases |steps|
  {
    if steps != [] {
      NextGood(m, steps[0]);
      StepHolds(m, steps[0], i, t);
      HeldWithoutPosts(Next(m, steps[0]).0, steps[1..], i, t);
    }
  }

  /** Ticks alone bring thread 0 back. */
  lemma {:induction false} TicksResumeMain(m: Machine, i: nat) returns (steps: seq<Step>)
    requires Good(m)
    ensures Allowed(m, steps) && NoPosts(steps, i) && Exec(m, steps).current == 0
    decreases if m.current == 0 then 0 else |m.tcb| - m.current
  {
    if m.current == 0 {
      steps := [];
    } else {
      NextGood(m, Tick);
      var rest := TicksResumeMain(Next(m, Tick).0, i);
      steps := [Tick] + rest;
      assert steps[1..] == rest;
    }
  }

  /** A wait that finds no unit can return without a later post at its semaphore if and only if
      it is thread 0 that waits. */
  lemma UnpostedWaitReturnsIffMain(m: Machine, i: nat)
    requires Good(m) && Enabled(m, SemWait(i)) && IsLive(m, i) && m.sems[i].sem.value <= 0
    ensures var n := Next(m, SemWait(i)).0;
            (exists steps :: Allowed(n, steps) && NoPosts(steps, i) && Exec(n, steps).current == m.current)
            <==> m.current == 0
  {
    var n, t := Next(m, SemWait(i)).0, m.current;
    NextGood(m, SemWait(i));
    if t == 0 {
      var steps := TicksResumeMain(n, i);
    } else {
      forall j: nat, p: nat | WaitsAt(n, j, p, t) ensures j == i {
        assert !WaitsAt(m, j, p, t);
      }
      forall steps | Allowed(n, steps) && NoPosts(steps, i) ensures Exec(n, steps).current != t {
        HeldWithoutPosts(n, steps, i, t);
      }
    }
  }
}
