/** The cache read/write lock (cache.c): a mutex-protected set of counters, two condition
    variables, and reader suspension. One step is one critical section of lock_mutex.
    A thread of yield_lock_cache_rw that has given up the lock is an idle thread whose next
    step is LockW. */
module CacheLock {

  datatype Phase =
    | Idle
    | RSleep   // in pthread_cond_wait(&r_cond)
    | RAwake   // woken from r_cond, about to test again
    | RHold
    | WSleep   // in pthread_cond_wait(&rw_cond)
    | WAwake
    | WHold

  datatype Lock = Lock(
    threads: seq<Phase>,
    w: bool,        // cache_w_lock
    r: int,         // cache_r_lock
    rPend: int,
    rwPend: int,
    rSusp: bool)

  datatype Step =
    | LockR(t: nat)
    | RetryR(t: nat)
    | UnlockR(t: nat, woken: nat)
    | LockW(t: nat)
    | RetryW(t: nat)
    | UnlockW(t: nat, woken: nat)
    | Spurious(t: nat)

  function SuspThresh(rPend: int): int { rPend / 2 + 2 }

  predicate WritersDue(s: Lock) { s.rwPend > SuspThresh(s.rPend) }

  predicate In(s: Lock, t: nat, p: Phase) { t < |s.threads| && s.threads[t] == p }

  function Set(s: Lock, t: nat, p: Phase): Lock
    requires t < |s.threads|
  {
    s.(threads := s.threads[t := p])
  }

  // ---- The critical sections

  /** The loop test of lock_cache_r for a thread already counted in r_pend. */
  function ReadTest(s: Lock, t: nat): Lock
    requires t < |s.threads|
  {
    var susp := WritersDue(s) || s.rSusp;
    if susp || s.w then Set(s, t, RSleep).(rSusp := susp)
    else Set(s, t, RHold).(rSusp := susp, r := s.r + 1, rPend := s.rPend - 1)
  }

  function WriteTest(s: Lock, t: nat): Lock
    requires t < |s.threads|
  {
    if s.w || s.r != 0 then Set(s, t, WSleep)
    else Set(s, t, WHold).(w := true, rwPend := s.rwPend - 1)
  }

  /** pthread_cond_signal(&rw_cond): thread u is woken if it sleeps there. */
  function SignalW(s: Lock, u: nat): Lock
  {
    if In(s, u, WSleep) then Set(s, u, WAwake) else s
  }

  function WakeReaders(ts: seq<Phase>): (ts': seq<Phase>)
    ensures |ts'| == |ts|
  {
    if ts == [] then [] else [if ts[0] == RSleep then RAwake else ts[0]] + WakeReaders(ts[1..])
  }

  /** The critical section that unlock_cache_rw and yield_lock_cache_rw share. */
  function ReleaseW(s: Lock, t: nat, woken: nat): Lock
    requires t < |s.threads|
  {
    var s1 := Set(s, t, Idle).(w := false, rSusp := false);
    if s1.rPend == 0 || WritersDue(s1) then SignalW(s1, woken)
    else s1.(threads := WakeReaders(s1.threads))
  }

  function ReleaseR(s: Lock, t: nat, woken: nat): Lock
    requires t < |s.threads|
  {
    var s1 := Set(s, t, Idle).(r := if s.r > 0 then s.r - 1 else s.r);
    if s1.r == 0 then SignalW(s1, woken) else s1
  }

  /** A signal wakes some sleeping writer if there is one. */
  predicate WakesWriter(s: Lock, u: nat)
  {
    In(s, u, WSleep) || forall v :: 0 <= v < |s.threads| ==> s.threads[v] != WSleep
  }

  predicate Enabled(s: Lock, a: Step)
  {
    match a
    case LockR(t) => In(s, t, Idle)
    case RetryR(t) => In(s, t, RAwake)
    case UnlockR(t, u) => In(s, t, RHold) && WakesWriter(s, u)
    case LockW(t) => In(s, t, Idle)
    case RetryW(t) => In(s, t, WAwake)
    case UnlockW(t, u) => In(s, t, WHold) && WakesWriter(s, u)
    case Spurious(t) => In(s, t, RSleep) || In(s, t, WSleep)
  }

  function Next(s: Lock, a: Step): (s': Lock)
    requires Enabled(s, a)
  {
    match a
    case LockR(t) => ReadTest(s.(rPend := s.rPend + 1), t)
    case RetryR(t) => ReadTest(s, t)
    case UnlockR(t, u) => ReleaseR(s, t, u)
    case LockW(t) => WriteTest(s.(rwPend := s.rwPend + 1), t)
    case RetryW(t) => WriteTest(s, t)
    case UnlockW(t, u) => ReleaseW(s, t, u)
    case Spurious(t) => Set(s, t, if s.threads[t] == RSleep then RAwake else WAwake)
  }

  // ---- Counting threads

  function Count(ts: seq<Phase>, p: Phase): (n: nat)
    ensures n <= |ts|
  {
    if ts == [] then 0 else (if ts[0] == p then 1 else 0) + Count(ts[1..], p)
  }

  lemma {:induction false} CountUpdate(ts: seq<Phase>, t: nat, q: Phase, p: Phase)
    requires t < |ts|
    ensures Count(ts[t := q], p)
         == Count(ts, p) - (if ts[t] == p then 1 else 0) + (if q == p then 1 else 0)
  {
    if t > 0 {
      CountUpdate(ts[1..], t - 1, q, p);
      assert ts[t := q][1..] == ts[1..][t - 1 := q];
    } else {
      assert ts[t := q][1..] == ts[1..];
    }
  }

  lemma {:induction false} CountWitness(ts: seq<Phase>, p: Phase) returns (t: nat)
    requires Count(ts, p) > 0
    ensures t < |ts| && ts[t] == p
  {
    if ts[0] == p { t := 0; } else { t := CountWitness(ts[1..], p); t := t + 1; }
  }

  lemma {:induction false} CountPositive(ts: seq<Phase>, t: nat)
    requires t < |ts|
    ensures Count(ts, ts[t]) > 0
  {
    if t > 0 { CountPositive(ts[1..], t - 1); }
  }

  lemma {:induction false} WakeReadersCounts(ts: seq<Phase>, p: Phase)
    ensures Count(WakeReaders(ts), p) ==
      if p == RSleep then 0
      else if p == RAwake then Count(ts, RSleep) + Count(ts, RAwake)
      else Count(ts, p)
  {
    if ts != [] {
      WakeReadersCounts(ts[1..], p);
      assert WakeReaders(ts)[1..] == WakeReaders(ts[1..]);
    }
  }

  // ---- The invariant

  /** The counters say how many threads are in each phase. */
  predicate Counted(s: Lock)
  {
    && s.r == Count(s.threads, RHold)
    && Count(s.threads, WHold) == (if s.w then 1 else 0)
    && s.rPend == Count(s.threads, RSleep) + Count(s.threads, RAwake)
    && s.rwPend == Count(s.threads, WSleep) + Count(s.threads, WAwake)
  }

  predicate Exclusive(s: Lock) { s.w ==> s.r == 0 }

  /** Suspended and sleeping readers are waiting for some writer. */
  predicate ReadersJustified(s: Lock)
  {
    s.rSusp || Count(s.threads, RSleep) > 0 ==> s.w || s.rwPend > 0
  }

  predicate Free(s: Lock) { !s.w && s.r == 0 }

  /** If the lock is free and somebody sleeps, an awake thread can take it. */
  predicate NoLostWakeup(s: Lock)
  {
    Free(s) && Count(s.threads, RSleep) + Count(s.threads, WSleep) > 0 ==>
      || Count(s.threads, WAwake) > 0
      || (Count(s.threads, RAwake) > 0 && !s.rSusp && !WritersDue(s))
  }

  predicate Inv(s: Lock)
  {
    Counted(s) && Exclusive(s) && ReadersJustified(s) && NoLostWakeup(s)
  }

  /** Counts of all phases after thread t moves to phase q. */
  lemma Moved(ts: seq<Phase>, t: nat, q: Phase)
    requires t < |ts|
    ensures forall p ::
      Count(ts[t := q], p) == Count(ts, p) - (if ts[t] == p then 1 else 0) + (if q == p then 1 else 0)
    ensures Count(ts, ts[t]) > 0
  {
    CountPositive(ts, t);
    forall p { CountUpdate(ts, t, q, p); }
  }

  /** After a signal there is an awake writer, unless no writer is pending. */
  lemma SignalCounts(s: Lock, u: nat)
    requires WakesWriter(s, u)
    ensures var s' := SignalW(s, u);
      && s' == s.(threads := s'.threads) && |s'.threads| == |s.threads|
      && (forall p :: p != WSleep && p != WAwake ==> Count(s'.threads, p) == Count(s.threads, p))
      && Count(s'.threads, WSleep) + Count(s'.threads, WAwake)
         == Count(s.threads, WSleep) + Count(s.threads, WAwake)
      && (Count(s'.threads, WAwake) > 0 || Count(s'.threads, WSleep) == 0)
  {
    if In(s, u, WSleep) {
      Moved(s.threads, u, WAwake);
    } else if Count(s.threads, WSleep) > 0 {
      var v := CountWitness(s.threads, WSleep);
    }
  }

  lemma LockRKeeps(s: Lock, t: nat)
    requires Inv(s) && Enabled(s, LockR(t))
    ensures Inv(Next(s, LockR(t)))
  {
    hide Count;
    Moved(s.threads, t, RSleep);
    Moved(s.threads, t, RHold);
  }

  lemma RetryRKeeps(s: Lock, t: nat)
    requires Inv(s) && Enabled(s, RetryR(t))
    ensures Inv(Next(s, RetryR(t)))
  {
    hide Count;
    Moved(s.threads, t, RSleep);
    Moved(s.threads, t, RHold);
  }

  lemma WriteKeeps(s: Lock, a: Step)
    requires Inv(s) && Enabled(s, a) && (a.LockW? || a.RetryW?)
    ensures Inv(Next(s, a))
  {
    hide Count;
    Moved(s.threads, a.t, WSleep);
    Moved(s.threads, a.t, WHold);
  }

  lemma SpuriousKeeps(s: Lock, t: nat)
    requires Inv(s) && Enabled(s, Spurious(t))
    ensures Inv(Next(s, Spurious(t)))
  {
    hide Count;
    Moved(s.threads, t, RAwake);
    Moved(s.threads, t, WAwake);
  }

  lemma UnlockRKeeps(s: Lock, t: nat, u: nat)
    requires Inv(s) && Enabled(s, UnlockR(t, u))
    ensures Inv(Next(s, UnlockR(t, u)))
  {
    hide Count;
    Moved(s.threads, t, Idle);
    var s1 := Set(s, t, Idle).(r := s.r - 1);
    assert WakesWriter(s1, u);
    SignalCounts(s1, u);
  }

  lemma UnlockWKeeps(s: Lock, t: nat, u: nat)
    requires Inv(s) && Enabled(s, UnlockW(t, u))
    ensures Inv(Next(s, UnlockW(t, u)))
  {
    hide Count;
    Moved(s.threads, t, Idle);
    var s1 := Set(s, t, Idle).(w := false, rSusp := false);
    assert WakesWriter(s1, u);
    SignalCounts(s1, u);
    forall p { WakeReadersCounts(s1.threads, p); }
  }

  /** Every critical section keeps the invariant. */
  lemma StepKeepsInv(s: Lock, a: Step)
    requires Inv(s) && Enabled(s, a)
    ensures Inv(Next(s, a))
  {
    hide Inv;
    match a
    case LockR(t) => LockRKeeps(s, t);
    case RetryR(t) => RetryRKeeps(s, t);
    case UnlockR(t, u) => UnlockRKeeps(s, t, u);
    case LockW(t) => WriteKeeps(s, a);
    case RetryW(t) => WriteKeeps(s, a);
    case UnlockW(t, u) => UnlockWKeeps(s, t, u);
    case Spurious(t) => SpuriousKeeps(s, t);
  }

  // ---- Runs

  /** Before any thread has called a lock function. */
  function Initial(n: nat): Lock
  {
    Lock(seq(n, i => Idle), false, 0, 0, 0, false)
  }

  /** `run` is a sequence of enabled steps from s to s'. */
  predicate Leads(s: Lock, run: seq<Step>, s': Lock)
    decreases |run|
  {
    if run == [] then s == s'
    else Enabled(s, run[0]) && Leads(Next(s, run[0]), run[1..], s')
  }

  lemma {:induction false} IdleCount(n: nat, p: Phase)
    requires p != Idle
    ensures Count(seq(n, i => Idle), p) == 0
  {
    var ts: seq<Phase> := seq(n, i => Idle);
    if Count(ts, p) > 0 { var t := CountWitness(ts, p); }
  }

  lemma InitialInv(n: nat)
    ensures Inv(Initial(n))
  {
    hide Count;
    forall p | p != Idle ensures Count(Initial(n).threads, p) == 0 { IdleCount(n, p); }
  }

  lemma {:induction false} RunKeepsInv(s: Lock, run: seq<Step>, s': Lock)
    requires Inv(s) && Leads(s, run, s')
    ensures Inv(s')
    decreases |run|
  {
    if run != [] {
      StepKeepsInv(s, run[0]);
      RunKeepsInv(Next(s, run[0]), run[1..], s');
    }
  }

  /** Safety over every interleaving: a writer excludes readers and other writers. */
  lemma WriterExcludesAll(n: nat, run: seq<Step>, s: Lock, t: nat, u: nat)
    requires Leads(Initial(n), run, s)
    requires In(s, t, WHold) && u < |s.threads| && u != t
    ensures s.threads[u] != WHold && s.threads[u] != RHold
  {
    InitialInv(n);
    RunKeepsInv(Initial(n), run, s);
    CountPositive(s.threads, t);
    CountPositive(s.threads, u);
    if s.threads[u] == WHold {
      CountUpdate(s.threads, t, Idle, WHold);
      CountPositive(s.threads[t := Idle], u);
    }
  }

  /** The step by which an awake thread tests the lock again. */
  function Retry(s: Lock, t: nat): (a: Step)
  {
    if In(s, t, WAwake) then RetryW(t) else RetryR(t)
  }

  predicate Acquires(s: Lock, t: nat)
  {
    var a := Retry(s, t);
    Enabled(s, a) && (In(Next(s, a), t, WHold) || In(Next(s, a), t, RHold))
  }

  /** No lost wake-up over every interleaving: if nobody holds the lock while some thread
      sleeps, an awakened thread exists whose next step acquires the lock. Suspended readers
      never get stuck. */
  lemma SomebodyCanProceed(n: nat, run: seq<Step>, s: Lock, sleeper: nat) returns (t: nat)
    requires Leads(Initial(n), run, s) && Free(s)
    requires In(s, sleeper, RSleep) || In(s, sleeper, WSleep)
    ensures Acquires(s, t)
  {
    InitialInv(n);
    RunKeepsInv(Initial(n), run, s);
    t := FreeProgress(s, sleeper);
  }

  lemma FreeProgress(s: Lock, sleeper: nat) returns (t: nat)
    requires Inv(s) && Free(s)
    requires In(s, sleeper, RSleep) || In(s, sleeper, WSleep)
    ensures Acquires(s, t)
  {
    CountPositive(s.threads, sleeper);
    if Count(s.threads, WAwake) > 0 {
      t := CountWitness(s.threads, WAwake);
    } else {
      t := CountWitness(s.threads, RAwake);
    }
  }

  /** r_susp is raised only while a writer is pending or active. */
  lemma SuspensionHasWriter(n: nat, run: seq<Step>, s: Lock)
    requires Leads(Initial(n), run, s) && s.rSusp
    ensures s.w || s.rwPend > 0
  {
    InitialInv(n);
    RunKeepsInv(Initial(n), run, s);
  }

  // ---- Draining: once no new request arrives, everybody is served

  predicate Draining(a: Step) { a.RetryR? || a.RetryW? || a.UnlockR? || a.UnlockW? }

  function Weight(p: Phase): nat { match p case Idle => 0 case RHold => 1 case WHold => 1 case _ => 2 }

  /** Acquisitions and releases still to come, twice per waiting thread and once per holder. */
  function Pending(ts: seq<Phase>): (n: nat)
    ensures n <= 2 * |ts|
  {
    if ts == [] then 0 else Weight(ts[0]) + Pending(ts[1..])
  }

  function Awake(ts: seq<Phase>): (n: nat) { Count(ts, RAwake) + Count(ts, WAwake) }

  lemma {:induction false} PendingUpdate(ts: seq<Phase>, t: nat, q: Phase)
    requires t < |ts|
    ensures Pending(ts[t := q]) == Pending(ts) - Weight(ts[t]) + Weight(q)
  {
    if t > 0 {
      PendingUpdate(ts[1..], t - 1, q);
      assert ts[t := q][1..] == ts[1..][t - 1 := q];
    } else {
      assert ts[t := q][1..] == ts[1..];
    }
  }

  lemma {:induction false} WakeReadersPending(ts: seq<Phase>)
    ensures Pending(WakeReaders(ts)) == Pending(ts)
  {
    if ts != [] {
      WakeReadersPending(ts[1..]);
      assert WakeReaders(ts)[1..] == WakeReaders(ts[1..]);
    }
  }

  lemma {:induction false} AwakeBound(ts: seq<Phase>)
    ensures Awake(ts) <= |ts|
  {
    if ts != [] { AwakeBound(ts[1..]); }
  }

  /** Steps that can still happen if no new request arrives. */
  function Work(s: Lock): (n: nat)
  {
    Pending(s.threads) * (|s.threads| + 1) + Awake(s.threads)
  }

  lemma SignalPending(s: Lock, u: nat)
    ensures Pending(SignalW(s, u).threads) == Pending(s.threads)
    ensures |SignalW(s, u).threads| == |s.threads|
  {
    if In(s, u, WSleep) { PendingUpdate(s.threads, u, WAwake); }
  }

  /** A draining step completes an acquisition or a release, or puts one thread back to sleep. */
  lemma DrainStep(s: Lock, a: Step)
    requires Enabled(s, a) && Draining(a)
    ensures |Next(s, a).threads| == |s.threads|
    ensures Pending(Next(s, a).threads) < Pending(s.threads)
         || (Pending(Next(s, a).threads) == Pending(s.threads) && Awake(Next(s, a).threads) < Awake(s.threads))
  {
    hide Count;
    hide Pending;
    match a {
      case RetryR(t) =>
        Moved(s.threads, t, RSleep);
        PendingUpdate(s.threads, t, RSleep);
        PendingUpdate(s.threads, t, RHold);
      case RetryW(t) =>
        Moved(s.threads, t, WSleep);
        PendingUpdate(s.threads, t, WSleep);
        PendingUpdate(s.threads, t, WHold);
      case UnlockR(t, u) =>
        PendingUpdate(s.threads, t, Idle);
        SignalPending(Set(s, t, Idle).(r := if s.r > 0 then s.r - 1 else s.r), u);
      case UnlockW(t, u) =>
        PendingUpdate(s.threads, t, Idle);
        var s1 := Set(s, t, Idle).(w := false, rSusp := false);
        SignalPending(s1, u);
        WakeReadersPending(s1.threads);
    }
  }

  lemma OneRoundLess(p': nat, p: nat, n: nat)
    requires p' < p
    ensures p' * (n + 1) + n < p * (n + 1)
  {
    assert (p - p' - 1) * (n + 1) >= 0;
  }

  lemma DrainStepWork(s: Lock, a: Step)
    requires Enabled(s, a) && Draining(a)
    ensures Work(Next(s, a)) < Work(s)
  {
    hide Count;
    hide Pending;
    hide Next;
    DrainStep(s, a);
    AwakeBound(s.threads);
    AwakeBound(Next(s, a).threads);
    var n, p, p' := |s.threads|, Pending(s.threads), Pending(Next(s, a).threads);
    if p' < p { OneRoundLess(p', p, n); }
  }

  /** A spurious wake-up makes for one more test. */
  lemma SpuriousWork(s: Lock, t: nat)
    requires Enabled(s, Spurious(t))
    ensures Work(Next(s, Spurious(t))) == Work(s) + 1
  {
    hide Count;
    hide Pending;
    var q := if s.threads[t] == RSleep then RAwake else WAwake;
    Moved(s.threads, t, q);
    PendingUpdate(s.threads, t, q);
  }

  function SpuriousSteps(run: seq<Step>): (n: nat)
    ensures n <= |run|
  {
    if run == [] then 0 else (if run[0].Spurious? then 1 else 0) + SpuriousSteps(run[1..])
  }

  /** Without new requests, the length of a run is bounded by the work at its start and the
      number of spurious wake-ups in it; where no step of a thread that holds or tests the lock
      is left, every thread has acquired and released it. */
  lemma {:induction false} DrainsCompletely(s: Lock, run: seq<Step>, s': Lock)
    requires Inv(s) && Leads(s, run, s') && forall i :: 0 <= i < |run| ==> Draining(run[i]) || run[i].Spurious?
    ensures |run| + Work(s') <= Work(s) + 2 * SpuriousSteps(run)
    ensures (forall a :: Draining(a) ==> !Enabled(s', a)) ==> forall t :: 0 <= t < |s'.threads| ==> s'.threads[t] == Idle
    decreases |run|
  {
    if run != [] {
      StepKeepsInv(s, run[0]);
      if run[0].Spurious? { SpuriousWork(s, run[0].t); } else { DrainStepWork(s, run[0]); }
      DrainsCompletely(Next(s, run[0]), run[1..], s');
    } else if forall a :: Draining(a) ==> !Enabled(s', a) {
      StuckMeansIdle(s);
    }
  }

  /** Some writer that a release would wake, or any number if none sleeps. */
  lemma SomeWoken(s: Lock) returns (u: nat)
    ensures WakesWriter(s, u)
  {
    if v :| 0 <= v < |s.threads| && s.threads[v] == WSleep { u := v; } else { u := 0; }
  }

  /** As long as some thread is not idle, the holder can release or an awake thread can test. */
  lemma SomethingEnabled(s: Lock, t: nat) returns (a: Step)
    requires Inv(s) && t < |s.threads| && s.threads[t] != Idle
    ensures Draining(a) && Enabled(s, a)
  {
    var u := SomeWoken(s);
    if s.r > 0 {
      var h := CountWitness(s.threads, RHold);
      a := UnlockR(h, u);
    } else if s.w {
      var h := CountWitness(s.threads, WHold);
      a := UnlockW(h, u);
    } else if In(s, t, RSleep) || In(s, t, WSleep) {
      var v := FreeProgress(s, t);
      a := Retry(s, v);
    } else {
      CountPositive(s.threads, t);
      a := Retry(s, t);
    }
  }

  lemma StuckMeansIdle(s: Lock)
    requires Inv(s) && forall a :: Draining(a) ==> !Enabled(s, a)
    ensures forall t :: 0 <= t < |s.threads| ==> s.threads[t] == Idle
  {
    forall t | 0 <= t < |s.threads| ensures s.threads[t] == Idle {
      if s.threads[t] != Idle { var a := SomethingEnabled(s, t); }
    }
  }
}
