/** The adaptive futex mutex: ls_futex_lock, ls_futex_trylock and ls_futex_unlock of
    include/lsr/ls_lock.h, as a step relation over any number of threads.

    Each compare-and-swap, each exchange, the load behind the unlock assertion, the kernel's
    test-and-sleep of FUTEX_WAIT and each FUTEX_WAKE is one atomic step of one thread. The steps of
    different threads interleave in every order.
  */
module FutexMutex {
  import opened Ranking

  const LOCK_AVAIL := 0
  const FUTEX_LOCKED1 := 1
  const FUTEX_LOCKED2 := 2  // locked with waiters
  const MAX_FUTEX_SPINCNT: nat := 10

  /** Where a thread stands: what its next atomic step will be. */
  datatype Pc =
    | Idle            // in no lock call and not owning the lock
    | Spin(i: nat)    // adaptive loop, about to try CAS number i
    | First           // about to do the CAS after the adaptive loop
    | Mark            // last CAS returned LOCKED1; about to CAS LOCKED1 -> LOCKED2
    | Wait            // about to enter ls_futex_wait
    | Asleep          // blocked in the kernel
    | Retry           // about to CAS LOCK_AVAIL -> LOCKED2
    | Held            // lock or trylock returned 0
    | Releasing       // passed the assertion of ls_futex_unlock, exchange still to come
    | Waking          // exchange returned LOCKED2, ls_futex_wake still to come
    | Aborted         // the assertion of ls_futex_unlock failed
  {
    /** Between a successful acquire and the release exchange. */
    predicate Owns() { Held? || Releasing? }

    /** Awake inside the slow loop. */
    predicate Alert() { Mark? || Wait? || Retry? }

    /** Inside a lock call that has not succeeded yet. */
    predicate Contends() { Spin? || First? || Asleep? || Alert() }
  }

  datatype State = State(word: int, threads: seq<Pc>)

  datatype Action =
    | Lock(t: nat)               // call ls_futex_lock
    | TryLock(t: nat)            // call ls_futex_trylock, a single CAS
    | Advance(t: nat)            // next step of a running lock call
    | Unlock(t: nat)             // call ls_futex_unlock: the asserted load
    | Exchange(t: nat)           // the exchange of ls_futex_unlock
    | WakeOne(t: nat, u: nat)    // ls_futex_wake by t makes sleeper u runnable
    | WakeNone(t: nat)           // ls_futex_wake by t finds nobody asleep
    | Interrupt(u: nat)          // ls_futex_wait of u returns without a wake
  {
    function Actor(): nat { if Interrupt? then u else t }
  }

  function Init(n: nat): State {
    State(LOCK_AVAIL, seq(n, _ => Idle))
  }

  predicate Enabled(s: State, a: Action) {
    match a
    case Lock(t) => t < |s.threads| && s.threads[t].Idle?
    case TryLock(t) => t < |s.threads| && s.threads[t].Idle?
    case Advance(t) => t < |s.threads| && s.threads[t].Contends() && !s.threads[t].Asleep?
    case Unlock(t) => t < |s.threads| && s.threads[t].Held?
    case Exchange(t) => t < |s.threads| && s.threads[t].Releasing?
    case WakeOne(t, u) => t < |s.threads| && u < |s.threads| && s.threads[t].Waking? && s.threads[u].Asleep?
    case WakeNone(t) => t < |s.threads| && s.threads[t].Waking? && !SomeAsleep(s)
    case Interrupt(u) => u < |s.threads| && s.threads[u].Asleep?
  }

  function At(s: State, t: nat, word: int, pc: Pc): State
    requires t < |s.threads|
  {
    State(word, s.threads[t := pc])
  }

  /** One step of thread t inside ls_futex_lock. */
  function LockStep(s: State, t: nat): State
    requires Enabled(s, Advance(t))
  {
    match s.threads[t]
    case Spin(i) =>
      if s.word == LOCK_AVAIL then At(s, t, FUTEX_LOCKED1, Held)
      else if s.word == FUTEX_LOCKED2 || i + 1 >= MAX_FUTEX_SPINCNT then At(s, t, s.word, First)
      else At(s, t, s.word, Spin(i + 1))
    case First =>
      if s.word == LOCK_AVAIL then At(s, t, FUTEX_LOCKED1, Held)
      else At(s, t, s.word, Blocked(s.word))
    case Mark =>
      if s.word == LOCK_AVAIL then At(s, t, s.word, Retry)
      else At(s, t, if s.word == FUTEX_LOCKED1 then FUTEX_LOCKED2 else s.word, Wait)
    case Wait =>
      At(s, t, s.word, if s.word == FUTEX_LOCKED2 then Asleep else Retry)
    case Retry =>
      if s.word == LOCK_AVAIL then At(s, t, FUTEX_LOCKED2, Held)
      else At(s, t, s.word, Blocked(s.word))
  }

  /** Where the slow loop goes when a CAS on LOCK_AVAIL returned val. */
  function Blocked(val: int): Pc {
    if val == FUTEX_LOCKED2 then Wait else Mark
  }

  function Do(s: State, a: Action): State
    requires Enabled(s, a)
  {
    match a
    case Lock(t) => At(s, t, s.word, Spin(0))
    case TryLock(t) => if s.word == LOCK_AVAIL then At(s, t, FUTEX_LOCKED1, Held) else s
    case Advance(t) => LockStep(s, t)
    case Unlock(t) => At(s, t, s.word, if s.word != LOCK_AVAIL then Releasing else Aborted)
    case Exchange(t) => At(s, t, LOCK_AVAIL, if s.word == FUTEX_LOCKED2 then Waking else Idle)
    case WakeOne(t, u) => At(At(s, u, s.word, Retry), t, s.word, Idle)
    case WakeNone(t) => At(s, t, s.word, Idle)
    case Interrupt(u) => At(s, u, s.word, Retry)
  }

  /** A finite run: every interleaving is some sequence of actions. */
  ghost predicate Legal(s: State, run: seq<Action>)
    decreases |run|
  {
    run == [] || (Enabled(s, run[0]) && Legal(Do(s, run[0]), run[1..]))
  }

  ghost function Exec(s: State, run: seq<Action>): State
    requires Legal(s, run)
    decreases |run|
  {
    if run == [] then s else Exec(Do(s, run[0]), run[1..])
  }

  // ---------------------------------------------------------------- what every reachable state satisfies

  predicate SomeAsleep(s: State) { exists t :: 0 <= t < |s.threads| && s.threads[t].Asleep? }
  predicate SomeAlert(s: State) { exists t :: 0 <= t < |s.threads| && s.threads[t].Alert() }
  predicate SomeWaking(s: State) { exists t :: 0 <= t < |s.threads| && s.threads[t].Waking? }
  predicate SomeOwner(s: State) { exists t :: 0 <= t < |s.threads| && s.threads[t].Owns() }

  /** At most one owner, and the word is nonzero exactly while there is one. */
  ghost predicate Exclusive(s: State) {
    && (forall t, u :: 0 <= t < |s.threads| && 0 <= u < |s.threads| && s.threads[t].Owns() && s.threads[u].Owns()
          ==> t == u)
    && (s.word != LOCK_AVAIL <==> SomeOwner(s))
  }

  /** Whenever a thread sleeps, something that will wake it is on its way. */
  ghost predicate NoLostWake(s: State) {
    SomeAsleep(s) ==> s.word == FUTEX_LOCKED2 || SomeWaking(s) || SomeAlert(s)
  }

  ghost predicate WellFormed(s: State) {
    && LOCK_AVAIL <= s.word <= FUTEX_LOCKED2
    && forall t :: 0 <= t < |s.threads| ==>
         !s.threads[t].Aborted? && (s.threads[t].Spin? ==> s.threads[t].i < MAX_FUTEX_SPINCNT)
  }

  ghost predicate Inv(s: State) {
    WellFormed(s) && Exclusive(s) && NoLostWake(s)
  }

  lemma InitInv(n: nat)
    ensures Inv(Init(n))
  {
  }

  lemma StepWellFormed(s: State, a: Action)
    requires Inv(s) && Enabled(s, a)
    ensures WellFormed(Do(s, a))
  {
    if a.Unlock? {
      assert SomeOwner(s);
    }
  }

  /** What a step does to the lock: it acquires the free lock, or releases the actor's own, or changes neither the
      ownership nor whether the word is zero. */
  lemma LockEffect(s: State, a: Action)
    requires Inv(s) && Enabled(s, a)
    ensures var s', t := Do(s, a), a.Actor();
            && t < |s.threads| == |s'.threads|
            && (forall u :: 0 <= u < |s.threads| && u != t ==> s'.threads[u].Owns() == s.threads[u].Owns())
            && (|| (s.threads[t].Owns() == s'.threads[t].Owns() && (s.word == LOCK_AVAIL <==> s'.word == LOCK_AVAIL))
                || (s'.threads[t].Owns() && s.word == LOCK_AVAIL != s'.word)
                || (s.threads[t].Owns() && !s'.threads[t].Owns() && s'.word == LOCK_AVAIL))
  {
  }

  lemma StepExclusive(s: State, a: Action)
    requires Inv(s) && Enabled(s, a)
    ensures WellFormed(Do(s, a)) && Exclusive(Do(s, a))
  {
    StepWellFormed(s, a);
    LockEffect(s, a);
    ExclusiveFrame(s, Do(s, a), a.Actor());
  }

  lemma ExclusiveFrame(s: State, s': State, t: nat)
    requires Exclusive(s) && t < |s.threads| == |s'.threads|
    requires forall u :: 0 <= u < |s.threads| && u != t ==> s'.threads[u].Owns() == s.threads[u].Owns()
    requires || (s.threads[t].Owns() == s'.threads[t].Owns() && (s.word == LOCK_AVAIL <==> s'.word == LOCK_AVAIL))
             || (s'.threads[t].Owns() && s.word == LOCK_AVAIL != s'.word)
             || (s.threads[t].Owns() && !s'.threads[t].Owns() && s'.word == LOCK_AVAIL)
    ensures Exclusive(s')
  {
    assert forall o :: 0 <= o < |s.threads| && o != t && s'.threads[o].Owns() ==> s.threads[o].Owns();
    if s'.word != LOCK_AVAIL && !s'.threads[t].Owns() {
      var o :| 0 <= o < |s.threads| && s.threads[o].Owns();
      assert s'.threads[o].Owns();
    }
  }

  lemma StepNoLostWake(s: State, a: Action)
    requires Inv(s) && Enabled(s, a)
    ensures NoLostWake(Do(s, a))
  {
    var s' := Do(s, a);
    if SomeAsleep(s') {
      var t := a.Actor();
      assert s'.threads[t] == s'.threads[t];
      if s'.word == FUTEX_LOCKED2 || s'.threads[t].Waking? || s'.threads[t].Alert() {
      } else if a.WakeOne? {
        assert s'.threads[a.u].Alert();
      } else {
        var z :| 0 <= z < |s'.threads| && s'.threads[z].Asleep?;
        assert s.threads[z].Asleep?;
        if SomeWaking(s) {
          var w :| 0 <= w < |s.threads| && s.threads[w].Waking?;
          assert s'.threads[w].Waking?;
        } else {
          var w :| 0 <= w < |s.threads| && s.threads[w].Alert();
          assert s'.threads[w].Alert();
        }
      }
    }
  }

  /** Safety over whole runs: however lock, trylock and unlock calls of n threads interleave, the lock has at most
      one owner, the word is nonzero exactly while it has one, no sleeper is forgotten and the assertion of
      ls_futex_unlock has not failed. */
  lemma {:induction false} RunsAreSafe(s: State, run: seq<Action>)
    requires Inv(s) && Legal(s, run)
    ensures Inv(Exec(s, run))
    decreases |run|
  {
    if run == [] {
    } else {
      StepExclusive(s, run[0]);
      StepNoLostWake(s, run[0]);
      RunsAreSafe(Do(s, run[0]), run[1..]);
    }
  }

  lemma ReachableIsSafe(n: nat, run: seq<Action>)
    requires Legal(Init(n), run)
    ensures Inv(Exec(Init(n), run))
  {
    InitInv(n);
    RunsAreSafe(Init(n), run);
  }

  // ---------------------------------------------------------------- every call completes

  /** The steps a thread takes without starting a new call and without an interrupted wait. */
  predicate Drains(a: Action) {
    !a.Lock? && !a.TryLock? && !a.Interrupt?
  }

  /** No thread can move: every call in progress is stuck, or there is none. */
  ghost predicate Quiescent(s: State) {
    forall a :: Drains(a) ==> !Enabled(s, a)
  }

  ghost predicate AllIdle(s: State) {
    s.word == LOCK_AVAIL && forall t :: 0 <= t < |s.threads| ==> s.threads[t].Idle?
  }

  /** Deadlock freedom: the only safe state in which no thread can move is the one in which every call has
      returned and the lock is free. In particular nobody sleeps on a free lock. */
  lemma StuckOnlyWhenDone(s: State)
    requires Inv(s) && Quiescent(s)
    ensures AllIdle(s)
  {
    forall t | 0 <= t < |s.threads|
      ensures s.threads[t].Idle? || s.threads[t].Asleep?
    {
      assert !Enabled(s, Advance(t)) && !Enabled(s, Unlock(t)) && !Enabled(s, Exchange(t)) && !Enabled(s, WakeNone(t));
      if s.threads[t].Waking? {
        var z :| 0 <= z < |s.threads| && s.threads[z].Asleep?;
        assert Enabled(s, WakeOne(t, z));
      }
    }
    assert !SomeOwner(s) && !SomeWaking(s) && !SomeAlert(s);
  }

  function ActiveWeight(pc: Pc): nat { if pc.Contends() || pc.Owns() then 1 else 0 }
  function WakingWeight(pc: Pc): nat { if pc.Waking? then 1 else 0 }
  function WaitingWeight(pc: Pc): nat { if pc.Contends() then 1 else 0 }

  /** How many more steps a thread can take while the word keeps its value: to the lock when it is free, to sleep
      otherwise. */
  function LocalWeight(word: int, pc: Pc): nat {
    if word == LOCK_AVAIL then
      match pc
      case Mark => 2
      case Wait => 2
      case Asleep => 2
      case _ => if pc.Contends() then 1 else 0
    else
      match pc
      case Spin(i) => if i < MAX_FUTEX_SPINCNT then 20 - i else 10
      case First => 6
      case Mark => if word == FUTEX_LOCKED1 then 3 else 5
      case Retry => 4
      case Wait => if word == FUTEX_LOCKED2 then 2 else 5
      case Asleep => 1
      case Held => 1
      case _ => 0
  }

  ghost function RankOf(s: State): Rank {
    Rank(Sum(ActiveWeight, s.threads), Sum(WakingWeight, s.threads), Sum(WaitingWeight, s.threads),
         if s.word == FUTEX_LOCKED1 then 1 else 0,
         Sum(pc => LocalWeight(s.word, pc), s.threads))
  }

  lemma RankUpdate(s: State, t: nat, word: int, pc: Pc)
    requires t < |s.threads|
    ensures var r, r' := RankOf(s), RankOf(At(s, t, word, pc));
            var was := s.threads[t];
            && r'.active + ActiveWeight(was) == r.active + ActiveWeight(pc)
            && r'.waking + WakingWeight(was) == r.waking + WakingWeight(pc)
            && r'.waiting + WaitingWeight(was) == r.waiting + WaitingWeight(pc)
            && (word == s.word ==> r'.local + LocalWeight(word, was) == r.local + LocalWeight(word, pc))
  {
    SumUpdate(ActiveWeight, s.threads, t, pc);
    SumUpdate(WakingWeight, s.threads, t, pc);
    SumUpdate(WaitingWeight, s.threads, t, pc);
    SumUpdate(pc => LocalWeight(s.word, pc), s.threads, t, pc);
  }

  lemma LockStepDescends(s: State, t: nat)
    requires Inv(s) && Enabled(s, Advance(t))
    ensures RankOf(LockStep(s, t)).Below(RankOf(s))
  {
    var s' := LockStep(s, t);
    RankUpdate(s, t, s'.word, s'.threads[t]);
    assert s' == At(s, t, s'.word, s'.threads[t]);
  }

  lemma DrainDescends(s: State, a: Action)
    requires Inv(s) && Drains(a) && Enabled(s, a)
    ensures RankOf(Do(s, a)).Below(RankOf(s))
  {
    if a.WakeOne? {
      RankUpdate(s, a.u, s.word, Retry);
      RankUpdate(At(s, a.u, s.word, Retry), a.t, s.word, Idle);
    } else if a.Advance? {
      LockStepDescends(s, a.t);
    } else if a.WakeNone? {
      RankUpdate(s, a.t, s.word, Idle);
    } else {
      UnlockDescends(s, a);
    }
  }

  lemma UnlockDescends(s: State, a: Action)
    requires Inv(s) && (a.Unlock? || a.Exchange?) && Enabled(s, a)
    ensures RankOf(Do(s, a)).Below(RankOf(s))
  {
    RankUpdate(s, a.t, Do(s, a).word, Do(s, a).threads[a.t]);
  }

  ghost predicate DrainStep(s: State, s': State) {
    (exists a :: Drains(a) && Enabled(s, a) && s' == Do(s, a)) || (Quiescent(s) && s' == s)
  }

  /** A run in which no thread starts a new call and no wait is interrupted; it stops only when nobody can move. */
  ghost predicate DrainingRun(run: nat -> State) {
    forall i: nat :: DrainsAt(run, i)
  }

  ghost predicate DrainsAt(run: nat -> State, i: nat) { DrainStep(run(i), run(i + 1)) }

  /** Some next state of such a run. */
  ghost function SomeNext(s: State): (s': State)
    ensures DrainStep(s, s')
  {
    if Quiescent(s) then s else var a :| Drains(a) && Enabled(s, a); Do(s, a)
  }

  ghost function Drained(s: State, i: nat): State {
    if i == 0 then s else SomeNext(Drained(s, i - 1))
  }

  /** Such runs exist from every state. */
  lemma DrainingRunExists(s: State) returns (run: nat -> State)
    ensures DrainingRun(run) && run(0) == s
  {
    run := (i: nat) => Drained(s, i);
    forall i: nat
      ensures DrainsAt(run, i)
    {
      assert run(i + 1) == SomeNext(run(i));
    }
  }

  /** Liveness under every scheduler, fair or not: once callers stop arriving, every lock call in progress is granted
      and released, every sleeper is woken, and the lock ends up free. */
  lemma {:induction false} DrainCompletes(run: nat -> State, i: nat)
    requires DrainingRun(run) && Inv(run(i))
    ensures exists j: nat :: i <= j && AllIdle(run(j))
    decreases RankOf(run(i)).active, RankOf(run(i)).waking, RankOf(run(i)).waiting,
              RankOf(run(i)).unmarked, RankOf(run(i)).local
  {
    assert DrainsAt(run, i);
    if Quiescent(run(i)) {
      StuckOnlyWhenDone(run(i));
    } else {
      var a :| Drains(a) && Enabled(run(i), a) && run(i + 1) == Do(run(i), a);
      StepExclusive(run(i), a);
      StepNoLostWake(run(i), a);
      DrainDescends(run(i), a);
      DrainCompletes(run, i + 1);
    }
  }

  // ---------------------------------------------------------------- interrupted waits

  /** The steps that start no new call; a wait may be interrupted at any moment. */
  predicate Goes(a: Action) {
    !a.Lock? && !a.TryLock?
  }

  ghost predicate GoStep(s: State, s': State) {
    (exists a :: Goes(a) && Enabled(s, a) && s' == Do(s, a)) || ((forall a :: Goes(a) ==> !Enabled(s, a)) && s' == s)
  }

  /** A run without new calls in which waits may be interrupted, early and as often as they like; it stops only when
      nothing can happen. */
  ghost predicate OngoingRun(run: nat -> State) {
    forall i: nat :: GoesAt(run, i)
  }

  ghost predicate GoesAt(run: nat -> State, i: nat) { GoStep(run(i), run(i + 1)) }

  ghost predicate OwnsAt(s: State, t: nat) { t < |s.threads| && s.threads[t].Owns() }

  /** Nobody keeps the lock for ever. */
  ghost predicate HoldsEnd(run: nat -> State) {
    forall i: nat, t: nat :: OwnsAt(run(i), t) ==> HoldEnds(run, i, t)
  }

  ghost predicate HoldEnds(run: nat -> State, i: nat, t: nat) { exists j: nat :: i < j && !OwnsAt(run(j), t) }

  /** The runs of DrainCompletes are such runs. */
  lemma DrainingIsOngoing(run: nat -> State)
    requires DrainingRun(run) && Inv(run(0))
    ensures OngoingRun(run) && HoldsEnd(run)
  {
    forall i: nat
      ensures GoesAt(run, i)
    {
      DrainingStaysSafe(run, i);
      assert DrainsAt(run, i);
      if Quiescent(run(i)) {
        StuckOnlyWhenDone(run(i));
      } else {
        var a :| Drains(a) && Enabled(run(i), a) && run(i + 1) == Do(run(i), a);
        assert Goes(a);
      }
    }
    forall i: nat, t: nat | OwnsAt(run(i), t)
      ensures HoldEnds(run, i, t)
    {
      DrainingStaysSafe(run, i);
      DrainCompletes(run, i);
      var j: nat :| i <= j && AllIdle(run(j));
      assert !OwnsAt(run(j), t);
    }
  }

  lemma {:induction false} DrainingStaysSafe(run: nat -> State, i: nat)
    requires DrainingRun(run) && Inv(run(0))
    ensures Inv(run(i))
  {
    if i == 0 {
    } else {
      DrainingStaysSafe(run, i - 1);
      assert DrainsAt(run, i - 1);
      var s, s' := run(i - 1), run(i);
      if a :| Drains(a) && Enabled(s, a) && s' == Do(s, a) {
        StepExclusive(s, a);
        StepNoLostWake(s, a);
      }
    }
  }

  /** While the lock is free every step, an interrupted wait too, lowers the rank. */
  lemma FreeDescends(s: State, a: Action)
    requires Inv(s) && Goes(a) && Enabled(s, a) && s.word == LOCK_AVAIL
    ensures RankOf(Do(s, a)).Below(RankOf(s))
  {
    if a.Interrupt? {
      RankUpdate(s, a.u, s.word, Retry);
    } else {
      DrainDescends(s, a);
    }
  }

  /** No step raises the first three parts of the rank, and the release of the lock lowers them. */
  lemma NeverRises(s: State, a: Action)
    requires Inv(s) && Goes(a) && Enabled(s, a)
    ensures RankOf(Do(s, a)).NotAbove(RankOf(s))
    ensures a.Exchange? ==> RankOf(Do(s, a)).WellBelow(RankOf(s))
  {
    if a.Advance? {
      LockStepNeverRises(s, a.t);
    } else if a.WakeOne? {
      RankUpdate(s, a.u, s.word, Retry);
      RankUpdate(At(s, a.u, s.word, Retry), a.t, s.word, Idle);
    } else {
      RankUpdate(s, a.Actor(), Do(s, a).word, Do(s, a).threads[a.Actor()]);
    }
  }

  lemma LockStepNeverRises(s: State, t: nat)
    requires Enabled(s, Advance(t))
    ensures RankOf(LockStep(s, t)).NotAbove(RankOf(s))
  {
    var s' := LockStep(s, t);
    assert s' == At(s, t, s'.word, s'.threads[t]);
    RankUpdate(s, t, s'.word, s'.threads[t]);
    assert s'.threads[t].Contends() || s'.threads[t].Held?;
  }

  /** Only the exchange ends a hold. */
  lemma KeepsOwning(s: State, a: Action, t: nat)
    requires Goes(a) && Enabled(s, a) && !a.Exchange? && Inv(s)
    ensures OwnsAt(s, t) ==> OwnsAt(Do(s, a), t)
  {
  }

  /** As long as thread t keeps the lock the first three parts do not rise; once it gives it up they have fallen. */
  lemma {:induction false} HoldDescends(run: nat -> State, i: nat, j: nat, t: nat)
    requires OngoingRun(run) && Inv(run(i)) && i <= j && OwnsAt(run(i), t)
    ensures Inv(run(j)) && RankOf(run(j)).NotAbove(RankOf(run(i)))
    ensures OwnsAt(run(j), t) || RankOf(run(j)).WellBelow(RankOf(run(i)))
    decreases j
  {
    if i == j {
    } else {
      HoldDescends(run, i, j - 1, t);
      assert GoesAt(run, j - 1);
      GoKeeps(run(j - 1), run(j), t);
    }
  }

  lemma GoKeeps(s: State, s': State, t: nat)
    requires Inv(s) && GoStep(s, s')
    ensures Inv(s') && RankOf(s').NotAbove(RankOf(s))
    ensures OwnsAt(s, t) ==> OwnsAt(s', t) || RankOf(s').WellBelow(RankOf(s))
  {
    if a :| Goes(a) && Enabled(s, a) && s' == Do(s, a) {
      StepExclusive(s, a);
      StepNoLostWake(s, a);
      NeverRises(s, a);
      if !a.Exchange? {
        KeepsOwning(s, a, t);
      }
    }
  }

  lemma FreeStep(s: State, s': State)
    requires Inv(s) && s.word == LOCK_AVAIL && GoStep(s, s') && exists a :: Goes(a) && Enabled(s, a)
    ensures Inv(s') && RankOf(s').Below(RankOf(s))
  {
    var a :| Goes(a) && Enabled(s, a) && s' == Do(s, a);
    StepExclusive(s, a);
    StepNoLostWake(s, a);
    FreeDescends(s, a);
  }

  /** Liveness with interrupted waits: if no new calls arrive and nobody keeps the lock for ever, every call in progress
      is granted and released and the lock ends up free. */
  lemma {:induction false} InterruptedDrainCompletes(run: nat -> State, i: nat)
    requires OngoingRun(run) && HoldsEnd(run) && Inv(run(i))
    ensures exists j: nat :: i <= j && AllIdle(run(j))
    decreases RankOf(run(i)).active, RankOf(run(i)).waking, RankOf(run(i)).waiting,
              RankOf(run(i)).unmarked, RankOf(run(i)).local
  {
    assert GoesAt(run, i);
    var s := run(i);
    if forall a :: Goes(a) ==> !Enabled(s, a) {
      StuckOnlyWhenDone(s);
    } else if s.word == LOCK_AVAIL {
      FreeStep(s, run(i + 1));
      InterruptedDrainCompletes(run, i + 1);
    } else {
      var t :| 0 <= t < |s.threads| && s.threads[t].Owns();
      assert HoldEnds(run, i, t);
      var j: nat :| i < j && !OwnsAt(run(j), t);
      HoldDescends(run, i, j, t);
      InterruptedDrainCompletes(run, j);
    }
  }

  // ---------------------------------------------------------------- calls arriving all the time

  /** Any step that changes something: a failed trylock, which does not, is no step here. */
  ghost predicate Moves(s: State, s': State) {
    s' != s && exists a :: Enabled(s, a) && s' == Do(s, a)
  }

  /** A run in which anything may happen, new calls and interrupted waits included; it stops only when nothing can
      change. */
  ghost predicate BusyRun(run: nat -> State) {
    forall i: nat :: BusyAt(run, i)
  }

  ghost predicate BusyAt(run: nat -> State, i: nat) { BusyStep(run(i), run(i + 1)) }

  ghost predicate BusyStep(s: State, s': State) {
    Moves(s, s') || ((forall a :: Enabled(s, a) ==> Do(s, a) == s) && s' == s)
  }

  ghost predicate ContendsAt(s: State, c: nat) { c < |s.threads| && s.threads[c].Contends() }

  /** Step k gives some thread the lock. */
  ghost predicate AcquiresAt(run: nat -> State, k: nat) {
    exists t: nat :: !OwnsAt(run(k), t) && OwnsAt(run(k + 1), t)
  }

  function IdleWeight(pc: Pc): nat { if pc.Idle? then 1 else 0 }

  /** While the lock is free: wakes owed, threads in no call, steps to the lock. */
  ghost function FreeRank(s: State): Rank {
    Rank(0, Sum(WakingWeight, s.threads), Sum(IdleWeight, s.threads), 0,
         Sum(pc => LocalWeight(LOCK_AVAIL, pc), s.threads))
  }

  lemma FreeRankUpdate(s: State, t: nat, pc: Pc)
    requires t < |s.threads|
    ensures var r, r' := FreeRank(s), FreeRank(At(s, t, s.word, pc));
            var was := s.threads[t];
            && r'.waking + WakingWeight(was) == r.waking + WakingWeight(pc)
            && r'.waiting + IdleWeight(was) == r.waiting + IdleWeight(pc)
            && r'.local + LocalWeight(LOCK_AVAIL, was) == r.local + LocalWeight(LOCK_AVAIL, pc)
  {
    SumUpdate(WakingWeight, s.threads, t, pc);
    SumUpdate(IdleWeight, s.threads, t, pc);
    SumUpdate(pc => LocalWeight(LOCK_AVAIL, pc), s.threads, t, pc);
  }

  /** A step that leaves the lock free brings some acquire nearer, new calls included, and lets no contender go. */
  lemma FreeStepDescends(s: State, a: Action, c: nat)
    requires Inv(s) && Enabled(s, a) && s.word == LOCK_AVAIL == Do(s, a).word && ContendsAt(s, c)
    ensures FreeRank(Do(s, a)).Below(FreeRank(s)) && ContendsAt(Do(s, a), c)
  {
    FreeContenderStays(s, a, c);
    if a.WakeOne? {
      FreeRankUpdate(s, a.u, Retry);
      FreeRankUpdate(At(s, a.u, s.word, Retry), a.t, Idle);
    } else {
      FreeRankUpdate(s, a.Actor(), Do(s, a).threads[a.Actor()]);
    }
  }

  lemma FreeContenderStays(s: State, a: Action, c: nat)
    requires Enabled(s, a) && s.word == LOCK_AVAIL == Do(s, a).word && ContendsAt(s, c)
    ensures ContendsAt(Do(s, a), c)
  {
  }

  /** A contender for a free lock can always move. */
  lemma FreeContenderMoves(s: State, c: nat)
    requires s.word == LOCK_AVAIL && ContendsAt(s, c)
    ensures exists a :: Enabled(s, a) && Do(s, a) != s
  {
    var a := if s.threads[c].Asleep? then Interrupt(c) else Advance(c);
    assert Enabled(s, a) && Do(s, a).threads[c] != s.threads[c];
  }

  lemma {:induction false} FreeLockIsTaken(run: nat -> State, i: nat, c: nat)
    requires BusyRun(run) && Inv(run(i)) && run(i).word == LOCK_AVAIL && ContendsAt(run(i), c)
    ensures exists k: nat :: i <= k && AcquiresAt(run, k)
    decreases FreeRank(run(i)).waking, FreeRank(run(i)).waiting, FreeRank(run(i)).local
  {
    var s, s' := run(i), run(i + 1);
    assert BusyAt(run, i);
    FreeContenderMoves(s, c);
    var a :| Enabled(s, a) && s' == Do(s, a);
    StepExclusive(s, a);
    StepNoLostWake(s, a);
    if s'.word == LOCK_AVAIL {
      FreeStepDescends(s, a, c);
      FreeLockIsTaken(run, i + 1, c);
    } else {
      var t :| 0 <= t < |s'.threads| && s'.threads[t].Owns();
      assert !OwnsAt(s, t) && OwnsAt(s', t);
      assert AcquiresAt(run, i);
    }
  }

  /** While thread t owns the lock nobody else gets it, contenders stay, and giving it up leaves it free. */
  lemma HeldStep(s: State, s': State, t: nat, c: nat)
    requires Inv(s) && BusyStep(s, s') && OwnsAt(s, t) && ContendsAt(s, c)
    ensures Inv(s') && ContendsAt(s', c) && (OwnsAt(s', t) || s'.word == LOCK_AVAIL)
  {
    if a :| Enabled(s, a) && s' == Do(s, a) {
      StepExclusive(s, a);
      StepNoLostWake(s, a);
      HoldStays(s, a, t);
      ContenderStays(s, a, c);
    }
  }

  lemma HoldStays(s: State, a: Action, t: nat)
    requires Inv(s) && Enabled(s, a) && OwnsAt(s, t)
    ensures OwnsAt(Do(s, a), t) || Do(s, a).word == LOCK_AVAIL
  {
  }

  lemma ContenderStays(s: State, a: Action, c: nat)
    requires Enabled(s, a) && s.word != LOCK_AVAIL && ContendsAt(s, c)
    ensures ContendsAt(Do(s, a), c)
  {
  }

  lemma {:induction false} HeldLockIsFreed(run: nat -> State, i: nat, j: nat, t: nat, c: nat) returns (m: nat)
    requires BusyRun(run) && Inv(run(i)) && i <= j && OwnsAt(run(i), t) && !OwnsAt(run(j), t) && ContendsAt(run(i), c)
    ensures i < m && Inv(run(m)) && run(m).word == LOCK_AVAIL && ContendsAt(run(m), c)
    decreases j - i
  {
    assert BusyAt(run, i);
    HeldStep(run(i), run(i + 1), t, c);
    if OwnsAt(run(i + 1), t) {
      m := HeldLockIsFreed(run, i + 1, j, t, c);
    } else {
      m := i + 1;
    }
  }

  /** Progress under load: with lock and trylock calls arriving all the time and waits interrupted at will, as long as
      nobody keeps the lock for ever, whenever a thread contends some thread acquires the lock later. */
  lemma SomeoneAcquires(run: nat -> State, i: nat, c: nat)
    requires BusyRun(run) && HoldsEnd(run) && Inv(run(i)) && ContendsAt(run(i), c)
    ensures exists k: nat :: i <= k && AcquiresAt(run, k)
  {
    if run(i).word == LOCK_AVAIL {
      FreeLockIsTaken(run, i, c);
    } else {
      var t :| 0 <= t < |run(i).threads| && run(i).threads[t].Owns();
      assert OwnsAt(run(i), t) && HoldEnds(run, i, t);
      var j: nat :| i < j && !OwnsAt(run(j), t);
      var m := HeldLockIsFreed(run, i, j, t, c);
      FreeLockIsTaken(run, m, c);
    }
  }

  /** The next state of a run in which an owner moves before all others. */
  ghost function OwnerFirst(s: State): (s': State)
    ensures BusyStep(s, s')
  {
    if t: nat :| OwnsAt(s, t) then
      var a := if s.threads[t].Held? then Unlock(t) else Exchange(t);
      assert Enabled(s, a) && Do(s, a).threads[t] != s.threads[t];
      Do(s, a)
    else if a :| Enabled(s, a) && Do(s, a) != s then Do(s, a)
    else s
  }

  ghost function OwnersFirst(s: State, i: nat): State {
    if i == 0 then s else OwnerFirst(OwnersFirst(s, i - 1))
  }

  lemma OwnerFirstMoves(s: State)
    requires Inv(s)
    ensures Inv(OwnerFirst(s))
    ensures forall t: nat :: OwnsAt(s, t) && OwnsAt(OwnerFirst(s), t) ==>
              s.threads[t].Held? && OwnerFirst(s).threads[t].Releasing?
  {
    var s' := OwnerFirst(s);
    if a :| Enabled(s, a) && s' == Do(s, a) {
      StepExclusive(s, a);
      StepNoLostWake(s, a);
    }
  }

  lemma TwoStepsOwned(s: State, t: nat)
    requires Inv(s) && OwnsAt(s, t)
    ensures !OwnsAt(OwnerFirst(s), t) || !OwnsAt(OwnerFirst(OwnerFirst(s)), t)
  {
    OwnerFirstMoves(s);
    OwnerFirstMoves(OwnerFirst(s));
  }

  lemma {:induction false} OwnersFirstIsSafe(s: State, i: nat)
    requires Inv(s)
    ensures Inv(OwnersFirst(s, i))
  {
    if i == 0 {
    } else {
      OwnersFirstIsSafe(s, i - 1);
      OwnerFirstMoves(OwnersFirst(s, i - 1));
    }
  }

  /** Runs as SomeoneAcquires has them exist from every safe state. */
  lemma BusyRunExists(s: State) returns (run: nat -> State)
    requires Inv(s)
    ensures BusyRun(run) && HoldsEnd(run) && run(0) == s
  {
    run := (i: nat) => OwnersFirst(s, i);
    forall i: nat
      ensures BusyAt(run, i)
    {
      assert run(i + 1) == OwnerFirst(run(i));
    }
    forall i: nat, t: nat | OwnsAt(run(i), t)
      ensures HoldEnds(run, i, t)
    {
      OwnersFirstIsSafe(s, i);
      TwoStepsOwned(OwnersFirst(s, i), t);
      assert OwnersFirst(s, i + 1) == OwnerFirst(OwnersFirst(s, i));
      assert OwnersFirst(s, i + 2) == OwnerFirst(OwnersFirst(s, i + 1));
      assert !OwnsAt(run(i + 1), t) || !OwnsAt(run(i + 2), t);
    }
  }

  // ---------------------------------------------------------------- what a call leads to

  /** The state after the first k steps of a run. */
  ghost function StateAt(s: State, run: seq<Action>, k: nat): State
    requires Legal(s, run) && k <= |run|
    decreases k
  {
    if k == 0 then s else StateAt(Do(s, run[0]), run[1..], k - 1)
  }

  /** Every thread but one stays as it is. */
  ghost predicate OthersStay(s: State, s': State, t: nat) {
    |s'.threads| == |s.threads| && forall u: nat :: u < |s.threads| && u != t ==> s'.threads[u] == s.threads[u]
  }

  /** A call of lock begins to contend, whatever the word is, and does nothing else. */
  lemma LockContends(s: State, t: nat)
    requires Enabled(s, Lock(t))
    ensures var s' := Do(s, Lock(t));
            ContendsAt(s', t) && !OwnsAt(s', t) && s'.word == s.word && OthersStay(s, s', t)
  {
  }

  /** A lock call that has begun goes on until it owns the lock, whatever any thread does. */
  lemma CallGoesOn(s: State, a: Action, t: nat)
    requires Enabled(s, a) && ContendsAt(s, t)
    ensures ContendsAt(Do(s, a), t) || OwnsAt(Do(s, a), t)
  {
  }

  /** Over runs: a lock call that has begun and is over has owned the lock in between. */
  lemma {:induction false} EndsAsOwner(s: State, run: seq<Action>, t: nat) returns (k: nat)
    requires Legal(s, run) && ContendsAt(s, t) && !ContendsAt(Exec(s, run), t)
    ensures 0 < k <= |run| && OwnsAt(StateAt(s, run, k), t)
    decreases |run|
  {
    var s' := Do(s, run[0]);
    CallGoesOn(s, run[0], t);
    if OwnsAt(s', t) {
      k := 1;
      assert StateAt(s', run[1..], 0) == s';
    } else {
      k := EndsAsOwner(s', run[1..], t);
      k := k + 1;
    }
  }

  /** lock returns only to an owner: a thread that has called it and no longer contends has owned the lock since. */
  lemma LockReturnsToOwner(s: State, run: seq<Action>, t: nat) returns (k: nat)
    requires Legal(s, run) && run != [] && run[0] == Lock(t) && !ContendsAt(Exec(s, run), t)
    ensures 1 < k <= |run| && OwnsAt(StateAt(s, run, k), t)
  {
    LockContends(s, t);
    k := EndsAsOwner(Do(s, run[0]), run[1..], t);
    k := k + 1;
  }

  /** trylock owns the lock afterwards if and only if the word was 0; then the word is 1, otherwise nothing changed. It
      never waits. */
  lemma TryLockDecides(s: State, t: nat)
    requires Enabled(s, TryLock(t))
    ensures var s' := Do(s, TryLock(t));
            && (OwnsAt(s', t) <==> s.word == 0) && !ContendsAt(s', t)
            && (s.word == 0 ==> s'.word == 1 && OthersStay(s, s', t))
            && (s.word != 0 ==> s' == s)
  {
  }

  /** unlock passes its assertion and keeps the lock until its exchange, which leaves the word 0 and the lock to others;
      it is over then unless there were waiters, of whom it wakes one, if any sleeps, and no other. */
  lemma UnlockReleases(s: State, t: nat)
    requires Inv(s)
    ensures Enabled(s, Unlock(t)) ==> Do(s, Unlock(t)) == State(s.word, s.threads[t := Releasing])
    ensures Enabled(s, Exchange(t)) ==>
              var s' := Do(s, Exchange(t));
              s'.word == 0 && OthersStay(s, s', t) && s'.threads[t] == if s.word == 2 then Waking else Idle
    ensures forall u: nat :: Enabled(s, WakeOne(t, u)) ==>
              Do(s, WakeOne(t, u)) == State(s.word, s.threads[u := Retry][t := Idle])
    ensures Enabled(s, WakeNone(t)) ==> Do(s, WakeNone(t)) == State(s.word, s.threads[t := Idle]) && !SomeAsleep(s)
  {
    assert Enabled(s, Unlock(t)) ==> SomeOwner(s);
  }

  /** The adaptive loop tries ten times in all while the lock is held without waiters, and gives up at once when there
      are some. */
  lemma {:induction false} SpinsTenTimes(s: State, t: nat, i: nat)
    requires t < |s.threads| && s.threads[t] == Spin(i) && i < 10
    ensures s.word == 1 ==> var run := seq(10 - i, _ => Advance(t)); Legal(s, run) && Exec(s, run) == At(s, t, 1, First)
    ensures s.word == 2 ==> Do(s, Advance(t)) == At(s, t, 2, First)
    decreases 10 - i
  {
    if s.word == 1 {
      var run := seq(10 - i, _ => Advance(t));
      if i == 9 {
        assert run[1..] == [];
      } else {
        SpinsTenTimes(Do(s, Advance(t)), t, i + 1);
        assert run[1..] == seq(10 - (i + 1), _ => Advance(t));
      }
    }
  }
}
