/** The crash-tolerant inter-process mutex: ls_futex_safe_lock, ls_futex_safe_trylock and ls_futex_safe_unlock of
    include/lsr/ls_lock.h, as a step relation over any number of threads in any number of processes.

    The lock word holds the owner's process id and a waiter bit. A process may crash between any two steps; a crash
    stops all its threads and leaves the word as it is. Process ids are nonzero and never reused, and kill(pid, 0)
    reports ESRCH exactly for the crashed ones. Every compare-and-swap, the kill probe, the exchange, the kernel's
    test-and-sleep, its one-second time-out and each wake is one atomic step.
  */
module SafeFutex {
  import opened Ranking

  // ---------------------------------------------------------------- the lock word

  const HAS_WAITER: nat := 0x8000_0000

  predicate IsPid(pid: nat) { 0 < pid < HAS_WAITER }

  /** What the 32 bits of the word stand for. */
  datatype Word = Free | Owned(pid: nat, waiter: bool)
  {
    predicate Proper() { Owned? ==> IsPid(pid) }

    /** The unsigned 32-bit value in memory. */
    function Bits(): nat {
      match this
      case Free => 0
      case Owned(pid, waiter) => pid + if waiter then HAS_WAITER else 0
    }
  }

  /** The word with LS_FUTEX_HAS_WAITER or-ed in. */
  function Flagged(w: Word): Word
    requires w.Owned?
  {
    Owned(w.pid, true)
  }

  /** On the 32 bits: a compare-and-swap compares owner and waiter bit, masking with LS_FUTEX_PID_MASK (the value
      modulo 2^31) gives the owner, and the top bit is the waiter bit. */
  lemma WordBits(w: Word, v: Word)
    requires w.Proper() && v.Proper()
    ensures w.Bits() == v.Bits() <==> w == v
    ensures w.Bits() % 0x8000_0000 == if w.Free? then 0 else w.pid
    ensures w.Bits() / 0x8000_0000 == if w.Owned? && w.waiter then 1 else 0
    ensures w.Bits() < 0x1_0000_0000
  {
  }

  // ---------------------------------------------------------------- threads and steps

  datatype Pc =
    | Idle
    | First               // about to CAS free -> own pid
    | Check(seen: Word)   // about to probe the seen owner with kill
    | Take(seen: Word)    // owner found dead; about to CAS seen -> own pid with waiter bit
    | Mark(seen: Word)    // about to set the waiter bit, unless seen with it
    | Wait(seen: Word)    // about to enter ls_futex_wait
    | Asleep              // blocked in the kernel, for at most a second
    | Retry               // about to CAS free -> own pid with waiter bit
    | Held(from: nat)     // lock returned -from; from is 0 for a normal acquire
    | Waking              // exchange returned the waiter bit, ls_futex_wake still to come
    | Aborted             // the assertion of ls_futex_safe_unlock failed
  {
    predicate Alert() { Check? || Take? || Mark? || Wait? || Retry? }
    predicate Contends() { First? || Asleep? || Alert() }
    predicate Covers() { Waking? || Alert() }
    predicate HasSeen() { Check? || Take? || Mark? || Wait? }
  }

  datatype Thread = Thread(pid: nat, pc: Pc)

  /** dead: the crashed processes. rescues: for every lock taken over, the rescuer's pid and the dead owner's. */
  datatype State = State(word: Word, threads: seq<Thread>, dead: set<nat>, rescues: seq<(nat, nat)>)
  {
    predicate Live(t: nat) { t < |threads| && threads[t].pid !in dead }
  }

  datatype Action =
    | Lock(t: nat)
    | TryLock(t: nat)
    | Advance(t: nat)
    | Timeout(t: nat)
    | Unlock(t: nat)
    | WakeOne(t: nat, u: nat)
    | WakeNone(t: nat)
    | Crash(pid: nat)

  function Init(pids: seq<nat>): State {
    State(Free, seq(|pids|, i requires 0 <= i < |pids| => Thread(pids[i], Idle)), {}, [])
  }

  ghost predicate Enabled(s: State, a: Action) {
    match a
    case Lock(t) => s.Live(t) && s.threads[t].pc.Idle?
    case TryLock(t) => s.Live(t) && s.threads[t].pc.Idle?
    case Advance(t) =>
      s.Live(t) && s.threads[t].pc.Contends() && !s.threads[t].pc.Asleep?
      && (s.threads[t].pc.HasSeen() ==> s.threads[t].pc.seen.Owned?)
    case Timeout(t) => s.Live(t) && s.threads[t].pc.Asleep?
    case Unlock(t) => s.Live(t) && s.threads[t].pc.Held?
    case WakeOne(t, u) => s.Live(t) && s.threads[t].pc.Waking? && s.Live(u) && s.threads[u].pc.Asleep?
    case WakeNone(t) => s.Live(t) && s.threads[t].pc.Waking? && !SomeAsleep(s)
    case Crash(pid) => pid !in s.dead
  }

  function At(s: State, t: nat, word: Word, pc: Pc): State
    requires t < |s.threads|
  {
    s.(word := word, threads := s.threads[t := Thread(s.threads[t].pid, pc)])
  }

  /** One step of thread t inside ls_futex_safe_lock. */
  function LockStep(s: State, t: nat): State
    requires Enabled(s, Advance(t))
  {
    var me := s.threads[t].pid;
    match s.threads[t].pc
    case First =>
      if s.word.Free? then At(s, t, Owned(me, false), Held(0)) else At(s, t, s.word, Check(s.word))
    case Check(seen) =>
      At(s, t, s.word, if me != seen.pid && seen.pid in s.dead then Take(seen) else Mark(seen))
    case Take(seen) =>
      if s.word == seen then At(s, t, Owned(me, true), Held(seen.pid)).(rescues := s.rescues + [(me, seen.pid)])
      else At(s, t, s.word, Mark(seen))
    case Mark(seen) =>
      if seen.waiter then At(s, t, s.word, Wait(seen))
      else if s.word == seen then At(s, t, Flagged(seen), Wait(seen))
      else At(s, t, s.word, Retry)
    case Wait(seen) =>
      At(s, t, s.word, if s.word == Flagged(seen) then Asleep else Retry)
    case Retry =>
      if s.word.Free? then At(s, t, Owned(me, true), Held(0)) else At(s, t, s.word, Check(s.word))
  }

  function Do(s: State, a: Action): State
    requires Enabled(s, a)
  {
    match a
    case Lock(t) => At(s, t, s.word, First)
    case TryLock(t) => if s.word.Free? then At(s, t, Owned(s.threads[t].pid, false), Held(0)) else s
    case Advance(t) => LockStep(s, t)
    case Timeout(t) => At(s, t, s.word, Retry)
    case Unlock(t) =>
      if s.word.Free? || s.word.pid != s.threads[t].pid then At(s, t, Free, Aborted)
      else At(s, t, Free, if s.word.waiter then Waking else Idle)
    case WakeOne(t, u) => At(At(s, u, s.word, Retry), t, s.word, Idle)
    case WakeNone(t) => At(s, t, s.word, Idle)
    case Crash(pid) => s.(dead := s.dead + {pid})
  }

  ghost predicate Legal(s: State, run: seq<Action>)
    decreases |run|
  {
    run == [] || (Enabled(s, run[0]) && Legal(Do(s, run[0]), run[1..]))
  }

  ghost function Exec(s: State, run: seq<Action>): State
    requires Legal(s, run)
    decreases |run|
  {
    if run == [] then s else Exec(Do(s, run[0]), run[1..])
  }

  // ---------------------------------------------------------------- mutual exclusion with crashes

  ghost predicate SomeAsleep(s: State) { exists t: nat :: s.Live(t) && s.threads[t].pc.Asleep? }
  ghost predicate SomeCover(s: State) { exists t: nat :: s.Live(t) && s.threads[t].pc.Covers() }
  ghost predicate SomeHolder(s: State, pid: nat) { exists t: nat :: s.Live(t) && s.threads[t].pc.Held? && s.threads[t].pid == pid }

  /** At most one live thread holds the lock; the word names a live process exactly while one of its threads holds. */
  ghost predicate Exclusive(s: State) {
    && (forall t: nat, u: nat :: s.Live(t) && s.Live(u) && s.threads[t].pc.Held? && s.threads[u].pc.Held? ==> t == u)
    && (forall t: nat :: s.Live(t) && s.threads[t].pc.Held? ==> s.word.Owned? && s.word.pid == s.threads[t].pid)
    && (s.word.Owned? && s.word.pid !in s.dead ==> SomeHolder(s, s.word.pid))
  }

  /** Nobody alive owns the lock. */
  ghost predicate Available(s: State) { s.word.Free? || s.word.pid in s.dead }

  ghost predicate WellFormed(s: State) {
    && s.word.Proper()
    && (forall t: nat :: t < |s.threads| ==>
          && IsPid(s.threads[t].pid)
          && !s.threads[t].pc.Aborted?
          && (s.threads[t].pc.HasSeen() ==> s.threads[t].pc.seen.Owned? && s.threads[t].pc.seen.Proper())
          && (s.threads[t].pc.Take? ==> s.threads[t].pc.seen.pid in s.dead))
  }

  /** Every dead owner's lock was taken over at most once, by the process that was told so. */
  ghost predicate RescuedOnce(s: State) {
    && (forall i, j :: 0 <= i < j < |s.rescues| ==> s.rescues[i].1 != s.rescues[j].1)
    && (forall i :: 0 <= i < |s.rescues| ==> s.rescues[i].1 in s.dead && (s.word.Owned? ==> s.word.pid != s.rescues[i].1))
    && (forall t: nat :: t < |s.threads| && s.threads[t].pc.Held? && s.threads[t].pc.from != 0
          ==> (s.threads[t].pid, s.threads[t].pc.from) in s.rescues)
  }

  ghost predicate Inv(s: State) {
    WellFormed(s) && Exclusive(s) && RescuedOnce(s)
  }

  lemma InitInv(pids: seq<nat>)
    requires forall i :: 0 <= i < |pids| ==> IsPid(pids[i])
    ensures Inv(Init(pids)) && Covered(Init(pids))
  {
  }

  lemma StepWellFormed(s: State, a: Action)
    requires Inv(s) && Enabled(s, a)
    ensures WellFormed(Do(s, a))
  {
    if a.Advance? {
      LockStepWellFormed(s, a.t);
    }
  }

  lemma LockStepWellFormed(s: State, t: nat)
    requires WellFormed(s) && Enabled(s, Advance(t))
    ensures WellFormed(LockStep(s, t))
  {
  }

  lemma CrashExclusive(s: State, pid: nat)
    requires Exclusive(s)
    ensures Exclusive(s.(dead := s.dead + {pid}))
  {
    var s' := s.(dead := s.dead + {pid});
    if s'.word.Owned? && s'.word.pid !in s'.dead {
      var h: nat :| s.Live(h) && s.threads[h].pc.Held? && s.threads[h].pid == s.word.pid;
      assert s'.Live(h);
    }
  }

  /** What a step of thread t does to the lock: it acquires a lock no live process owns and writes its own pid, or
      releases its own, or changes neither the owner nor its holding. */
  lemma LockEffect(s: State, a: Action)
    requires Inv(s) && Enabled(s, a) && !a.Crash?
    ensures var s', t := Do(s, a), a.t;
            && s'.dead == s.dead && |s'.threads| == |s.threads| && s'.threads[t].pid == s.threads[t].pid
            && (forall u: nat :: u < |s.threads| && u != t ==>
                  s'.threads[u].pid == s.threads[u].pid && s'.threads[u].pc.Held? == s.threads[u].pc.Held?)
            && (|| (s.threads[t].pc.Held? == s'.threads[t].pc.Held?
                    && s'.word.Owned? == s.word.Owned? && (s.word.Owned? ==> s'.word.pid == s.word.pid))
                || (s'.threads[t].pc.Held? && Available(s) && s'.word.Owned? && s'.word.pid == s.threads[t].pid)
                || (s.threads[t].pc.Held? && !s'.threads[t].pc.Held? && s'.word.Free?))
  {
  }

  lemma StepExclusive(s: State, a: Action)
    requires Inv(s) && Enabled(s, a)
    ensures Exclusive(Do(s, a))
  {
    var s' := Do(s, a);
    if a.Crash? {
      CrashExclusive(s, a.pid);
    } else {
      LockEffect(s, a);
      ExclusiveFrame(s, s', a.t);
    }
  }

  lemma ExclusiveFrame(s: State, s': State, t: nat)
    requires Exclusive(s) && s.Live(t)
    requires s'.dead == s.dead && |s'.threads| == |s.threads| && s'.threads[t].pid == s.threads[t].pid
    requires forall u: nat :: u < |s.threads| && u != t ==>
               s'.threads[u].pid == s.threads[u].pid && s'.threads[u].pc.Held? == s.threads[u].pc.Held?
    requires || (s.threads[t].pc.Held? == s'.threads[t].pc.Held?
                 && s'.word.Owned? == s.word.Owned? && (s.word.Owned? ==> s'.word.pid == s.word.pid))
             || (s'.threads[t].pc.Held? && Available(s) && s'.word.Owned? && s'.word.pid == s.threads[t].pid)
             || (s.threads[t].pc.Held? && !s'.threads[t].pc.Held? && s'.word.Free?)
    ensures Exclusive(s')
  {
    assert forall u: nat :: s'.Live(u) <==> s.Live(u);
    if s'.word.Owned? && s'.word.pid !in s'.dead {
      if s'.threads[t].pc.Held? && s'.word.pid == s.threads[t].pid {
        assert s'.Live(t);
      } else {
        var h: nat :| s.Live(h) && s.threads[h].pc.Held? && s.threads[h].pid == s.word.pid;
        assert s'.Live(h) && s'.threads[h].pc.Held?;
      }
    }
  }

  lemma StepRescuedOnce(s: State, a: Action)
    requires Inv(s) && Enabled(s, a)
    ensures RescuedOnce(Do(s, a))
  {
    var s' := Do(s, a);
    assert s.rescues <= s'.rescues;
    assert forall r :: r in s.rescues ==> r in s'.rescues;
    if |s'.rescues| > |s.rescues| {
      assert s'.rescues[|s.rescues|] in s'.rescues;
    }
  }

  lemma StepInv(s: State, a: Action)
    requires Inv(s) && Enabled(s, a)
    ensures Inv(Do(s, a))
  {
    StepWellFormed(s, a);
    StepExclusive(s, a);
    StepRescuedOnce(s, a);
  }

  /** Safety over whole runs: with processes crashing at any step, at most one live thread holds the lock, the word
      names its process, the assertion of ls_futex_safe_unlock never fails, and a dead owner's lock goes to at most
      one rescuer. */
  lemma {:induction false} RunsAreSafe(s: State, run: seq<Action>)
    requires Inv(s) && Legal(s, run)
    ensures Inv(Exec(s, run))
    decreases |run|
  {
    if run == [] {
    } else {
      StepInv(s, run[0]);
      RunsAreSafe(Do(s, run[0]), run[1..]);
    }
  }

  /** From the free lock, whatever the processes do and however they crash. */
  lemma ReachableIsSafe(pids: seq<nat>, run: seq<Action>)
    requires (forall i :: 0 <= i < |pids| ==> IsPid(pids[i])) && Legal(Init(pids), run)
    ensures Inv(Exec(Init(pids), run))
  {
    InitInv(pids);
    RunsAreSafe(Init(pids), run);
  }

  // ---------------------------------------------------------------- sleepers are not forgotten

  /** Whenever a live thread sleeps, the waiter bit is set, a wake is pending or a live thread is awake in the slow
      loop. */
  ghost predicate Covered(s: State) {
    SomeAsleep(s) ==> (s.word.Owned? && s.word.waiter) || SomeCover(s)
  }

  /** A crash that strands a sleeper: another process sleeps, the word carries no waiter bit, and every live thread that
      could still wake or replace a sleeper belongs to the crashing process. */
  ghost predicate Strands(s: State, a: Action) {
    && a.Crash?
    && (exists z: nat :: s.Live(z) && s.threads[z].pc.Asleep? && s.threads[z].pid != a.pid)
    && !(s.word.Owned? && s.word.waiter)
    && (forall w: nat :: s.Live(w) && s.threads[w].pc.Covers() ==> s.threads[w].pid == a.pid)
  }

  /** Every step keeps the sleepers covered, takeovers from dead owners included, unless it is a stranding crash. */
  lemma StepCovered(s: State, a: Action)
    requires Inv(s) && Enabled(s, a) && Covered(s)
    ensures Covered(Do(s, a)) <==> !Strands(s, a)
  {
    var s' := Do(s, a);
    if a.Crash? {
      assert forall t: nat :: s'.Live(t) <==> s.Live(t) && s.threads[t].pid != a.pid;
    } else if SomeAsleep(s') && !(s'.word.Owned? && s'.word.waiter) {
      if a.WakeOne? {
        assert s'.Live(a.u) && s'.threads[a.u].pc.Covers();
      } else if s'.threads[a.t].pc.Covers() {
        assert s'.Live(a.t);
      } else {
        CoverPersists(s, a);
      }
    }
  }

  /** A step of a thread that ends neither waking nor alert leaves somebody else covering the sleepers. */
  lemma CoverPersists(s: State, a: Action)
    requires Inv(s) && Enabled(s, a) && Covered(s) && !a.Crash? && !a.WakeOne?
    requires SomeAsleep(Do(s, a)) && !(Do(s, a).word.Owned? && Do(s, a).word.waiter)
    requires !Do(s, a).threads[a.t].pc.Covers()
    ensures SomeCover(Do(s, a))
  {
    var s' := Do(s, a);
    var z: nat :| s'.Live(z) && s'.threads[z].pc.Asleep?;
    assert s.Live(z) && s.threads[z].pc.Asleep?;
    assert SomeAsleep(s) && !a.WakeNone?;
    NoCoverBefore(s, a);
    var w: nat :| s.Live(w) && s.threads[w].pc.Covers();
    assert s'.Live(w) && s'.threads[w].pc.Covers();
  }

  lemma NoCoverBefore(s: State, a: Action)
    requires Inv(s) && Enabled(s, a) && !a.Crash? && !a.WakeOne? && !a.WakeNone?
    requires !(Do(s, a).word.Owned? && Do(s, a).word.waiter) && !Do(s, a).threads[a.t].pc.Covers()
    ensures !s.threads[a.t].pc.Covers() && !(s.word.Owned? && s.word.waiter)
  {
  }

  /** The sleepers are covered in every state of the run. */
  ghost predicate AlwaysCovered(s: State, run: seq<Action>)
    requires Legal(s, run)
    decreases |run|
  {
    Covered(s) && (run == [] || AlwaysCovered(Do(s, run[0]), run[1..]))
  }

  /** No step of the run is a stranding crash. */
  ghost predicate NoneStrands(s: State, run: seq<Action>)
    requires Legal(s, run)
    decreases |run|
  {
    run == [] || (!Strands(s, run[0]) && NoneStrands(Do(s, run[0]), run[1..]))
  }

  /** No lost wake-up over whole runs, and the exact condition for it: with crashes at any step, the sleepers are
      covered all along if and only if no crash of the run strands one. */
  lemma {:induction false} RunsStayCovered(s: State, run: seq<Action>)
    requires Inv(s) && Covered(s) && Legal(s, run)
    ensures AlwaysCovered(s, run) <==> NoneStrands(s, run)
    decreases |run|
  {
    if run == [] {
    } else {
      var s' := Do(s, run[0]);
      StepInv(s, run[0]);
      StepCovered(s, run[0]);
      if Covered(s') {
        RunsStayCovered(s', run[1..]);
      }
    }
  }

  /** A crash that takes away no thread awake in the slow loop or owing a wake. */
  ghost predicate CrashOutside(s: State, a: Action) {
    a.Crash? ==> forall t: nat :: s.Live(t) && s.threads[t].pid == a.pid ==> !s.threads[t].pc.Covers()
  }

  ghost predicate OnlyOutside(s: State, run: seq<Action>)
    requires Legal(s, run)
    decreases |run|
  {
    run == [] || (CrashOutside(s, run[0]) && OnlyOutside(Do(s, run[0]), run[1..]))
  }

  /** In particular the sleepers stay covered when processes crash only while holding, sleeping or outside the slow
      path. */
  lemma {:induction false} HolderCrashesAreHarmless(s: State, run: seq<Action>)
    requires Inv(s) && Covered(s) && Legal(s, run) && OnlyOutside(s, run)
    ensures AlwaysCovered(s, run)
    decreases |run|
  {
    if run == [] {
    } else {
      StepInv(s, run[0]);
      StepCovered(s, run[0]);
      HolderCrashesAreHarmless(Do(s, run[0]), run[1..]);
    }
  }

  /** The run that shows it: process 11 unlocks and dies between its exchange and its wake, and process 22 sleeps on
      a free lock until its time-out. */
  lemma StrandedSleeper() returns (run: seq<Action>, end: State)
    ensures Legal(Init([11, 22]), run) && Exec(Init([11, 22]), run) == end
    ensures run == Contended() + [Unlock(0), Crash(11)]
    ensures end.word.Free? && end.Live(1) && end.threads[1].pc.Asleep? && !Covered(end)
  {
    var s := ContendedState();
    end := UnlockAndDie(s);
    run := Contended() + [Unlock(0), Crash(11)];
    AppendRun(Init([11, 22]), Contended(), [Unlock(0), Crash(11)]);
  }

  lemma UnlockAndDie(s: State) returns (end: State)
    requires s == Pair(Owned(11, true), Held(0), Asleep)
    ensures Legal(s, [Unlock(0), Crash(11)]) && Exec(s, [Unlock(0), Crash(11)]) == end
    ensures end.word.Free? && end.Live(1) && end.threads[1].pc.Asleep? && !Covered(end)
  {
    var mid := Do(s, Unlock(0));
    end := Do(mid, Crash(11));
    assert end == State(Free, [Thread(11, Waking), Thread(22, Asleep)], {11}, []);
    FollowRun([s, mid, end], [Unlock(0), Crash(11)]);
  }

  /** Process 11 takes the lock and process 22 goes to sleep on it. */
  function Contended(): seq<Action> {
    [Lock(0), Advance(0), Lock(1), Advance(1), Advance(1), Advance(1), Advance(1)]
  }

  function Pair(word: Word, first: Pc, second: Pc): State {
    State(word, [Thread(11, first), Thread(22, second)], {}, [])
  }

  lemma ContendedState() returns (s: State)
    ensures Legal(Init([11, 22]), Contended()) && Exec(Init([11, 22]), Contended()) == s
    ensures s == Pair(Owned(11, true), Held(0), Asleep)
  {
    var first, second, third := [Lock(0), Advance(0)], [Lock(1), Advance(1)], [Advance(1), Advance(1), Advance(1)];
    s := Pair(Owned(11, true), Held(0), Asleep);
    ContendedHead();
    ContendedMiddle();
    ContendedTail();
    AppendRun(Pair(Owned(11, false), Held(0), Idle), second, third);
    AppendRun(Init([11, 22]), first, second + third);
    assert Contended() == first + (second + third);
  }

  lemma ContendedHead()
    ensures var run := [Lock(0), Advance(0)];
            Legal(Init([11, 22]), run) && Exec(Init([11, 22]), run) == Pair(Owned(11, false), Held(0), Idle)
  {
    var s0, s1 := Pair(Free, Idle, Idle), Pair(Free, First, Idle);
    assert Init([11, 22]) == s0;
    assert Do(s0, Lock(0)) == s1;
    assert Do(s1, Advance(0)) == Pair(Owned(11, false), Held(0), Idle);
    FollowRun([s0, s1, Pair(Owned(11, false), Held(0), Idle)], [Lock(0), Advance(0)]);
  }

  lemma ContendedMiddle()
    ensures var plain, run := Owned(11, false), [Lock(1), Advance(1)];
            && Legal(Pair(plain, Held(0), Idle), run)
            && Exec(Pair(plain, Held(0), Idle), run) == Pair(plain, Held(0), Check(plain))
  {
    var plain := Owned(11, false);
    var s2, s3, s4 := Pair(plain, Held(0), Idle), Pair(plain, Held(0), First), Pair(plain, Held(0), Check(plain));
    assert Do(s2, Lock(1)) == s3;
    assert Do(s3, Advance(1)) == s4;
    FollowRun([s2, s3, s4], [Lock(1), Advance(1)]);
  }

  lemma ContendedTail()
    ensures var plain, run := Owned(11, false), [Advance(1), Advance(1), Advance(1)];
            && Legal(Pair(plain, Held(0), Check(plain)), run)
            && Exec(Pair(plain, Held(0), Check(plain)), run) == Pair(Owned(11, true), Held(0), Asleep)
  {
    var plain, flagged := Owned(11, false), Owned(11, true);
    var s4, s5 := Pair(plain, Held(0), Check(plain)), Pair(plain, Held(0), Mark(plain));
    var s6, s7 := Pair(flagged, Held(0), Wait(plain)), Pair(flagged, Held(0), Asleep);
    assert Do(s4, Advance(1)) == s5;
    assert Do(s5, Advance(1)) == s6;
    assert Do(s6, Advance(1)) == s7;
    FollowRun([s4, s5, s6, s7], [Advance(1), Advance(1), Advance(1)]);
  }

  lemma {:induction false} AppendRun(s: State, run: seq<Action>, more: seq<Action>)
    requires Legal(s, run) && Legal(Exec(s, run), more)
    ensures Legal(s, run + more) && Exec(s, run + more) == Exec(Exec(s, run), more)
    decreases |run|
  {
    if run == [] {
      assert run + more == more;
    } else {
      assert (run + more)[1..] == run[1..] + more;
      AppendRun(Do(s, run[0]), run[1..], more);
    }
  }

  /** A run given with all its intermediate states. */
  lemma {:induction false} FollowRun(states: seq<State>, run: seq<Action>)
    requires |states| == |run| + 1
    requires forall i :: 0 <= i < |run| ==> Enabled(states[i], run[i]) && states[i + 1] == Do(states[i], run[i])
    ensures Legal(states[0], run) && Exec(states[0], run) == states[|run|]
    decreases |run|
  {
    if run == [] {
    } else {
      FollowRun(states[1..], run[1..]);
    }
  }

  // ---------------------------------------------------------------- a dead owner's lock can always be rescued

  /** How many steps thread t needs, alone, to get an available lock. */
  ghost function Distance(s: State, t: nat): nat
    requires WellFormed(s) && s.Live(t) && s.threads[t].pc.Contends()
  {
    match s.threads[t].pc
    case Take(seen) => if seen == s.word then 1 else 7
    case Check(seen) => if seen == s.word then 2 else 8
    case Mark(_) => 6
    case Wait(_) => 5
    case Asleep => 4
    case _ => 3
  }

  /** From every reachable state, whatever crashed, a live contender that runs alone gets a lock whose owner is dead
      (or that is free) within eight steps, is told the dead owner's pid, and is logged as its rescuer. */
  lemma {:induction false} Rescue(s: State, t: nat) returns (end: State, run: seq<Action>)
    requires Inv(s) && Available(s) && s.Live(t) && s.threads[t].pc.Contends()
    ensures Legal(s, run) && Exec(s, run) == end && |run| <= Distance(s, t) <= 8
    ensures forall i :: 0 <= i < |run| ==> run[i] == Advance(t) || run[i] == Timeout(t)
    ensures end.Live(t) && end.threads[t].pc == Held(if s.word.Free? then 0 else s.word.pid)
    ensures s.word.Owned? ==> end.rescues == s.rescues + [(s.threads[t].pid, s.word.pid)]
    decreases Distance(s, t)
  {
    var a := if s.threads[t].pc.Asleep? then Timeout(t) else Advance(t);
    var s' := Do(s, a);
    StepInv(s, a);
    if s'.threads[t].pc.Held? {
      end, run := s', [a];
      assert run[1..] == [];
    } else {
      assert s'.Live(t) && s'.threads[t].pid == s.threads[t].pid;
      var rest;
      end, rest := Rescue(s', t);
      run := [a] + rest;
      assert run[1..] == rest;
    }
  }

  // ---------------------------------------------------------------- every waiter is served

  /** The steps that need neither a new call nor a crash nor the passing of time. */
  predicate Immediate(a: Action) {
    !a.Lock? && !a.TryLock? && !a.Crash? && !a.Timeout?
  }

  ghost predicate CanMove(s: State) { exists a :: Immediate(a) && Enabled(s, a) }

  /** A second passes only when nobody can move before. */
  ghost predicate Proceeds(s: State, a: Action) {
    Enabled(s, a) && (Immediate(a) || (a.Timeout? && !CanMove(s)))
  }

  /** Every live thread's calls have returned, and no live process owns the lock. */
  ghost predicate AllServed(s: State) {
    Available(s) && forall t: nat :: s.Live(t) ==> s.threads[t].pc.Idle?
  }

  lemma StuckOnlyWhenServed(s: State)
    requires Inv(s) && forall a :: !Proceeds(s, a)
    ensures AllServed(s)
  {
    assert !CanMove(s) by {
      if CanMove(s) {
        var a :| Immediate(a) && Enabled(s, a);
        assert Proceeds(s, a);
      }
    }
    forall t: nat | s.Live(t)
      ensures s.threads[t].pc.Idle?
    {
      assert !Enabled(s, Advance(t)) && !Enabled(s, Unlock(t)) && !Enabled(s, WakeNone(t));
      assert !Proceeds(s, Timeout(t));
      if s.threads[t].pc.Waking? {
        var u: nat :| s.Live(u) && s.threads[u].pc.Asleep?;
        assert Enabled(s, WakeOne(t, u));
      }
    }
  }

  function ActiveWeight(dead: set<nat>, th: Thread): nat {
    if th.pid !in dead && (th.pc.Contends() || th.pc.Held?) then 1 else 0
  }

  function WakingWeight(dead: set<nat>, th: Thread): nat {
    if th.pid !in dead && th.pc.Waking? then 1 else 0
  }

  function WaitingWeight(dead: set<nat>, th: Thread): nat {
    if th.pid !in dead && th.pc.Contends() then 1 else 0
  }

  /** How many more steps a thread can take while the word keeps its value: to the lock when no live process owns it,
      to sleep otherwise. */
  function LocalWeight(word: Word, dead: set<nat>, th: Thread): nat {
    if th.pid in dead then 0
    else if word.Free? || word.pid in dead then
      match th.pc
      case Take(seen) => if seen == word then 1 else 7
      case Check(seen) => if seen == word then 2 else 8
      case Mark(_) => 6
      case Wait(_) => 5
      case Asleep => 4
      case First => 3
      case Retry => 3
      case _ => 0
    else
      match th.pc
      case Take(seen) => if seen == word then 4 else 9
      case Check(seen) => if seen == word then 5 else 10
      case Mark(seen) => if seen == word then 3 else 8
      case Wait(seen) => if seen.Owned? && Flagged(seen) == word then 2 else 7
      case Asleep => 1
      case First => 6
      case Retry => 6
      case _ => 0
  }

  ghost function RankOf(s: State): Rank {
    Rank(Sum(th => ActiveWeight(s.dead, th), s.threads),
         Sum(th => WakingWeight(s.dead, th), s.threads),
         Sum(th => WaitingWeight(s.dead, th), s.threads),
         if s.word.Owned? && !s.word.waiter then 1 else 0,
         Sum(th => LocalWeight(s.word, s.dead, th), s.threads))
  }

  lemma RankUpdate(s: State, t: nat, word: Word, pc: Pc)
    requires t < |s.threads|
    ensures var r, r' := RankOf(s), RankOf(At(s, t, word, pc));
            var was, now := s.threads[t], Thread(s.threads[t].pid, pc);
            && r'.active + ActiveWeight(s.dead, was) == r.active + ActiveWeight(s.dead, now)
            && r'.waking + WakingWeight(s.dead, was) == r.waking + WakingWeight(s.dead, now)
            && r'.waiting + WaitingWeight(s.dead, was) == r.waiting + WaitingWeight(s.dead, now)
            && (word == s.word ==>
                  r'.local + LocalWeight(word, s.dead, was) == r.local + LocalWeight(word, s.dead, now))
  {
    var now := Thread(s.threads[t].pid, pc);
    SumUpdate(th => ActiveWeight(s.dead, th), s.threads, t, now);
    SumUpdate(th => WakingWeight(s.dead, th), s.threads, t, now);
    SumUpdate(th => WaitingWeight(s.dead, th), s.threads, t, now);
    SumUpdate(th => LocalWeight(s.word, s.dead, th), s.threads, t, now);
  }

  /** A step inside the lock call acquires, or announces a waiter, or comes closer to the lock or to sleep. */
  lemma LockStepLowers(s: State, t: nat)
    requires Inv(s) && Enabled(s, Advance(t))
    ensures var s' := LockStep(s, t);
            || s'.threads[t].pc.Held?
            || (s'.threads[t].pc.Contends() && s.word.Owned? && !s.word.waiter && s'.word == Flagged(s.word))
            || (s'.threads[t].pc.Contends() && s'.word == s.word
                && LocalWeight(s.word, s.dead, s'.threads[t]) < LocalWeight(s.word, s.dead, s.threads[t]))
  {
  }

  lemma LockStepDescends(s: State, t: nat)
    requires Inv(s) && Enabled(s, Advance(t))
    ensures RankOf(LockStep(s, t)).Below(RankOf(s))
  {
    LockStepLowers(s, t);
    var s' := LockStep(s, t);
    RankUpdate(s, t, s'.word, s'.threads[t].pc);
    assert s' == At(s, t, s'.word, s'.threads[t].pc).(rescues := s'.rescues);
  }

  /** A time-out with nobody else able to move happens only when no live process owns the lock. */
  lemma TimeoutDescends(s: State, t: nat)
    requires Inv(s) && Proceeds(s, Timeout(t))
    ensures RankOf(Do(s, Timeout(t))).Below(RankOf(s))
  {
    assert Available(s) by {
      if !Available(s) {
        var h: nat :| s.Live(h) && s.threads[h].pc.Held? && s.threads[h].pid == s.word.pid;
        assert Immediate(Unlock(h)) && Enabled(s, Unlock(h));
      }
    }
    RankUpdate(s, t, s.word, Retry);
  }

  lemma ProceedDescends(s: State, a: Action)
    requires Inv(s) && Proceeds(s, a)
    ensures RankOf(Do(s, a)).Below(RankOf(s))
  {
    if a.Timeout? {
      TimeoutDescends(s, a.t);
    } else if a.Advance? {
      LockStepDescends(s, a.t);
    } else if a.WakeOne? {
      RankUpdate(s, a.u, s.word, Retry);
      RankUpdate(At(s, a.u, s.word, Retry), a.t, s.word, Idle);
    } else if a.WakeNone? {
      RankUpdate(s, a.t, s.word, Idle);
    } else {
      UnlockDescends(s, a.t);
    }
  }

  lemma UnlockDescends(s: State, t: nat)
    requires Inv(s) && Enabled(s, Unlock(t))
    ensures RankOf(Do(s, Unlock(t))).Below(RankOf(s))
  {
    RankUpdate(s, t, Free, if s.word.waiter then Waking else Idle);
  }

  ghost predicate Settles(s: State, s': State) {
    (exists a :: Proceeds(s, a) && s' == Do(s, a)) || ((forall a :: !Proceeds(s, a)) && s' == s)
  }

  /** A run without new calls and new crashes; it stops only when nobody can proceed. */
  ghost predicate SettlingRun(run: nat -> State) {
    forall i: nat :: SettlesAt(run, i)
  }

  ghost predicate SettlesAt(run: nat -> State, i: nat) { Settles(run(i), run(i + 1)) }

  /** Some next state of such a run. */
  ghost function SomeNext(s: State): (s': State)
    ensures Settles(s, s')
  {
    if exists a :: Proceeds(s, a) then var a :| Proceeds(s, a); Do(s, a) else s
  }

  ghost function Settled(s: State, i: nat): State {
    if i == 0 then s else SomeNext(Settled(s, i - 1))
  }

  /** Such runs exist from every state. */
  lemma SettlingRunExists(s: State) returns (run: nat -> State)
    ensures SettlingRun(run) && run(0) == s
  {
    run := (i: nat) => Settled(s, i);
    forall i: nat
      ensures SettlesAt(run, i)
    {
      assert run(i + 1) == SomeNext(run(i));
    }
  }

  /** Recovery under every scheduler that lets a second pass only when nobody can move before: from every reachable
      state, whatever crashed before, stranded sleepers included, every live lock call is granted and released, and a
      dead owner keeps nobody out. */
  lemma {:induction false} EveryWaiterServed(run: nat -> State, i: nat)
    requires SettlingRun(run) && Inv(run(i))
    ensures exists j: nat :: i <= j && AllServed(run(j))
    decreases RankOf(run(i)).active, RankOf(run(i)).waking, RankOf(run(i)).waiting,
              RankOf(run(i)).unmarked, RankOf(run(i)).local
  {
    assert SettlesAt(run, i);
    if forall a :: !Proceeds(run(i), a) {
      StuckOnlyWhenServed(run(i));
    } else {
      var a :| Proceeds(run(i), a) && run(i + 1) == Do(run(i), a);
      StepInv(run(i), a);
      ProceedDescends(run(i), a);
      EveryWaiterServed(run, i + 1);
    }
  }

  // ---------------------------------------------------------------- early time-outs

  /** The steps that start no call and crash nobody; a wait may time out at any moment. */
  predicate Goes(a: Action) {
    !a.Lock? && !a.TryLock? && !a.Crash?
  }

  ghost predicate GoStep(s: State, s': State) {
    (exists a :: Goes(a) && Enabled(s, a) && s' == Do(s, a)) || ((forall a :: Goes(a) ==> !Enabled(s, a)) && s' == s)
  }

  /** A run without new calls and new crashes in which waits may time out early and again and again, while others could
      move; it stops only when nothing can happen. */
  ghost predicate OngoingRun(run: nat -> State) {
    forall i: nat :: GoesAt(run, i)
  }

  ghost predicate GoesAt(run: nat -> State, i: nat) { GoStep(run(i), run(i + 1)) }

  ghost predicate HoldsAt(s: State, t: nat) { s.Live(t) && s.threads[t].pc.Held? }

  /** No live thread keeps the lock for ever. */
  ghost predicate HoldsEnd(run: nat -> State) {
    forall i: nat, t: nat :: HoldsAt(run(i), t) ==> HoldEnds(run, i, t)
  }

  ghost predicate HoldEnds(run: nat -> State, i: nat, t: nat) { exists j: nat :: i < j && !HoldsAt(run(j), t) }

  /** While no live process owns the lock every step, a time-out too, lowers the rank. */
  lemma AvailableDescends(s: State, a: Action)
    requires Inv(s) && Goes(a) && Enabled(s, a) && Available(s)
    ensures RankOf(Do(s, a)).Below(RankOf(s))
  {
    if a.Timeout? {
      RankUpdate(s, a.t, s.word, Retry);
    } else {
      ProceedDescends(s, a);
    }
  }

  /** No step raises the first three parts of the rank, and the release of the lock lowers them. */
  lemma NeverRises(s: State, a: Action)
    requires Inv(s) && Goes(a) && Enabled(s, a)
    ensures RankOf(Do(s, a)).NotAbove(RankOf(s))
    ensures a.Unlock? ==> RankOf(Do(s, a)).WellBelow(RankOf(s))
  {
    if a.Advance? {
      LockStepNeverRises(s, a.t);
    } else if a.WakeOne? {
      RankUpdate(s, a.u, s.word, Retry);
      RankUpdate(At(s, a.u, s.word, Retry), a.t, s.word, Idle);
    } else {
      RankUpdate(s, a.t, Do(s, a).word, Do(s, a).threads[a.t].pc);
    }
  }

  lemma LockStepNeverRises(s: State, t: nat)
    requires Inv(s) && Enabled(s, Advance(t))
    ensures RankOf(LockStep(s, t)).NotAbove(RankOf(s))
  {
    var s' := LockStep(s, t);
    LockStepLowers(s, t);
    RankUpdate(s, t, s'.word, s'.threads[t].pc);
    assert s' == At(s, t, s'.word, s'.threads[t].pc).(rescues := s'.rescues);
  }

  /** Only unlocking ends a hold. */
  lemma KeepsHolding(s: State, a: Action, t: nat)
    requires Goes(a) && Enabled(s, a) && !a.Unlock?
    ensures HoldsAt(s, t) ==> HoldsAt(Do(s, a), t)
  {
  }

  /** As long as thread t keeps the lock the first three parts do not rise; once it gives it up they have fallen. */
  lemma {:induction false} HoldDescends(run: nat -> State, i: nat, j: nat, t: nat)
    requires OngoingRun(run) && Inv(run(i)) && i <= j && HoldsAt(run(i), t)
    ensures Inv(run(j)) && RankOf(run(j)).NotAbove(RankOf(run(i)))
    ensures HoldsAt(run(j), t) || RankOf(run(j)).WellBelow(RankOf(run(i)))
    decreases j
  {
    if i == j {
    } else {
      HoldDescends(run, i, j - 1, t);
      assert GoesAt(run, j - 1);
      GoKeeps(run(j - 1), run(j), t);
    }
  }

  lemma GoKeeps(s: State, s': State, t: nat)
    requires Inv(s) && GoStep(s, s')
    ensures Inv(s') && RankOf(s').NotAbove(RankOf(s))
    ensures HoldsAt(s, t) ==> HoldsAt(s', t) || RankOf(s').WellBelow(RankOf(s))
  {
    if a :| Goes(a) && Enabled(s, a) && s' == Do(s, a) {
      StepInv(s, a);
      NeverRises(s, a);
      if !a.Unlock? {
        KeepsHolding(s, a, t);
      }
    }
  }

  lemma AvailableStep(s: State, s': State)
    requires Inv(s) && Available(s) && GoStep(s, s') && exists a :: Goes(a) && Enabled(s, a)
    ensures Inv(s') && RankOf(s').Below(RankOf(s))
  {
    var a :| Goes(a) && Enabled(s, a) && s' == Do(s, a);
    StepInv(s, a);
    AvailableDescends(s, a);
  }

  /** A held lock is given up some time later, and the rank has fallen by then. */
  lemma HoldOver(run: nat -> State, i: nat) returns (j: nat)
    requires OngoingRun(run) && HoldsEnd(run) && Inv(run(i)) && !Available(run(i))
    ensures i < j && Inv(run(j)) && RankOf(run(j)).WellBelow(RankOf(run(i)))
  {
    var s := run(i);
    var t: nat :| s.Live(t) && s.threads[t].pc.Held? && s.threads[t].pid == s.word.pid;
    assert HoldsAt(run(i), t) && HoldEnds(run, i, t);
    j :| i < j && !HoldsAt(run(j), t);
    HoldDescends(run, i, j, t);
  }

  /** Recovery with early time-outs: if no new calls and crashes come and no live thread keeps the lock for ever, every
      live lock call is granted and released, and a dead owner keeps nobody out, whatever crashed before. */
  lemma {:induction false} FairRunsServe(run: nat -> State, i: nat)
    requires OngoingRun(run) && HoldsEnd(run) && Inv(run(i))
    ensures exists j: nat :: i <= j && AllServed(run(j))
    decreases RankOf(run(i)).active, RankOf(run(i)).waking, RankOf(run(i)).waiting,
              RankOf(run(i)).unmarked, RankOf(run(i)).local
  {
    assert GoesAt(run, i);
    var s := run(i);
    if forall a :: Goes(a) ==> !Enabled(s, a) {
      StuckOnlyWhenServed(s);
    } else if Available(s) {
      AvailableStep(s, run(i + 1));
      FairRunsServe(run, i + 1);
    } else {
      var j := HoldOver(run, i);
      FairRunsServe(run, j);
    }
  }

  /** The runs of EveryWaiterServed are such runs. */
  lemma SettlingIsOngoing(run: nat -> State)
    requires SettlingRun(run) && Inv(run(0))
    ensures OngoingRun(run) && HoldsEnd(run)
  {
    forall i: nat
      ensures GoesAt(run, i)
    {
      SettlingStaysSafe(run, i);
      assert SettlesAt(run, i);
      if a :| Proceeds(run(i), a) && run(i + 1) == Do(run(i), a) {
        assert Goes(a);
      } else {
        StuckOnlyWhenServed(run(i));
      }
    }
    forall i: nat, t: nat | HoldsAt(run(i), t)
      ensures HoldEnds(run, i, t)
    {
      SettlingStaysSafe(run, i);
      EveryWaiterServed(run, i);
      var j: nat :| i <= j && AllServed(run(j));
      assert !HoldsAt(run(j), t);
    }
  }

  lemma {:induction false} SettlingStaysSafe(run: nat -> State, i: nat)
    requires SettlingRun(run) && Inv(run(0))
    ensures Inv(run(i))
  {
    if i == 0 {
    } else {
      SettlingStaysSafe(run, i - 1);
      assert SettlesAt(run, i - 1);
      var s, s' := run(i - 1), run(i);
      if a :| Proceeds(s, a) && s' == Do(s, a) {
        StepInv(s, a);
      }
    }
  }

  // ---------------------------------------------------------------- calls arriving and processes crashing all the time

  /** The steps of a busy run: any that change something, crashes of processes with live threads included. A failed
      trylock, which changes nothing, is no step here. */
  ghost predicate Busy(s: State, a: Action) {
    Enabled(s, a) && Do(s, a) != s && (a.Crash? ==> exists t: nat :: s.Live(t) && s.threads[t].pid == a.pid)
  }

  ghost predicate BusyStep(s: State, s': State) {
    (exists a :: Busy(s, a) && s' == Do(s, a)) || ((forall a :: !Busy(s, a)) && s' == s)
  }

  /** A run in which anything may happen, new calls, early time-outs and crashes included; it stops only when nothing
      can change. */
  ghost predicate BusyRun(run: nat -> State) {
    forall i: nat :: BusyAt(run, i)
  }

  ghost predicate BusyAt(run: nat -> State, i: nat) { BusyStep(run(i), run(i + 1)) }

  ghost predicate ContendsAt(s: State, c: nat) { s.Live(c) && s.threads[c].pc.Contends() }

  /** Step k gives some live thread the lock. */
  ghost predicate AcquiresAt(run: nat -> State, k: nat) {
    exists t: nat :: !HoldsAt(run(k), t) && HoldsAt(run(k + 1), t)
  }

  function LiveWeight(dead: set<nat>, th: Thread): nat { if th.pid in dead then 0 else 1 }
  function IdleWeight(dead: set<nat>, th: Thread): nat { if th.pid !in dead && th.pc.Idle? then 1 else 0 }

  /** While no live process owns the lock: live threads, wakes owed, threads in no call, waiters unannounced, steps to
      the lock. */
  ghost function FreeRank(s: State): Rank {
    Rank(Sum(th => LiveWeight(s.dead, th), s.threads),
         Sum(th => WakingWeight(s.dead, th), s.threads),
         Sum(th => IdleWeight(s.dead, th), s.threads),
         if s.word.Owned? && !s.word.waiter then 1 else 0,
         Sum(th => LocalWeight(s.word, s.dead, th), s.threads))
  }

  lemma FreeRankUpdate(s: State, t: nat, word: Word, pc: Pc)
    requires t < |s.threads|
    ensures var r, r' := FreeRank(s), FreeRank(At(s, t, word, pc));
            var was, now := s.threads[t], Thread(s.threads[t].pid, pc);
            && r'.active == r.active
            && r'.waking + WakingWeight(s.dead, was) == r.waking + WakingWeight(s.dead, now)
            && r'.waiting + IdleWeight(s.dead, was) == r.waiting + IdleWeight(s.dead, now)
            && (word == s.word ==>
                  r'.local + LocalWeight(word, s.dead, was) == r.local + LocalWeight(word, s.dead, now))
  {
    var now := Thread(s.threads[t].pid, pc);
    SumUpdate(th => LiveWeight(s.dead, th), s.threads, t, now);
    SumUpdate(th => WakingWeight(s.dead, th), s.threads, t, now);
    SumUpdate(th => IdleWeight(s.dead, th), s.threads, t, now);
    SumUpdate(th => LocalWeight(s.word, s.dead, th), s.threads, t, now);
  }

  lemma CrashDescends(s: State, a: Action)
    requires a.Crash? && Busy(s, a)
    ensures FreeRank(Do(s, a)).active < FreeRank(s).active
  {
    var t: nat :| s.Live(t) && s.threads[t].pid == a.pid;
    SumFalls(th => LiveWeight(Do(s, a).dead, th), th => LiveWeight(s.dead, th), s.threads, t);
  }

  /** A step inside the lock call that does not get the lock brings it nearer. */
  lemma FreeLockStepDescends(s: State, t: nat)
    requires Inv(s) && Enabled(s, Advance(t)) && !LockStep(s, t).threads[t].pc.Held?
    ensures FreeRank(LockStep(s, t)).Below(FreeRank(s))
  {
    LockStepLowers(s, t);
    var s' := LockStep(s, t);
    FreeRankUpdate(s, t, s'.word, s'.threads[t].pc);
    assert s' == At(s, t, s'.word, s'.threads[t].pc).(rescues := s'.rescues);
  }

  /** Nobody gets the lock by this step. */
  ghost predicate NobodyAcquires(s: State, s': State) { forall t: nat :: HoldsAt(s', t) ==> HoldsAt(s, t) }

  /** A step by which nobody gets an available lock brings some acquire nearer, new calls and crashes included. */
  lemma FreeStepDescends(s: State, a: Action)
    requires Inv(s) && Busy(s, a) && Available(s) && NobodyAcquires(s, Do(s, a))
    ensures FreeRank(Do(s, a)).Below(FreeRank(s))
  {
    if a.Crash? {
      CrashDescends(s, a);
    } else if a.WakeOne? {
      FreeRankUpdate(s, a.u, s.word, Retry);
      FreeRankUpdate(At(s, a.u, s.word, Retry), a.t, s.word, Idle);
    } else if a.Advance? {
      assert !HoldsAt(s, a.t);
      FreeLockStepDescends(s, a.t);
    } else {
      PlainStep(s, a);
      FreeRankUpdate(s, a.t, s.word, Do(s, a).threads[a.t].pc);
    }
  }

  /** On an available lock, a trylock that does something gets it, and nobody unlocks. */
  lemma PlainStep(s: State, a: Action)
    requires Inv(s) && Busy(s, a) && Available(s)
    ensures || a.Crash? || a.WakeOne? || a.Advance? || a.Lock? || a.Timeout? || a.WakeNone?
            || !NobodyAcquires(s, Do(s, a))
  {
    if a.TryLock? {
      assert HoldsAt(Do(s, a), a.t) && !HoldsAt(s, a.t);
    }
  }

  /** An available lock nobody gets stays available, and contenders stay unless they crash. */
  lemma StaysAvailable(s: State, a: Action, c: nat)
    requires Inv(s) && Busy(s, a) && Available(s) && NobodyAcquires(s, Do(s, a)) && ContendsAt(s, c)
    ensures Available(Do(s, a)) && (Do(s, a).Live(c) ==> ContendsAt(Do(s, a), c))
  {
    if !a.Crash? {
      LockEffect(s, a);
      assert HoldsAt(Do(s, a), a.t) ==> HoldsAt(s, a.t);
    }
  }

  /** A contender for an available lock can always move. */
  lemma FreeContenderMoves(s: State, c: nat)
    requires Inv(s) && Available(s) && ContendsAt(s, c)
    ensures exists a :: Busy(s, a)
  {
    var a := if s.threads[c].pc.Asleep? then Timeout(c) else Advance(c);
    assert Enabled(s, a);
    AvailableDescends(s, a);
    assert Busy(s, a);
  }

  lemma {:induction false} AvailableLockIsTaken(run: nat -> State, i: nat, c: nat)
    requires BusyRun(run) && Inv(run(i)) && Available(run(i)) && ContendsAt(run(i), c)
    ensures exists k: nat :: i <= k && (AcquiresAt(run, k) || !run(k).Live(c))
    decreases FreeRank(run(i)).active, FreeRank(run(i)).waking, FreeRank(run(i)).waiting,
              FreeRank(run(i)).unmarked, FreeRank(run(i)).local
  {
    assert BusyAt(run, i);
    if NobodyAcquires(run(i), run(i + 1)) {
      FreeStep(run(i), run(i + 1), c);
      if run(i + 1).Live(c) {
        AvailableLockIsTaken(run, i + 1, c);
      }
    } else {
      assert AcquiresAt(run, i);
    }
  }

  lemma FreeStep(s: State, s': State, c: nat)
    requires Inv(s) && Available(s) && ContendsAt(s, c) && BusyStep(s, s') && NobodyAcquires(s, s')
    ensures Inv(s') && FreeRank(s').Below(FreeRank(s))
    ensures s'.Live(c) ==> Available(s') && ContendsAt(s', c)
  {
    FreeContenderMoves(s, c);
    var a :| Busy(s, a) && s' == Do(s, a);
    StepInv(s, a);
    FreeStepDescends(s, a);
    StaysAvailable(s, a, c);
  }

  /** While thread t holds, contenders stay unless they crash, and when it no longer holds the lock is available. */
  lemma HeldStep(s: State, s': State, t: nat, c: nat)
    requires Inv(s) && BusyStep(s, s') && HoldsAt(s, t) && ContendsAt(s, c)
    ensures Inv(s') && (s'.Live(c) ==> ContendsAt(s', c)) && (HoldsAt(s', t) || Available(s'))
  {
    if a :| Busy(s, a) && s' == Do(s, a) {
      StepInv(s, a);
      HoldStays(s, a, t);
      ContenderStays(s, a, t, c);
    }
  }

  lemma HoldStays(s: State, a: Action, t: nat)
    requires Inv(s) && Enabled(s, a) && HoldsAt(s, t)
    ensures HoldsAt(Do(s, a), t) || Available(Do(s, a))
  {
    if !a.Crash? {
      LockEffect(s, a);
    }
  }

  lemma ContenderStays(s: State, a: Action, t: nat, c: nat)
    requires Inv(s) && Enabled(s, a) && HoldsAt(s, t) && ContendsAt(s, c)
    ensures Do(s, a).Live(c) ==> ContendsAt(Do(s, a), c)
  {
    assert !Available(s);
  }

  lemma {:induction false} HeldLockIsFreed(run: nat -> State, i: nat, j: nat, t: nat, c: nat) returns (m: nat)
    requires BusyRun(run) && Inv(run(i)) && i <= j && HoldsAt(run(i), t) && !HoldsAt(run(j), t) && ContendsAt(run(i), c)
    ensures i < m && (run(m).Live(c) ==> Inv(run(m)) && Available(run(m)) && ContendsAt(run(m), c))
    decreases j - i
  {
    assert BusyAt(run, i);
    HeldStep(run(i), run(i + 1), t, c);
    if HoldsAt(run(i + 1), t) && run(i + 1).Live(c) {
      m := HeldLockIsFreed(run, i + 1, j, t, c);
    } else {
      m := i + 1;
    }
  }

  /** Progress under load and under crashes: with lock and trylock calls arriving, waits timing out and processes crashing
      all the time, as long as no live thread keeps the lock for ever, whenever a thread contends some live thread
      acquires the lock later, unless the contender's own process crashes. */
  lemma SomeoneAcquires(run: nat -> State, i: nat, c: nat)
    requires BusyRun(run) && HoldsEnd(run) && Inv(run(i)) && ContendsAt(run(i), c)
    ensures exists k: nat :: i <= k && (AcquiresAt(run, k) || !run(k).Live(c))
  {
    var s := run(i);
    if Available(s) {
      AvailableLockIsTaken(run, i, c);
    } else {
      var t: nat :| s.Live(t) && s.threads[t].pc.Held? && s.threads[t].pid == s.word.pid;
      assert HoldsAt(run(i), t) && HoldEnds(run, i, t);
      var j: nat :| i < j && !HoldsAt(run(j), t);
      var m := HeldLockIsFreed(run, i, j, t, c);
      if run(m).Live(c) {
        AvailableLockIsTaken(run, m, c);
      }
    }
  }

  /** The next state of a run in which a live holder unlocks before anything else happens. */
  ghost function HolderFirst(s: State): (s': State)
    ensures BusyStep(s, s')
  {
    if t: nat :| HoldsAt(s, t) then
      assert Enabled(s, Unlock(t)) && Do(s, Unlock(t)).threads[t] != s.threads[t];
      assert Busy(s, Unlock(t));
      Do(s, Unlock(t))
    else if a :| Busy(s, a) then Do(s, a)
    else s
  }

  ghost function HoldersFirst(s: State, i: nat): State {
    if i == 0 then s else HolderFirst(HoldersFirst(s, i - 1))
  }

  lemma HolderFirstMoves(s: State)
    requires Inv(s)
    ensures Inv(HolderFirst(s)) && forall t: nat :: HoldsAt(s, t) ==> !HoldsAt(HolderFirst(s), t)
  {
    var s' := HolderFirst(s);
    if a :| Busy(s, a) && s' == Do(s, a) {
      StepInv(s, a);
    }
  }

  lemma {:induction false} HoldersFirstIsSafe(s: State, i: nat)
    requires Inv(s)
    ensures Inv(HoldersFirst(s, i))
  {
    if i == 0 {
    } else {
      HoldersFirstIsSafe(s, i - 1);
      HolderFirstMoves(HoldersFirst(s, i - 1));
    }
  }

  /** Runs as SomeoneAcquires has them exist from every safe state. */
  lemma BusyRunExists(s: State) returns (run: nat -> State)
    requires Inv(s)
    ensures BusyRun(run) && HoldsEnd(run) && run(0) == s
  {
    run := (i: nat) => HoldersFirst(s, i);
    forall i: nat
      ensures BusyAt(run, i)
    {
      assert run(i + 1) == HolderFirst(run(i));
    }
    forall i: nat, t: nat | HoldsAt(run(i), t)
      ensures HoldEnds(run, i, t)
    {
      HoldersFirstIsSafe(s, i);
      HolderFirstMoves(HoldersFirst(s, i));
      assert HoldersFirst(s, i + 1) == HolderFirst(HoldersFirst(s, i));
      assert !HoldsAt(run(i + 1), t);
    }
  }

  // ---------------------------------------------------------------- what a call leads to

  /** The state after the first k steps of a run. */
  ghost function StateAt(s: State, run: seq<Action>, k: nat): State
    requires Legal(s, run) && k <= |run|
    decreases k
  {
    if k == 0 then s else StateAt(Do(s, run[0]), run[1..], k - 1)
  }

  ghost predicate InCall(s: State, t: nat) { t < |s.threads| && s.threads[t].pc.Contends() }
  ghost predicate InHold(s: State, t: nat) { t < |s.threads| && s.threads[t].pc.Held? }

  ghost predicate OthersStay(s: State, s': State, t: nat) {
    && |s'.threads| == |s.threads| && s'.dead == s.dead
    && forall u: nat :: u < |s.threads| && u != t ==> s'.threads[u] == s.threads[u]
  }

  /** A call of lock begins to contend, whatever the word is and whoever owns it, and does nothing else. */
  lemma LockContends(s: State, t: nat)
    requires Enabled(s, Lock(t))
    ensures var s' := Do(s, Lock(t));
            InCall(s', t) && !InHold(s', t) && s'.word == s.word && OthersStay(s, s', t)
  {
  }

  /** A lock call that has begun goes on until it holds the lock, whatever any thread does; a crash of its process leaves
      it where it is. */
  lemma CallGoesOn(s: State, a: Action, t: nat)
    requires Enabled(s, a) && InCall(s, t)
    ensures InCall(Do(s, a), t) || InHold(Do(s, a), t)
    ensures a.Crash? ==> InCall(Do(s, a), t)
  {
  }

  /** Over runs, crashes included: a lock call that has begun and is over has held the lock in between. */
  lemma {:induction false} EndsAsHolder(s: State, run: seq<Action>, t: nat) returns (k: nat)
    requires Legal(s, run) && InCall(s, t) && !InCall(Exec(s, run), t)
    ensures 0 < k <= |run| && InHold(StateAt(s, run, k), t)
    decreases |run|
  {
    var s' := Do(s, run[0]);
    CallGoesOn(s, run[0], t);
    if InHold(s', t) {
      k := 1;
      assert StateAt(s', run[1..], 0) == s';
    } else {
      k := EndsAsHolder(s', run[1..], t);
      k := k + 1;
    }
  }

  /** lock returns only to a holder: a thread that has called it and no longer contends has held the lock since. */
  lemma LockReturnsToHolder(s: State, run: seq<Action>, t: nat) returns (k: nat)
    requires Legal(s, run) && run != [] && run[0] == Lock(t) && !InCall(Exec(s, run), t)
    ensures 1 < k <= |run| && InHold(StateAt(s, run, k), t)
  {
    LockContends(s, t);
    k := EndsAsHolder(Do(s, run[0]), run[1..], t);
    k := k + 1;
  }

  /** trylock holds the lock afterwards if and only if the word was 0; then the word is the caller's pid, otherwise
      nothing changed, be the owner alive or dead. It never waits and never takes a lock over. */
  lemma TryLockDecides(s: State, t: nat)
    requires Enabled(s, TryLock(t))
    ensures var s' := Do(s, TryLock(t));
            && (InHold(s', t) <==> s.word.Free?) && !InCall(s', t)
            && (s.word.Free? ==> s'.word.Bits() == s.threads[t].pid && s'.threads[t].pc == Held(0) && OthersStay(s, s', t))
            && (s.word.Owned? ==> s' == s)
    ensures s.word.Proper() ==> (s.word.Free? <==> s.word.Bits() == 0)
  {
  }

  /** What lock returns: 0 for a free lock, and for one taken over the pid of the dead owner. */
  lemma LockTellsOwner(s: State, t: nat)
    requires Inv(s) && Enabled(s, Advance(t)) && InHold(Do(s, Advance(t)), t)
    ensures var s' := Do(s, Advance(t));
            && s'.threads[t].pc.from == (if s.word.Free? then 0 else s.word.pid)
            && (s.word.Owned? ==> s.word.pid in s.dead && s.word.pid != s.threads[t].pid)
            && s'.word.Owned? && s'.word.pid == s.threads[t].pid
            && (s'.word.waiter <==> !s.threads[t].pc.First?)
  {
  }

  /** unlock leaves the word free and the lock to others; it is over then unless the waiter bit was set, when it wakes one
      sleeper, if any live one sleeps, and no other. */
  lemma UnlockReleases(s: State, t: nat)
    requires Inv(s)
    ensures Enabled(s, Unlock(t)) ==>
              var s' := Do(s, Unlock(t));
              s'.word.Free? && OthersStay(s, s', t) && s'.threads[t].pc == if s.word.waiter then Waking else Idle
    ensures forall u: nat :: Enabled(s, WakeOne(t, u)) ==>
              var s' := Do(s, WakeOne(t, u));
              && s'.word == s.word && s'.dead == s.dead && |s'.threads| == |s.threads|
              && s'.threads[t].pc == Idle && s'.threads[u].pc == Retry
              && forall v: nat :: v < |s.threads| && v != t && v != u ==> s'.threads[v] == s.threads[v]
    ensures Enabled(s, WakeNone(t)) ==>
              var s' := Do(s, WakeNone(t));
              s'.word == s.word && OthersStay(s, s', t) && s'.threads[t].pc == Idle && !SomeAsleep(s)
  {
  }
}
