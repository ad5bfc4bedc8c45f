/** The shared session list of addon/example/mtpostmt.c: a singly linked list of heap nodes, its head s_psession_list
    and the test-and-set spinlock s_lock, used by the callbacks of any number of sessions at once.

    Every test-and-set, every spin read, every unlock and every hop or assignment along the list pointers is one atomic
    step; unlinking, which reads one pointer and writes another, is one step under the lock.
    The server runs at most one callback per session at a time, so a session is also the thread of its callback.
    malloc may hand out any address that is not allocated, reused ones included; a step that dereferences or frees an
    address that is not allocated leads to Fault.
  */
module SessionList {
  import opened Sequences

  datatype Ptr = Null | To(node: nat)

  datatype Node = Node(session: nat, count: int, next: Ptr)

  /** What a callback wants the lock for. */
  datatype Job =
    | Insert(n: nat)        // process_req, new node
    | Count(n: nat, r: int) // add r received bytes
    | Compare(n: nat)       // read_req_body, is the body complete?
    | Free(n: nat)          // session_listFree
    | Find                  // session_listFind for read_req_body

  /** What a callback does after releasing the lock. */
  datatype After = Return | Work(n: nat) | Dispose(n: nat)

  datatype Pc =
    | Outside                             // no callback of this session is running
    | Working(n: nat)                     // in a callback, lock not held
    | Enter(spinning: bool, job: Job)     // LOCK_TEST_AND_SET: the exchange, or the inner read loop
    | InsertLink(n: nat)                  // node->next = head
    | InsertHead(n: nat)                  // head = node
    | Adding(n: nat, r: int)              // node->count += r
    | Comparing(n: nat)                   // node->count >= content length?
    | FreeTest(n: nat)                    // is the list empty, or the node its head?
    | FreeRoot(n: nat)                    // head = node->next
    | FreeWalk(n: nat, last: nat)         // look at last->next
    | FreeLink(n: nat, last: nat)         // last->next = node->next
    | FreeNode(n: nat)                    // free(node)
    | FindWalk(cur: Ptr)                  // look at cur
    | Leave(after: After)                 // UNLOCK_TEST_AND_SET
    | FreeError                           // session_listFree did not find its node
    | Fault                               // an access to memory that is not allocated
  {
    /** Between a successful test-and-set and the unlock. */
    predicate Inside() { !Outside? && !Working? && !Enter? }

    /** The node this callback owns that is in the list. */
    function Published(): Ptr {
      match this
      case Working(n) => To(n)
      case Enter(_, Count(n, _)) => To(n)
      case Enter(_, Compare(n)) => To(n)
      case Enter(_, Free(n)) => To(n)
      case Adding(n, _) => To(n)
      case Comparing(n) => To(n)
      case FreeTest(n) => To(n)
      case FreeRoot(n) => To(n)
      case FreeWalk(n, _) => To(n)
      case FreeLink(n, _) => To(n)
      case Leave(Work(n)) => To(n)
      case Leave(Dispose(n)) => To(n)
      case _ => Null
    }

    /** The node this callback owns that is not in the list: not yet, or no longer. */
    function Private(): Ptr {
      match this
      case Enter(_, Insert(n)) => To(n)
      case InsertLink(n) => To(n)
      case InsertHead(n) => To(n)
      case FreeNode(n) => To(n)
      case _ => Null
    }
  }

  /** order records what the list should be: a node is put in front when it is published and taken out when it is
      unlinked. No step reads it. */
  datatype State = State(locked: bool, head: Ptr, heap: map<nat, Node>, threads: seq<Pc>, order: seq<nat>)

  datatype Action =
    | ProcessReq(t: nat, address: nat)  // the server calls process_req; malloc returns address
    | ReadBody(t: nat)                  // the server calls read_req_body
    | Received(t: nat, r: int)          // the callback read r > 0 bytes
    | CheckDone(t: nat)                 // read_req_body looks whether the body is complete
    | Finish(t: nat)                    // read error, or process_req sends its response
    | GoBack(t: nat)                    // the callback returns and keeps the node
    | Step(t: nat, contentLength: int)  // the next atomic step

  function Init(sessions: nat): State {
    State(false, Null, map[], seq(sessions, _ => Outside), [])
  }

  predicate Enabled(s: State, a: Action) {
    && a.t < |s.threads|
    && var pc := s.threads[a.t];
       match a
       case ProcessReq(_, address) => pc.Outside? && address !in s.heap
       case ReadBody(_) => pc.Outside?
       case Received(_, r) => pc.Working? && r > 0
       case CheckDone(_) => pc.Working?
       case Finish(_) => pc.Working?
       case GoBack(_) => pc.Working?
       case Step(_, _) => !pc.Outside? && !pc.Working? && !pc.FreeError? && !pc.Fault?
  }

  function Goto(s: State, t: nat, pc: Pc): State
    requires t < |s.threads|
  {
    s.(threads := s.threads[t := pc])
  }

  /** The first step under the lock. */
  function Begin(job: Job, head: Ptr): Pc {
    match job
    case Insert(n) => InsertLink(n)
    case Count(n, r) => Adding(n, r)
    case Compare(n) => Comparing(n)
    case Free(n) => FreeTest(n)
    case Find => FindWalk(head)
  }

  function Resume(after: After): Pc {
    match after
    case Return => Outside
    case Work(n) => Working(n)
    case Dispose(n) => Enter(false, Free(n))
  }

  /** The node a step of this kind dereferences. */
  function Touches(pc: Pc): Ptr {
    match pc
    case InsertLink(n) => To(n)
    case Adding(n, _) => To(n)
    case Comparing(n) => To(n)
    case FreeTest(n) => To(n)
    case FreeRoot(n) => To(n)
    case FreeWalk(_, last) => To(last)
    case FreeLink(n, _) => To(n)
    case FreeNode(n) => To(n)
    case FindWalk(cur) => cur
    case _ => Null
  }

  // The writes of a step, each under the lock and by thread t.

  function Linked(s: State, t: nat, n: nat): State
    requires t < |s.threads| && n in s.heap
  {
    Goto(s, t, InsertHead(n)).(heap := s.heap[n := s.heap[n].(next := s.head)])
  }

  function Prepended(s: State, t: nat, n: nat): State
    requires t < |s.threads|
  {
    Goto(s, t, Leave(Work(n))).(head := To(n), order := [n] + s.order)
  }

  function Counted(s: State, t: nat, n: nat, r: int): State
    requires t < |s.threads| && n in s.heap
  {
    Goto(s, t, Leave(Work(n))).(heap := s.heap[n := s.heap[n].(count := s.heap[n].count + r)])
  }

  function RootUnlinked(s: State, t: nat, n: nat): State
    requires t < |s.threads| && n in s.heap
  {
    Goto(s, t, FreeNode(n)).(head := s.heap[n].next, order := Without(s.order, n))
  }

  function Unlinked(s: State, t: nat, n: nat, last: nat): State
    requires t < |s.threads| && n in s.heap && last in s.heap
  {
    Goto(s, t, FreeNode(n)).(heap := s.heap[last := s.heap[last].(next := s.heap[n].next)], order := Without(s.order, n))
  }

  function Released(s: State, t: nat, n: nat): State
    requires t < |s.threads|
  {
    Goto(s, t, Leave(Return)).(heap := s.heap - {n})
  }

  /** The next step of thread t. */
  function Advance(s: State, t: nat, contentLength: int): State
    requires Enabled(s, Step(t, contentLength))
  {
    var pc := s.threads[t];
    if Touches(pc).To? && Touches(pc).node !in s.heap then Goto(s, t, Fault)
    else
    match pc
    case Enter(false, job) =>
      if s.locked then Goto(s, t, Enter(true, job)) else Goto(s, t, Begin(job, s.head)).(locked := true)
    case Enter(true, job) => if s.locked then s else Goto(s, t, Enter(false, job))
    case InsertLink(n) => Linked(s, t, n)
    case InsertHead(n) => Prepended(s, t, n)
    case Adding(n, r) => Counted(s, t, n, r)
    case Comparing(n) => Goto(s, t, Leave(if s.heap[n].count >= contentLength then Dispose(n) else Return))
    case FreeTest(n) =>
      Goto(s, t, if s.head.Null? then FreeError else if s.head == To(n) then FreeRoot(n) else FreeWalk(n, s.head.node))
    case FreeRoot(n) => RootUnlinked(s, t, n)
    case FreeWalk(n, last) =>
      var next := s.heap[last].next;
      Goto(s, t, if next.Null? then FreeError else if next == To(n) then FreeLink(n, last) else FreeWalk(n, next.node))
    case FreeLink(n, last) => if last !in s.heap then Goto(s, t, Fault) else Unlinked(s, t, n, last)
    case FreeNode(n) => Released(s, t, n)
    case FindWalk(cur) =>
      if cur.Null? then Goto(s, t, Leave(Return))
      else if s.heap[cur.node].session == t then Goto(s, t, Leave(Work(cur.node)))
      else Goto(s, t, FindWalk(s.heap[cur.node].next))
    case Leave(after) => Goto(s, t, Resume(after)).(locked := false)
  }

  function Do(s: State, a: Action): State
    requires Enabled(s, a)
  {
    match a
    case ProcessReq(t, address) =>
      Goto(s, t, Enter(false, Insert(address))).(heap := s.heap[address := Node(t, 0, Null)])
    case ReadBody(t) => Goto(s, t, Enter(false, Find))
    case Received(t, r) => Goto(s, t, Enter(false, Count(s.threads[t].n, r)))
    case CheckDone(t) => Goto(s, t, Enter(false, Compare(s.threads[t].n)))
    case Finish(t) => Goto(s, t, Enter(false, Free(s.threads[t].n)))
    case GoBack(t) => Goto(s, t, Outside)
    case Step(t, contentLength) => Advance(s, t, contentLength)
  }

  // ---------------------------------------------------------------- what every reachable state satisfies

  /** The linked list starting at head spells exactly order: all its nodes are allocated and distinct, and following
      next visits them in order and ends. */
  ghost predicate Chain(head: Ptr, heap: map<nat, Node>, order: seq<nat>) {
    && head == LinkAt(order, 0)
    && (forall i :: 0 <= i < |order| ==> order[i] in heap)
    && (forall i {:trigger LinkedOn(heap, order, i)} :: 0 <= i < |order| ==> LinkedOn(heap, order, i))
    && (forall i, j :: 0 <= i < j < |order| ==> order[i] != order[j])
  }

  /** The node at position i points to the one at position i + 1. */
  ghost predicate LinkedOn(heap: map<nat, Node>, order: seq<nat>, i: nat) {
    i < |order| && order[i] in heap && heap[order[i]].next == LinkAt(order, i + 1)
  }

  function LinkAt(order: seq<nat>, i: nat): Ptr {
    if i < |order| then To(order[i]) else Null
  }

  /** The lock is set exactly while one thread is inside, and never two are. */
  ghost predicate Exclusive(s: State) {
    && (forall t, u :: 0 <= t < |s.threads| && 0 <= u < |s.threads| && s.threads[t].Inside() && s.threads[u].Inside()
          ==> t == u)
    && (s.locked <==> exists t :: 0 <= t < |s.threads| && s.threads[t].Inside())
  }

  /** Every callback's node is allocated, carries its session, and is or is not in the list as it should. */
  ghost predicate Owns(s: State, t: nat)
    requires t < |s.threads|
  {
    var pub, priv := s.threads[t].Published(), s.threads[t].Private();
    && (pub.To? ==> pub.node in s.heap && s.heap[pub.node].session == t && pub.node in s.order)
    && (priv.To? ==> priv.node in s.heap && s.heap[priv.node].session == t && priv.node !in s.order)
  }

  /** Where a walk under the lock stands. */
  ghost predicate OnTrack(s: State, t: nat)
    requires t < |s.threads|
  {
    match s.threads[t]
    case InsertHead(n) => n in s.heap && s.heap[n].next == s.head
    case FreeRoot(n) => s.head == To(n)
    case FreeWalk(n, last) => exists i, j :: 0 <= i < j < |s.order| && s.order[i] == last && s.order[j] == n
    case FreeLink(n, last) => exists j :: 0 < j < |s.order| && s.order[j - 1] == last && s.order[j] == n
    case FindWalk(cur) => exists k :: 0 <= k <= |s.order| && cur == LinkAt(s.order, k) && NoneBefore(s, t, k)
    case FreeError => false
    case Fault => false
    case _ => true
  }

  ghost predicate NoneBefore(s: State, t: nat, k: nat) {
    forall i :: 0 <= i < k && i < |s.order| ==> s.order[i] in s.heap && s.heap[s.order[i]].session != t
  }

  /** No node leaks: what session t has allocated is in the list or about to be inserted or freed by its callback. */
  ghost predicate NoLeak(s: State, t: nat)
    requires t < |s.threads|
  {
    forall n :: n in s.heap && s.heap[n].session == t && n !in s.order ==> s.threads[t].Private() == To(n)
  }

  ghost predicate Ready(s: State, t: nat)
    requires t < |s.threads|
  {
    Owns(s, t) && OnTrack(s, t) && NoLeak(s, t)
  }

  ghost predicate Inv(s: State) {
    && Chain(s.head, s.heap, s.order)
    && Exclusive(s)
    && (forall t :: 0 <= t < |s.threads| ==> Ready(s, t))
    && (forall n :: n in s.heap ==> s.heap[n].session < |s.threads|)
  }

  lemma InitInv(sessions: nat)
    ensures Inv(Init(sessions))
  {
  }

  /** A thread gets inside only by setting a clear lock, leaves only by clearing it, and touches it nowhere else. In
      particular no path tries to take the lock while inside, and none returns to the server without releasing it. */
  lemma LockDiscipline(s: State, a: Action)
    requires Enabled(s, a)
    ensures var s', t := Do(s, a), a.t;
            && |s'.threads| == |s.threads|
            && (forall u :: 0 <= u < |s.threads| && u != t ==> s'.threads[u] == s.threads[u])
            && (!s.threads[t].Inside() && s'.threads[t].Inside() ==> !s.locked && s'.locked)
            && (s.threads[t].Inside() && !s'.threads[t].Inside() ==> !s'.locked)
            && (s.threads[t].Inside() == s'.threads[t].Inside() ==> s'.locked == s.locked)
  {
  }

  lemma StepExclusive(s: State, a: Action)
    requires Exclusive(s) && Enabled(s, a)
    ensures Exclusive(Do(s, a))
  {
    LockDiscipline(s, a);
    ExclusiveFrame(s, Do(s, a), a.t);
  }

  lemma ExclusiveFrame(s: State, s': State, t: nat)
    requires Exclusive(s) && t < |s.threads| && |s'.threads| == |s.threads|
    requires forall u :: 0 <= u < |s.threads| && u != t ==> s'.threads[u] == s.threads[u]
    requires !s.threads[t].Inside() && s'.threads[t].Inside() ==> !s.locked && s'.locked
    requires s.threads[t].Inside() && !s'.threads[t].Inside() ==> !s'.locked
    requires s.threads[t].Inside() == s'.threads[t].Inside() ==> s'.locked == s.locked
    ensures Exclusive(s')
  {
    forall u | 0 <= u < |s.threads| && u != t && s'.threads[u].Inside()
      ensures s.threads[u].Inside() && s.locked && !s.threads[t].Inside()
    {
    }
    if s'.locked && !s'.threads[t].Inside() {
      var u :| 0 <= u < |s.threads| && s.threads[u].Inside();
      assert s'.threads[u].Inside();
    }
  }

  /** Unlinking the node at position k keeps the chain of the others. */
  lemma ChainWithoutRoot(head: Ptr, heap: map<nat, Node>, order: seq<nat>)
    requires Chain(head, heap, order) && order != []
    ensures Chain(heap[order[0]].next, heap, Without(order, order[0])) && order[0] !in Without(order, order[0])
  {
    assert LinkedOn(heap, order, 0);
    forall i | 0 <= i < |order| - 1
      ensures LinkedOn(heap, order[1..], i)
    {
      assert LinkedOn(heap, order, i + 1);
    }
  }

  lemma ChainWithout(head: Ptr, heap: map<nat, Node>, order: seq<nat>, k: nat, heap': map<nat, Node>)
    requires Chain(head, heap, order) && 0 < k < |order|
    requires heap' == heap[order[k - 1] := heap[order[k - 1]].(next := heap[order[k]].next)]
    ensures Chain(head, heap', Without(order, order[k])) && order[k] !in Without(order, order[k])
  {
    WithoutAt(order, k);
    var rest := order[..k] + order[k + 1..];
    forall i | 0 <= i < |rest|
      ensures LinkedOn(heap', rest, i)
    {
      LinkedWithout(head, heap, order, k, heap', i);
    }
    DistinctWithout(order, k);
  }

  lemma LinkedWithout(head: Ptr, heap: map<nat, Node>, order: seq<nat>, k: nat, heap': map<nat, Node>, i: nat)
    requires Chain(head, heap, order) && 0 < k < |order| && i < |order| - 1
    requires heap' == heap[order[k - 1] := heap[order[k - 1]].(next := heap[order[k]].next)]
    ensures LinkedOn(heap', order[..k] + order[k + 1..], i)
  {
    var rest := order[..k] + order[k + 1..];
    var j := if i < k then i else i + 1;
    assert rest[i] == order[j];
    assert i + 1 < |rest| ==> rest[i + 1] == order[if i + 1 < k then i + 1 else i + 2];
    assert LinkedOn(heap, order, if i == k - 1 then k else j);
    assert j != k - 1 ==> order[j] != order[k - 1];
  }

  lemma DistinctWithout(order: seq<nat>, k: nat)
    requires k < |order| && forall i, j :: 0 <= i < j < |order| ==> order[i] != order[j]
    ensures var rest := order[..k] + order[k + 1..];
            && order[k] !in rest
            && (forall i :: 0 <= i < |rest| ==> rest[i] in order)
            && forall i, j :: 0 <= i < j < |rest| ==> rest[i] != rest[j]
  {
    var rest := order[..k] + order[k + 1..];
    assert forall i :: 0 <= i < |rest| ==> rest[i] == order[if i < k then i else i + 1];
  }

  /** Writing to a node without moving its next, or to a node outside the list, keeps the chain. */
  lemma ChainFrame(head: Ptr, heap: map<nat, Node>, order: seq<nat>, heap': map<nat, Node>)
    requires Chain(head, heap, order)
    requires forall m :: m in order ==> m in heap' && heap'[m].next == heap[m].next
    ensures Chain(head, heap', order)
  {
    forall i | 0 <= i < |order|
      ensures LinkedOn(heap', order, i)
    {
      assert LinkedOn(heap, order, i);
    }
  }

  lemma ChainPrepend(head: Ptr, heap: map<nat, Node>, order: seq<nat>, n: nat)
    requires Chain(head, heap, order) && n in heap && heap[n].next == head && n !in order
    ensures Chain(To(n), heap, [n] + order)
  {
    forall i | 0 <= i < |order| + 1
      ensures LinkedOn(heap, [n] + order, i)
    {
      assert i > 0 ==> LinkedOn(heap, order, i - 1);
    }
  }

  /** The nodes of the other sessions are the same, and in the list or not as before. */
  ghost predicate SameOthers(s: State, s': State, t: nat) {
    && (forall m :: m in s.heap && s.heap[m].session != t ==>
          && m in s'.heap && s'.heap[m].session == s.heap[m].session && (m in s'.order <==> m in s.order))
    && (forall m :: m in s'.heap && s'.heap[m].session != t ==> m in s.heap && s.heap[m].session == s'.heap[m].session)
  }

  /** What a step of session t leaves behind: a good list, its own bookkeeping in order, the nodes of the other sessions
      untouched, and from outside the lock nothing changed but at most a private allocation. */
  ghost predicate GoodStep(s: State, s': State, t: nat)
    requires t < |s.threads|
  {
    && Chain(s'.head, s'.heap, s'.order)
    && t < |s'.threads|
    && Ready(s', t)
    && SameOthers(s, s', t)
    && (!s.threads[t].Inside() ==>
          s'.head == s.head && s'.order == s.order && forall m :: m in s.heap ==> m in s'.heap && s'.heap[m] == s.heap[m])
  }

  ghost predicate Sound(s: State, t: nat) {
    t < |s.threads| && Chain(s.head, s.heap, s.order) && Ready(s, t)
  }

  /** A step that leaves the list alone. */
  lemma QuietGood(s: State, t: nat, pc: Pc, locked: bool)
    requires Sound(s, t)
    requires pc.Private() == s.threads[t].Private()
    requires pc.Published() == s.threads[t].Published() || pc.Published().Null?
             || (pc.Published().node in s.heap && s.heap[pc.Published().node].session == t && pc.Published().node in s.order)
    requires OnTrack(Goto(s, t, pc), t)
    ensures GoodStep(s, Goto(s, t, pc).(locked := locked), t)
  {
  }

  lemma AllocateGood(s: State, t: nat, n: nat)
    requires Sound(s, t) && s.threads[t].Outside? && n !in s.heap
    ensures GoodStep(s, Do(s, ProcessReq(t, n)), t)
  {
    ChainFrame(s.head, s.heap, s.order, Do(s, ProcessReq(t, n)).heap);
  }

  lemma LinkedGood(s: State, t: nat, n: nat)
    requires Sound(s, t) && s.threads[t] == InsertLink(n)
    ensures GoodStep(s, Linked(s, t, n), t)
  {
    ChainFrame(s.head, s.heap, s.order, Linked(s, t, n).heap);
  }

  lemma PrependedGood(s: State, t: nat, n: nat)
    requires Sound(s, t) && s.threads[t] == InsertHead(n)
    ensures GoodStep(s, Prepended(s, t, n), t)
  {
    ChainPrepend(s.head, s.heap, s.order, n);
  }

  lemma CountedGood(s: State, t: nat, n: nat, r: int)
    requires Sound(s, t) && s.threads[t] == Adding(n, r)
    ensures GoodStep(s, Counted(s, t, n, r), t)
  {
    ChainFrame(s.head, s.heap, s.order, Counted(s, t, n, r).heap);
  }

  lemma RootUnlinkedGood(s: State, t: nat, n: nat)
    requires Sound(s, t) && s.threads[t] == FreeRoot(n)
    ensures GoodStep(s, RootUnlinked(s, t, n), t)
  {
    var s' := RootUnlinked(s, t, n);
    ChainWithoutRoot(s.head, s.heap, s.order);
    WithoutKeeps(s.order, n);
  }

  lemma UnlinkedGood(s: State, t: nat, n: nat, last: nat)
    requires Sound(s, t) && s.threads[t] == FreeLink(n, last)
    ensures last in s.heap && GoodStep(s, Unlinked(s, t, n, last), t)
  {
    var j :| 0 < j < |s.order| && s.order[j - 1] == last && s.order[j] == n;
    var s' := Unlinked(s, t, n, last);
    ChainWithout(s.head, s.heap, s.order, j, s'.heap);
    WithoutKeeps(s.order, n);
    UnlinkedNodes(s, s', t, n, last);
  }

  lemma UnlinkedNodes(s: State, s': State, t: nat, n: nat, last: nat)
    requires t < |s.threads| && Owns(s, t) && NoLeak(s, t) && s.threads[t] == FreeLink(n, last) && last in s.heap
    requires s' == Unlinked(s, t, n, last) && n !in s'.order
    requires forall m :: m != n ==> (m in s'.order <==> m in s.order)
    requires s.heap[n].session == t
    ensures Owns(s', t) && NoLeak(s', t) && SameOthers(s, s', t)
  {
    assert forall m :: m in s'.heap <==> m in s.heap;
    assert forall m :: m in s.heap ==> s'.heap[m].session == s.heap[m].session;
  }

  lemma ReleasedGood(s: State, t: nat, n: nat)
    requires Sound(s, t) && s.threads[t] == FreeNode(n)
    ensures GoodStep(s, Released(s, t, n), t)
  {
    ChainFrame(s.head, s.heap, s.order, Released(s, t, n).heap);
  }

  lemma WithoutKeeps(order: seq<nat>, n: nat)
    ensures forall m :: m != n ==> (m in Without(order, n) <==> m in order)
  {
    forall m | m != n
      ensures m in Without(order, n) <==> m in order
    {
      WithoutMembers(order, n, m);
    }
  }

  lemma EnterGood(s: State, t: nat, contentLength: int)
    requires Sound(s, t) && s.threads[t].Enter?
    ensures GoodStep(s, Advance(s, t, contentLength), t)
  {
    var job := s.threads[t].job;
    var s' := Advance(s, t, contentLength);
    if job.Find? {
      assert s.head == LinkAt(s.order, 0) && NoneBefore(s, t, 0);
    }
    QuietGood(s, t, s'.threads[t], s'.locked);
  }

  lemma FreeTestGood(s: State, t: nat, contentLength: int)
    requires Sound(s, t) && s.threads[t].FreeTest?
    ensures GoodStep(s, Advance(s, t, contentLength), t)
  {
    var n := s.threads[t].n;
    var j :| 0 <= j < |s.order| && s.order[j] == n;
    var s' := Advance(s, t, contentLength);
    if j > 0 {
      assert s'.threads[t] == FreeWalk(n, s.order[0]);
      assert OnTrack(Goto(s, t, FreeWalk(n, s.order[0])), t);
    }
    QuietGood(s, t, s'.threads[t], s.locked);
  }

  /** The walk of session_listFree never runs off the list: its node is still ahead. */
  lemma FreeWalkGood(s: State, t: nat, contentLength: int)
    requires Sound(s, t) && s.threads[t].FreeWalk?
    ensures GoodStep(s, Advance(s, t, contentLength), t)
  {
    var n, last := s.threads[t].n, s.threads[t].last;
    var i, j :| 0 <= i < j < |s.order| && s.order[i] == last && s.order[j] == n;
    assert LinkedOn(s.heap, s.order, i);
    var s' := Advance(s, t, contentLength);
    if j == i + 1 {
      assert OnTrack(Goto(s, t, FreeLink(n, last)), t);
    } else {
      assert s'.threads[t] == FreeWalk(n, s.order[i + 1]);
      assert OnTrack(Goto(s, t, FreeWalk(n, s.order[i + 1])), t);
    }
    QuietGood(s, t, s'.threads[t], s.locked);
  }

  lemma FindGood(s: State, t: nat, contentLength: int)
    requires Sound(s, t) && s.threads[t].FindWalk?
    ensures GoodStep(s, Advance(s, t, contentLength), t)
  {
    var cur := s.threads[t].cur;
    var k :| 0 <= k <= |s.order| && cur == LinkAt(s.order, k) && NoneBefore(s, t, k);
    if cur.Null? {
      QuietGood(s, t, Leave(Return), s.locked);
    } else if s.heap[cur.node].session == t {
      QuietGood(s, t, Leave(Work(cur.node)), s.locked);
    } else {
      FindOnTrack(s, t, k);
      QuietGood(s, t, FindWalk(s.heap[cur.node].next), s.locked);
    }
  }

  lemma FindOnTrack(s: State, t: nat, k: nat)
    requires t < |s.threads| && Chain(s.head, s.heap, s.order) && k < |s.order| && NoneBefore(s, t, k)
    requires s.heap[s.order[k]].session != t
    ensures OnTrack(Goto(s, t, FindWalk(s.heap[s.order[k]].next)), t)
  {
    assert LinkedOn(s.heap, s.order, k);
    assert NoneBefore(Goto(s, t, FindWalk(s.heap[s.order[k]].next)), t, k + 1);
  }

  /** session_listFind returns the session's first node in the list, and nothing exactly when the list holds none of
      its nodes. */
  lemma FindResult(s: State, t: nat, contentLength: int)
    requires Inv(s) && t < |s.threads| && s.threads[t].FindWalk?
    requires Advance(s, t, contentLength).threads[t].Leave?
    ensures var after := Advance(s, t, contentLength).threads[t].after;
            match after
            case Return => forall i :: 0 <= i < |s.order| ==> s.heap[s.order[i]].session != t
            case Work(n) => exists k :: 0 <= k < |s.order| && s.order[k] == n && s.heap[n].session == t
                                        && NoneBefore(s, t, k)
            case Dispose(_) => false
  {
    assert Ready(s, t);
    var cur := s.threads[t].cur;
    var k :| 0 <= k <= |s.order| && cur == LinkAt(s.order, k) && NoneBefore(s, t, k);
  }

  lemma AdvanceGood(s: State, t: nat, contentLength: int)
    requires Sound(s, t) && Enabled(s, Step(t, contentLength))
    ensures GoodStep(s, Advance(s, t, contentLength), t)
  {
    var pc := s.threads[t];
    if pc.Enter? {
      EnterGood(s, t, contentLength);
    } else if pc.InsertLink? {
      LinkedGood(s, t, pc.n);
    } else if pc.InsertHead? {
      PrependedGood(s, t, pc.n);
    } else if pc.Adding? {
      CountedGood(s, t, pc.n, pc.r);
    } else if pc.FreeTest? {
      FreeTestGood(s, t, contentLength);
    } else if pc.FreeRoot? {
      RootUnlinkedGood(s, t, pc.n);
    } else if pc.FreeWalk? {
      FreeWalkGood(s, t, contentLength);
    } else if pc.FreeLink? {
      UnlinkedGood(s, t, pc.n, pc.last);
    } else if pc.FreeNode? {
      ReleasedGood(s, t, pc.n);
    } else if pc.FindWalk? {
      FindGood(s, t, contentLength);
    } else {
      LeaveGood(s, t, contentLength);
    }
  }

  lemma LeaveGood(s: State, t: nat, contentLength: int)
    requires Sound(s, t) && (s.threads[t].Comparing? || s.threads[t].Leave?)
    ensures GoodStep(s, Advance(s, t, contentLength), t)
  {
    var s' := Advance(s, t, contentLength);
    QuietGood(s, t, s'.threads[t], s'.locked);
  }

  lemma StepGood(s: State, a: Action)
    requires Sound(s, a.t) && Enabled(s, a)
    ensures GoodStep(s, Do(s, a), a.t)
  {
    match a
    case Step(t, contentLength) => AdvanceGood(s, t, contentLength);
    case ProcessReq(t, address) => AllocateGood(s, t, address);
    case _ => QuietGood(s, a.t, Do(s, a).threads[a.t], s.locked);
  }

  /** The other sessions are as ready after a good step as before. */
  lemma OtherReady(s: State, s': State, t: nat, u: nat)
    requires t < |s.threads| && u < |s.threads| && u != t && |s'.threads| == |s.threads|
    requires Ready(s, u) && GoodStep(s, s', t) && s'.threads[u] == s.threads[u]
    requires s.threads[u].Inside() ==> !s.threads[t].Inside()
    ensures Ready(s', u)
  {
    match s.threads[u]
    case FindWalk(cur) =>
      var k :| 0 <= k <= |s.order| && cur == LinkAt(s.order, k) && NoneBefore(s, u, k);
      assert NoneBefore(s', u, k);
    case _ =>
  }

  lemma StepInv(s: State, a: Action)
    requires Inv(s) && Enabled(s, a)
    ensures Inv(Do(s, a)) && |Do(s, a).threads| == |s.threads|
  {
    var s' := Do(s, a);
    StepExclusive(s, a);
    LockDiscipline(s, a);
    StepGood(s, a);
    forall u | 0 <= u < |s'.threads|
      ensures Ready(s', u)
    {
      if u != a.t {
        OtherReady(s, s', a.t, u);
      }
    }
  }

  ghost predicate Legal(s: State, run: seq<Action>)
    decreases |run|
  {
    run == [] || (Enabled(s, run[0]) && Legal(Do(s, run[0]), run[1..]))
  }

  ghost function Exec(s: State, run: seq<Action>): State
    requires Legal(s, run)
    decreases |run|
  {
    if run == [] then s else Exec(Do(s, run[0]), run[1..])
  }

  /** Safety over whole runs: under every interleaving of the callbacks the linked list is acyclic and spells exactly
      the nodes published and not yet unlinked, newest first; unlinking takes out one node and keeps the order of the
      others; no step touches freed memory; session_listFree always finds its node; nothing leaks. */
  lemma {:induction false} RunsAreSafe(s: State, run: seq<Action>)
    requires Inv(s) && Legal(s, run)
    ensures Inv(Exec(s, run)) && |Exec(s, run).threads| == |s.threads|
    decreases |run|
  {
    if run == [] {
    } else {
      StepInv(s, run[0]);
      RunsAreSafe(Do(s, run[0]), run[1..]);
    }
  }

  /** Session t has touched no freed memory and missed no node, and if no callback of it runs, all its nodes are in the
      list. */
  ghost predicate Sane(s: State, t: nat)
    requires t < |s.threads|
  {
    && !s.threads[t].Fault? && !s.threads[t].FreeError?
    && (s.threads[t].Outside? ==> forall n :: n in s.heap && s.heap[n].session == t ==> n in s.order)
  }

  /** From the empty list, whatever the server calls and however the callbacks interleave. */
  lemma ReachableIsSafe(sessions: nat, run: seq<Action>)
    requires Legal(Init(sessions), run)
    ensures var s := Exec(Init(sessions), run);
            && Chain(s.head, s.heap, s.order) && Exclusive(s) && |s.threads| == sessions
            && forall t :: 0 <= t < sessions ==> Sane(s, t)
  {
    InitInv(sessions);
    RunsAreSafe(Init(sessions), run);
    var s := Exec(Init(sessions), run);
    forall t | 0 <= t < sessions
      ensures Sane(s, t)
    {
      assert Ready(s, t);
    }
  }

  // ---------------------------------------------------------------- what a callback leads to

  /** The state after the first k steps of a run. */
  ghost function StateAt(s: State, run: seq<Action>, k: nat): State
    requires Legal(s, run) && k <= |run|
    decreases k
  {
    if k == 0 then s else StateAt(Do(s, run[0]), run[1..], k - 1)
  }

  /** Where p holds, a step leads to p again or to q. */
  ghost predicate LeadsOn(p: State -> bool, q: State -> bool, s: State, a: Action) {
    Inv(s) && Enabled(s, a) && p(s) ==> p(Do(s, a)) || q(Do(s, a))
  }

  /** A run that starts in p and does not end there comes to q, and stays in p before. */
  lemma {:induction false} Until(p: State -> bool, q: State -> bool, s: State, run: seq<Action>) returns (k: nat)
    requires Inv(s) && Legal(s, run) && p(s) && !p(Exec(s, run))
    requires forall x: State, a: Action :: LeadsOn(p, q, x, a)
    ensures 0 < k <= |run| && q(StateAt(s, run, k)) && forall j: nat :: j < k ==> p(StateAt(s, run, j))
    decreases |run|
  {
    var s' := Do(s, run[0]);
    StepInv(s, run[0]);
    assert LeadsOn(p, q, s, run[0]);
    if q(s') {
      k := 1;
      assert StateAt(s', run[1..], 0) == s';
    } else {
      k := Until(p, q, s', run[1..]);
      assert forall j: nat :: 0 < j <= k ==> StateAt(s, run, j) == StateAt(s', run[1..], j - 1);
      k := k + 1;
    }
  }

  /** Node n of session t is in the list. */
  ghost predicate Kept(s: State, t: nat, n: nat) { n in s.order && n in s.heap && s.heap[n].session == t }

  /** Node n of session t is neither in the list nor allocated; its address may be another session's by now. */
  ghost predicate Gone(s: State, t: nat, n: nat) { n !in s.order && (n in s.heap ==> s.heap[n].session != t) }

  /** Session t runs no callback. */
  ghost predicate Away(s: State, t: nat) { t < |s.threads| && s.threads[t].Outside? }

  /** A step of another session changes nothing about the nodes of t; while t is inside the lock it leaves the list
      alone. */
  lemma OthersSteps(s: State, a: Action, t: nat, n: nat)
    requires Inv(s) && Enabled(s, a) && a.t != t && t < |s.threads|
    ensures t < |Do(s, a).threads| && Do(s, a).threads[t] == s.threads[t]
    ensures Kept(s, t, n) ==> Kept(Do(s, a), t, n) && Do(s, a).heap[n].count == s.heap[n].count
    ensures s.threads[t].Inside() ==> Do(s, a).order == s.order && Do(s, a).head == s.head
    ensures s.threads[t].Inside() && Gone(s, t, n) ==> Gone(Do(s, a), t, n)
  {
    LockDiscipline(s, a);
    StepGood(s, a);
    if Kept(s, t, n) {
      OthersCount(s, a, t, n);
    }
  }

  lemma OthersCount(s: State, a: Action, t: nat, n: nat)
    requires Inv(s) && Enabled(s, a) && a.t != t && Kept(s, t, n) && n in Do(s, a).heap
    ensures Do(s, a).heap[n].count == s.heap[n].count
  {
    assert Ready(s, a.t);
    OwnCount(s, a, n);
  }

  /** A step counts only in the node its callback works on. */
  lemma OwnCount(s: State, a: Action, n: nat)
    requires Enabled(s, a) && Owns(s, a.t) && n in s.heap && s.heap[n].session != a.t && n in Do(s, a).heap
    ensures Do(s, a).heap[n].count == s.heap[n].count
  {
  }

  // freeing

  /** The callback of t is freeing node n, or has done so and is about to release the lock. */
  ghost predicate Freeing(s: State, t: nat, n: nat) {
    t < |s.threads| &&
    match s.threads[t]
    case Enter(_, Free(m)) => m == n
    case Leave(Dispose(m)) => m == n
    case FreeTest(m) => m == n
    case FreeRoot(m) => m == n
    case FreeWalk(m, _) => m == n
    case FreeLink(m, _) => m == n
    case FreeNode(m) => m == n
    case Leave(Return) => Gone(s, t, n)
    case _ => false
  }

  lemma FreeingGoesOn(s: State, a: Action, t: nat, n: nat)
    requires Inv(s) && Enabled(s, a) && Freeing(s, t, n)
    ensures Freeing(Do(s, a), t, n) || (Away(Do(s, a), t) && Gone(Do(s, a), t, n))
  {
    if a.t != t {
      OthersSteps(s, a, t, n);
    } else {
      StepInv(s, a);
      assert Ready(s, t) && Ready(Do(s, a), t);
      OwnFreeingStep(s, a, t, n);
    }
  }

  lemma OwnFreeingStep(s: State, a: Action, t: nat, n: nat)
    requires Enabled(s, a) && a.t == t && Freeing(s, t, n) && t < |Do(s, a).threads|
    requires Owns(s, t) && OnTrack(Do(s, a), t)
    ensures Freeing(Do(s, a), t, n) || (Away(Do(s, a), t) && Gone(Do(s, a), t, n))
  {
  }

  lemma FreeingDisposes(s: State, run: seq<Action>, t: nat, n: nat) returns (k: nat)
    requires Inv(s) && Legal(s, run) && Freeing(s, t, n) && !Freeing(Exec(s, run), t, n)
    ensures 0 < k <= |run| && Away(StateAt(s, run, k), t) && Gone(StateAt(s, run, k), t, n)
    ensures forall j: nat :: j < k ==> !Away(StateAt(s, run, j), t)
  {
    var p := (x: State) => Freeing(x, t, n);
    var q := (x: State) => Away(x, t) && Gone(x, t, n);
    forall x: State, a: Action
      ensures LeadsOn(p, q, x, a)
    {
      if Inv(x) && Enabled(x, a) && p(x) {
        FreeingGoesOn(x, a, t, n);
      }
    }
    k := Until(p, q, s, run);
    assert forall j: nat :: j < k ==> p(StateAt(s, run, j));
  }

  /** A finished session leaves the list: when the callback that finishes with node n is over, the node is neither linked
      nor allocated. */
  lemma FinishDisposes(s: State, run: seq<Action>, t: nat, n: nat) returns (k: nat)
    requires Inv(s) && Legal(s, run) && run != [] && run[0] == Finish(t) && s.threads[t] == Working(n)
    requires Away(Exec(s, run), t)
    ensures 0 < k <= |run| && Away(StateAt(s, run, k), t) && Gone(StateAt(s, run, k), t, n)
    ensures forall j: nat :: j < k ==> !Away(StateAt(s, run, j), t)
  {
    var s' := Do(s, run[0]);
    StepInv(s, run[0]);
    k := FreeingDisposes(s', run[1..], t, n);
    NotAwayBefore(s, run, t, k);
    k := k + 1;
  }

  lemma NotAwayBefore(s: State, run: seq<Action>, t: nat, k: nat)
    requires Legal(s, run) && run != [] && !Away(s, t) && k < |run|
    requires forall j: nat :: j < k ==> !Away(StateAt(Do(s, run[0]), run[1..], j), t)
    ensures forall j: nat :: j < k + 1 ==> !Away(StateAt(s, run, j), t)
  {
    forall j: nat | j < k + 1
      ensures !Away(StateAt(s, run, j), t)
    {
      if j > 0 {
        assert !Away(StateAt(Do(s, run[0]), run[1..], j - 1), t);
      }
    }
  }

  // comparing

  /** Inside the lock, about to return with node n in the list. */
  ghost predicate Returning(s: State, t: nat, n: nat) {
    t < |s.threads| && s.threads[t] == Leave(Return) && Kept(s, t, n)
  }

  lemma ReturningKeeps(s: State, run: seq<Action>, t: nat, n: nat) returns (k: nat)
    requires Inv(s) && Legal(s, run) && Returning(s, t, n) && !Returning(Exec(s, run), t, n)
    ensures 0 < k <= |run| && Away(StateAt(s, run, k), t) && Kept(StateAt(s, run, k), t, n)
    ensures forall j: nat :: j < k ==> !Away(StateAt(s, run, j), t)
  {
    var p := (x: State) => Returning(x, t, n);
    var q := (x: State) => Away(x, t) && Kept(x, t, n);
    forall x: State, a: Action
      ensures LeadsOn(p, q, x, a)
    {
      if Inv(x) && Enabled(x, a) && p(x) && a.t != t {
        OthersSteps(x, a, t, n);
      }
    }
    k := Until(p, q, s, run);
    assert forall j: nat :: j < k ==> p(StateAt(s, run, j));
  }

  lemma ComparisonStep(s: State, t: nat, n: nat, contentLength: int)
    requires Inv(s) && AtComparison(s, t, n)
    ensures n in s.heap && Enabled(s, Step(t, contentLength)) && Inv(Do(s, Step(t, contentLength)))
    ensures var s' := Do(s, Step(t, contentLength));
            if s.heap[n].count >= contentLength then Freeing(s', t, n) else Returning(s', t, n)
  {
    assert Ready(s, t);
    StepInv(s, Step(t, contentLength));
  }

  /** The comparison with the content length decides: when the callback is over, the node is gone if at least that much was
      received, and in the list otherwise. */
  lemma ComparingDecides(s: State, run: seq<Action>, t: nat, n: nat, contentLength: int) returns (k: nat)
    requires Inv(s) && Legal(s, run) && run != [] && run[0] == Step(t, contentLength) && s.threads[t] == Comparing(n)
    requires Away(Exec(s, run), t)
    ensures 0 < k <= |run| && Away(StateAt(s, run, k), t) && n in s.heap
    ensures if s.heap[n].count >= contentLength then Gone(StateAt(s, run, k), t, n) else Kept(StateAt(s, run, k), t, n)
    ensures forall j: nat :: j < k ==> !Away(StateAt(s, run, j), t)
  {
    ComparisonStep(s, t, n, contentLength);
    if s.heap[n].count >= contentLength {
      k := FreeingDisposes(Do(s, run[0]), run[1..], t, n);
    } else {
      k := ReturningKeeps(Do(s, run[0]), run[1..], t, n);
    }
    NotAwayBefore(s, run, t, k);
    k := k + 1;
  }

  ghost predicate AboutToCompare(s: State, t: nat, n: nat) {
    t < |s.threads| && exists spinning: bool :: s.threads[t] == Enter(spinning, Compare(n))
  }

  /** Under the lock, session t is about to compare what it received in node n. */
  ghost predicate AtComparison(s: State, t: nat, n: nat) { t < |s.threads| && s.threads[t] == Comparing(n) }

  lemma ComesToCompare(s: State, a: Action, t: nat, n: nat)
    requires Enabled(s, a) && AboutToCompare(s, t, n)
    ensures AboutToCompare(Do(s, a), t, n) || AtComparison(Do(s, a), t, n)
  {
    LockDiscipline(s, a);
    if a.t == t {
      var s' := Do(s, a);
      if s'.threads[t].Enter? {
        assert s'.threads[t] == Enter(s'.threads[t].spinning, Compare(n));
      }
    }
  }

  /** read_req_body looks whether the body is complete after its last read, with its own node. */
  lemma CheckDoneCompares(s: State, run: seq<Action>, t: nat, n: nat) returns (k: nat)
    requires Inv(s) && Legal(s, run) && run != [] && run[0] == CheckDone(t) && s.threads[t] == Working(n)
    requires Away(Exec(s, run), t)
    ensures 0 < k <= |run| && AtComparison(StateAt(s, run, k), t, n)
    ensures forall j: nat :: j < k ==> !Away(StateAt(s, run, j), t)
  {
    var p := (x: State) => AboutToCompare(x, t, n);
    var q := (x: State) => AtComparison(x, t, n);
    forall x: State, a: Action
      ensures LeadsOn(p, q, x, a)
    {
      if Inv(x) && Enabled(x, a) && p(x) {
        ComesToCompare(x, a, t, n);
      }
    }
    StepInv(s, run[0]);
    assert Do(s, run[0]).threads[t] == Enter(false, Compare(n));
    k := Until(p, q, Do(s, run[0]), run[1..]);
    assert forall j: nat :: j < k ==> p(StateAt(Do(s, run[0]), run[1..], j));
    NotAwayBefore(s, run, t, k);
    k := k + 1;
  }

  /** A callback that goes back keeps its node in the list, and there it stays while the session is away. */
  lemma GoBackKeeps(s: State, run: seq<Action>, t: nat, n: nat)
    requires Inv(s) && Legal(s, run) && run != [] && run[0] == GoBack(t) && s.threads[t] == Working(n)
    requires forall i :: 0 < i < |run| ==> run[i].t != t
    ensures Away(Exec(s, run), t) && Kept(Exec(s, run), t, n)
  {
    assert Ready(s, t);
    StepInv(s, run[0]);
    KeptWhileAway(Do(s, run[0]), run[1..], t, n);
  }

  lemma {:induction false} KeptWhileAway(s: State, run: seq<Action>, t: nat, n: nat)
    requires Inv(s) && Legal(s, run) && Away(s, t) && Kept(s, t, n) && forall i :: 0 <= i < |run| ==> run[i].t != t
    ensures Away(Exec(s, run), t) && Kept(Exec(s, run), t, n)
    decreases |run|
  {
    if run == [] {
    } else {
      OthersSteps(s, run[0], t, n);
      StepInv(s, run[0]);
      KeptWhileAway(Do(s, run[0]), run[1..], t, n);
    }
  }

  // inserting

  ghost predicate Inserting(s: State, t: nat, n: nat) {
    t < |s.threads| &&
    match s.threads[t]
    case Enter(_, Insert(m)) => m == n
    case InsertLink(m) => m == n
    case InsertHead(m) => m == n
    case Leave(Work(m)) => m == n && s.order != [] && s.order[0] == n
    case _ => false
  }

  /** Session t works on node n, at the head of the list. */
  ghost predicate Inserted(s: State, t: nat, n: nat) {
    t < |s.threads| && s.threads[t] == Working(n) && s.order != [] && s.order[0] == n && Kept(s, t, n)
  }

  lemma InsertingGoesOn(s: State, a: Action, t: nat, n: nat)
    requires Inv(s) && Enabled(s, a) && Inserting(s, t, n)
    ensures Inserting(Do(s, a), t, n) || Inserted(Do(s, a), t, n)
  {
    if a.t != t {
      OthersSteps(s, a, t, n);
    } else {
      assert Ready(s, t);
    }
  }

  /** process_req puts its new node at the head of the list and then works on it. */
  lemma ProcessReqPublishes(s: State, run: seq<Action>, t: nat, n: nat) returns (k: nat)
    requires Inv(s) && Legal(s, run) && run != [] && run[0] == ProcessReq(t, n) && Away(Exec(s, run), t)
    ensures 0 < k <= |run|
    ensures var x := StateAt(s, run, k);
            Inserted(x, t, n)
    ensures forall j: nat :: 0 < j < k ==> !Away(StateAt(s, run, j), t)
  {
    var p := (x: State) => Inserting(x, t, n);
    var q := (x: State) => Inserted(x, t, n);
    forall x: State, a: Action
      ensures LeadsOn(p, q, x, a)
    {
      if Inv(x) && Enabled(x, a) && p(x) {
        InsertingGoesOn(x, a, t, n);
      }
    }
    StepInv(s, run[0]);
    k := Until(p, q, Do(s, run[0]), run[1..]);
    assert forall j: nat :: j < k ==> p(StateAt(Do(s, run[0]), run[1..], j));
    assert forall j: nat :: 0 < j <= k ==> StateAt(s, run, j) == StateAt(Do(s, run[0]), run[1..], j - 1);
    k := k + 1;
  }

  // finding

  /** The list holds a node of session t. */
  ghost predicate Listed(s: State, t: nat) { exists n: nat :: Kept(s, t, n) }

  /** Node n is the first one of session t in the list. */
  ghost predicate FirstOf(s: State, t: nat, n: nat) {
    Kept(s, t, n) && exists k :: 0 <= k < |s.order| && s.order[k] == n && NoneBefore(s, t, k)
  }

  ghost predicate Finding(s: State, t: nat, listed: bool) {
    && t < |s.threads| && Listed(s, t) == listed
    && match s.threads[t]
       case Enter(_, Find) => true
       case FindWalk(_) => true
       case Leave(Work(n)) => FirstOf(s, t, n)
       case Leave(Return) => !listed
       case _ => false
  }

  lemma FindingGoesOn(s: State, a: Action, t: nat, listed: bool)
    requires Inv(s) && Enabled(s, a) && Finding(s, t, listed)
    ensures Finding(Do(s, a), t, listed) || Found(Do(s, a), t, listed)
  {
    if a.t != t {
      OthersLeaveListed(s, a, t);
    } else if s.threads[t].FindWalk? {
      FindWalkGoesOn(s, a, t, listed);
    } else {
      SameList(s, Do(s, a), t);
    }
  }

  lemma SameList(s: State, s': State, t: nat)
    requires s'.order == s.order && s'.heap == s.heap
    ensures Listed(s', t) == Listed(s, t) && forall n: nat :: FirstOf(s, t, n) ==> FirstOf(s', t, n)
  {
    assert forall n: nat :: Kept(s', t, n) == Kept(s, t, n);
    forall n: nat | FirstOf(s, t, n)
      ensures FirstOf(s', t, n)
    {
      var k :| 0 <= k < |s.order| && s.order[k] == n && NoneBefore(s, t, k);
      assert NoneBefore(s', t, k);
    }
  }

  /** What a search ends with: the first node of the session, if there is one. */
  ghost predicate Found(s: State, t: nat, listed: bool) {
    && t < |s.threads|
    && if listed then s.threads[t].Working? && FirstOf(s, t, s.threads[t].n) else s.threads[t].Outside? && !Listed(s, t)
  }

  lemma OthersLeaveListed(s: State, a: Action, t: nat)
    requires Inv(s) && Enabled(s, a) && a.t != t && t < |s.threads|
    ensures var s' := Do(s, a);
            && t < |s'.threads| && s'.threads[t] == s.threads[t] && Listed(s', t) == Listed(s, t)
            && (s.threads[t].Inside() ==> forall n: nat :: FirstOf(s, t, n) ==> FirstOf(s', t, n))
  {
    var s' := Do(s, a);
    LockDiscipline(s, a);
    StepGood(s, a);
    forall n: nat
      ensures Kept(s, t, n) <==> Kept(s', t, n)
    {
    }
    if s.threads[t].Inside() {
      forall n: nat | FirstOf(s, t, n)
        ensures FirstOf(s', t, n)
      {
        var k :| 0 <= k < |s.order| && s.order[k] == n && NoneBefore(s, t, k);
        assert NoneBefore(s', t, k);
      }
    }
  }

  lemma FindWalkGoesOn(s: State, a: Action, t: nat, listed: bool)
    requires Inv(s) && Enabled(s, a) && Finding(s, t, listed) && a.t == t && s.threads[t].FindWalk?
    ensures Finding(Do(s, a), t, listed)
  {
    var s' := Do(s, a);
    assert s'.order == s.order && s'.heap == s.heap;
    assert forall n: nat :: Kept(s', t, n) == Kept(s, t, n);
    assert Ready(s, t);
    if s'.threads[t].Leave? {
      FindResult(s, t, a.contentLength);
      match s'.threads[t].after
      case Work(n) =>
        var k :| 0 <= k < |s.order| && s.order[k] == n && s.heap[n].session == t && NoneBefore(s, t, k);
        assert Kept(s', t, n) && NoneBefore(s', t, k);
      case Return =>
        assert !Listed(s, t);
      case Dispose(_) =>
    }
  }

  /** A callback of session t is at work on a node. */
  ghost predicate AtWork(s: State, t: nat) { t < |s.threads| && s.threads[t].Working? }

  /** read_req_body works on the first node of its session, if and only if the list holds one when it is called; otherwise
      it returns. */
  lemma ReadBodyFinds(s: State, run: seq<Action>, t: nat) returns (k: nat)
    requires Inv(s) && Legal(s, run) && run != [] && run[0] == ReadBody(t) && Away(Exec(s, run), t)
    ensures 0 < k <= |run|
    ensures var x := StateAt(s, run, k);
            && (AtWork(x, t) <==> Listed(s, t))
            && if AtWork(x, t) then FirstOf(x, t, x.threads[t].n) else Away(x, t) && !Listed(x, t)
    ensures forall j: nat :: 0 < j < k ==> !Away(StateAt(s, run, j), t) && !AtWork(StateAt(s, run, j), t)
  {
    var listed := Listed(s, t);
    var s' := Do(s, run[0]);
    var p := (x: State) => Finding(x, t, listed);
    var q := (x: State) => Found(x, t, listed);
    forall x: State, a: Action
      ensures LeadsOn(p, q, x, a)
    {
      if Inv(x) && Enabled(x, a) && p(x) {
        FindingGoesOn(x, a, t, listed);
      }
    }
    assert forall n: nat :: Kept(s', t, n) == Kept(s, t, n);
    StepInv(s, run[0]);
    k := Until(p, q, s', run[1..]);
    assert forall j: nat :: j < k ==> p(StateAt(s', run[1..], j));
    assert forall j: nat :: 0 < j <= k ==> StateAt(s, run, j) == StateAt(s', run[1..], j - 1);
    k := k + 1;
  }

  // counting

  /** What the callback of t is about to add to node n. */
  function Pending(pc: Pc, n: nat): int {
    match pc
    case Enter(_, Count(m, r)) => if m == n then r else 0
    case Adding(m, r) => if m == n then r else 0
    case _ => 0
  }

  /** What is counted in node n of session t, and what is about to be. */
  ghost function Total(s: State, t: nat, n: nat): int
    requires t < |s.threads| && n in s.heap
  {
    s.heap[n].count + Pending(s.threads[t], n)
  }

  /** What an action reads for node n. */
  function ReadFor(s: State, a: Action, n: nat): int {
    if a.Received? && a.t < |s.threads| && s.threads[a.t] == Working(n) then a.r else 0
  }

  lemma StepCounts(s: State, a: Action, t: nat, n: nat)
    requires Inv(s) && Enabled(s, a) && t < |s.threads| && Kept(s, t, n) && Kept(Do(s, a), t, n)
    ensures t < |Do(s, a).threads| && Total(Do(s, a), t, n) == Total(s, t, n) + ReadFor(s, a, n)
  {
    LockDiscipline(s, a);
    if a.t != t {
      OthersCount(s, a, t, n);
      OthersReadNothing(s, a, t, n);
    } else {
      assert Ready(s, t);
      OwnStepCounts(s, a, t, n);
    }
  }

  lemma OthersReadNothing(s: State, a: Action, t: nat, n: nat)
    requires Inv(s) && Enabled(s, a) && a.t != t && Kept(s, t, n)
    ensures ReadFor(s, a, n) == 0
  {
    assert Ready(s, a.t);
  }

  lemma OwnStepCounts(s: State, a: Action, t: nat, n: nat)
    requires Enabled(s, a) && a.t == t && Owns(s, t) && Kept(s, t, n) && Kept(Do(s, a), t, n)
    ensures t < |Do(s, a).threads| && Total(Do(s, a), t, n) == Total(s, t, n) + ReadFor(s, a, n)
  {
    OwnStepAdds(s, a, t, n);
    OwnStepPends(s, a, t, n);
  }

  /** What a step adds to its own node: what was about to be added, when it is added. */
  lemma OwnStepAdds(s: State, a: Action, t: nat, n: nat)
    requires Enabled(s, a) && a.t == t && Owns(s, t) && Kept(s, t, n) && Kept(Do(s, a), t, n)
    ensures Do(s, a).heap[n].count == s.heap[n].count + if s.threads[t].Adding? then Pending(s.threads[t], n) else 0
  {
  }

  lemma OwnStepPends(s: State, a: Action, t: nat, n: nat)
    requires Enabled(s, a) && a.t == t && Owns(s, t) && Kept(s, t, n) && t < |Do(s, a).threads|
    ensures Pending(Do(s, a).threads[t], n)
            == if s.threads[t].Adding? then 0 else Pending(s.threads[t], n) + ReadFor(s, a, n)
  {
  }

  /** The node stays in the list all along the run. */
  ghost predicate StaysKept(s: State, run: seq<Action>, t: nat, n: nat)
    requires Legal(s, run)
    decreases |run|
  {
    Kept(s, t, n) && (run == [] || StaysKept(Do(s, run[0]), run[1..], t, n))
  }

  ghost function ReadForAll(s: State, run: seq<Action>, n: nat): int
    requires Legal(s, run)
    decreases |run|
  {
    if run == [] then 0 else ReadFor(s, run[0], n) + ReadForAll(Do(s, run[0]), run[1..], n)
  }

  /** m_TotalCount is what was received: over any run, what is counted in a node and what is about to be has grown by
      exactly what its session has read for it, however the callbacks interleave. */
  lemma {:induction false} ReceivedIsCounted(s: State, run: seq<Action>, t: nat, n: nat)
    requires Inv(s) && Legal(s, run) && t < |s.threads| && StaysKept(s, run, t, n)
    ensures t < |Exec(s, run).threads| && n in Exec(s, run).heap
    ensures Total(Exec(s, run), t, n) == Total(s, t, n) + ReadForAll(s, run, n)
    decreases |run|
  {
    if run == [] {
    } else {
      StepCounts(s, run[0], t, n);
      StepInv(s, run[0]);
      ReceivedIsCounted(Do(s, run[0]), run[1..], t, n);
    }
  }
}
