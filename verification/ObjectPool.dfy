/** The pointer list and the object pool built on it: include/lsr/ls_ptrlist.h, src/lsr/ls_ptrlist.c,
    include/lsr/ls_objpool.h and src/lsr/ls_objpool.c. A pointer is a number, NULL is 0.
  */
module ObjectPool {
  import opened Bytes
  import opened Sequences

  const NULL := 0

  type Ptr = nat

  // ---------------------------------------------------------------- the list as a plain sequence

  datatype Op = Push(x: Ptr) | PopBack | PopFront(n: nat) | Erase(i: nat)

  predicate Allowed(s: seq<Ptr>, op: Op) {
    match op
    case Push(_) => true
    case PopBack => s != []
    case PopFront(_) => true
    case Erase(i) => i < |s|
  }

  /** The list afterwards. Erasing moves the last element into the gap. */
  function After(s: seq<Ptr>, op: Op): seq<Ptr>
    requires Allowed(s, op)
  {
    match op
    case Push(x) => s + [x]
    case PopBack => s[..|s| - 1]
    case PopFront(n) => if n >= |s| then [] else s[n..]
    case Erase(i) => s[i := s[|s| - 1]][..|s| - 1]
  }

  /** The elements taken out, in order. */
  function Taken(s: seq<Ptr>, op: Op): seq<Ptr>
    requires Allowed(s, op)
  {
    match op
    case Push(_) => []
    case PopBack => [s[|s| - 1]]
    case PopFront(n) => if n >= |s| then s else s[..n]
    case Erase(i) => [s[i]]
  }

  function Put(op: Op): seq<Ptr> { if op.Push? then [op.x] else [] }

  ghost predicate AllAllowed(s: seq<Ptr>, ops: seq<Op>)
    decreases |ops|
  {
    ops == [] || (Allowed(s, ops[0]) && AllAllowed(After(s, ops[0]), ops[1..]))
  }

  ghost function AfterAll(s: seq<Ptr>, ops: seq<Op>): seq<Ptr>
    requires AllAllowed(s, ops)
    decreases |ops|
  {
    if ops == [] then s else AfterAll(After(s, ops[0]), ops[1..])
  }

  ghost function TakenAll(s: seq<Ptr>, ops: seq<Op>): multiset<Ptr>
    requires AllAllowed(s, ops)
    decreases |ops|
  {
    if ops == [] then multiset{} else multiset(Taken(s, ops[0])) + TakenAll(After(s, ops[0]), ops[1..])
  }

  ghost function PutAll(ops: seq<Op>): multiset<Ptr> {
    if ops == [] then multiset{} else multiset(Put(ops[0])) + PutAll(ops[1..])
  }

  lemma EraseConserves(s: seq<Ptr>, i: nat)
    requires i < |s|
    ensures multiset(s) == multiset(After(s, Erase(i))) + multiset{s[i]}
  {
    var last := |s| - 1;
    assert s == s[..last] + [s[last]];
    if i == last {
      assert After(s, Erase(i)) == s[..last];
    } else {
      var front, back := s[..i], s[i + 1..last];
      assert s[..last] == front + [s[i]] + back;
      assert After(s, Erase(i)) == front + [s[last]] + back;
    }
  }

  lemma StepConserves(s: seq<Ptr>, op: Op)
    requires Allowed(s, op)
    ensures multiset(s) + multiset(Put(op)) == multiset(After(s, op)) + multiset(Taken(s, op))
  {
    if op.PopBack? {
      assert s == s[..|s| - 1] + [s[|s| - 1]];
    } else if op.PopFront? && op.n < |s| {
      assert s == s[..op.n] + s[op.n..];
    } else if op.Erase? {
      EraseConserves(s, op.i);
    }
  }

  /** Conservation: over any run of push, popback, popfront and erase, what was stored and what was pushed is what was
      taken out and what is stored, every element as often as before. */
  lemma {:induction false} RunConserves(s: seq<Ptr>, ops: seq<Op>)
    requires AllAllowed(s, ops)
    ensures multiset(s) + PutAll(ops) == multiset(AfterAll(s, ops)) + TakenAll(s, ops)
    decreases |ops|
  {
    if ops == [] {
    } else {
      var op, rest := ops[0], ops[1..];
      var t := After(s, op);
      StepConserves(s, op);
      RunConserves(t, rest);
      Regroup(multiset(s), multiset(Put(op)), PutAll(rest), multiset(t),
              multiset(AfterAll(t, rest)), multiset(Taken(s, op)), TakenAll(t, rest));
    }
  }

  /** Popping from the front keeps the order: pieces popped and the rest, put together, are the list. */
  lemma PopFrontKeepsOrder(s: seq<Ptr>, n: nat)
    ensures Taken(s, PopFront(n)) + After(s, PopFront(n)) == s
  {
  }

  // ---------------------------------------------------------------- the list

  class PtrList {
    var store: array<Ptr>
    var len: nat  // pend - pstore

    ghost predicate Valid()
      reads this
    {
      len <= store.Length
    }

    ghost function Contents(): seq<Ptr>
      requires Valid()
      reads this, store
    {
      store[..len]
    }

    constructor ()
      ensures Valid() && Contents() == [] && fresh(store) && store.Length == 0
    {
      store := new Ptr[0];
      len := 0;
    }

    method Clear()
      requires Valid()
      modifies this`len
      ensures Valid() && Contents() == []
    {
      len := 0;
    }

    /** ls_ptrlist_reserve: reallocate to exactly this capacity; mem tells whether that succeeds. A capacity below the
        size cuts the elements off and leaves a list whose end lies behind its storage. */
    method Reserve(capacity: nat, mem: bool) returns (r: int)
      requires Valid()
      modifies this`store
      ensures !mem ==> r == LS_FAIL && store == old(store)
      ensures mem ==> r == LS_OK && fresh(store) && store.Length == capacity && (Valid() <==> len <= capacity)
      ensures mem && len <= capacity ==> Contents() == old(Contents())
      ensures mem && len > capacity ==> store[..] == old(Contents())[..capacity]
    {
      if !mem {
        return LS_FAIL;
      }
      var bigger := new Ptr[capacity];
      var kept := if len < capacity then len else capacity;
      forall i | 0 <= i < kept {
        bigger[i] := store[i];
      }
      assert bigger[..kept] == store[..kept];
      store := bigger;
      r := LS_OK;
    }

    method UnsafePushBack(x: Ptr)
      requires Valid() && len < store.Length
      modifies this`len, store
      ensures Valid() && Contents() == After(old(Contents()), Push(x)) == old(Contents()) + [x]
    {
      store[len] := x;
      len := len + 1;
    }

    /** ls_ptrlist_pushback: doubles the storage when it is full, to at least 16. */
    method PushBack(x: Ptr, mem: bool) returns (r: int)
      requires Valid()
      modifies this, store
      ensures Valid() && (store == old(store) || fresh(store))
      ensures r == LS_OK ==> Contents() == After(old(Contents()), Push(x)) == old(Contents()) + [x]
      ensures store.Length == if old(len) < old(store.Length) || !mem then old(store.Length)
                              else if old(store.Length) < 8 then 16 else 2 * old(store.Length)
      ensures r != LS_OK ==> r == LS_FAIL && !mem && old(len) == old(store.Length) && Contents() == old(Contents())
    {
      if len == store.Length {
        var n := store.Length * 2;
        var ok := Reserve(if n < 16 then 16 else n, mem);
        if ok != LS_OK {
          return LS_FAIL;
        }
      }
      UnsafePushBack(x);
      r := LS_OK;
    }

    /** The assertions of the source are that n is positive and that there is room. */
    method UnsafePushBackN(xs: seq<Ptr>)
      requires Valid() && |xs| > 0 && len + |xs| <= store.Length
      modifies this`len, store
      ensures Valid() && Contents() == old(Contents()) + xs
    {
      forall i | 0 <= i < |xs| {
        store[len + i] := xs[i];
      }
      len := len + |xs|;
    }

    method UnsafePopBackN(n: nat) returns (xs: seq<Ptr>)
      requires Valid() && 0 < n <= len
      modifies this`len
      ensures Valid() && Contents() + xs == old(Contents()) && |xs| == n
    {
      len := len - n;
      xs := store[len..len + n];
    }

    method PopBack() returns (x: Ptr)
      requires Valid() && len > 0
      modifies this`len
      ensures Valid() && Contents() == After(old(Contents()), Op.PopBack) && [x] == Taken(old(Contents()), Op.PopBack)
      ensures Contents() + [x] == old(Contents())
    {
      len := len - 1;
      x := store[len];
    }

    method PopFront(n: nat) returns (xs: seq<Ptr>)
      requires Valid()
      modifies this`len, store
      ensures Valid() && Contents() == After(old(Contents()), Op.PopFront(n))
      ensures xs == Taken(old(Contents()), Op.PopFront(n))
      ensures xs + Contents() == old(Contents()) && |xs| == if n > old(len) then old(len) else n
    {
      var k := if n > len then len else n;
      xs := store[..k];
      if k >= len {
        Clear();
      } else {
        ghost var was := store[..];
        forall i | 0 <= i < len - k {
          store[i] := store[i + k];
        }
        len := len - k;
        assert store[..len] == was[k..k + len];
      }
    }

    method Erase(i: nat)
      requires Valid() && i < len
      modifies this`len, store
      ensures Valid() && Contents() == After(old(Contents()), Op.Erase(i)) && len == old(len) - 1
      ensures forall j :: 0 <= j < len && j != i ==> Contents()[j] == old(Contents())[j]
      ensures i < len ==> Contents()[i] == old(Contents())[len]
    {
      len := len - 1;
      store[i] := store[len];
    }
  }

  // ---------------------------------------------------------------- the ledger of a pool

  /** Every object created is free, handed out or released, and nothing else is; size counts the first two. */
  ghost predicate Ledger(free: seq<Ptr>, out: multiset<Ptr>, released: multiset<Ptr>, created: multiset<Ptr>, size: int) {
    multiset(free) + out + released == created && NULL !in created && size == |free| + |out|
  }

  /** New objects join the free list. */
  lemma LedgerJoin(free: seq<Ptr>, out: multiset<Ptr>, released: multiset<Ptr>, created: multiset<Ptr>, size: int, x: Ptr)
    requires Ledger(free, out, released, created, size) && x != NULL
    ensures Ledger(free + [x], out, released, created + multiset{x}, size + 1)
  {
    assert multiset(free) + multiset{x} + out + released == created + multiset{x};
  }

  /** Free objects are handed out. */
  lemma LedgerLend(free: seq<Ptr>, xs: seq<Ptr>, out: multiset<Ptr>, released: multiset<Ptr>, created: multiset<Ptr>,
                   size: int)
    requires Ledger(free + xs, out, released, created, size)
    ensures Ledger(free, out + multiset(xs), released, created, size) && NULL !in xs
  {
    assert multiset(free + xs) == multiset(free) + multiset(xs);
    assert forall x :: x in xs ==> x in multiset(free + xs) + out + released;
  }

  /** Objects handed out come back. */
  lemma LedgerReturn(free: seq<Ptr>, xs: seq<Ptr>, out: multiset<Ptr>, released: multiset<Ptr>, created: multiset<Ptr>,
                     size: int)
    requires Ledger(free, out, released, created, size) && multiset(xs) <= out
    ensures Ledger(free + xs, out - multiset(xs), released, created, size)
  {
    assert out == (out - multiset(xs)) + multiset(xs);
    assert multiset(free + xs) == multiset(free) + multiset(xs);
  }

  /** A free object is released. */
  lemma LedgerRelease(free: seq<Ptr>, x: Ptr, out: multiset<Ptr>, released: multiset<Ptr>, created: multiset<Ptr>,
                      size: int)
    requires Ledger(free + [x], out, released, created, size)
    ensures Ledger(free, out, released + multiset{x}, created, size - 1)
  {
    assert multiset(free + [x]) == multiset(free) + multiset{x};
  }

  // ---------------------------------------------------------------- the pool

  class ObjPool {
    const chunkSize: nat
    const free: PtrList
    var poolSize: int
    ghost var out: multiset<Ptr>       // objects handed out and not returned
    ghost var created: multiset<Ptr>   // all objects ever obtained from getnew_fn
    ghost var released: multiset<Ptr>  // all objects ever given to releaseobj_fn

    /** The ledger is in order, and the free list has room for every object free or handed out. */
    ghost predicate Valid()
      reads this, free, free.store
    {
      && chunkSize > 0 && free.Valid()
      && Ledger(free.Contents(), out, released, created, poolSize)
      && poolSize <= free.store.Length
    }

    /** ls_objpool. */
    constructor (chunk: int)
      ensures Valid() && fresh(free) && fresh(free.store) && poolSize == 0 && out == created == released == multiset{}
      ensures chunkSize == if chunk <= 0 then 10 else chunk
    {
      chunkSize := if chunk <= 0 then 10 else chunk;
      free := new PtrList();
      poolSize := 0;
      out, created, released := multiset{}, multiset{}, multiset{};
    }

    /** The first i of the objects got joined a free list that was start, and were entered as created. */
    ghost predicate Admitted(news: seq<Ptr>, i: nat, start: seq<Ptr>, before: multiset<Ptr>)
      reads this, free, free.store
    {
      i <= |news| && Valid() && free.Contents() == start + news[..i] && created == before + multiset(news[..i])
    }

    /** One object more from getnew_fn. */
    method Admit(news: seq<Ptr>, i: nat, ghost start: seq<Ptr>, ghost before: multiset<Ptr>)
      requires Admitted(news, i, start, before)
      requires i < |news| && news[i] != NULL && poolSize < free.store.Length
      modifies this`poolSize, this`created, free`len, free.store
      ensures Admitted(news, i + 1, start, before) && poolSize == old(poolSize) + 1
    {
      ghost var x := news[i];
      OneFurther(news, i, start, before);
      LedgerJoin(free.Contents(), out, released, created, poolSize, x);
      free.UnsafePushBack(news[i]);
      created := created + multiset{x};
      poolSize := poolSize + 1;
    }

    /** How many objects an allocation of this size gets: what getnew_fn returns, up to its first NULL. */
    static function Usable(size: nat, news: seq<Ptr>): (k: nat)
      ensures k <= size && k <= |news|
      ensures forall i :: 0 <= i < k ==> news[i] != NULL
      ensures k == size || k == |news| || news[k] == NULL
    {
      if size == 0 || news == [] || news[0] == NULL then 0 else 1 + Usable(size - 1, news[1..])
    }

    static lemma AllUsable(size: nat, news: seq<Ptr>)
      ensures |news| >= size && NULL !in news[..size] ==> Usable(size, news) == size
    {
      var k := Usable(size, news);
      if |news| >= size && k < size {
        assert news[..size][k] == news[k];
      }
    }

    static lemma UsableBeyond(size: nat, news: seq<Ptr>, i: nat)
      requires i <= Usable(size, news) && i < size && i < |news| && news[i] != NULL
      ensures i < Usable(size, news)
    {
    }

    /** The loop of ls_objpool_alloc, once there is room. */
    method GetNew(size: nat, news: seq<Ptr>) returns (r: int)
      requires Valid() && poolSize + size <= free.store.Length
      modifies this`poolSize, this`created, free`len, free.store
      ensures Admitted(news, Usable(size, news), old(free.Contents()), old(created))
      ensures r == if Usable(size, news) == size then LS_OK else LS_FAIL
    {
      var i := 0;
      ghost var k := Usable(size, news);
      ghost var start, before := free.Contents(), created;
      while i < size
        invariant i <= k && Admitted(news, i, start, before) && poolSize == old(poolSize) + i
      {
        if i >= |news| || news[i] == NULL {
          return LS_FAIL;
        }
        UsableBeyond(size, news, i);
        Admit(news, i, start, before);
        i := i + 1;
      }
      r := LS_OK;
    }

    /** ls_objpool_alloc: size more objects; news holds what getnew_fn returns, NULL or running out means failure. Exactly
        the objects before the failure join the free list, in order. */
    method Alloc(size: nat, news: seq<Ptr>, mem: bool) returns (r: int)
      requires Valid()
      modifies this`poolSize, this`created, free`len, free`store, free.store
      ensures free.store == old(free.store) || fresh(free.store)
      ensures var k := if mem || old(free.store.Length) >= old(poolSize) + size then Usable(size, news) else 0;
              && Admitted(news, k, old(free.Contents()), old(created))
              && r == if k == size then LS_OK else LS_FAIL
    {
      if free.store.Length < poolSize + size {
        var ok := free.Reserve(poolSize + size, mem);
        if ok != LS_OK {
          assert news[..0] == [];
          return LS_FAIL;
        }
      }
      r := GetNew(size, news);
    }

    /** The last object of the free list goes to the caller. */
    method HandOut() returns (x: Ptr)
      requires Valid() && free.len > 0
      modifies this`out, free`len
      ensures Valid() && x != NULL && out == old(out) + multiset{x}
      ensures free.Contents() + [x] == old(free.Contents())
    {
      ghost var all := free.Contents();
      x := free.PopBack();
      assert all == free.Contents() + [x] && multiset([x]) == multiset{x};
      LedgerLend(free.Contents(), [x], out, released, created, poolSize);
      out := out + multiset{x};
    }

    /** The objects a request for n asks getnew_fn for, chunk of them if the free list is too short, and gets. */
    ghost function Fresh(n: nat, chunk: nat, news: seq<Ptr>, mem: bool): seq<Ptr>
      requires Valid()
      reads this, free, free.store
    {
      if free.len < n && (mem || free.store.Length >= poolSize + chunk) then news[..Usable(chunk, news)] else []
    }

    /** The first half of ls_objpool_get and ls_objpool_getmulti: a free list shorter than n is refilled. */
    method Refill(n: nat, chunk: nat, news: seq<Ptr>, mem: bool) returns (ok: bool)
      requires Valid() && chunk >= n
      modifies this`poolSize, this`created, free`len, free`store, free.store
      ensures Valid()
      ensures free.Contents() == old(free.Contents()) + old(Fresh(n, chunk, news, mem))
      ensures created == old(created) + multiset(old(Fresh(n, chunk, news, mem)))
      ensures poolSize == old(poolSize) + |old(Fresh(n, chunk, news, mem))|
      ensures ok <==> old(free.len) >= n || |old(Fresh(n, chunk, news, mem))| == chunk
    {
      ok := true;
      if free.len < n {
        var r := Alloc(chunk, news, mem);
        ok := r == LS_OK;
      }
    }

    /** ls_objpool_get: the last object of the free list, refilled first if it is empty; NULL when that fails. */
    method Get(news: seq<Ptr>, mem: bool) returns (x: Ptr)
      requires Valid()
      modifies this`out, this`poolSize, this`created, free`len, free`store, free.store
      ensures Valid()
      ensures var more := old(Fresh(1, chunkSize, news, mem));
              var all := old(free.Contents()) + more;
              && created == old(created) + multiset(more)
              && (x == NULL <==> old(free.len) == 0 && |more| < chunkSize)
              && (x == NULL ==> free.Contents() == all && out == old(out))
              && (x != NULL ==> free.Contents() + [x] == all && out == old(out) + multiset{x})
      ensures old(free.len) > 0 ==> x != NULL && free.Contents() + [x] == old(free.Contents())
                                    && created == old(created) && poolSize == old(poolSize)
      ensures old(free.len) == 0 && mem && |news| >= chunkSize && NULL !in news[..chunkSize] ==>
                && free.Contents() + [x] == news[..chunkSize] && poolSize == old(poolSize) + chunkSize
                && created == old(created) + multiset(news[..chunkSize])
    {
      AllUsable(chunkSize, news);
      var ok := Refill(1, chunkSize, news, mem);
      if !ok {
        return NULL;
      }
      x := HandOut();
    }

    /** The last n objects of the free list go to the caller. */
    method HandOutN(n: nat) returns (xs: seq<Ptr>)
      requires Valid() && 0 < n <= free.len
      modifies this`out, free`len
      ensures Valid() && |xs| == n && out == old(out) + multiset(xs) && free.Contents() + xs == old(free.Contents())
    {
      xs := free.UnsafePopBackN(n);
      LedgerLend(free.Contents(), xs, out, released, created, poolSize);
      out := out + multiset(xs);
    }

    /** ls_objpool_getmulti: the last n objects of the free list, refilled first if it is shorter; none when that
        fails. */
    method GetMulti(n: nat, news: seq<Ptr>, mem: bool) returns (xs: seq<Ptr>)
      requires Valid() && n > 0
      modifies this`out, this`poolSize, this`created, free`len, free`store, free.store
      ensures Valid() && out == old(out) + multiset(xs)
      ensures var chunk := if n < chunkSize then chunkSize else n;
              var more := old(Fresh(n, chunk, news, mem));
              && created == old(created) + multiset(more)
              && free.Contents() + xs == old(free.Contents()) + more
              && |xs| == if old(free.len) < n && |more| < chunk then 0 else n
      ensures old(free.len) >= n ==> |xs| == n && free.Contents() + xs == old(free.Contents())
                                     && created == old(created) && poolSize == old(poolSize)
    {
      var ok := Refill(n, if n < chunkSize then chunkSize else n, news, mem);
      if !ok {
        return [];
      }
      xs := HandOutN(n);
    }

    /** ls_objpool_recycle of an object handed out by this pool: the unchecked push always finds room. */
    method Recycle(x: Ptr)
      requires Valid() && (x != NULL ==> x in out)
      modifies this`out, free`len, free.store
      ensures Valid() && poolSize == old(poolSize)
      ensures x != NULL ==> free.Contents() == old(free.Contents()) + [x] && out == old(out) - multiset{x}
      ensures x == NULL ==> free.Contents() == old(free.Contents()) && out == old(out)
    {
      if x != NULL {
        assert multiset([x]) == multiset{x} && |out - multiset{x}| == |out| - 1;
        LedgerReturn(free.Contents(), [x], out, released, created, poolSize);
        free.UnsafePushBack(x);
        out := out - multiset{x};
      }
    }

    /** ls_objpool_recyclemulti of n objects handed out by this pool; a null array is ignored. */
    method RecycleMulti(objs: array?<Ptr>, n: nat)
      requires Valid()
      requires objs != null ==> 0 < n <= objs.Length && multiset(objs[..n]) <= out
      modifies this`out, free`len, free.store
      ensures Valid() && poolSize == old(poolSize)
      ensures objs == null ==> free.Contents() == old(free.Contents()) && out == old(out)
      ensures objs != null ==> free.Contents() == old(free.Contents()) + old(objs[..n])
                               && out == old(out) - multiset(old(objs[..n]))
    {
      if objs != null {
        var xs := objs[..n];
        assert |out - multiset(xs)| == |out| - |xs|;
        LedgerReturn(free.Contents(), xs, out, released, created, poolSize);
        free.UnsafePushBackN(xs);
        out := out - multiset(xs);
      }
    }

    /** One round of the loop in ls_objpool_shrinkto. */
    method ReleaseLast() returns (x: Ptr)
      requires Valid() && free.len > 0
      modifies this`poolSize, this`released, free`len
      ensures Valid() && poolSize == old(poolSize) - 1 && released == old(released) + multiset{x}
      ensures free.Contents() + [x] == old(free.Contents())
    {
      ghost var all := free.Contents();
      x := free.PopBack();
      assert all == free.Contents() + [x];
      LedgerRelease(free.Contents(), x, out, released, created, poolSize);
      released := released + multiset{x};
      poolSize := poolSize - 1;
    }

    /** ls_objpool_shrinkto: releases exactly the objects beyond the first sz of the free list, each once, from the
        back, and leaves the number of objects handed out alone. */
    method ShrinkTo(sz: nat) returns (gone: seq<Ptr>)
      requires Valid()
      modifies this`poolSize, this`released, free`len
      ensures Valid() && out == old(out) && poolSize - free.len == old(poolSize - free.len)
      ensures var keep := if sz < |old(free.Contents())| then sz else |old(free.Contents())|;
              && free.Contents() == old(free.Contents())[..keep]
              && gone == Reversed(old(free.Contents())[keep..])
      ensures released == old(released) + multiset(gone)
    {
      var curSize := free.len;
      ghost var all, freed := free.Contents(), multiset{};
      gone := [];
      var i := 0;
      while i < curSize - sz
        invariant 0 <= i && (i <= curSize - sz || i == 0) && free.len == curSize - i
        invariant Valid() && poolSize == old(poolSize) - i
        invariant free.Contents() == all[..free.len] && gone == Reversed(all[free.len..])
        invariant freed == multiset(gone) && released == old(released) + freed
      {
        ghost var before := gone;
        gone := ShrinkOne(gone, all);
        AddLast(before, gone[|before|]);
        freed := freed + multiset{gone[|before|]};
        i := i + 1;
      }
    }

    /** One round, with the objects already released. */
    method ShrinkOne(gone: seq<Ptr>, ghost all: seq<Ptr>) returns (more: seq<Ptr>)
      requires Valid() && 0 < free.len <= |all| && free.Contents() == all[..free.len] && gone == Reversed(all[free.len..])
      modifies this`poolSize, this`released, free`len
      ensures Valid() && free.len == old(free.len) - 1 && poolSize == old(poolSize) - 1
      ensures free.Contents() == all[..free.len] && more == Reversed(all[free.len..])
      ensures |more| == |gone| + 1 && more == gone + [more[|gone|]]
      ensures released == old(released) + multiset{more[|gone|]}
    {
      ghost var k := free.len - 1;
      ReversedCons(all, k);
      assert all[..k + 1] == all[..k] + [all[k]];
      var x := ReleaseLast();
      more := gone + [x];
    }
  }

  lemma OneFurther(news: seq<Ptr>, i: nat, start: seq<Ptr>, before: multiset<Ptr>)
    requires i < |news|
    ensures (start + news[..i]) + [news[i]] == start + news[..i + 1]
    ensures (before + multiset(news[..i])) + multiset{news[i]} == before + multiset(news[..i + 1])
  {
    assert news[..i + 1] == news[..i] + [news[i]];
    AddLast(news[..i], news[i]);
  }

  lemma AddLast(s: seq<Ptr>, x: Ptr)
    ensures multiset(s + [x]) == multiset(s) + multiset{x}
  {
  }

  function Reversed(s: seq<Ptr>): seq<Ptr> {
    if s == [] then [] else Reversed(s[1..]) + [s[0]]
  }

  /** Reversed means from the back. */
  lemma {:induction false} FromTheBack(s: seq<Ptr>, i: nat)
    requires i < |s|
    ensures |Reversed(s)| == |s| && Reversed(s)[i] == s[|s| - 1 - i]
  {
    if |s| == 1 {
      assert s[1..] == [];
    } else if i < |s| - 1 {
      FromTheBack(s[1..], i);
    } else {
      FromTheBack(s[1..], 0);
    }
  }

  lemma ReversedCons(s: seq<Ptr>, i: nat)
    requires i < |s|
    ensures Reversed(s[i..]) == Reversed(s[i + 1..]) + [s[i]]
  {
    assert s[i..][1..] == s[i + 1..];
  }
}
