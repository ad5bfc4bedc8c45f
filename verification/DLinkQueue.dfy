/** The intrusive doubly linked queue: include/lsr/ls_link.h and include/lsr/ls_dlinkq.h.

    A queue is a ring of links closed by the sentinel m_head. The links belong to the caller; the queue only rewrites
    their next and prev fields, and zeroes a link it takes out.
  */
module DLinkQueue {
  import opened Sequences

  datatype Op<T> = Append(x: T) | PushFront(x: T) | Remove(x: T) | PopFront

  // ---------------------------------------------------------------- the queue as a plain sequence

  ghost function Apply<T>(s: seq<T>, op: Op<T>): seq<T> {
    match op
    case Append(x) => s + [x]
    case PushFront(x) => [x] + s
    case Remove(x) => Without(s, x)
    case PopFront => if s == [] then s else s[1..]
  }

  /** What PopFront hands out. */
  ghost function Popped<T>(s: seq<T>, op: Op<T>): seq<T> {
    if op.PopFront? && s != [] then [s[0]] else []
  }

  ghost function ApplyAll<T>(s: seq<T>, ops: seq<Op<T>>): seq<T>
    decreases |ops|
  {
    if ops == [] then s else ApplyAll(Apply(s, ops[0]), ops[1..])
  }

  ghost function PoppedAll<T>(s: seq<T>, ops: seq<Op<T>>): seq<T>
    decreases |ops|
  {
    if ops == [] then [] else Popped(s, ops[0]) + PoppedAll(Apply(s, ops[0]), ops[1..])
  }

  /** What one operation puts in, and what it takes out: popped, or removed when it was there. */
  ghost function Put<T>(op: Op<T>): multiset<T> {
    if op.Append? || op.PushFront? then multiset{op.x} else multiset{}
  }

  ghost function Taken<T>(s: seq<T>, op: Op<T>): multiset<T> {
    if op.Remove? && op.x in s then multiset{op.x} else multiset(Popped(s, op))
  }

  ghost function PutAll<T>(ops: seq<Op<T>>): multiset<T> {
    if ops == [] then multiset{} else Put(ops[0]) + PutAll(ops[1..])
  }

  ghost function TakenAll<T>(s: seq<T>, ops: seq<Op<T>>): multiset<T>
    decreases |ops|
  {
    if ops == [] then multiset{} else Taken(s, ops[0]) + TakenAll(Apply(s, ops[0]), ops[1..])
  }

  /** Callers insert only links of the pool that are not in the queue, and remove only links of the pool. */
  ghost predicate WellUsed<T>(s: seq<T>, pool: set<T>, ops: seq<Op<T>>)
    decreases |ops|
  {
    ops == [] ||
    (&& (ops[0].Append? || ops[0].PushFront? ==> ops[0].x in pool && ops[0].x !in s)
     && (ops[0].Remove? ==> ops[0].x in pool)
     && WellUsed(Apply(s, ops[0]), pool, ops[1..]))
  }

  // ---------------------------------------------------------------- links

  /** A link, unless it is null. */
  ghost function Some(l: DLink?): set<DLink> {
    if l == null then {} else {l}
  }

  class DLink {
    var next: DLink?
    var prev: DLink?
    var pobj: object?

    constructor (p: DLink?, n: DLink?)
      ensures next == n && prev == p && pobj == null
    {
      next, prev, pobj := n, p, null;
    }

    /** ls_dlink_addnext: put link x between this link and its successor, which may be this link itself. */
    method AddNext(x: DLink)
      requires x != this && x != next
      modifies this`next, x`next, x`prev, Some(next)`prev
      ensures next == x && x.next == old(next) && x.prev == this
      ensures old(next) != null ==> old(next).prev == x
    {
      var temp := next;
      next := x;
      x.next := temp;
      x.prev := this;
      if temp != null {
        temp.prev := x;
      }
    }

    /** ls_dlink_addprev: put link x between this link and its predecessor. */
    method AddPrev(x: DLink)
      requires x != this && x != prev
      modifies this`prev, x`next, x`prev, Some(prev)`next
      ensures prev == x && x.prev == old(prev) && x.next == this
      ensures old(prev) != null ==> old(prev).next == x
    {
      var temp := prev;
      prev := x;
      x.prev := temp;
      x.next := this;
      if temp != null {
        temp.next := x;
      }
    }

    /** ls_dlink_addnext, seen along a stretch of linked links: the stretch with x behind this link is linked. */
    method Extend(x: DLink, ghost e: seq<DLink>, ghost k: nat)
      requires k < |e| - 1 && e[k] == this && Linked(e) && Simple(e) && x !in e
      modifies this`next, x`next, x`prev, Some(next)`prev
      ensures Linked(e[..k + 1] + [x] + e[k + 1..])
    {
      assert e[k].next == e[k + 1] && e[k + 1].prev == e[k];
      AddNext(x);
      Spliced(e, k, x);
    }

    /** ls_dlink_addprev, seen along a stretch of linked links: the stretch with x before this link is linked. */
    method Precede(x: DLink, ghost e: seq<DLink>, ghost k: nat)
      requires k < |e| - 1 && e[k + 1] == this && Linked(e) && Simple(e) && x !in e
      modifies this`prev, x`next, x`prev, Some(prev)`next
      ensures Linked(e[..k + 1] + [x] + e[k + 1..])
    {
      assert e[k].next == e[k + 1] && e[k + 1].prev == e[k];
      AddPrev(x);
      Spliced(e, k, x);
    }

    /** memset of the whole link. */
    method Zero()
      modifies this`next, this`prev, this`pobj
      ensures next == null && prev == null && pobj == null
    {
      next, prev, pobj := null, null, null;
    }

    /** ls_dlink_remove: connect the neighbours of this link and zero it. */
    method Remove() returns (n: DLink?)
      requires next != this && prev != this
      modifies this`next, this`prev, this`pobj, Some(next)`prev, Some(prev)`next
      ensures n == old(next)
      ensures next == null && prev == null && pobj == null
      ensures old(next) != null ==> old(next).prev == old(prev)
      ensures old(prev) != null ==> old(prev).next == old(next)
    {
      n := next;
      if n != null {
        n.prev := prev;
      }
      if prev != null {
        prev.next := next;
      }
      Zero();
    }

    /** ls_dlink_remove, seen along a stretch of linked links: the rest of the stretch stays linked. */
    method Cut(ghost e: seq<DLink>, ghost k: nat)
      requires 0 < k < |e| - 1 && e[k] == this && Linked(e) && Simple(e)
      modifies this`next, this`prev, this`pobj, Some(next)`prev, Some(prev)`next
      ensures Linked(e[..k] + e[k + 1..])
      ensures next == null && prev == null && pobj == null
    {
      assert e[k].next == e[k + 1] && e[k].prev == e[k - 1];
      var n := Remove();
      ghost var rest := e[..k] + e[k + 1..];
      forall i | 0 <= i < |rest| - 1
        ensures rest[i].next == rest[i + 1]
      {
        assert rest[i] == e[if i < k then i else i + 1];
      }
      forall i | 0 < i < |rest|
        ensures rest[i].prev == rest[i - 1]
      {
        assert rest[i] == e[if i < k then i else i + 1];
      }
    }

    ghost function NextButOne(): DLink?
      reads this, next
    {
      if next == null then null else next.next
    }

    /** ls_dlink_removenext: take out the successor of this link and zero it. */
    method RemoveNext() returns (n: DLink?)
      requires next != this
      modifies this`next, Some(next)`next, Some(next)`prev, Some(next)`pobj, Some(NextButOne())`prev
      ensures n == old(next)
      ensures n != null ==> n.next == null && n.prev == null && n.pobj == null && next == old(next.next)
      ensures n == null ==> next == null
      ensures n != null && next != null && next != n ==> next.prev == this
    {
      n := next;
      if n != null {
        var temp := n.next;
        next := temp;
        if temp != null {
          temp.prev := this;
        }
        n.Zero();
      }
    }
  }

  // ---------------------------------------------------------------- the queue

  /** Along e, next leads from each link to the following one and prev leads back. */
  ghost predicate Linked(e: seq<DLink>)
    reads e
  {
    && (forall i {:trigger e[i].next} :: 0 <= i < |e| - 1 ==> e[i].next == e[i + 1])
    && (forall i {:trigger e[i].prev} :: 0 < i < |e| ==> e[i].prev == e[i - 1])
  }

  /** No link occurs twice along e, except that its ends may be the same. */
  ghost predicate Simple(e: seq<DLink>) {
    forall i, j :: 0 <= i < j < |e| && j - i < |e| - 1 ==> e[i] != e[j]
  }

  /** Links that are linked up to k and from k + 1 on, with x in between, are linked. */
  lemma Spliced(e: seq<DLink>, k: nat, x: DLink)
    requires k < |e| - 1 && e[k].next == x && x.prev == e[k] && x.next == e[k + 1] && e[k + 1].prev == x
    requires forall i {:trigger e[i].next} :: 0 <= i < |e| - 1 && i != k ==> e[i].next == e[i + 1]
    requires forall i {:trigger e[i].prev} :: 0 < i < |e| && i != k + 1 ==> e[i].prev == e[i - 1]
    ensures Linked(e[..k + 1] + [x] + e[k + 1..])
  {
    var e' := e[..k + 1] + [x] + e[k + 1..];
    forall i | 0 <= i < |e'|
      ensures e'[i] == if i <= k then e[i] else if i == k + 1 then x else e[i - 1]
    {
    }
  }

  lemma SimpleInsert(e: seq<DLink>, k: nat, x: DLink)
    requires Simple(e) && 0 < k < |e| && x !in e
    ensures Simple(e[..k] + [x] + e[k..])
  {
    var e' := e[..k] + [x] + e[k..];
    forall i, j | 0 <= i < j < |e'| && j - i < |e'| - 1
      ensures e'[i] != e'[j]
    {
      if i != k && j != k {
        assert e'[i] == e[if i < k then i else i - 1] && e'[j] == e[if j < k then j else j - 1];
      }
    }
  }

  lemma SimpleWithout(e: seq<DLink>, k: nat)
    requires Simple(e) && 0 < k < |e| - 1
    ensures Simple(e[..k] + e[k + 1..])
  {
    var e' := e[..k] + e[k + 1..];
    forall i, j | 0 <= i < j < |e'| && j - i < |e'| - 1
      ensures e'[i] != e'[j]
    {
      assert e'[i] == e[if i < k then i else i + 1] && e'[j] == e[if j < k then j else j + 1];
    }
  }

  class DLinkQ {
    const head: DLink
    var total: int
    ghost var nodes: seq<DLink>

    /** Once around the ring, from the sentinel to the sentinel. */
    ghost function Around(): seq<DLink>
      reads this
    {
      [head] + nodes + [head]
    }

    /** Around the ring next and prev are inverse to each other, no link occurs twice, and total counts the links. */
    ghost predicate Valid()
      reads this, head, nodes
    {
      total == |nodes| && Simple(Around()) && Linked(Around())
    }

    constructor ()
      ensures Valid() && nodes == [] && fresh(head)
    {
      head := new DLink(null, null);
      total := 0;
      nodes := [];
      new;
      head.next := head;
      head.prev := head;
    }

    method Size() returns (n: int)
      requires Valid()
      ensures n == |nodes|
    {
      n := total;
    }

    method Empty() returns (b: bool)
      requires Valid()
      ensures b <==> nodes == []
    {
      b := head.next == head;
      assert Around()[0].next == Around()[1];
    }

    method Append(x: DLink)
      requires Valid() && x != head && x !in nodes
      modifies this, head`next, head`prev, nodes`next, nodes`prev, x`next, x`prev
      ensures Valid() && nodes == old(nodes) + [x]
    {
      ghost var e := Around();
      assert e[|e| - 1].prev == e[|e| - 2] && e[|e| - 2].next == e[|e| - 1];
      SimpleInsert(e, |e| - 1, x);
      head.prev.Extend(x, e, |e| - 2);
      total := total + 1;
      nodes := nodes + [x];
      assert Around() == e[..|e| - 1] + [x] + e[|e| - 1..];
    }

    method PushFront(x: DLink)
      requires Valid() && x != head && x !in nodes
      modifies this, head`next, head`prev, nodes`next, nodes`prev, x`next, x`prev
      ensures Valid() && nodes == [x] + old(nodes)
    {
      ghost var e := Around();
      assert e[0].next == e[1] && e[1].prev == e[0];
      SimpleInsert(e, 1, x);
      head.next.Precede(x, e, 0);
      total := total + 1;
      nodes := [x] + nodes;
      assert Around() == e[..1] + [x] + e[1..];
    }

    method PopFront() returns (x: DLink?)
      requires Valid()
      modifies this, head`next, head`prev, nodes`next, nodes`prev, nodes[..if nodes == [] then 0 else 1]`pobj
      ensures Valid()
      ensures x == null <==> old(nodes) == []
      ensures x == null ==> nodes == old(nodes)
      ensures x != null ==> x == old(nodes)[0] && nodes == old(nodes)[1..]
      ensures x != null ==> x.next == null && x.prev == null && x.pobj == null
    {
      ghost var e := Around();
      assert e[0].next == e[1];
      if head.next != head {
        assert e[1].next == e[2];
        total := total - 1;
        x := head.RemoveNext();
        nodes := nodes[1..];
        assert Around() == [head] + e[2..];
      } else {
        assert total == 0;
        x := null;
      }
    }

    /** The list surgery of ls_dlinkq_remove on the link at position k. */
    method TakeOut(x: DLink, ghost k: nat)
      requires Valid() && k < |nodes| && nodes[k] == x
      modifies this, head`next, head`prev, nodes`next, nodes`prev, x`pobj
      ensures Valid() && nodes == old(nodes[..k] + nodes[k + 1..])
      ensures x.next == null && x.prev == null && x.pobj == null
    {
      ghost var e := Around();
      assert e[k + 1].next == e[k + 2] && e[k + 1].prev == e[k];
      assert e[k] == head || e[k] == nodes[k - 1];
      assert e[k + 2] == head || e[k + 2] == nodes[k + 1];
      SimpleWithout(e, k + 1);
      x.Cut(e, k + 1);
      total := total - 1;
      nodes := nodes[..k] + nodes[k + 1..];
      assert Around() == e[..k + 1] + e[k + 2..];
    }

    method Remove(x: DLink)
      requires Valid() && x != head
      requires x in nodes || x.next == null
      modifies this, head`next, head`prev, nodes`next, nodes`prev, x`pobj
      ensures Valid() && nodes == Without(old(nodes), x)
      ensures x.next == null
      ensures x in old(nodes) ==> x.prev == null && x.pobj == null
      ensures x !in old(nodes) ==> unchanged(x)
    {
      if x.next != null {
        ghost var k :| 0 <= k < |nodes| && nodes[k] == x;
        assert forall i :: 0 <= i < |nodes| ==> Around()[i + 1] == nodes[i];
        WithoutAt(nodes, k);
        TakeOut(x, k);
      } else {
        assert forall i :: 0 <= i < |nodes| ==> Around()[i + 1] == nodes[i] && Around()[i + 1].next != null;
        WithoutAbsent(nodes, x);
      }
    }
  }

  // ---------------------------------------------------------------- whole runs

  /** A link of the pool is in the queue or has been zeroed. */
  ghost predicate Tidy(q: DLinkQ, pool: set<DLink>)
    reads q, pool
  {
    && q.head !in pool
    && (forall x :: x in q.nodes ==> x in pool)
    && (forall x :: x in pool ==> x in q.nodes || x.next == null)
  }

  method Execute(q: DLinkQ, ghost pool: set<DLink>, op: Op<DLink>) returns (popped: seq<DLink>)
    requires q.Valid() && Tidy(q, pool) && WellUsed(q.nodes, pool, [op])
    modifies q, q.head`next, q.head`prev, pool
    ensures q.Valid() && Tidy(q, pool)
    ensures q.nodes == Apply(old(q.nodes), op)
    ensures popped == Popped(old(q.nodes), op)
    ensures forall y :: y in pool ==> y.pobj == if y in Taken(old(q.nodes), op) then null else old(y.pobj)
  {
    popped := [];
    match op
    case Append(x) => q.Append(x);
    case PushFront(x) => q.PushFront(x);
    case Remove(x) => ExecuteRemove(q, pool, x);
    case PopFront => popped := ExecutePop(q, pool);
  }

  method ExecuteRemove(q: DLinkQ, ghost pool: set<DLink>, x: DLink)
    requires q.Valid() && Tidy(q, pool) && x in pool
    modifies q, q.head`next, q.head`prev, pool
    ensures q.Valid() && Tidy(q, pool) && q.nodes == Without(old(q.nodes), x)
    ensures forall y :: y in pool ==> y.pobj == if y == x && x in old(q.nodes) then null else old(y.pobj)
  {
    WithoutOthers(q.nodes, x);
    q.Remove(x);
  }

  method ExecutePop(q: DLinkQ, ghost pool: set<DLink>) returns (popped: seq<DLink>)
    requires q.Valid() && Tidy(q, pool)
    modifies q, q.head`next, q.head`prev, pool
    ensures q.Valid() && Tidy(q, pool) && popped == (if old(q.nodes) == [] then [] else [old(q.nodes)[0]])
    ensures q.nodes == if old(q.nodes) == [] then [] else old(q.nodes)[1..]
    ensures forall y :: y in pool ==> y.pobj == if y in popped then null else old(y.pobj)
  {
    popped := [];
    var x := q.PopFront();
    if x != null {
      popped := [x];
      assert old(q.nodes) == [x] + q.nodes;
    }
  }

  lemma WithoutOthers<T>(s: seq<T>, x: T)
    ensures forall y :: y in s && y != x ==> y in Without(s, x)
    ensures forall y :: y in Without(s, x) ==> y == x || y in s
  {
    forall y | y in s && y != x
      ensures y in Without(s, x)
    {
      WithoutMembers(s, x, y);
    }
    forall y | y in Without(s, x) && y != x
      ensures y in s
    {
      WithoutMembers(s, x, y);
    }
  }

  /** Every run of append, pushfront, remove and popfront does to the ring what the same run does to a plain sequence;
      removing a link that is already out is a no-op, and the assertions inside never fail. The links taken out have
      lost the caller's payload, all others keep it. */
  method Run(q: DLinkQ, ghost pool: set<DLink>, ops: seq<Op<DLink>>) returns (popped: seq<DLink>)
    requires q.Valid() && Tidy(q, pool) && WellUsed(q.nodes, pool, ops)
    modifies q, q.head`next, q.head`prev, pool
    ensures q.Valid() && Tidy(q, pool)
    ensures q.nodes == ApplyAll(old(q.nodes), ops)
    ensures popped == PoppedAll(old(q.nodes), ops)
    ensures forall y :: y in pool ==> y.pobj == if y in TakenAll(old(q.nodes), ops) then null else old(y.pobj)
    decreases |ops|
  {
    if ops == [] {
      popped := [];
    } else {
      popped := Execute(q, pool, ops[0]);
      var rest := Run(q, pool, ops[1..]);
      popped := popped + rest;
    }
  }

  // ---------------------------------------------------------------- laws of the plain sequence

  /** What the insertions of a run put in. */
  ghost function Inserted<T>(ops: seq<Op<T>>): seq<T> {
    if ops == [] then []
    else (if ops[0].Append? || ops[0].PushFront? then [ops[0].x] else []) + Inserted(ops[1..])
  }

  /** First in, first out: when links are only appended and popped, they come out in the order they went in. */
  lemma {:induction false} Fifo<T>(s: seq<T>, ops: seq<Op<T>>)
    requires forall i :: 0 <= i < |ops| ==> ops[i].Append? || ops[i].PopFront?
    ensures PoppedAll(s, ops) + ApplyAll(s, ops) == s + Inserted(ops)
    decreases |ops|
  {
    if ops == [] {
    } else {
      var rest := ops[1..];
      var s' := Apply(s, ops[0]);
      Fifo(s', rest);
      var pop, put := Popped(s, ops[0]), if ops[0].Append? then [ops[0].x] else [];
      Shuffle(pop, PoppedAll(s', rest), ApplyAll(s', rest), s, put, s', Inserted(rest));
    }
  }

  lemma Shuffle<T>(pop: seq<T>, pops: seq<T>, after: seq<T>, before: seq<T>, put: seq<T>, mid: seq<T>, puts: seq<T>)
    requires pop + mid == before + put && pops + after == mid + puts
    ensures (pop + pops) + after == before + (put + puts)
  {
    assert (pop + pops) + after == pop + (pops + after);
    assert pop + (mid + puts) == (pop + mid) + puts;
    assert before + (put + puts) == (before + put) + puts;
  }

  /** Links pushed in front one inside the other: each is popped after those pushed later. */
  ghost function Nested<T>(xs: seq<T>): seq<Op<T>> {
    if xs == [] then [] else [PushFront(xs[0])] + Nested(xs[1..]) + [PopFront]
  }

  ghost function Mirrored<T>(xs: seq<T>): seq<T> {
    if xs == [] then [] else Mirrored(xs[1..]) + [xs[0]]
  }

  lemma {:induction false} RunsInARow<T>(s: seq<T>, first: seq<Op<T>>, second: seq<Op<T>>)
    ensures ApplyAll(s, first + second) == ApplyAll(ApplyAll(s, first), second)
    ensures PoppedAll(s, first + second) == PoppedAll(s, first) + PoppedAll(ApplyAll(s, first), second)
    decreases |first|
  {
    if first == [] {
      assert first + second == second;
    } else {
      var ops := first + second;
      assert ops[0] == first[0] && ops[1..] == first[1..] + second;
      RunsInARow(Apply(s, first[0]), first[1..], second);
    }
  }

  /** Last in, first out: links pushed in front come out in the opposite order, and the queue is as before. */
  lemma {:induction false} Lifo<T>(s: seq<T>, xs: seq<T>)
    ensures PoppedAll(s, Nested(xs)) == Mirrored(xs) && ApplyAll(s, Nested(xs)) == s
    decreases |xs|
  {
    if xs == [] {
    } else {
      var x, inner := xs[0], Nested(xs[1..]);
      var pushed := Apply(s, PushFront(x));
      Lifo(pushed, xs[1..]);
      RunsInARow(pushed, inner, [PopFront]);
      OnePop(pushed);
      var ops := Nested(xs);
      assert ops[0] == PushFront(x) && ops[1..] == inner + [PopFront];
    }
  }

  lemma OnePop<T>(s: seq<T>)
    requires s != []
    ensures PoppedAll(s, [PopFront]) == [s[0]] && ApplyAll(s, [PopFront]) == s[1..]
  {
    var ops: seq<Op<T>> := [PopFront];
    assert ops[1..] == [];
  }

  lemma RemoveConserves<T>(s: seq<T>, x: T)
    ensures multiset(s) == multiset(Without(s, x)) + (if x in s then multiset{x} else multiset{})
  {
    if x in s {
      WithoutCounts(s, x);
    } else {
      WithoutAbsent(s, x);
    }
  }

  lemma ConservedStep<T>(s: seq<T>, op: Op<T>)
    ensures multiset(s) + Put(op) == multiset(Apply(s, op)) + Taken(s, op)
  {
    if op.Remove? {
      RemoveConserves(s, op.x);
    } else if op.PopFront? && s != [] {
      assert s == [s[0]] + s[1..];
    }
  }

  /** Nothing is lost or invented: what was queued and what was put in is what is queued and what was taken out. */
  lemma {:induction false} Conserved<T>(s: seq<T>, ops: seq<Op<T>>)
    ensures multiset(s) + PutAll(ops) == multiset(ApplyAll(s, ops)) + TakenAll(s, ops)
    decreases |ops|
  {
    if ops == [] {
    } else {
      var op, rest := ops[0], ops[1..];
      var s' := Apply(s, op);
      ConservedStep(s, op);
      Conserved(s', rest);
      Regroup(multiset(s), Put(op), PutAll(rest), multiset(s'), multiset(ApplyAll(s', rest)),
              Taken(s, op), TakenAll(s', rest));
    }
  }
}
