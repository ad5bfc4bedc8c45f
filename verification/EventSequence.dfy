/** The sequence-checked event consumer of addon/example/mteventseq.c: process_req creates the events 0 .. num - 1 and
    process_event accepts them only in that order.

    The server may deliver events in any order, late, twice or never; a delivery also says whether append_resp_body
    succeeds.
  */
module EventSequence {
  import opened Bytes

  datatype Delivery = Delivery(l: int, appended: bool)

  /** The loop of process_req that creates the events. */
  method CreateEvents(num: int) returns (events: seq<int>)
    ensures |events| == (if num < 0 then 0 else num) && forall i :: 0 <= i < |events| ==> events[i] == i
  {
    events := [];
    var l := 0;
    while l < num
      invariant 0 <= l && (l <= num || l == 0) && |events| == l
      invariant forall i :: 0 <= i < |events| ==> events[i] == i
    {
      events := events + [l];
      l := l + 1;
    }
  }

  class EventData {
    var expected: int
    var done: bool
    ghost var accepted: seq<int>

    /** The events accepted are exactly 0, 1, ..., seq - 1 in that order, and done is set exactly when all num events
        have been. */
    ghost predicate Valid(num: int)
      reads this
    {
      && 0 <= expected == |accepted| && (expected <= num || expected == 0)
      && (forall i :: 0 <= i < |accepted| ==> accepted[i] == i)
      && (done <==> num > 0 && expected == num)
    }

    constructor (num: int)
      ensures Valid(num) && expected == 0 && !done
    {
      expected, done, accepted := 0, false, [];
    }

    /** process_event: an event out of order, or one whose line cannot be appended, changes nothing. */
    method ProcessEvent(d: Delivery, num: int) returns (r: int)
      requires Valid(num) && 0 <= d.l < num
      modifies this
      ensures Valid(num)
      ensures r == LS_OK <==> d.l == old(expected) && d.appended
      ensures r == LS_OK ==> expected == old(expected) + 1
      ensures r != LS_OK ==> r == LS_FAIL && expected == old(expected) && done == old(done)
    {
      if expected != d.l {
        return LS_FAIL;
      }
      if !d.appended {
        return LS_FAIL;
      }
      expected := expected + 1;
      accepted := accepted + [d.l];
      if d.l + 1 >= num {
        done := true;
      }
      r := LS_OK;
    }

    /** A whole run: done is set if and only if the deliveries contain 0, 1, ..., num - 1, in this order and each with
        its line appended, whatever else they contain and however often. */
    method Deliver(deliveries: seq<Delivery>, num: int)
      requires Valid(num) && expected == 0
      requires forall i :: 0 <= i < |deliveries| ==> 0 <= deliveries[i].l < num
      modifies this
      ensures Valid(num)
      ensures num > 0 ==> (done <==> InOrder(deliveries, 0, num))
    {
      var i := 0;
      while i < |deliveries|
        invariant 0 <= i <= |deliveries| && Valid(num)
        invariant num > 0 ==> (InOrder(deliveries, 0, num) <==> InOrder(deliveries[i..], expected, num))
      {
        if expected < num {
          InOrderStep(deliveries[i..], expected, num);
        }
        assert deliveries[i..][1..] == deliveries[i + 1..];
        var r := ProcessEvent(deliveries[i], num);
        i := i + 1;
      }
    }
  }

  /** The successful deliveries contain from, from + 1, ..., num - 1 as a subsequence. */
  ghost predicate InOrder(ds: seq<Delivery>, from: int, num: int)
    requires from <= num
    decreases num - from
  {
    from == num ||
    exists i {:trigger ds[i]} :: 0 <= i < |ds| && ds[i] == Delivery(from, true) && InOrder(ds[i + 1..], from + 1, num)
  }

  /** More deliveries in front do no harm. */
  lemma {:induction false} InOrderLonger(ds: seq<Delivery>, k: nat, from: int, num: int)
    requires from <= num && k <= |ds| && InOrder(ds[k..], from, num)
    ensures InOrder(ds, from, num)
  {
    if from == num {
    } else {
      var i :| 0 <= i < |ds[k..]| && ds[k..][i] == Delivery(from, true) && InOrder(ds[k..][i + 1..], from + 1, num);
      assert ds[k + i] == Delivery(from, true) && ds[k..][i + 1..] == ds[k + i + 1..];
    }
  }

  /** Taking the first fitting event loses nothing: the greedy consumer finds the subsequence if there is one. */
  lemma InOrderStep(ds: seq<Delivery>, from: int, num: int)
    requires from < num && ds != []
    ensures ds[0] == Delivery(from, true) ==> (InOrder(ds, from, num) <==> InOrder(ds[1..], from + 1, num))
    ensures ds[0] != Delivery(from, true) ==> (InOrder(ds, from, num) <==> InOrder(ds[1..], from, num))
  {
    if InOrder(ds, from, num) {
      var i :| 0 <= i < |ds| && ds[i] == Delivery(from, true) && InOrder(ds[i + 1..], from + 1, num);
      assert ds[1..][i..] == ds[i + 1..];
      if ds[0] == Delivery(from, true) {
        InOrderLonger(ds[1..], i, from + 1, num);
      } else {
        assert ds[1..][i - 1] == ds[i] && ds[1..][i - 1 + 1..] == ds[i + 1..];
      }
    }
    if ds[0] != Delivery(from, true) && InOrder(ds[1..], from, num) {
      InOrderLonger(ds, 1, from, num);
    }
  }
}
