/** Termination ranks for the lock protocols: weights summed over all threads, compared part by part. */
module Ranking {

  /** A weight summed over a sequence. */
  ghost function Sum<T(!new)>(weight: T -> nat, s: seq<T>): nat {
    if s == [] then 0 else weight(s[0]) + Sum(weight, s[1..])
  }

  lemma {:induction false} SumUpdate<T(!new)>(weight: T -> nat, s: seq<T>, t: nat, x: T)
    requires t < |s|
    ensures Sum(weight, s[t := x]) + weight(s[t]) == Sum(weight, s) + weight(x)
  {
    if t == 0 {
      assert s[t := x][1..] == s[1..];
    } else {
      assert s[t := x][1..] == s[1..][t - 1 := x];
      SumUpdate(weight, s[1..], t - 1, x);
    }
  }

  /** A sum falls when a weight falls somewhere and rises nowhere. */
  lemma {:induction false} SumFalls<T(!new)>(less: T -> nat, more: T -> nat, s: seq<T>, t: nat)
    requires t <= |s| && forall x :: x in s ==> less(x) <= more(x)
    ensures Sum(less, s) <= Sum(more, s)
    ensures t < |s| && less(s[t]) < more(s[t]) ==> Sum(less, s) < Sum(more, s)
  {
    if s == [] {
    } else {
      SumFalls(less, more, s[1..], if t == 0 then 0 else t - 1);
    }
  }

  /** Calls not finished, wakes owed, calls not granted, waiters unannounced, local steps: compared in that order. */
  datatype Rank = Rank(active: nat, waking: nat, waiting: nat, unmarked: nat, local: nat)
  {
    ghost predicate Below(r: Rank) {
      || active < r.active
      || (active == r.active && waking < r.waking)
      || (active == r.active && waking == r.waking && waiting < r.waiting)
      || (active == r.active && waking == r.waking && waiting == r.waiting && unmarked < r.unmarked)
      || (active == r.active && waking == r.waking && waiting == r.waiting && unmarked == r.unmarked && local < r.local)
    }

    /** Below in the first three parts. */
    ghost predicate WellBelow(r: Rank) {
      || active < r.active
      || (active == r.active && waking < r.waking)
      || (active == r.active && waking == r.waking && waiting < r.waiting)
    }

    /** Not above in the first three parts. */
    ghost predicate NotAbove(r: Rank) {
      WellBelow(r) || (active == r.active && waking == r.waking && waiting == r.waiting)
    }
  }
}
