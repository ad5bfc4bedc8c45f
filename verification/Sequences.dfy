/** Removing one element of a sequence, as the list models use it. */
module Sequences {

  /** The sequence without its first x. */
  function Without<T(==)>(s: seq<T>, x: T): seq<T> {
    if s == [] then [] else if s[0] == x then s[1..] else [s[0]] + Without(s[1..], x)
  }

  lemma {:induction false} WithoutAt<T>(s: seq<T>, k: nat)
    requires k < |s| && forall i :: 0 <= i < k ==> s[i] != s[k]
    ensures Without(s, s[k]) == s[..k] + s[k + 1..]
  {
    if k == 0 {
    } else {
      var rest := s[1..];
      assert rest[k - 1] == s[k] && rest[k..] == s[k + 1..];
      WithoutAt(rest, k - 1);
      assert s[..k] == [s[0]] + rest[..k - 1];
    }
  }

  lemma {:induction false} WithoutAbsent<T>(s: seq<T>, x: T)
    requires x !in s
    ensures Without(s, x) == s
  {
    if s == [] {
    } else {
      WithoutAbsent(s[1..], x);
    }
  }

  lemma {:induction false} WithoutMembers<T>(s: seq<T>, x: T, y: T)
    requires y != x
    ensures y in Without(s, x) <==> y in s
  {
    if s == [] {
    } else {
      assert s == [s[0]] + s[1..];
      if s[0] != x {
        WithoutMembers(s[1..], x, y);
      }
    }
  }

  lemma {:induction false} WithoutCounts<T>(s: seq<T>, x: T)
    requires x in s
    ensures multiset(s) == multiset(Without(s, x)) + multiset{x}
  {
    assert s == [s[0]] + s[1..];
    if s[0] == x {
      assert Without(s, x) == s[1..];
    } else {
      assert x in s[1..];
      WithoutCounts(s[1..], x);
      assert Without(s, x) == [s[0]] + Without(s[1..], x);
    }
  }

  /** Two conserving steps in a row conserve: what was there and was put in is what is there and was taken out. */
  lemma Regroup<T>(before: multiset<T>, put: multiset<T>, puts: multiset<T>, mid: multiset<T>,
                   after: multiset<T>, take: multiset<T>, takes: multiset<T>)
    requires before + put == mid + take && mid + puts == after + takes
    ensures before + (put + puts) == after + (take + takes)
  {
    forall x
      ensures (before + (put + puts))[x] == (after + (take + takes))[x]
    {
      assert (before + put)[x] == (mid + take)[x] && (mid + puts)[x] == (after + takes)[x];
    }
  }
}
