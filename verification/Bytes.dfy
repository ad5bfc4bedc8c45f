/** Bytes and the library calls that move them, shared by the buffer models. */
module Bytes {

  type Byte = x: int | 0 <= x < 256

  // from include/lsdef.h
  const LS_OK := 0
  const LS_FAIL := -1

  /** s with a piece written over it at offset at. */
  function Patched(s: seq<Byte>, at: nat, piece: seq<Byte>): (r: seq<Byte>)
    requires at + |piece| <= |s|
    ensures |r| == |s|
  {
    s[..at] + piece + s[at + |piece|..]
  }

  /** What lies around the piece stays, and the piece joins what lies before it. */
  lemma PatchedParts(s: seq<Byte>, at: nat, piece: seq<Byte>, h: nat)
    requires at + |piece| <= |s| && h <= |s|
    ensures h <= at ==> Patched(s, at, piece)[..h] == s[..h]
    ensures h <= at ==> Patched(s, at, piece)[h..at + |piece|] == s[h..at] + piece
    ensures at + |piece| <= h ==> Patched(s, at, piece)[h..] == s[h..]
  {
  }

  /** Two pieces written side by side are one piece. */
  lemma PatchedTwice(s: seq<Byte>, at: nat, a: seq<Byte>, b: seq<Byte>)
    requires at + |a| + |b| <= |s|
    ensures Patched(Patched(s, at, a), at + |a|, b) == Patched(s, at, a + b)
  {
    PatchedParts(s, at, a, at + |a| + |b|);
    PatchedParts(s, at, a, 0);
  }

  /** memmove or memcpy of a piece to offset at. */
  method Memmove(target: array<Byte>, at: nat, piece: seq<Byte>)
    requires at + |piece| <= target.Length
    modifies target
    ensures target[..] == Patched(old(target[..]), at, piece)
  {
    forall i | 0 <= i < |piece| {
      target[at + i] := piece[i];
    }
  }

  /** The segments of an iovec, one after the other. */
  ghost function Joined(segments: seq<seq<Byte>>): seq<Byte> {
    if segments == [] then [] else segments[0] + Joined(segments[1..])
  }

  lemma {:induction false} JoinedSnoc(iov: seq<seq<Byte>>, i: nat)
    requires i < |iov|
    ensures Joined(iov[..i + 1]) == Joined(iov[..i]) + iov[i]
    decreases i
  {
    var now, next := iov[..i], iov[..i + 1];
    if i == 0 {
      assert next[1..] == [];
    } else {
      JoinedSnoc(iov[1..], i - 1);
      assert now[1..] == iov[1..][..i - 1] && next[1..] == iov[1..][..i];
    }
  }
}
