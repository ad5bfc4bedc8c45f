/** The bounded string functions of include/lsdef.h: lstrncpy, lstrncat and lstrncat2 write into the caller's buffer of
    n bytes and return the position of the terminating NUL.

    A source string is the sequence of its characters before its NUL. Pointers are offsets into the memory block dest.
  */
module BoundedString {
  import opened Bytes

  const NUL: Byte := 0

  ghost predicate IsText(s: seq<Byte>) { NUL !in s }

  /** The buffer b holds the text s as a C string. */
  ghost predicate Holds(b: seq<Byte>, s: seq<Byte>) {
    IsText(s) && |s| < |b| && b[..|s|] == s && b[|s|] == NUL
  }

  /** The longest front of s that fits n bytes with its NUL. */
  function Cut(s: seq<Byte>, n: nat): (r: seq<Byte>)
    requires n > 0
    ensures |r| < n
  {
    if |s| <= n - 1 then s else s[..n - 1]
  }

  /** The characters before the first NUL; all of them if there is none. */
  ghost function TextIn(b: seq<Byte>): seq<Byte> {
    if b == [] || b[0] == NUL then [] else [b[0]] + TextIn(b[1..])
  }

  /** A buffer holds the text before its first NUL and no other. */
  lemma {:induction false} HoldsTextIn(b: seq<Byte>, s: seq<Byte>)
    requires Holds(b, s)
    ensures TextIn(b) == s
  {
    if s == [] {
    } else {
      assert b[0] == s[0] && s[0] in s;
      var b', s' := b[1..], s[1..];
      assert b'[..|s'|] == s' && b'[|s'|] == NUL;
      HoldsTextIn(b', s');
      assert s == [s[0]] + s';
    }
  }

  /** It is all of s, or a front of s that leaves room for nothing but the NUL. */
  lemma CutIsLongest(s: seq<Byte>, n: nat)
    requires n > 0
    ensures Cut(s, n) <= s && (Cut(s, n) == s || |Cut(s, n)| == n - 1)
  {
  }

  /** Cutting early and appending is the same as appending and cutting. */
  lemma CutAppend(s: seq<Byte>, t: seq<Byte>, n: nat)
    requires n > 0
    ensures Cut(Cut(s, n) + t, n) == Cut(s + t, n)
  {
    if |s| > n - 1 {
      assert (s[..n - 1] + t)[..n - 1] == s[..n - 1] == (s + t)[..n - 1];
    }
  }

  /** What a C string of the cut text looks like in memory. */
  function Terminated(s: seq<Byte>, n: nat): (r: seq<Byte>)
    requires n > 0
    ensures 0 < |r| <= n
  {
    Cut(s, n) + [NUL]
  }

  /** A buffer over which a cut text is written holds that text. */
  lemma PatchedHolds(b: seq<Byte>, at: nat, s: seq<Byte>, n: nat)
    requires n > 0 && at + n <= |b| && IsText(s)
    ensures Holds(Patched(b, at, Terminated(s, n))[at..at + n], Cut(s, n))
  {
    var t := Terminated(s, n);
    var whole := Patched(b, at, t);
    PatchedParts(b, at, t, at);
    assert whole[at..at + |t|] == t;
    assert whole[at..at + n][..|t|] == whole[at..at + |t|];
    assert t[..|t| - 1] == Cut(s, n);
  }

  /** Two texts joined and cut are the first one cut and the second one cut to what room is left. */
  lemma JoinCut(text: seq<Byte>, src: seq<Byte>, n: nat)
    requires n > 0
    ensures Terminated(text + src, n) == Cut(text, n) + Terminated(src, n - |Cut(text, n)|)
    ensures |Cut(text + src, n)| == |Cut(text, n)| + |Cut(src, n - |Cut(text, n)|)|
  {
    assert Cut(text + src, n) == Cut(text, n) + Cut(src, n - |Cut(text, n)|);
  }

  /** The NUL behind a text is written over by whatever follows it. */
  lemma OverNul(b: seq<Byte>, text: seq<Byte>, tail: seq<Byte>)
    requires tail != [] && |text| + |tail| <= |b|
    ensures Patched(Patched(b, 0, text + [NUL]), |text|, tail) == Patched(b, 0, text + tail)
  {
    var once := Patched(b, 0, text + [NUL]);
    assert once[..|text|] == text;
    PatchedParts(b, 0, text + [NUL], |text| + |tail|);
  }

  /** Writing behind a text that is there is writing the text and the rest. */
  lemma WriteBehind(b: seq<Byte>, at: nat, text: seq<Byte>, tail: seq<Byte>)
    requires at + |text| + |tail| <= |b| && b[at..at + |text|] == text
    ensures Patched(b, at + |text|, tail) == Patched(b, at, text + tail)
  {
    assert b[..at + |text|] == b[..at] + text;
  }

  /** A longer piece hides a shorter one. */
  lemma WriteOver(b: seq<Byte>, piece: seq<Byte>, longer: seq<Byte>)
    requires |piece| <= |longer| <= |b|
    ensures Patched(Patched(b, 0, piece), 0, longer) == Patched(b, 0, longer)
  {
    PatchedParts(b, 0, piece, |longer|);
  }

  /** Writing up to n bytes and ending with a NUL is writing the cut text. */
  lemma LastByte(b: seq<Byte>, at: nat, s: seq<Byte>, n: nat)
    requires 0 < n <= |s| && at + n <= |b|
    ensures Patched(b, at, s[..n])[at + n - 1 := NUL] == Patched(b, at, Terminated(s, n))
  {
    assert s[..n] == s[..n - 1] + [s[n - 1]];
  }

  /** lstrncpy to offset at, with n bytes of room: the text cut to fit and its NUL, and nothing else. With no room
      nothing is written at all. */
  method Lstrncpy(dest: array<Byte>, at: nat, src: seq<Byte>, n: nat) returns (end: nat)
    requires at + n <= dest.Length && IsText(src)
    modifies dest
    ensures n == 0 ==> end == at && dest[..] == old(dest[..])
    ensures n > 0 ==> end == at + |Cut(src, n)| && dest[..] == Patched(old(dest[..]), at, Terminated(src, n))
  {
    if |src| + 1 <= n {
      Memmove(dest, at, src + [NUL]);  // memccpy finds the NUL
      end := at + |src|;
    } else {
      ghost var was := dest[..];
      Memmove(dest, at, src[..n]);     // memccpy does not
      end := at;
      if n > 0 {
        LastByte(was, at, src, n);
        end := at + n - 1;
        dest[end] := NUL;
      }
    }
  }

  /** memchr for the NUL in the n bytes from at on. */
  method FindNul(dest: array<Byte>, at: nat, n: nat, ghost b: seq<Byte>) returns (found: bool, p: nat)
    requires at + n <= dest.Length && b == dest[..]
    ensures found <==> NUL in b[at..at + n]
    ensures found ==> at <= p < at + n && Holds(b[at..at + n], b[at..p])
  {
    p := at;
    while p < at + n
      invariant at <= p <= at + n && IsText(b[at..p])
    {
      if dest[p] == NUL {
        assert b[at..at + n][p - at] == NUL;
        return true, p;
      }
      assert b[at..p + 1] == b[at..p] + [b[p]];
      p := p + 1;
    }
    found := false;
  }

  /** lstrncat: the text in the buffer followed by src, cut to fit, and nothing else written; a buffer without a NUL is
      left alone. */
  method Lstrncat(dest: array<Byte>, at: nat, src: seq<Byte>, n: nat) returns (end: nat)
    requires at + n <= dest.Length && IsText(src)
    modifies dest
    ensures var b := old(dest[..])[at..at + n];
            var r := TextIn(b) + src;
            && (NUL in b ==> n > 0 && end == at + |Cut(r, n)| && dest[..] == Patched(old(dest[..]), at, Terminated(r, n)))
            && (NUL !in b ==> end == at + n && dest[..] == old(dest[..]))
  {
    ghost var was := dest[..];
    var found, p := FindNul(dest, at, n, was);
    if !found {
      return at + n;
    }
    CatBehind(was, at, p, src, n);
    end := Lstrncpy(dest, p, src, at + n - p);
  }

  /** Copying over the NUL at p behind the text a buffer holds is writing the text and the copy joined. */
  lemma CatBehind(b: seq<Byte>, at: nat, p: nat, src: seq<Byte>, n: nat)
    requires at <= p < at + n <= |b| && Holds(b[at..at + n], b[at..p])
    ensures var r := TextIn(b[at..at + n]) + src;
            && Patched(b, p, Terminated(src, at + n - p)) == Patched(b, at, Terminated(r, n))
            && p + |Cut(src, at + n - p)| == at + |Cut(r, n)|
  {
    HoldsTextIn(b[at..at + n], b[at..p]);
    WriteJoined(b, at, b[at..p], src, n);
  }

  lemma WriteJoined(b: seq<Byte>, at: nat, text: seq<Byte>, src: seq<Byte>, n: nat)
    requires |text| < n && at + n <= |b| && b[at..at + |text|] == text
    ensures Patched(b, at + |text|, Terminated(src, n - |text|)) == Patched(b, at, Terminated(text + src, n))
    ensures |text| + |Cut(src, n - |text|)| == |Cut(text + src, n)|
  {
    JoinCut(text, src, n);
    WriteBehind(b, at, text, Terminated(src, n - |text|));
  }

  /** lstrncat2: the same as lstrncpy of the two strings joined. */
  method Lstrncat2(dest: array<Byte>, n: nat, src1: seq<Byte>, src2: seq<Byte>) returns (end: nat)
    requires n <= dest.Length && IsText(src1) && IsText(src2)
    modifies dest
    ensures n == 0 ==> end == 0 && dest[..] == old(dest[..])
    ensures n > 0 ==> end == |Cut(src1 + src2, n)| && dest[..] == Patched(old(dest[..]), 0, Terminated(src1 + src2, n))
  {
    ghost var was := dest[..];
    var mid := Lstrncpy(dest, 0, src1, n);
    end := Lstrncpy(dest, mid, src2, n - mid);
    if n > 0 {
      JoinCut(src1, src2, n);
      OverNul(was, Cut(src1, n), Terminated(src2, n - mid));
    }
  }

  /** Folding lstrncat over a list of strings into an empty buffer of n bytes leaves their concatenation, cut to n - 1
      characters, and never writes outside the n bytes, nor behind the NUL. */
  method AppendAll(dest: array<Byte>, n: nat, list: seq<seq<Byte>>)
    requires 0 < n <= dest.Length && dest[0] == NUL
    requires forall i :: 0 <= i < |list| ==> IsText(list[i])
    modifies dest
    ensures dest[..] == Patched(old(dest[..]), 0, Terminated(Joined(list), n))
  {
    ghost var was := dest[..];
    EmptyText(was, n);
    var i := 0;
    while i < |list|
      invariant 0 <= i <= |list| && IsText(Joined(list[..i]))
      invariant dest[..] == Patched(was, 0, Terminated(Joined(list[..i]), n))
    {
      JoinedSnoc(list, i);
      AppendOne(dest, n, list[i], was, Joined(list[..i]));
      i := i + 1;
    }
    assert list[..i] == list;
  }

  /** One round of the fold. */
  method AppendOne(dest: array<Byte>, n: nat, src: seq<Byte>, ghost was: seq<Byte>, ghost text: seq<Byte>)
    requires 0 < n <= |was| && dest[..] == Patched(was, 0, Terminated(text, n)) && IsText(text) && IsText(src)
    modifies dest
    ensures dest[..] == Patched(was, 0, Terminated(text + src, n))
  {
    AppendToCut(was, dest[..], text, src, n);
    var end := Lstrncat(dest, 0, src, n);
  }

  lemma EmptyText(b: seq<Byte>, n: nat)
    requires 0 < n <= |b| && b[0] == NUL
    ensures Patched(b, 0, Terminated([], n)) == b
  {
    assert Terminated([], n) == [b[0]];
  }

  /** The text in the buffer is the cut text so far, and appending to it is appending to the whole. */
  lemma AppendToCut(was: seq<Byte>, now: seq<Byte>, text: seq<Byte>, src: seq<Byte>, n: nat)
    requires 0 < n <= |was| && IsText(text) && now == Patched(was, 0, Terminated(text, n))
    ensures NUL in now[0..0 + n]
    ensures Patched(now, 0, Terminated(TextIn(now[0..0 + n]) + src, n)) == Patched(was, 0, Terminated(text + src, n))
  {
    PatchedHolds(was, 0, text, n);
    HoldsTextIn(now[0..0 + n], Cut(text, n));
    CutAppend(text, src, n);
    WriteOver(was, Terminated(text, n), Terminated(text + src, n));
  }
}
