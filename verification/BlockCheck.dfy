/** The numbered-block test traffic of addon/example/mtpostmt2.c: recvThread compares the request body with a pattern
    of numbered blocks, sendThread produces such a pattern.

    The request body is a fixed byte sequence; read_req_body delivers the next part of it, of any length up to the one
    asked for, or nothing, or an error. A script holds its answers, one for each call; a receiver that has used them all
    is still running.
  */
module BlockCheck {
  import opened Bytes

  const HEADER: nat := 8
  const ZERO: Byte := 48
  const LOWER_A: Byte := 97
  const UPPER_A: Byte := 65

  // ---------------------------------------------------------------- the pattern

  datatype Side = Receiving | Sending
  {
    function Letter(): Byte { if Receiving? then UPPER_A else LOWER_A }
  }

  /** The decimal digits of k. */
  function Digits(k: nat): seq<Byte> {
    if k < 10 then [ZERO + k] else Digits(k / 10) + [ZERO + k % 10]
  }

  /** sprintf "%08d". */
  function Padded(k: nat): (s: seq<Byte>)
    ensures |s| >= HEADER
  {
    var d := Digits(k);
    if |d| < HEADER then seq(HEADER - |d|, _ => ZERO) + d else d
  }

  /** Byte i of block k: a digit of its number in the first eight places, letters behind. The sender fills a block too
      short for a number with zeros. */
  function BlockByte(side: Side, k: nat, length: nat, i: nat): Byte {
    if side.Sending? && length < HEADER then ZERO
    else if i < HEADER then Padded(k)[i]
    else side.Letter() + i % 26
  }

  /** How many whole blocks lie before byte p: the quotient of p by size. */
  function BlocksBefore(p: nat, size: nat): nat
    requires size > 0
  {
    if p < size then 0 else 1 + BlocksBefore(p - size, size)
  }

  /** Where byte p lies in its block: the remainder. */
  function PlaceInBlock(p: nat, size: nat): (i: nat)
    requires size > 0
    ensures i < size && i <= p
  {
    if p < size then p else PlaceInBlock(p - size, size)
  }

  /** The length of k whole blocks. */
  function Length(k: nat, size: nat): nat {
    if k == 0 then 0 else Length(k - 1, size) + size
  }

  /** Byte p of a body of the given length made of blocks of the given size, numbered from 1; the last block is as long
      as what is left. */
  function PatternAt(side: Side, length: nat, size: nat, p: nat): Byte
    requires size > 0 && p < length
  {
    var i := PlaceInBlock(p, size);
    BlockByte(side, BlocksBefore(p, size) + 1, BlockLength(p - i, length, size), i)
  }

  /** The length of the next block when done bytes of length are done. */
  function BlockLength(done: nat, length: nat, size: nat): int {
    if done + size <= length then size else length - done
  }

  /** s agrees with the pattern. */
  ghost predicate Follows(side: Side, s: seq<Byte>, length: nat, size: nat)
    requires size > 0
  {
    |s| <= length && forall p :: 0 <= p < |s| ==> FollowsAt(side, s, length, size, p)
  }

  ghost predicate FollowsAt(side: Side, s: seq<Byte>, length: nat, size: nat, p: nat)
    requires size > 0 && p < |s| <= length
  {
    s[p] == PatternAt(side, length, size, p)
  }

  /** b is block k of length |b|. */
  ghost predicate IsBlock(side: Side, k: nat, b: seq<Byte>) {
    forall i :: 0 <= i < |b| ==> b[i] == BlockByte(side, k, |b|, i)
  }

  /** Behind the number, a buffer holds the letters of the pattern. */
  ghost predicate Lettered(b: seq<Byte>, letter: Byte) {
    forall i :: HEADER <= i < |b| ==> b[i] == letter + i % 26
  }

  /** Byte i of the block behind k whole blocks. */
  lemma {:induction false} InBlock(k: nat, size: nat, i: nat)
    requires i < size
    ensures BlocksBefore(Length(k, size) + i, size) == k && PlaceInBlock(Length(k, size) + i, size) == i
  {
    if k == 0 {
    } else {
      InBlock(k - 1, size, i);
    }
  }

  /** One block further: after k whole blocks, a piece continues the pattern if and only if it is block k + 1. */
  lemma NextBlock(side: Side, seen: seq<Byte>, piece: seq<Byte>, k: nat, length: nat, size: nat)
    requires size > 0 && Follows(side, seen, length, size) && |seen| == Length(k, size)
    requires |seen| < length && |piece| == BlockLength(|seen|, length, size)
    ensures IsBlock(side, k + 1, piece) <==> Follows(side, seen + piece, length, size)
  {
    var s := seen + piece;
    forall i | 0 <= i < |piece|
      ensures PatternAt(side, length, size, |seen| + i) == BlockByte(side, k + 1, |piece|, i)
      ensures s[|seen| + i] == piece[i]
    {
      InBlock(k, size, i);
    }
    if Follows(side, s, length, size) {
      forall i | 0 <= i < |piece|
        ensures piece[i] == BlockByte(side, k + 1, |piece|, i)
      {
        assert FollowsAt(side, s, length, size, |seen| + i);
      }
    }
    if IsBlock(side, k + 1, piece) {
      forall p | 0 <= p < |s|
        ensures FollowsAt(side, s, length, size, p)
      {
        if p < |seen| {
          assert FollowsAt(side, seen, length, size, p);
        } else {
          assert s[|seen| + (p - |seen|)] == piece[p - |seen|];
        }
      }
    }
  }

  // ---------------------------------------------------------------- the pattern in plain words

  /** Characters read from left to right as a decimal number. */
  function Reading(s: seq<Byte>): int {
    if s == [] then 0 else 10 * Reading(s[..|s| - 1]) + s[|s| - 1] - '0' as int
  }

  predicate AllDigits(s: seq<Byte>) { forall i :: 0 <= i < |s| ==> '0' as int <= s[i] <= '9' as int }

  lemma {:induction false} DigitsRead(k: nat)
    ensures AllDigits(Digits(k)) && Reading(Digits(k)) == k
  {
    if k < 10 {
      assert Digits(k)[..0] == [];
    } else {
      DigitsRead(k / 10);
      assert Digits(k)[..|Digits(k)| - 1] == Digits(k / 10);
    }
  }

  /** Numbers below 10 to the n have n digits at most; bound is that power. */
  lemma {:induction false} DigitsFit(k: nat, n: nat, bound: nat)
    requires 1 <= n <= 8 && bound == [0, 10, 100, 1000, 10000, 100000, 1000000, 10000000, 100000000][n] && k < bound
    ensures |Digits(k)| <= n
    decreases n
  {
    if k < 10 {
    } else {
      DigitsFit(k / 10, n - 1, bound / 10);
    }
  }

  /** Zeros in front do not change a number. */
  lemma {:induction false} ZerosInFront(zeros: seq<Byte>, s: seq<Byte>)
    requires forall i :: 0 <= i < |zeros| ==> zeros[i] == '0' as int
    ensures Reading(zeros + s) == Reading(s)
    decreases |zeros| + |s|
  {
    var all := zeros + s;
    if s != [] {
      assert all[..|all| - 1] == zeros + s[..|s| - 1];
      ZerosInFront(zeros, s[..|s| - 1]);
    } else if zeros != [] {
      assert all[..|all| - 1] == zeros[..|zeros| - 1] + [];
      ZerosInFront(zeros[..|zeros| - 1], []);
    }
  }

  /** "%08d": digits only, at least eight of them and exactly eight below 10^8, that read as the number. */
  lemma PaddedReads(k: nat)
    ensures AllDigits(Padded(k)) && Reading(Padded(k)) == k && |Padded(k)| >= 8
    ensures k < 100000000 ==> |Padded(k)| == 8
  {
    DigitsRead(k);
    if k < 100000000 {
      DigitsFit(k, 8, 100000000);
    }
    if |Digits(k)| < 8 {
      var zeros: seq<Byte> := seq(8 - |Digits(k)|, _ => '0' as int);
      ZerosInFront(zeros, Digits(k));
      assert Padded(k) == zeros + Digits(k);
    }
  }

  /** A block byte by byte: the receiver expects, and the sender writes, the number in the first eight places and the
      letters from A, or from a, counted from the start of the block; the sender fills a block of less than eight bytes
      with zeros. */
  lemma BlockInPlainWords(side: Side, k: nat, length: nat, i: nat)
    ensures side.Sending? && length < 8 ==> BlockByte(side, k, length, i) == '0' as int
    ensures (side.Receiving? || length >= 8) && i < 8 ==> i < |Padded(k)| && BlockByte(side, k, length, i) == Padded(k)[i]
    ensures side.Receiving? && i >= 8 ==> BlockByte(side, k, length, i) == 'A' as int + i % 26
    ensures side.Sending? && length >= 8 && i >= 8 ==> BlockByte(side, k, length, i) == 'a' as int + i % 26
  {
  }

  lemma {:induction false} LengthIsProduct(k: nat, size: nat)
    ensures Length(k, size) == k * size
  {
    if k == 0 {
    } else {
      LengthIsProduct(k - 1, size);
      assert k * size == (k - 1) * size + size;
    }
  }

  /** The first eight bytes of the block behind j whole blocks. */
  function HeaderAt(s: seq<Byte>, size: nat, j: nat): seq<Byte>
    requires size >= 8 && Length(j + 1, size) <= |s|
  {
    s[Length(j, size)..Length(j, size) + 8]
  }

  /** What follows the pattern numbers its whole blocks 1, 2, 3, ... in this order. */
  lemma BlocksAreNumbered(side: Side, s: seq<Byte>, length: nat, size: nat, j: nat)
    requires size >= 8 && Follows(side, s, length, size) && Length(j + 1, size) <= |s| && j + 1 < 100000000
    ensures AllDigits(HeaderAt(s, size, j)) && Reading(HeaderAt(s, size, j)) == j + 1
  {
    PaddedReads(j + 1);
    var header := HeaderAt(s, size, j);
    forall i | 0 <= i < 8
      ensures header[i] == Padded(j + 1)[i]
    {
      assert FollowsAt(side, s, length, size, Length(j, size) + i);
      InBlock(j, size, i);
    }
    assert header == Padded(j + 1);
  }

  // ---------------------------------------------------------------- what the server delivers

  /** A request: block size, content length, body, and what read_req_body answers call by call. */
  datatype Upload = Upload(size: nat, contentLength: nat, body: seq<Byte>, script: seq<int>)
  {
    /** What a call at position p asks for: the rest of the block. */
    function Asked(p: nat): int
      requires size > 0
    {
      var i := PlaceInBlock(p, size);
      BlockLength(p - i, contentLength, size) - i
    }

    /** What it returns: an error, or how much of the body it delivers. */
    function Got(p: nat, answer: int): int
      requires size > 0 && p <= |body|
    {
      var most := if Asked(p) > |body| - p then |body| - p else Asked(p);
      if answer < 0 then -1 else if answer > most then most else answer
    }

    /** How much of the body the first i calls deliver. */
    ghost function PositionAt(i: nat): (p: nat)
      requires size > 0 && i <= |script|
      ensures p <= |body|
    {
      if i == 0 then 0
      else
        var p := PositionAt(i - 1);
        var got := Got(p, script[i - 1]);
        if got > 0 then p + got else p
    }

    /** What call i returns. */
    ghost function GotAt(i: nat): int
      requires size > 0 && i < |script|
    {
      Got(PositionAt(i), script[i])
    }

    /** The first i calls deliver something. */
    ghost predicate Delivers(i: nat)
      requires size > 0
    {
      i <= |script| && forall j :: 0 <= j < i ==> DeliversAt(j)
    }

    ghost predicate DeliversAt(i: nat)
      requires size > 0 && i < |script|
    {
      GotAt(i) > 0
    }

    /** The body so far agrees with the pattern. */
    ghost predicate Good(p: nat)
      requires size > 0 && p <= |body|
    {
      Follows(Receiving, body[..p], contentLength, size)
    }

    /** What a verdict of recvThread after so many calls means, with count bytes compared.

        The bytes compared are whole blocks and follow the pattern, and every call but the last delivered something.
        If all bytes were compared, the verdict is success. If the last call failed or delivered nothing, that decides:
        failure for an error, success for nothing. Otherwise the last call completed a block that departs from the
        pattern, and the verdict is failure; or the block is incomplete and the thread is still running. */
    ghost predicate Means(calls: nat, count: nat, verdict: Verdict)
      requires size > 0 && calls <= |script|
    {
      var p := PositionAt(calls);
      && count <= p && count <= contentLength && Good(count)
      && if count == contentLength then p == count && Delivers(calls) && verdict == Ended(true)
         else
           var end := count + BlockLength(count, contentLength, size);
           && PlaceInBlock(count, size) == 0
           && if !Delivers(calls) then
                calls > 0 && Delivers(calls - 1) && p < end && verdict == Ended(GotAt(calls - 1) == 0)
              else if p == end then !Good(p) && verdict == Ended(false)
              else p < end && calls == |script| && verdict == Running
    }

    /** The whole block behind j others does not carry the number j + 1 in its first eight bytes. */
    ghost predicate Misnumbered(j: nat) {
      && size >= 8 && j + 1 < 100000000 && Length(j + 1, size) <= contentLength <= |body|
      && Reading(HeaderAt(body, size, j)) != j + 1
    }

    /** The server has the whole body, and enough answers, and never an error or nothing. */
    ghost predicate Generous() {
      |body| >= contentLength && |script| >= contentLength && forall i :: 0 <= i < |script| ==> script[i] > 0
    }
  }

  datatype Verdict = Running | Ended(ok: bool)

  /** The exact condition for success without having compared everything: the run ended on a call that delivered
      nothing. */
  lemma EarlyEnd(u: Upload, calls: nat, count: nat, verdict: Verdict)
    requires u.size > 0 && calls <= |u.script| && u.Means(calls, count, verdict)
    ensures verdict == Ended(true) && count < u.contentLength <==> calls > 0 && u.GotAt(calls - 1) == 0
  {
    if calls > 0 && u.GotAt(calls - 1) == 0 {
      assert !u.DeliversAt(calls - 1);
    }
  }

  /** The verifier's promise: when the body is all there and delivered in whatever pieces, the verdict is success if and
      only if the body follows the pattern from beginning to end. */
  lemma VerdictIsRight(u: Upload, calls: nat, count: nat, verdict: Verdict)
    requires u.size > 0 && calls <= |u.script| && u.Means(calls, count, verdict) && u.Generous()
    ensures verdict == Ended(true) <==> u.Good(u.contentLength)
  {
    var p := u.PositionAt(calls);
    if count < u.contentLength {
      if u.Delivers(calls) {
        PositionGrows(u, calls);
        if u.Good(u.contentLength) && p <= u.contentLength {
          GoodPrefix(u, p, u.contentLength);
        }
      }
    }
  }

  /** A body whose blocks are out of order, or numbered wrong in any other way, is refused. */
  lemma MisnumberedIsRefused(u: Upload, calls: nat, count: nat, verdict: Verdict, j: nat)
    requires calls <= |u.script| && u.size > 0 && u.Means(calls, count, verdict) && u.Generous() && u.Misnumbered(j)
    ensures verdict == Ended(false)
  {
    VerdictIsRight(u, calls, count, verdict);
    var s := u.body[..u.contentLength];
    assert HeaderAt(s, u.size, j) == HeaderAt(u.body, u.size, j);
    if u.Good(u.contentLength) {
      BlocksAreNumbered(Receiving, s, u.contentLength, u.size, j);
    }
    NotRunning(u, calls, count, verdict);
  }

  lemma NotRunning(u: Upload, calls: nat, count: nat, verdict: Verdict)
    requires u.size > 0 && calls <= |u.script| && u.Means(calls, count, verdict) && u.Generous()
    ensures verdict != Running
  {
    if u.Delivers(calls) {
      PositionGrows(u, calls);
    }
  }

  lemma GoodPrefix(u: Upload, p: nat, q: nat)
    requires u.size > 0 && p <= q <= |u.body| && u.Good(q)
    ensures u.Good(p)
  {
    forall i | 0 <= i < p
      ensures FollowsAt(Receiving, u.body[..p], u.contentLength, u.size, i)
    {
      assert FollowsAt(Receiving, u.body[..q], u.contentLength, u.size, i);
    }
  }

  /** As long as calls deliver something, i calls deliver i bytes. */
  lemma {:induction false} PositionGrows(u: Upload, i: nat)
    requires u.size > 0 && u.Delivers(i)
    ensures u.PositionAt(i) >= i
  {
    if i == 0 {
    } else {
      PositionGrows(u, i - 1);
      assert u.DeliversAt(i - 1);
    }
  }

  /** Inside block k + 1, a call asks for what is missing of the block. */
  lemma AskedInBlock(u: Upload, k: nat, i: nat)
    requires i < u.size
    ensures u.Asked(Length(k, u.size) + i) == BlockLength(Length(k, u.size), u.contentLength, u.size) - i
  {
    InBlock(k, u.size, i);
  }

  lemma Spliced(s: seq<Byte>, a: nat, b: nat, c: nat)
    requires a <= b <= c <= |s|
    ensures s[a..b] + s[b..c] == s[a..c]
  {
  }

  /** One call more. */
  lemma CallMade(u: Upload, i: nat)
    requires u.size > 0 && u.Delivers(i) && i < |u.script|
    ensures u.PositionAt(i + 1) == u.PositionAt(i) + if u.GotAt(i) > 0 then u.GotAt(i) else 0
    ensures u.GotAt(i) > 0 ==> u.Delivers(i + 1)
  {
    if u.GotAt(i) > 0 {
      assert u.DeliversAt(i);
    }
  }

  /** All bytes compared. */
  lemma AllCompared(u: Upload, calls: nat)
    requires u.size > 0 && u.Delivers(calls) && u.PositionAt(calls) == u.contentLength && u.Good(u.contentLength)
    ensures u.Means(calls, u.contentLength, Ended(true))
  {
  }

  /** A block that is not complete: the last call decides. */
  lemma Incomplete(u: Upload, calls: nat, count: nat, verdict: Verdict)
    requires u.size > 0 && calls <= |u.script| && count <= u.PositionAt(calls) && u.Good(count)
    requires count < u.contentLength && PlaceInBlock(count, u.size) == 0
    requires u.PositionAt(calls) < count + BlockLength(count, u.contentLength, u.size)
    requires if verdict.Running? then u.Delivers(calls) && calls == |u.script|
             else && calls > 0 && u.Delivers(calls - 1) && u.GotAt(calls - 1) <= 0
                  && verdict == Ended(u.GotAt(calls - 1) == 0)
    ensures u.Means(calls, count, verdict)
  {
    if verdict.Ended? {
      assert !u.DeliversAt(calls - 1);
    }
  }

  /** A complete block continues the pattern if and only if it is the next one. */
  lemma BlockContinues(u: Upload, count: nat, p: nat, k: nat)
    requires u.size > 0 && count <= p <= |u.body| && u.Good(count) && count == Length(k, u.size) < u.contentLength
    requires p == count + BlockLength(count, u.contentLength, u.size)
    ensures IsBlock(Receiving, k + 1, u.body[count..p]) <==> u.Good(p)
    ensures PlaceInBlock(count, u.size) == 0 && (p < u.contentLength ==> p == Length(k + 1, u.size))
  {
    assert u.body[..p] == u.body[..count] + u.body[count..p];
    NextBlock(Receiving, u.body[..count], u.body[count..p], k, u.contentLength, u.size);
    InBlock(k, u.size, 0);
  }

  /** A complete block that does not continue the pattern decides for failure. */
  lemma BlockDeparts(u: Upload, calls: nat, count: nat)
    requires u.size > 0 && u.Delivers(calls) && count < u.contentLength && PlaceInBlock(count, u.size) == 0
    requires count <= |u.body| && u.Good(count) && !u.Good(u.PositionAt(calls))
    requires u.PositionAt(calls) == count + BlockLength(count, u.contentLength, u.size)
    ensures u.Means(calls, count, Ended(false))
  {
  }

  /** Writing its number over the front of a lettered buffer makes it the block. */
  lemma NumberedBlock(side: Side, b: seq<Byte>, k: nat, n: nat)
    requires Lettered(b, side.Letter()) && n <= |b| && (side.Sending? ==> n >= HEADER)
    ensures var number := Padded(k)[..if HEADER < n then HEADER else n];
            var b' := [] + number + b[|number|..];
            Lettered(b', side.Letter()) && IsBlock(side, k, b'[..n])
  {
  }

  /** The sender fills a block too short for a number with zeros. */
  lemma ZeroBlock(b: seq<Byte>, k: nat, n: nat)
    requires Lettered(b, LOWER_A) && n <= |b| && n < HEADER
    ensures var b' := [] + seq(n, _ => ZERO) + b[n..];
            Lettered(b', LOWER_A) && IsBlock(Sending, k, b'[..n])
  {
  }

  lemma SameBlock(a: seq<Byte>, b: seq<Byte>, k: nat)
    requires |a| == |b| && IsBlock(Receiving, k, a)
    ensures IsBlock(Receiving, k, b) <==> a == b
  {
    if IsBlock(Receiving, k, b) {
      assert forall i :: 0 <= i < |a| ==> a[i] == BlockByte(Receiving, k, |a|, i) == b[i];
    }
  }

  // ---------------------------------------------------------------- recvThread

  /** How the reading of one block ends: complete, no more answers in the script, nothing delivered, or an error. */
  datatype BlockRead = Full | Exhausted | Nothing | Error

  class Receiver {
    const u: Upload
    const recvBuf: array<Byte>   // m_pmtRecvBuffer
    const compare: array<Byte>   // pchCompare
    var recvCount: nat           // m_RecvCount
    var block: nat               // iBlock
    var position: nat            // how much of the body was delivered
    var next: nat                // how many calls were made

    ghost predicate Buffers()
      reads this, compare
    {
      && u.size > 0 && recvBuf.Length == u.size && compare.Length == u.size && recvBuf != compare
      && Lettered(compare[..], UPPER_A)
    }

    /** Every call made so far delivered something, and that is what was delivered. */
    ghost predicate Reading()
      requires u.size > 0
      reads this
    {
      u.Delivers(next) && position == u.PositionAt(next)
    }

    /** At a block boundary: everything delivered has been compared and follows the pattern. */
    ghost predicate Valid()
      reads this, compare
    {
      && Buffers() && Reading()
      && position == recvCount && u.Good(recvCount)
      && (recvCount < u.contentLength ==> recvCount == Length(block, u.size))
    }

    constructor (u: Upload)
      requires u.size > 0
      ensures Valid() && fresh(recvBuf) && fresh(compare) && recvCount == 0 && next == 0 && this.u == u
    {
      this.u := u;
      recvBuf := new Byte[u.size];
      compare := new Byte[u.size];
      recvCount, block, position, next := 0, 0, 0, 0;
      new;
      FillLetters(compare, UPPER_A);
    }

    /** read_req_body into the buffer at offset at. */
    method ReadReqBody(at: nat, requested: nat, answer: int) returns (r: int)
      requires u.size > 0 && at + requested <= recvBuf.Length && position <= |u.body| && requested == u.Asked(position)
      modifies this`position, recvBuf
      ensures r == u.Got(old(position), answer) && -1 <= r <= requested
      ensures position == old(position) + (if r > 0 then r else 0) <= |u.body|
      ensures r >= 0 ==> recvBuf[..at + r] == old(recvBuf[..at]) + u.body[old(position)..position]
    {
      if answer < 0 {
        return -1;
      }
      var left := |u.body| - position;
      r := if requested > left then left else requested;
      r := if answer > r then r else answer;
      Memmove(recvBuf, at, u.body[position..position + r]);
      position := position + r;
    }

    /** Part of the next block, n bytes long, is in the buffer. */
    ghost predicate Filling(n: nat, inBlock: nat)
      reads this, recvBuf, compare
    {
      && Buffers() && Reading() && inBlock <= n <= u.size
      && recvCount < u.contentLength && n == BlockLength(recvCount, u.contentLength, u.size)
      && recvCount == Length(block, u.size) && position == recvCount + inBlock
      && recvBuf[..inBlock] == u.body[recvCount..position]
    }

    /** The last call delivered nothing, or failed, before the block was complete. */
    ghost predicate Stopped(n: nat, failed: bool)
      reads this, compare
    {
      && Buffers() && 0 < next <= |u.script| && u.Delivers(next - 1)
      && recvCount <= position < recvCount + n && position == u.PositionAt(next)
      && if failed then u.GotAt(next - 1) < 0 else u.GotAt(next - 1) == 0
    }

    /** The answers ran out before the block was complete. */
    ghost predicate Starved(n: nat)
      reads this, recvBuf, compare
    {
      next == |u.script| && exists inBlock: nat :: inBlock < n && Filling(n, inBlock)
    }

    /** One call for the rest of the block. */
    method ReadMore(n: nat, inBlock: nat) returns (got: int)
      requires Filling(n, inBlock) && inBlock < n && next < |u.script|
      modifies this`position, this`next, recvBuf
      ensures next == old(next) + 1 && got == u.GotAt(old(next))
      ensures got > 0 ==> inBlock + got <= n && Filling(n, inBlock + got)
      ensures got <= 0 ==> Stopped(n, got < 0)
    {
      CallMade(u, next);
      got := ReadRest(n, inBlock);
      next := next + 1;
    }

    /** The call itself: where the bytes go. */
    method ReadRest(n: nat, inBlock: nat) returns (got: int)
      requires Filling(n, inBlock) && inBlock < n && next < |u.script|
      modifies this`position, recvBuf
      ensures got == u.GotAt(next) <= n - inBlock
      ensures position == old(position) + (if got > 0 then got else 0) <= |u.body|
      ensures got > 0 ==> recvBuf[..inBlock + got] == u.body[recvCount..position]
    {
      AskedInBlock(u, block, inBlock);
      assert position == Length(block, u.size) + inBlock;
      ghost var sofar := position;
      got := ReadReqBody(inBlock, n - inBlock, u.script[next]);
      if got > 0 {
        Spliced(u.body, recvCount, sofar, position);
      }
    }

    /** The inner loop: fill the buffer with the n bytes of the next block, however they are delivered. */
    method ReadBlock(n: nat) returns (r: BlockRead)
      requires Filling(n, 0)
      modifies this`position, this`next, recvBuf
      ensures r.Full? ==> Filling(n, n)
      ensures r.Exhausted? ==> Starved(n)
      ensures r.Nothing? || r.Error? ==> Stopped(n, r.Error?)
    {
      var inBlock := 0;
      while inBlock < n
        invariant inBlock <= n && Filling(n, inBlock)
        decreases |u.script| - next
      {
        if next == |u.script| {
          return Exhausted;
        }
        var got := ReadMore(n, inBlock);
        if got > 0 {
          inBlock := inBlock + got;
        } else if got == 0 {
          return Nothing;
        } else {
          return Error;
        }
      }
      r := Full;
    }

    /** Number the comparison buffer and compare with the block received. */
    method Matches(n: nat, ghost data: seq<Byte>) returns (same: bool)
      requires Buffers() && 0 < n <= u.size && recvBuf[..n] == data
      modifies compare
      ensures Buffers()
      ensures same <==> IsBlock(Receiving, block + 1, data)
    {
      ghost var was := compare[..];
      var digits := Padded(block + 1);
      NumberedBlock(Receiving, was, block + 1, n);
      Memmove(compare, 0, digits[..if HEADER < n then HEADER else n]);
      SameBlock(compare[..n], data, block + 1);
      same := compare[..n] == recvBuf[..n];
    }

    ghost predicate Decided(verdict: Verdict)
      reads this
    {
      u.size > 0 && next <= |u.script| && u.Means(next, recvCount, verdict)
    }

    /** One round of the outer loop: one more block counted, or a verdict. */
    method OneBlock() returns (over: bool, verdict: Verdict)
      requires Valid() && recvCount < u.contentLength
      modifies this, recvBuf, compare
      ensures !over ==> Valid() && recvCount > old(recvCount)
      ensures over ==> Decided(verdict)
    {
      var n := BlockLength(recvCount, u.contentLength, u.size);
      InBlock(block, u.size, 0);
      var r := ReadBlock(n);
      if !r.Full? {
        verdict := if r.Exhausted? then Running else Ended(r.Nothing?);
        Incomplete(u, next, recvCount, verdict);
        return true, verdict;
      }
      var same := Judge(n);
      return !same, if same then Running else Ended(false);
    }

    /** Compare a complete block, and count it if it matches. */
    method Judge(n: nat) returns (same: bool)
      requires Filling(n, n) && 0 < n && u.Good(recvCount)
      modifies this`block, this`recvCount, compare
      ensures same ==> Valid() && recvCount == old(recvCount) + n
      ensures !same ==> Decided(Ended(false))
    {
      BlockContinues(u, recvCount, position, block);
      same := Matches(n, u.body[recvCount..position]);
      block := block + 1;
      if same {
        recvCount := recvCount + n;
      } else {
        BlockDeparts(u, next, recvCount);
      }
    }

    /** recvThread, however the body is delivered. */
    method RecvThread() returns (verdict: Verdict)
      requires Valid() && recvCount == 0
      modifies this, recvBuf, compare
      ensures Decided(verdict)
      ensures verdict == Ended(true) && recvCount < u.contentLength <==> next > 0 && u.GotAt(next - 1) == 0
      ensures u.Generous() ==> (verdict == Ended(true) <==> u.Good(u.contentLength))
      ensures u.Generous() && (exists j: nat :: u.Misnumbered(j)) ==> verdict == Ended(false)
    {
      verdict := AllBlocks();
      Concluded(verdict);
      if j: nat :| u.Generous() && u.Misnumbered(j) {
        MisnumberedIsRefused(u, next, recvCount, verdict, j);
      }
    }

    /** The outer loop. */
    method AllBlocks() returns (verdict: Verdict)
      requires Valid() && recvCount == 0
      modifies this, recvBuf, compare
      ensures Decided(verdict)
    {
      while recvCount < u.contentLength
        invariant Valid()
        decreases u.contentLength - recvCount
      {
        var over, v := OneBlock();
        if over {
          return v;
        }
      }
      AllCompared(u, next);
      verdict := Ended(true);
    }

    lemma Concluded(verdict: Verdict)
      requires Decided(verdict)
      ensures verdict == Ended(true) && recvCount < u.contentLength <==> next > 0 && u.GotAt(next - 1) == 0
      ensures u.Generous() ==> (verdict == Ended(true) <==> u.Good(u.contentLength))
    {
      EarlyEnd(u, next, recvCount, verdict);
      if u.Generous() {
        VerdictIsRight(u, next, recvCount, verdict);
      }
    }
  }

  /** A run that shows it: blocks of eight, sixteen bytes announced, three of them delivered and then nothing. Whatever
      they are, recvThread reports success and has compared none of them. */
  method EarlyEndExample(body: seq<Byte>) returns (receiver: Receiver, verdict: Verdict)
    requires |body| == 3
    ensures receiver.u == Upload(8, 16, body, [3, 0]) && receiver.Decided(verdict)
    ensures verdict == Ended(true) && receiver.next == 2 && receiver.u.PositionAt(2) == 3 && receiver.recvCount == 0
  {
    receiver := new Receiver(Upload(8, 16, body, [3, 0]));
    verdict := receiver.RecvThread();
    ThreeThenNothing(receiver.u, receiver.next, receiver.recvCount, verdict);
  }

  lemma ThreeThenNothing(u: Upload, calls: nat, count: nat, verdict: Verdict)
    requires u.size == 8 && u.contentLength == 16 && |u.body| == 3 && u.script == [3, 0]
    requires calls <= 2 && u.Means(calls, count, verdict)
    ensures verdict == Ended(true) && calls == 2 && u.PositionAt(2) == 3 && count == 0
  {
    assert u.PositionAt(1) == 3 && u.GotAt(1) == 0;
    assert !u.DeliversAt(1);
  }

  /** The loop that fills a buffer with letters. */
  method FillLetters(b: array<Byte>, letter: Byte)
    requires letter <= LOWER_A
    modifies b
    ensures Lettered(b[..], letter)
  {
    var i := 0;
    while i < b.Length
      invariant 0 <= i <= b.Length
      invariant forall j :: 0 <= j < i ==> b[j] == letter + j % 26
    {
      b[i] := letter + i % 26;
      i := i + 1;
    }
  }

  // ---------------------------------------------------------------- sendThread

  class Sender {
    const size: nat            // m_SendSize
    const contentLength: nat   // m_RecvContentLength
    const buffer: array<Byte>  // m_pmtSendBuffer
    var count: nat             // m_SendCount
    var block: nat             // iBlock
    var sent: seq<Byte>        // what append_resp_body was given

    ghost predicate Valid()
      reads this, buffer
    {
      && size > 0 && buffer.Length == size && Lettered(buffer[..], LOWER_A)
      && count == |sent| && Follows(Sending, sent, contentLength, size)
      && (count < contentLength ==> count == Length(block, size))
    }

    constructor (size: nat, contentLength: nat)
      requires size > 0
      ensures Valid() && fresh(buffer) && count == 0 && block == 0 && this.size == size && this.contentLength == contentLength
    {
      this.size, this.contentLength := size, contentLength;
      buffer := new Byte[size];
      count, block, sent := 0, 0, [];
      new;
      FillLetters(buffer, LOWER_A);
    }

    /** Write the number of the block, or zeros into one too short for it, over the front of the buffer. */
    method Number(n: nat)
      requires n <= buffer.Length && Lettered(buffer[..], LOWER_A)
      modifies buffer
      ensures IsBlock(Sending, block, buffer[..n]) && Lettered(buffer[..], LOWER_A)
    {
      if n >= HEADER {
        NumberedBlock(Sending, buffer[..], block, n);
        Memmove(buffer, 0, Padded(block)[..HEADER]);
      } else {
        ZeroBlock(buffer[..], block, n);
        Memmove(buffer, 0, seq(n, _ => ZERO));
      }
    }

    /** One round of the loop; fails tells whether append_resp_body returns an error. */
    method OneBlock(fails: bool) returns (ok: bool)
      requires Valid() && count < contentLength
      modifies this, buffer
      ensures ok == !fails && block == old(block) + 1
      ensures ok ==> Valid() && |sent| == |old(sent)| + BlockLength(|old(sent)|, contentLength, size)
      ensures ok ==> old(sent) <= sent
      ensures !ok ==> sent == old(sent)
    {
      block := block + 1;
      var n := BlockLength(count, contentLength, size);
      Number(n);
      if fails {
        return false;
      }
      NextBlock(Sending, sent, buffer[..n], block - 1, contentLength, size);
      sent := sent + buffer[..n];
      count := count + n;
      ok := true;
    }

    /** sendThread, with fails telling for which blocks append_resp_body returns an error: it always ends; what it sends
        follows the pattern; it fails exactly at the first block that cannot be sent, after all blocks before it, and
        otherwise sends exactly the content length. */
    method SendThread(fails: nat -> bool) returns (ok: bool)
      requires Valid() && count == 0 && block == 0
      modifies this, buffer
      ensures size > 0 && Follows(Sending, sent, contentLength, size)
      ensures forall j: nat :: size >= 8 && j + 1 < 100000000 && Length(j + 1, size) <= |sent| ==>
                Reading(HeaderAt(sent, size, j)) == j + 1
      ensures forall k :: 1 <= k < block ==> !fails(k)
      ensures ok ==> |sent| == contentLength && (block > 0 ==> !fails(block) && Length(block - 1, size) < contentLength)
      ensures !ok ==> block > 0 && fails(block) && |sent| == Length(block - 1, size) < contentLength
    {
      while count < contentLength
        invariant Valid() && forall k :: 1 <= k <= block ==> !fails(k)
        invariant block > 0 ==> Length(block - 1, size) < contentLength
        decreases contentLength - count
      {
        var fine := OneBlock(fails(block + 1));
        if !fine {
          Numbered();
          return false;
        }
      }
      ok := true;
      Numbered();
    }

    lemma Numbered()
      requires size > 0 && Follows(Sending, sent, contentLength, size)
      ensures forall j: nat :: size >= 8 && j + 1 < 100000000 && Length(j + 1, size) <= |sent| ==>
                Reading(HeaderAt(sent, size, j)) == j + 1
    {
      forall j: nat | size >= 8 && j + 1 < 100000000 && Length(j + 1, size) <= |sent|
        ensures Reading(HeaderAt(sent, size, j)) == j + 1
      {
        BlocksAreNumbered(Sending, sent, contentLength, size, j);
      }
    }
  }
}
