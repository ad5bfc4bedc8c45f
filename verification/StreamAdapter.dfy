/** The read/write-size adapter: process_req of addon/example/mtaltreadwrite.c reads the request body in pieces of one
    size and appends it to the response in pieces of another, through one buffer with two cursors.

    The server answers every call of read_req_body and append_resp_body with an error or with any count up to the one
    asked for. A request holds all the answers, one turn for every round the main loop may make, so a run that goes on
    for ever is one too; the handler itself is followed for as many rounds as the caller has patience for.
  */
module StreamAdapter {
  import opened Bytes

  /** What read_req_body returns: an error, or these bytes. */
  datatype Read = ReadFail | Got(bytes: seq<Byte>)

  /** The answers during one round: a read, a write (a count, or LS_FAIL), and the content length if asked for. */
  datatype Turn = Turn(rd: Read, wr: int, contentLength: int)
  {
    /** The bytes a read adds, if one is made. */
    function Delivered(reading: bool): seq<Byte> { if reading && rd.Got? then rd.bytes else [] }
    function Taken(): nat { if wr < 0 then 0 else wr }

    /** It moves at least a byte whenever it is asked to. */
    predicate Moves() { rd.Got? && rd.bytes != [] && wr > 0 }
  }

  predicate Sane(turn: Turn, readSize: nat, writeSize: nat) {
    && (turn.rd.Got? ==> |turn.rd.bytes| <= readSize)
    && LS_FAIL <= turn.wr <= writeSize
    && IsInt64(turn.contentLength)
  }

  predicate IsInt64(n: int) { -0x8000_0000_0000_0000 <= n < 0x8000_0000_0000_0000 }

  /** The comparison with (uint64_t)iContentLen: a negative length wraps around. */
  function Unsigned(n: int): int {
    if n < 0 then n + 0x1_0000_0000_0000_0000 else n
  }

  // ---------------------------------------------------------------- the cursors

  /** pReadPtr and pWritePtr as offsets, and how much was read and written so far. */
  datatype Cursors = Cursors(r: nat, w: nat, read: nat, written: nat)

  function BufSize(readSize: nat, writeSize: nat): nat {
    if readSize == writeSize then readSize else readSize + writeSize
  }

  predicate CanRead(readSize: nat, writeSize: nat, c: Cursors) {
    BufSize(readSize, writeSize) - c.r >= readSize
  }

  predicate CanWrite(writeSize: nat, c: Cursors) {
    c.r - c.w >= writeSize
  }

  ghost predicate InBounds(readSize: nat, writeSize: nat, c: Cursors) {
    c.w <= c.r <= BufSize(readSize, writeSize) && c.written + (c.r - c.w) == c.read
  }

  function Advanced(c: Cursors, n: nat): Cursors { c.(r := c.r + n, read := c.read + n) }
  function Drained(c: Cursors, k: nat): Cursors { c.(w := c.w + k, written := c.written + k) }

  /** memmove to the start of the buffer when neither a read nor a write fits. */
  function Compacted(readSize: nat, writeSize: nat, c: Cursors): Cursors
    requires c.w <= c.r
  {
    if !CanWrite(writeSize, c) && !CanRead(readSize, writeSize, c) then c.(r := c.r - c.w, w := 0) else c
  }

  /** One round in which the server delivers n bytes if asked and takes k bytes if offered. */
  function Round(readSize: nat, writeSize: nat, c: Cursors, n: nat, k: nat): Cursors
    requires c.w <= c.r && k <= writeSize
  {
    var c1 := if CanRead(readSize, writeSize, c) then Advanced(c, n) else c;
    var c2 := if CanWrite(writeSize, c1) then Drained(c1, k) else c1;
    Compacted(readSize, writeSize, c2)
  }

  /** The cursors stay inside the buffer and in order. */
  lemma RoundInBounds(readSize: nat, writeSize: nat, c: Cursors, n: nat, k: nat)
    requires InBounds(readSize, writeSize, c) && n <= readSize && k <= writeSize
    ensures InBounds(readSize, writeSize, Round(readSize, writeSize, c, n, k))
  {
  }

  /** The buffer is just so large that a full read fits, with one byte to spare, behind less than a write's worth of data;
      with equal sizes, just a read fits. */
  lemma ExactRoom(readSize: nat, writeSize: nat, kept: nat)
    requires readSize > 0 && writeSize > 0
    ensures readSize != writeSize ==> (kept < writeSize <==> BufSize(readSize, writeSize) - kept > readSize)
    ensures readSize == writeSize ==> (kept == 0 <==> BufSize(readSize, writeSize) - kept >= readSize)
  {
  }

  /** The comparison as unsigned 64-bit numbers: congruent modulo 2^64 and in range. */
  lemma UnsignedWraps(n: int)
    ensures IsInt64(n) ==> 0 <= Unsigned(n) < 0x1_0000_0000_0000_0000
    ensures Unsigned(n) == n || Unsigned(n) == n + 0x1_0000_0000_0000_0000
    ensures IsInt64(n) <==> -0x8000_0000_0000_0000 <= n <= 0x7fff_ffff_ffff_ffff
  {
  }

  /** Progress with different sizes: at the head of every round a full read fits or a full write is available, because
      moving the data to the front leaves more than a read's worth of room. */
  lemma Progress(readSize: nat, writeSize: nat, c: Cursors, n: nat, k: nat)
    requires readSize > 0 && writeSize > 0 && readSize != writeSize
    requires InBounds(readSize, writeSize, c) && n <= readSize && k <= writeSize
    ensures var c' := Round(readSize, writeSize, c, n, k);
            CanRead(readSize, writeSize, c') || CanWrite(writeSize, c')
  {
  }

  // ---------------------------------------------------------------- equal sizes

  /** Neither a read nor a write fits. */
  ghost predicate Stuck(readSize: nat, writeSize: nat, c: Cursors) {
    !CanRead(readSize, writeSize, c) && !CanWrite(writeSize, c)
  }

  /** With equal sizes the head of a round finds the data at the start of the buffer. */
  ghost predicate AtFront(size: nat, c: Cursors) {
    InBounds(size, size, c) && c.w == 0
  }

  /** The server delivered a piece short of what was asked but not empty, or took such a piece. */
  ghost predicate Partial(size: nat, c: Cursors, n: nat, k: nat) {
    var full := c.r == size || (c.r == 0 && n == size);
    (c.r == 0 && 0 < n < size) || (full && 0 < k < size)
  }

  /** With equal sizes a round gets stuck exactly when the server moves part of a piece. */
  lemma EqualStuck(size: nat, c: Cursors, n: nat, k: nat)
    requires size > 0 && AtFront(size, c) && !Stuck(size, size, c) && n <= size && k <= size
    ensures var c' := Round(size, size, c, n, k);
            AtFront(size, c') && (Stuck(size, size, c') <==> Partial(size, c, n, k))
  {
  }

  /** A stuck round changes nothing: the loop spins until the content length says the body is complete. */
  lemma StuckForever(readSize: nat, writeSize: nat, c: Cursors, n: nat, k: nat)
    requires InBounds(readSize, writeSize, c) && Stuck(readSize, writeSize, c) && c.w == 0 && k <= writeSize
    ensures Round(readSize, writeSize, c, n, k) == c
  {
  }

  /** With equal sizes every round starts at the front of the buffer. */
  lemma StaysAtFront(size: nat, c: Cursors, n: nat, k: nat)
    requires AtFront(size, c) && n <= size && k <= size
    ensures AtFront(size, Round(size, size, c, n, k))
  {
  }

  // ---------------------------------------------------------------- whole requests

  datatype Outcome = Running | Failed | Completed

  /** The two sizes, the content length at the start (negative while unknown), and the server's answers. */
  datatype Request = Request(readSize: nat, writeSize: nat, contentLength: int, turns: nat -> Turn)
  {
    ghost predicate Valid() {
      && readSize > 0 && writeSize > 0 && IsInt64(contentLength)
      && forall i: nat :: SaneAt(i)
    }

    ghost predicate SaneAt(i: nat) { Sane(turns(i), readSize, writeSize) }

    ghost predicate Reads(c: Cursors) { CanRead(readSize, writeSize, c) }

    /** How many bytes the server delivers in round i if asked, and how many it takes if offered. */
    ghost function Offers(i: nat): (n: nat)
      requires Valid()
      ensures n <= readSize
    {
      assert SaneAt(i);
      |turns(i).Delivered(true)|
    }

    ghost function Takes(i: nat): (k: nat)
      requires Valid()
      ensures k <= writeSize
    {
      assert SaneAt(i);
      turns(i).Taken()
    }

    /** The cursors at the head of round i. */
    ghost function At(i: nat): (c: Cursors)
      requires Valid()
      ensures InBounds(readSize, writeSize, c)
    {
      if i == 0 then Cursors(0, 0, 0, 0)
      else
        RoundInBounds(readSize, writeSize, At(i - 1), Offers(i - 1), Takes(i - 1));
        Round(readSize, writeSize, At(i - 1), Offers(i - 1), Takes(i - 1))
    }

    /** All bytes the first i rounds read. */
    ghost function InputAt(i: nat): (bytes: seq<Byte>)
      requires Valid()
      ensures |bytes| == At(i).read
    {
      if i == 0 then [] else InputAt(i - 1) + turns(i - 1).Delivered(Reads(At(i - 1)))
    }

    /** The content length known after i rounds: it is asked for again while it is negative. */
    ghost function LengthAt(i: nat): (n: int)
      requires Valid()
      ensures IsInt64(n)
    {
      assert i > 0 ==> SaneAt(i - 1);
      if i == 0 then contentLength else if LengthAt(i - 1) < 0 then turns(i - 1).contentLength else LengthAt(i - 1)
    }

    /** A call made in round i is answered with an error. */
    ghost predicate ErrorAt(i: nat)
      requires Valid()
    {
      var c, t := At(i), turns(i);
      || (Reads(c) && t.rd.ReadFail?)
      || (CanWrite(writeSize, Advanced(c, |t.Delivered(Reads(c))|)) && t.wr == LS_FAIL)
    }

    /** The test at the end of the loop body lets the loop go after i rounds. */
    ghost predicate LeavesAt(i: nat)
      requires Valid()
    {
      i > 0 && At(i).read >= Unsigned(LengthAt(i))
    }

    /** The first i rounds are all made: no error and no exit comes before. */
    ghost predicate Reaches(i: nat)
      requires Valid()
    {
      forall j: nat :: j < i ==> GoesOnAt(j)
    }

    ghost predicate GoesOnAt(j: nat)
      requires Valid()
    {
      !ErrorAt(j) && !LeavesAt(j)
    }

    /** The main loop comes to an end, by its test or by an error. */
    ghost predicate Ends()
      requires Valid()
    {
      exists i: nat :: LeavesAt(i) || ErrorAt(i)
    }

    /** How the main loop stands or ended after the given number of rounds, which is at most patience: left by its test,
        broken off in the next round by an error, or still going. */
    ghost predicate MainEnds(patience: nat, rounds: nat, end: Outcome)
      requires Valid()
    {
      && rounds <= patience && Reaches(rounds)
      && match end
         case Completed => LeavesAt(rounds)
         case Failed => !LeavesAt(rounds) && ErrorAt(rounds) && rounds < patience
         case Running => !LeavesAt(rounds) && rounds == patience
    }

    /** Again and again the server moves at least a byte if asked to. */
    ghost predicate Lively() {
      forall i: nat :: MovesAfter(i)
    }

    ghost predicate AlwaysMoves() {
      forall i: nat :: turns(i).Moves()
    }

    ghost predicate MovesAfter(i: nat) { exists j: nat :: i <= j && turns(j).Moves() }

    /** Round i moves part of a piece. */
    ghost predicate PartialAt(i: nat)
      requires Valid()
    {
      Partial(readSize, At(i), Offers(i), Takes(i))
    }

    /** The sizes are equal and, with no error before, round i moves part of a piece while bytes are still missing. */
    ghost predicate WedgedAt(i: nat, length: int)
      requires Valid()
    {
      && readSize == writeSize
      && PartialAt(i)
      && At(i + 1).read < length
      && forall j: nat :: j <= i ==> !ErrorAt(j)
    }
  }

  /** The head of round i is not stuck: with different sizes never, with equal ones unless a round was partial. */
  ghost predicate Free(q: Request, i: nat)
    requires q.Valid()
  {
    q.Reads(q.At(i)) || CanWrite(q.writeSize, q.At(i))
  }

  /** Bytes read and bytes written together. */
  ghost function Moved(q: Request, i: nat): nat
    requires q.Valid()
  {
    q.At(i).read + q.At(i).written
  }

  /** A round never takes back what was read or written, and one that is not stuck and whose server moves bytes adds
      to it. */
  lemma RoundGrows(q: Request, i: nat)
    requires q.Valid()
    ensures q.At(i).read <= q.At(i + 1).read && q.At(i).written <= q.At(i + 1).written
    ensures Free(q, i) && q.turns(i).Moves() ==> Moved(q, i) < Moved(q, i + 1)
  {
  }

  ghost predicate Climbs(f: nat -> int, i: nat) { f(i) <= f(i + 1) }

  lemma {:induction false} ClimbsOn(f: nat -> int, i: nat, j: nat)
    requires i <= j && forall k: nat :: Climbs(f, k)
    ensures f(i) <= f(j)
    decreases j
  {
    if i == j {
    } else {
      ClimbsOn(f, i, j - 1);
      assert Climbs(f, j - 1);
    }
  }

  lemma NeverShrinks(q: Request, i: nat, j: nat)
    requires q.Valid() && i <= j
    ensures q.At(i).read <= q.At(j).read && q.At(i).written <= q.At(j).written
  {
    var read: nat -> int := (k: nat) => if q.Valid() then q.At(k).read else 0;
    var written: nat -> int := (k: nat) => if q.Valid() then q.At(k).written else 0;
    forall k: nat
      ensures Climbs(read, k) && Climbs(written, k)
    {
      RoundGrows(q, k);
    }
    ClimbsOn(read, i, j);
    ClimbsOn(written, i, j);
  }

  /** Once the content length is known it stays. */
  lemma {:induction false} LengthStays(q: Request, i: nat, j: nat)
    requires q.Valid() && i <= j && q.LengthAt(i) >= 0
    ensures q.LengthAt(j) == q.LengthAt(i)
    decreases j
  {
    if i == j {
    } else {
      LengthStays(q, i, j - 1);
    }
  }

  /** The loop test never asks for less than the length that becomes known. */
  lemma AsksForAll(q: Request, k: nat, i: nat)
    requires q.Valid() && q.LengthAt(k) >= 0
    ensures q.LengthAt(k) <= Unsigned(q.LengthAt(i)) && (k <= i ==> q.LengthAt(i) == q.LengthAt(k))
  {
    if k <= i {
      LengthStays(q, k, i);
    } else if q.LengthAt(i) >= 0 {
      LengthStays(q, i, k);
    }
  }

  lemma {:induction false} FreeUnlessPartial(q: Request, i: nat)
    requires q.Valid()
    requires q.readSize == q.writeSize ==> forall j: nat :: j < i ==> !q.PartialAt(j)
    ensures Free(q, i)
  {
    if i == 0 {
    } else {
      FreeUnlessPartial(q, i - 1);
      assert q.readSize == q.writeSize ==> !q.PartialAt(i - 1);
      var c, n, k := q.At(i - 1), q.Offers(i - 1), q.Takes(i - 1);
      if q.readSize == q.writeSize {
        FrontAt(q, i - 1);
        EqualStuck(q.readSize, c, n, k);
      } else {
        Progress(q.readSize, q.writeSize, c, n, k);
      }
    }
  }

  lemma {:induction false} FrontAt(q: Request, i: nat)
    requires q.Valid() && q.readSize == q.writeSize
    ensures AtFront(q.readSize, q.At(i))
  {
    if i == 0 {
    } else {
      FrontAt(q, i - 1);
      StaysAtFront(q.readSize, q.At(i - 1), q.Offers(i - 1), q.Takes(i - 1));
    }
  }

  /** A loop that is never stuck and never ends would read without bound. */
  lemma {:induction false} Outgrows(q: Request, i: nat, bound: nat)
    requires q.Valid() && q.Lively()
    requires forall j: nat :: Free(q, j) && q.At(j).read < bound
    ensures false
    decreases 2 * bound - Moved(q, i)
  {
    assert q.MovesAfter(i);
    var j: nat :| i <= j && q.turns(j).Moves();
    NeverShrinks(q, i, j);
    RoundGrows(q, j);
    Outgrows(q, j + 1, bound);
  }

  /** From a partial round on nothing moves any more. */
  lemma {:induction false} WedgedStays(q: Request, i: nat, length: int, j: nat)
    requires q.Valid() && q.WedgedAt(i, length) && i < j
    ensures q.At(j) == q.At(i + 1) && Stuck(q.readSize, q.writeSize, q.At(j)) && AtFront(q.readSize, q.At(j))
    decreases j
  {
    FrontAt(q, i);
    EqualStuck(q.readSize, q.At(i), q.Offers(i), q.Takes(i));
    if j == i + 1 {
    } else {
      WedgedStays(q, i, length, j - 1);
      StuckForever(q.readSize, q.writeSize, q.At(j - 1), q.Offers(j - 1), q.Takes(j - 1));
    }
  }

  lemma WedgedNeverEnds(q: Request, k: nat, i: nat)
    requires q.Valid() && q.LengthAt(k) >= 0 && q.WedgedAt(i, q.LengthAt(k))
    ensures !q.Ends()
  {
    forall j: nat
      ensures !q.LeavesAt(j) && !q.ErrorAt(j)
    {
      AsksForAll(q, k, j);
      if j <= i {
        NeverShrinks(q, j, i + 1);
      } else {
        WedgedStays(q, i, q.LengthAt(k), j);
      }
    }
  }

  lemma EndsIfNotWedged(q: Request, k: nat)
    requires q.Valid() && q.Lively() && q.LengthAt(k) >= 0 && forall i: nat :: !q.WedgedAt(i, q.LengthAt(k))
    ensures q.Ends()
  {
    if !q.Ends() {
      var bound := q.LengthAt(k);
      forall j: nat
        ensures q.At(j).read < bound
      {
        var late := if j <= k then k + 1 else j;
        NeverShrinks(q, j, late);
        AsksForAll(q, k, late);
        assert !q.LeavesAt(late);
      }
      forall j: nat
        ensures Free(q, j)
      {
        forall m: nat | m < j && q.readSize == q.writeSize
          ensures !q.PartialAt(m)
        {
          assert !q.WedgedAt(m, bound) && q.At(m + 1).read < bound;
        }
        FreeUnlessPartial(q, j);
      }
      Outgrows(q, 0, bound);
    }
  }

  /** The exact condition for the main loop to end. Let the content length become known and let the server, again and
      again, move at least a byte. Then the loop goes on for ever if and only if the sizes are equal and some round moves
      part of a piece while bytes are missing. */
  lemma EndsUnlessWedged(q: Request, k: nat)
    requires q.Valid() && q.Lively() && q.LengthAt(k) >= 0
    ensures q.Ends() <==> !exists i: nat :: q.WedgedAt(i, q.LengthAt(k))
  {
    if i: nat :| q.WedgedAt(i, q.LengthAt(k)) {
      WedgedNeverEnds(q, k, i);
    } else {
      EndsIfNotWedged(q, k);
    }
  }

  function ExampleTurn(i: nat): (t: Turn)
    ensures Sane(t, 4, 4) && t.Moves() && t.wr == 4 && |t.rd.bytes| == if i == 0 then 3 else 4
  {
    Turn(Got(if i == 0 then [1, 2, 3] else [4, 5, 6, 7]), 4, 8)
  }

  /** Pieces of four, eight bytes to come, a first read of three and full transfers ever after: no end. */
  lemma WedgedExample() returns (q: Request)
    ensures q.Valid() && q.Lively() && q.readSize == q.writeSize == 4 && q.contentLength == 8
    ensures q.turns == ExampleTurn && !q.Ends()
  {
    q := Request(4, 4, 8, ExampleTurn);
    forall i: nat
      ensures q.MovesAfter(i)
    {
      assert q.turns(i).Moves();
    }
    assert q.turns(0) == ExampleTurn(0);
    WedgedAtOnce(q);
  }

  /** A first read that is neither empty nor full nor all wedges the loop. */
  lemma WedgedAtOnce(q: Request)
    requires q.Valid() && q.readSize == q.writeSize && q.turns(0).Moves()
    requires 0 < q.Offers(0) < q.readSize && q.Offers(0) < q.contentLength
    ensures !q.Ends()
  {
    assert q.At(1).read == q.Offers(0);
    assert q.WedgedAt(0, q.LengthAt(0));
    WedgedNeverEnds(q, 0, 0);
  }

  /** With different sizes and a server that moves at least a byte in every round, i rounds move i bytes. */
  lemma {:induction false} Throughput(q: Request, i: nat)
    requires q.Valid() && q.readSize != q.writeSize && forall j: nat :: j < i ==> q.turns(j).Moves()
    ensures Moved(q, i) >= i
  {
    if i == 0 {
    } else {
      Throughput(q, i - 1);
      FreeUnlessPartial(q, i - 1);
      RoundGrows(q, i - 1);
    }
  }

  /** How many rounds are enough for a body of this length. */
  function Enough(length: nat): nat { if length == 0 then 1 else 2 * length }

  /** Then a body of length L is read within 2L rounds. */
  lemma LeavesWithin(q: Request)
    requires q.Valid() && q.readSize != q.writeSize && q.contentLength >= 0
    requires forall j: nat :: j < Enough(q.contentLength) ==> q.turns(j).Moves()
    ensures q.LeavesAt(Enough(q.contentLength))
  {
    Throughput(q, Enough(q.contentLength));
    LengthStays(q, 0, Enough(q.contentLength));
  }

  // ---------------------------------------------------------------- the drain loop

  /** What is still kept after the drain loop used i answers of append_resp_body. */
  ghost function KeptAt(kept: nat, writeSize: nat, answers: nat -> int, i: nat): nat {
    if i == 0 then kept
    else
      var left := KeptAt(kept, writeSize, answers, i - 1);
      var want := if left > writeSize then writeSize else left;
      left - if answers(i - 1) < 0 then 0 else if answers(i - 1) > want then want else answers(i - 1)
  }

  /** The drain loop used i answers, each of them needed and none an error, and ended there: with nothing left, with
      an error, or with more to do than the patience of the caller. */
  ghost predicate DrainEnds(kept: nat, writeSize: nat, answers: nat -> int, patience: nat, i: nat, outcome: Outcome) {
    && i <= patience
    && (forall j: nat :: j < i ==> DrainGoesOn(kept, writeSize, answers, j))
    && match outcome
       case Completed => KeptAt(kept, writeSize, answers, i) == 0
       case Failed => KeptAt(kept, writeSize, answers, i) > 0 && i < patience && answers(i) == LS_FAIL
       case Running => KeptAt(kept, writeSize, answers, i) > 0 && i == patience
  }

  ghost predicate AlwaysTakes(answers: nat -> int) {
    forall i: nat :: answers(i) > 0
  }

  ghost predicate DrainGoesOn(kept: nat, writeSize: nat, answers: nat -> int, i: nat) {
    KeptAt(kept, writeSize, answers, i) > 0 && answers(i) != LS_FAIL
  }

  /** One call of the drain loop, in plain numbers: it asks for the smaller of the write size and what is left, and as much
      goes as the server answers, if that is no more than was asked. */
  lemma DrainTakes(kept: nat, writeSize: nat, answers: nat -> int, i: nat)
    requires writeSize > 0
    ensures KeptAt(kept, writeSize, answers, 0) == kept
    ensures var left, now := KeptAt(kept, writeSize, answers, i), KeptAt(kept, writeSize, answers, i + 1);
            && (answers(i) <= 0 ==> now == left)
            && (0 <= answers(i) <= left && answers(i) <= writeSize ==> now == left - answers(i))
            && (answers(i) > left && left <= writeSize ==> now == 0)
            && (answers(i) > writeSize && left > writeSize ==> now == left - writeSize)
  {
  }

  /** A call of the drain loop asks for the smaller of the write size and what is left. */
  ghost predicate AskedFor(size: nat, left: nat, writeSize: nat) {
    size == if left > writeSize then writeSize else left
  }

  /** These are the sizes the calls of the drain loop asked for, in order. */
  ghost predicate AllAsked(asked: seq<nat>, kept: nat, writeSize: nat, answers: nat -> int) {
    forall j :: 0 <= j < |asked| ==> AskedFor(asked[j], KeptAt(kept, writeSize, answers, j), writeSize)
  }

  lemma AskedOnceMore(asked: seq<nat>, want: nat, kept: nat, writeSize: nat, answers: nat -> int)
    requires AllAsked(asked, kept, writeSize, answers)
    requires AskedFor(want, KeptAt(kept, writeSize, answers, |asked|), writeSize)
    ensures AllAsked(asked + [want], kept, writeSize, answers)
  {
    assert forall j :: 0 <= j < |asked| ==> AskedFor(asked[j], KeptAt(kept, writeSize, answers, j), writeSize);
  }

  /** In plain numbers: no call asks for more than the write size or than what is left, and each asks for one of the
      two. */
  lemma AskedInPlainNumbers(asked: seq<nat>, kept: nat, writeSize: nat, answers: nat -> int, j: nat)
    requires AllAsked(asked, kept, writeSize, answers) && j < |asked|
    ensures var left := KeptAt(kept, writeSize, answers, j);
            && asked[j] <= writeSize && asked[j] <= left && (asked[j] == writeSize || asked[j] == left)
            && KeptAt(kept, writeSize, answers, j + 1)
               == left - if answers(j) < 0 then 0 else if answers(j) <= asked[j] then answers(j) else asked[j]
  {
    assert AskedFor(asked[j], KeptAt(kept, writeSize, answers, j), writeSize);
  }

  /** A server that takes all it is offered drains whole pieces of the write size, and the rest at last. */
  lemma {:induction false} DrainsInPieces(kept: nat, writeSize: nat, answers: nat -> int, i: nat)
    requires writeSize > 0 && forall j: nat :: j < i ==> answers(j) >= writeSize
    ensures KeptAt(kept, writeSize, answers, i) == if kept <= writeSize * i then 0 else kept - writeSize * i
  {
    if i == 0 {
    } else {
      DrainsInPieces(kept, writeSize, answers, i - 1);
      assert writeSize * i == writeSize * (i - 1) + writeSize;
    }
  }

  /** A server that takes at least a byte each time drains what is kept in as many calls. */
  lemma {:induction false} DrainsWithin(kept: nat, writeSize: nat, answers: nat -> int, i: nat)
    requires writeSize > 0 && AlwaysTakes(answers)
    ensures KeptAt(kept, writeSize, answers, i) <= if i <= kept then kept - i else 0
  {
    if i == 0 {
    } else {
      DrainsWithin(kept, writeSize, answers, i - 1);
    }
  }

  // ---------------------------------------------------------------- the handler

  class Adapter {
    const readSize: nat
    const writeSize: nat
    const buf: array<Byte>
    var readPtr: nat
    var writePtr: nat
    var totalRead: nat
    var iLen: int             // what the last call of the server returned
    ghost var input: seq<Byte>   // all bytes read
    ghost var output: seq<Byte>  // all bytes appended to the response

    /** The cursors are in order and inside the buffer, and the bytes put out followed by the bytes between the cursors
        are the bytes read so far. */
    ghost predicate Valid()
      reads this, buf
    {
      && readSize > 0 && writeSize > 0 && buf.Length == BufSize(readSize, writeSize)
      && writePtr <= readPtr <= buf.Length
      && totalRead == |input|
      && output + buf[writePtr..readPtr] == input
    }

    ghost function Where(): Cursors
      reads this
    {
      Cursors(readPtr, writePtr, |input|, |output|)
    }

    constructor (readSize: nat, writeSize: nat)
      requires readSize > 0 && writeSize > 0
      ensures Valid() && fresh(buf) && this.readSize == readSize && this.writeSize == writeSize
      ensures input == [] && output == [] && Where() == Cursors(0, 0, 0, 0)
    {
      this.readSize, this.writeSize := readSize, writeSize;
      buf := new Byte[BufSize(readSize, writeSize)];
      readPtr, writePtr, totalRead, iLen := 0, 0, 0, 0;
      input, output := [], [];
    }

    /** read_req_body delivers bytes at pReadPtr. */
    method Deliver(bytes: seq<Byte>)
      requires Valid() && readPtr + |bytes| <= buf.Length
      modifies this`readPtr, this`totalRead, this`input, this`iLen, buf
      ensures Valid() && input == old(input) + bytes && Where() == Advanced(old(Where()), |bytes|) && iLen == |bytes|
    {
      ghost var was := buf[..];
      Memmove(buf, readPtr, bytes);
      assert buf[..][writePtr..readPtr + |bytes|] == was[writePtr..readPtr] + bytes;
      assert output + (was[writePtr..readPtr] + bytes) == (output + was[writePtr..readPtr]) + bytes;
      readPtr := readPtr + |bytes|;
      totalRead := totalRead + |bytes|;
      input := input + bytes;
      iLen := |bytes|;
    }

    /** append_resp_body takes k bytes at pWritePtr. */
    method PutOut(k: nat)
      requires Valid() && writePtr + k <= readPtr
      modifies this`writePtr, this`output, this`iLen
      ensures Valid() && Where() == Drained(old(Where()), k) && iLen == k && old(output) <= output
    {
      ghost var kept := buf[writePtr..readPtr];
      assert kept == kept[..k] + kept[k..] && buf[writePtr + k..readPtr] == kept[k..];
      assert output + (kept[..k] + kept[k..]) == (output + kept[..k]) + kept[k..];
      output := output + kept[..k];
      writePtr := writePtr + k;
      iLen := k;
    }

    /** Move the kept bytes to the start of the buffer when neither a read nor a write fits. */
    method Compact()
      requires Valid()
      modifies this`readPtr, this`writePtr, buf
      ensures Valid() && Where() == Compacted(readSize, writeSize, old(Where()))
    {
      if readPtr - writePtr < writeSize && buf.Length - readPtr < readSize {
        ghost var kept := buf[writePtr..readPtr];
        Memmove(buf, 0, buf[writePtr..readPtr]);
        readPtr, writePtr := readPtr - writePtr, 0;
        assert buf[..][..readPtr] == kept;
      }
    }

    /** One round of the main loop. It fails exactly when a call it makes is answered with an error. */
    method OneRound(turn: Turn) returns (failed: bool)
      requires Valid() && Sane(turn, readSize, writeSize)
      modifies this, buf
      ensures Valid()
      ensures input == old(input) + turn.Delivered(CanRead(readSize, writeSize, old(Where())))
      ensures old(output) <= output
      ensures !failed ==> Where() == Round(readSize, writeSize, old(Where()), |turn.Delivered(true)|, turn.Taken())
      ensures var reading := CanRead(readSize, writeSize, old(Where()));
              var c := Advanced(old(Where()), |turn.Delivered(reading)|);
              failed <==> (reading && turn.rd.ReadFail?) || (CanWrite(writeSize, c) && turn.wr == LS_FAIL)
      ensures failed ==> iLen == LS_FAIL && output == old(output)
      ensures var reading := buf.Length - old(readPtr) >= readSize;
              var r := old(readPtr) + if reading && turn.rd.Got? then |turn.rd.bytes| else 0;
              var writing := r - old(writePtr) >= writeSize;
              && input == old(input) + (if reading && turn.rd.Got? then turn.rd.bytes else [])
              && (failed <==> (reading && turn.rd.ReadFail?) || (writing && turn.wr == -1))
              && (!failed ==>
                    var w := old(writePtr) + if writing then turn.wr else 0;
                    && |output| == |old(output)| + (w - old(writePtr))
                    && if r - w < writeSize && buf.Length - r < readSize then readPtr == r - w && writePtr == 0
                       else readPtr == r && writePtr == w)
      ensures !failed && (CanRead(readSize, writeSize, old(Where())) || old(iLen) != LS_FAIL) ==> iLen != LS_FAIL
    {
      if buf.Length - readPtr >= readSize {
        if turn.rd.ReadFail? {
          iLen := LS_FAIL;
          return true;
        }
        Deliver(turn.rd.bytes);
      }
      if readPtr - writePtr >= writeSize {
        if turn.wr == LS_FAIL {
          iLen := LS_FAIL;
          return true;
        }
        PutOut(turn.wr);
      }
      Compact();
      failed := false;
    }

    /** The drain loop, started with kept bytes between the cursors, used so many answers and put out what they took. */
    ghost predicate DrainedAs(kept: nat, answers: nat -> int, patience: nat, used: nat, outcome: Outcome)
      reads this
    {
      && DrainEnds(kept, writeSize, answers, patience, used, outcome)
      && |output| == |input| - KeptAt(kept, writeSize, answers, used)
    }

    /** The drain loop after the main loop; answers tells what append_resp_body returns. */
    method Drain(answers: nat -> int, patience: nat) returns (outcome: Outcome, used: nat, ghost asked: seq<nat>)
      requires Valid() && forall i: nat :: LS_FAIL <= answers(i)
      modifies this`writePtr, this`output, this`iLen
      ensures Valid() && old(output) <= output
      ensures DrainedAs(old(readPtr - writePtr), answers, patience, used, outcome)
      ensures |asked| == if outcome.Failed? then used + 1 else used
      ensures AllAsked(asked, old(readPtr - writePtr), writeSize, answers)
    {
      ghost var kept := readPtr - writePtr;
      used, asked := 0, [];
      while writePtr < readPtr
        invariant used <= patience && DrainHead(kept, answers, used, asked) && old(output) <= output
        decreases patience - used
      {
        if used == patience {
          return Running, used, asked;
        }
        var failed;
        failed, asked := DrainCall(answers, used, kept, asked);
        if failed {
          return Failed, used, asked;
        }
        used := used + 1;
      }
      outcome := Completed;
    }

    /** The drain loop has made so many calls, asking for these sizes, none of them answered with an error. */
    ghost predicate DrainHead(kept: nat, answers: nat -> int, used: nat, asked: seq<nat>)
      reads this, buf
    {
      && Valid() && readPtr - writePtr == KeptAt(kept, writeSize, answers, used)
      && |asked| == used && AllAsked(asked, kept, writeSize, answers)
      && forall j: nat :: j < used ==> DrainGoesOn(kept, writeSize, answers, j)
    }

    /** One call of the drain loop. */
    method DrainCall(answers: nat -> int, used: nat, ghost kept: nat, ghost before: seq<nat>)
        returns (failed: bool, ghost asked: seq<nat>)
      requires DrainHead(kept, answers, used, before) && writePtr < readPtr && LS_FAIL <= answers(used)
      modifies this`writePtr, this`output, this`iLen
      ensures old(output) <= output
      ensures failed <==> answers(used) == LS_FAIL
      ensures failed ==> Where() == old(Where()) && Valid() && |asked| == used + 1
                         && AllAsked(asked, kept, writeSize, answers)
      ensures !failed ==> DrainHead(kept, answers, used + 1, asked)
    {
      var want := if readPtr - writePtr > writeSize then writeSize else readPtr - writePtr;
      var got := if answers(used) > want then want else answers(used);
      AskedOnceMore(before, want, kept, writeSize, answers);
      DrainTakes(kept, writeSize, answers, used);
      asked := before + [want];
      if got == LS_FAIL {
        iLen := LS_FAIL;
        return true, asked;
      }
      PutOut(got);
      failed := false;
    }

    /** The handler stands at the head of round i. */
    ghost predicate AtHead(q: Request, i: nat)
      reads this, buf
    {
      && Valid() && q.Valid() && q.readSize == readSize && q.writeSize == writeSize
      && Where() == q.At(i) && input == q.InputAt(i)
    }

    /** One round of the main loop, as the request has it. */
    method MakeRound(q: Request, i: nat) returns (failed: bool)
      requires AtHead(q, i)
      modifies this, buf
      ensures !failed ==> AtHead(q, i + 1)
      ensures !failed && (i == 0 || old(iLen) != LS_FAIL) ==> iLen != LS_FAIL
      ensures failed ==> Valid() && input == q.InputAt(i + 1) && |output| == q.At(i).written
      ensures failed <==> q.ErrorAt(i)
    {
      assert q.SaneAt(i);
      failed := OneRound(q.turns(i));
    }

    /** The handler stands before round i, if it makes it, and knows this content length. */
    ghost predicate AtTest(q: Request, i: nat, length: int, more: bool)
      reads this, buf
    {
      AtHead(q, i) && q.Reaches(i) && length == q.LengthAt(i) && (more <==> !q.LeavesAt(i)) && (i > 0 ==> iLen != LS_FAIL)
    }

    /** Round i was made and a call in it was answered with an error. */
    ghost predicate FailedIn(q: Request, i: nat)
      reads this, buf
    {
      && Valid() && q.Valid() && q.Reaches(i) && !q.LeavesAt(i) && q.ErrorAt(i)
      && input == q.InputAt(i + 1) && |output| == q.At(i).written
    }

    /** The body of the main loop up to its test: a round, and the content length asked for again if it is unknown. */
    method LoopBody(q: Request, i: nat, length: int) returns (failed: bool, more: bool, known: int)
      requires AtTest(q, i, length, true)
      modifies this, buf
      ensures if failed then FailedIn(q, i) else AtTest(q, i + 1, known, more)
    {
      known := length;
      failed := MakeRound(q, i);
      if failed {
        return true, false, known;
      }
      RoundMade(q, i);
      if length < 0 {
        known := q.turns(i).contentLength;
      }
      more := totalRead < Unsigned(known);
    }

    /** The main loop, followed for patience rounds at most. It reads exactly what the server delivers in the rounds it
        makes, fails exactly when a call it makes is answered with an error, and makes every round up to that, to its
        exit or to the end of patience. */
    method MainLoop(q: Request, patience: nat) returns (end: Outcome, rounds: nat)
      requires AtHead(q, 0)
      modifies this, buf
      ensures Valid() && q.MainEnds(patience, rounds, end)
      ensures end.Failed? ==> input == q.InputAt(rounds + 1) && |output| == q.At(rounds).written
      ensures !end.Failed? ==> AtHead(q, rounds)
      ensures end.Completed? ==> iLen != LS_FAIL
    {
      var failed, more;
      failed, more, rounds := Rounds(q, patience);
      end := if failed then Failed else if more then Running else Completed;
      assert end.Completed? ==> rounds > 0;
    }

    /** The loop itself. */
    method Rounds(q: Request, patience: nat) returns (failed: bool, more: bool, rounds: nat)
      requires AtHead(q, 0)
      modifies this, buf
      ensures failed ==> rounds < patience && FailedIn(q, rounds)
      ensures !failed ==> rounds <= patience && (more ==> rounds == patience) && AtTest(q, rounds, q.LengthAt(rounds), more)
    {
      var length := q.contentLength;
      failed, more, rounds := false, true, 0;
      while more
        invariant rounds <= patience && AtTest(q, rounds, length, more)
        decreases patience - rounds, more
      {
        if rounds == patience {
          return false, true, rounds;
        }
        failed, more, length := LoopBody(q, rounds, length);
        if failed {
          return true, false, rounds;
        }
        rounds := rounds + 1;
      }
    }

    /** The drain loop, after a main loop left by its test. */
    method FinishWriting(q: Request, rounds: nat, answers: nat -> int, patience: nat)
        returns (outcome: Outcome, used: nat, ghost asked: seq<nat>)
      requires AtHead(q, rounds) && q.LeavesAt(rounds) && forall i: nat :: LS_FAIL <= answers(i)
      modifies this`writePtr, this`output, this`iLen
      ensures Valid() && output <= input
      ensures DrainedAs(q.At(rounds).r - q.At(rounds).w, answers, patience, used, outcome)
      ensures |asked| == if outcome.Failed? then used + 1 else used
      ensures AllAsked(asked, q.At(rounds).r - q.At(rounds).w, writeSize, answers)
      ensures outcome.Completed? ==> output == input && |input| >= Unsigned(q.LengthAt(rounds))
    {
      outcome, used, asked := Drain(answers, patience);
      assert outcome.Completed? ==> |output| == |input|;
    }

    /** The whole request: the main loop, then the drain loop.

        Whatever the server answers, the response so far is a prefix of what the rounds made have read; the run fails
        exactly when a call it makes is answered with an error; a run that completes has put out exactly what it read,
        which is at least the content length. With different sizes and a server that moves at least a byte each time
        it does complete. */
    method ProcessReq(q: Request, answers: nat -> int, patience: nat)
        returns (outcome: Outcome, main: Outcome, rounds: nat, used: nat, ghost asked: seq<nat>)
      requires AtHead(q, 0) && forall i: nat :: LS_FAIL <= answers(i)
      modifies this, buf
      ensures Valid() && output <= input && q.MainEnds(patience, rounds, main)
      ensures input == q.InputAt(if main.Failed? then rounds + 1 else rounds)
      ensures !main.Completed? ==> outcome == main && |output| == q.At(rounds).written
      ensures main.Completed? ==>
                && DrainedAs(q.At(rounds).r - q.At(rounds).w, answers, patience, used, outcome)
                && AllAsked(asked, q.At(rounds).r - q.At(rounds).w, writeSize, answers)
                && rounds > 0 && |asked| == if outcome.Failed? then used + 1 else used
      ensures outcome.Completed? ==> output == input && |input| >= Unsigned(q.LengthAt(rounds))
      ensures (&& readSize != writeSize && q.contentLength >= 0 && patience >= Enough(q.contentLength) + buf.Length
               && q.AlwaysMoves() && AlwaysTakes(answers))
              ==> outcome.Completed?
    {
      used, asked := 0, [];
      main, rounds := MainLoop(q, patience);
      outcome := main;
      if main.Completed? {
        outcome, used, asked := FinishWriting(q, rounds, answers, patience);
      }
      if q.AlwaysMoves() && AlwaysTakes(answers) {
        Willing(q, answers, patience, rounds, main, used, outcome);
      }
    }
  }

  lemma RoundMade(q: Request, i: nat)
    requires q.Valid() && q.Reaches(i) && !q.ErrorAt(i) && !q.LeavesAt(i)
    ensures q.Reaches(i + 1)
    ensures q.LengthAt(i + 1) == if q.LengthAt(i) < 0 then q.turns(i).contentLength else q.LengthAt(i)
  {
    assert q.GoesOnAt(i);
  }

  /** With different sizes, a server that moves a byte each time leaves the main loop within 2L rounds and empties the
      buffer within as many calls as it has bytes. */
  lemma Willing(q: Request, answers: nat -> int, patience: nat, rounds: nat, main: Outcome, used: nat, outcome: Outcome)
    requires q.Valid() && q.AlwaysMoves() && AlwaysTakes(answers) && q.MainEnds(patience, rounds, main)
    requires if main.Completed?
             then DrainEnds(q.At(rounds).r - q.At(rounds).w, q.writeSize, answers, patience, used, outcome)
             else outcome == main
    ensures (&& q.readSize != q.writeSize && q.contentLength >= 0
             && patience >= Enough(q.contentLength) + BufSize(q.readSize, q.writeSize))
            ==> outcome.Completed?
  {
    if q.readSize != q.writeSize && q.contentLength >= 0 {
      LeavesWithin(q);
      assert !q.GoesOnAt(Enough(q.contentLength));
      if main.Completed? {
        DrainsWithin(q.At(rounds).r - q.At(rounds).w, q.writeSize, answers, used);
      }
    }
  }
}
