/** The auto-growing ring buffer: include/lsr/ls_loopbuf.h and src/lsr/ls_loopbuf.c.

    Pointers into the buffer are offsets from pbuf, so pbuf is 0 and pbufend is sizemax, the length of the allocation.
    A buffer that was never allocated, or was deallocated, has length 0.
  */
module LoopBuffer {
  import opened Bytes

  const LOOPBUF_UNIT: nat := 64

  // ---------------------------------------------------------------- index arithmetic

  /** ls_loopbuf_size. */
  function SizeOf(head: nat, end: nat, max: nat): int {
    if end - head >= 0 then end - head else end - head + max
  }

  /** ls_loopbuf_blksize. */
  function BlkSize(head: nat, end: nat, max: nat): int {
    if head > end then max - head else end - head
  }

  /** ls_loopbuf_getptr. */
  function GetPtr(head: nat, offset: nat, max: nat): nat
    requires max > 0
  {
    (head + offset) % max
  }

  /** ls_loopbuf_getoffset. */
  function GetOffset(head: nat, p: int, max: nat): int
    requires head < max
  {
    if p < 0 || p >= max then -1 else (p - head + max) % max
  }

  /** ls_loopbuf_inc. */
  function Inc(p: nat, max: nat): nat {
    if p + 1 == max then 0 else p + 1
  }

  /** ls_loopbuf_getnumseg. */
  function NumSeg(head: nat, end: nat): nat {
    if end > head then 1 else 2
  }

  /** ls_loopbuf_insiov: the segments, or nothing for LS_FAIL. */
  function InsIov(buf: seq<Byte>, head: nat, end: nat, count: int): seq<seq<Byte>>
    requires head <= |buf| && end <= |buf|
  {
    if end > head && count == 1 then [buf[head..end]]
    else if end < head && count == 2 then [buf[head..], buf[..end]]
    else []
  }

  /** The bytes stored, in order. */
  function Stored(buf: seq<Byte>, head: nat, end: nat): seq<Byte>
    requires head <= |buf| && end <= |buf|
  {
    if head <= end then buf[head..end] else buf[head..] + buf[..end]
  }

  lemma Wrap(x: nat, max: nat)
    requires max > 0 && x < 2 * max
    ensures x % max == if x < max then x else x - max
  {
    var q, r := x / max, x % max;
    assert x == max * q + r && 0 <= r < max;
    assert q >= 2 ==> max * q >= max * 2;
    assert q <= -1 ==> max * q <= max * -1;
  }

  /** getptr and getoffset are inverse to each other on the whole buffer, for every position of the head. */
  lemma PtrOffset(head: nat, i: nat, max: nat)
    requires head < max && i < max
    ensures GetPtr(head, i, max) < max
    ensures GetOffset(head, GetPtr(head, i, max), max) == i
    ensures GetPtr(head, GetOffset(head, i, max), max) == i
    ensures GetOffset(head, -1 - i, max) == GetOffset(head, max + i, max) == -1
  {
    Wrap(head + i, max);
    Wrap(GetPtr(head, i, max) - head + max, max);
    Wrap(i - head + max, max);
    Wrap(head + GetOffset(head, i, max), max);
  }

  /** Incrementing a pointer moves to the next offset, around the end. */
  lemma IncPtr(head: nat, i: nat, max: nat)
    requires head < max && i < max
    ensures Inc(GetPtr(head, i, max), max) == GetPtr(head, (i + 1) % max, max)
  {
    Wrap(head + i, max);
    Wrap(i + 1, max);
    Wrap(head + (i + 1) % max, max);
  }

  /** Reading getptr(0), getptr(1), ... up to the size gives the stored bytes, and the size is at most sizemax - 1. */
  lemma ReadBack(buf: seq<Byte>, head: nat, end: nat, i: nat)
    requires head < |buf| && end < |buf| && i < SizeOf(head, end, |buf|)
    ensures |Stored(buf, head, end)| == SizeOf(head, end, |buf|) <= |buf| - 1
    ensures Stored(buf, head, end)[i] == buf[GetPtr(head, i, |buf|)]
  {
    Wrap(head + i, |buf|);
  }

  /** The front block followed by the rest at the start of the buffer is the content; with one segment the front block
      is all of it. */
  lemma Segments(buf: seq<Byte>, head: nat, end: nat)
    requires head < |buf| && end < |buf|
    ensures var blk, size := BlkSize(head, end, |buf|), SizeOf(head, end, |buf|);
            && 0 <= blk <= size
            && Stored(buf, head, end) == buf[head..head + blk] + buf[..size - blk]
            && (NumSeg(head, end) == 1 ==> blk == size > 0)
  {
  }

  /** ls_loopbuf_insiov succeeds with the number of segments ls_loopbuf_getnumseg reports, and then describes exactly
      the content, if and only if the buffer is not empty. An empty buffer reports two segments and is refused. */
  lemma InsIovMatches(buf: seq<Byte>, head: nat, end: nat)
    requires head < |buf| && end < |buf|
    ensures var iov := InsIov(buf, head, end, NumSeg(head, end));
            && (iov != [] <==> head != end) && (head == end ==> NumSeg(head, end) == 2)
            && (head != end ==> |iov| == NumSeg(head, end) && Joined(iov) == Stored(buf, head, end))
  {
    var iov := InsIov(buf, head, end, NumSeg(head, end));
    if head < end {
      var rest: seq<seq<Byte>> := iov[1..];
      assert rest == [];
    } else if end < head {
      var rest: seq<seq<Byte>> := iov[1..];
      assert rest == [iov[1]] && Joined(rest) == iov[1];
    }
  }

  /** Bytes written from the end on, without wrapping, extend the content. */
  lemma AppendFlat(buf: seq<Byte>, head: nat, end: nat, data: seq<Byte>)
    requires head < |buf| && end < |buf| && |data| < |buf| - SizeOf(head, end, |buf|) && end + |data| <= |buf|
    ensures var end' := if end + |data| == |buf| then 0 else end + |data|;
            Stored(Patched(buf, end, data), head, end') == Stored(buf, head, end) + data
  {
    PatchedParts(buf, end, data, head);
    PatchedParts(buf, end, data, 0);
  }

  /** Bytes written up to the end of the buffer and on from its start extend the content. */
  lemma AppendWrapped(buf: seq<Byte>, head: nat, end: nat, data: seq<Byte>, len: nat)
    requires head <= end < |buf| && |data| < |buf| - (end - head) && end + len == |buf| && len < |data|
    ensures Stored(Patched(Patched(buf, end, data[..len]), 0, data[len..]), head, |data| - len)
            == Stored(buf, head, end) + data
  {
    var flat := Patched(buf, end, data[..len]);
    PatchedParts(buf, end, data[..len], head);
    assert flat[head..] == flat[head..end + len];
    PatchedParts(flat, 0, data[len..], head);
    PatchedParts(flat, 0, data[len..], 0);
    assert buf[head..end] + data[..len] + data[len..] == buf[head..end] + data;
  }

  /** The first len bytes of the content lie in at most two pieces. */
  lemma FrontPieces(buf: seq<Byte>, head: nat, end: nat, len: nat)
    requires head < |buf| && end < |buf| && len <= SizeOf(head, end, |buf|)
    ensures var first := if |buf| - head > len then len else |buf| - head;
            Stored(buf, head, end)[..len] == buf[head..head + first] + buf[..len - first]
  {
  }

  /** Moving the head on drops the front. */
  lemma DropFront(buf: seq<Byte>, head: nat, end: nat, n: nat)
    requires head < |buf| && end < |buf| && n < SizeOf(head, end, |buf|)
    ensures var head' := if head + n >= |buf| then head + n - |buf| else head + n;
            Stored(buf, head', end) == Stored(buf, head, end)[n..]
  {
    if head > end && head + n < |buf| {
      assert buf[head..][n..] == buf[head + n..];
    }
  }

  /** Moving the end back drops the back. */
  lemma DropBack(buf: seq<Byte>, head: nat, end: nat, n: nat)
    requires head < |buf| && end < |buf| && n < SizeOf(head, end, |buf|)
    ensures var end' := if end < n then end - n + |buf| else end - n;
            Stored(buf, head, end') == Stored(buf, head, end)[..SizeOf(head, end, |buf|) - n]
  {
    if head > end && end < n {
      assert buf[head..][..|buf| - head - (n - end)] == buf[head..end - n + |buf|];
    }
  }

  /** Content copied to the start of an allocation is stored there. */
  lemma Landed(was: seq<Byte>, content: seq<Byte>)
    requires |content| < |was|
    ensures Stored(Patched(was, 0, content), 0, |content|) == content
  {
  }

  /** Copy one piece and, unless it is empty, a second one behind it. */
  method CopyPieces(target: array<Byte>, front: seq<Byte>, rest: seq<Byte>)
    requires |front| + |rest| <= target.Length
    modifies target
    ensures target[..] == Patched(old(target[..]), 0, front + rest)
  {
    ghost var was := target[..];
    Memmove(target, 0, front);
    if |rest| != 0 {
      Memmove(target, |front|, rest);
      PatchedTwice(was, 0, front, rest);
    } else {
      assert front + rest == front;
    }
  }

  // ---------------------------------------------------------------- room

  /** What ls_loopbuf_reserve allocates for size bytes. */
  function Rounded(size: nat): (capacity: nat)
    ensures capacity > size
  {
    (size + 64) / 64 * 64  // in units of LOOPBUF_UNIT
  }

  /** That is the least multiple of 64 above the size. */
  lemma RoundedIsLeast(size: nat)
    ensures Rounded(size) % 64 == 0 && size < Rounded(size) <= size + 64
  {
  }

  /** How much is allocated, and how many bytes are stored. One place always stays free. */
  datatype Room = Room(capacity: nat, used: nat)
  {
    /** An append of n bytes succeeds; mem tells whether it can get memory. */
    predicate Fits(n: nat, mem: bool) {
      n == 0 || mem || n <= capacity - 1 - used
    }

    function After(n: nat, mem: bool): Room {
      if n == 0 || n <= capacity - 1 - used then Room(capacity, used + n)
      else if mem then Room(Rounded(n + used + 1), used + n)
      else this
    }

    /** The room after k appends of n bytes each, of which those fail that find neither room nor memory. */
    ghost function AfterAll(n: nat, mem: nat -> bool, k: nat): Room {
      if k == 0 then this else AfterAll(n, mem, k - 1).After(n, mem(k - 1))
    }

    /** Append k of such a run succeeds. */
    ghost predicate FitsAt(n: nat, mem: nat -> bool, k: nat) {
      AfterAll(n, mem, k).Fits(n, mem(k))
    }
  }

  // ---------------------------------------------------------------- the buffer

  class LoopBuf {
    var buf: array<Byte>
    var head: nat
    var end: nat

    ghost predicate Valid()
      reads this
    {
      if buf.Length == 0 then head == 0 && end == 0 else head < buf.Length && end < buf.Length
    }

    ghost function Contents(): seq<Byte>
      requires Valid()
      reads this, buf
    {
      Stored(buf[..], head, end)
    }

    ghost function Space(): Room
      requires Valid()
      reads this, buf
    {
      Room(buf.Length, |Contents()|)
    }

    /** ls_loopbuf; mem tells whether the first allocation succeeds. If not, the buffer starts without storage. */
    constructor (size: nat, mem: bool)
      ensures Valid() && fresh(buf) && Contents() == []
      ensures buf.Length == if mem then Rounded(if size == 0 then LOOPBUF_UNIT else size) else 0
    {
      var want := if size == 0 then LOOPBUF_UNIT else size;
      buf := new Byte[if mem then Rounded(want) else 0];
      head, end := 0, 0;
    }

    /** The zeroed struct: no allocation yet. */
    constructor Zeroed()
      ensures Valid() && fresh(buf) && Contents() == [] && buf.Length == 0
    {
      buf := new Byte[0];
      head, end := 0, 0;
    }

    function Size(): (n: int)
      requires Valid()
      reads this, buf
      ensures n == |Contents()|
    {
      SizeOf(head, end, buf.Length)
    }

    predicate Empty()
      requires Valid()
      reads this, buf
      ensures Empty() <==> Contents() == []
    {
      head == end
    }

    /** One place always stays free, so that a full buffer differs from an empty one. */
    predicate Full()
      requires Valid()
      reads this, buf
      ensures buf.Length > 0 ==> (Full() <==> Available() == 0)
    {
      Size() == buf.Length - 1
    }

    function Available(): (n: int)
      requires Valid()
      reads this, buf
      ensures n == buf.Length - 1 - |Contents()|
    {
      if head - end - 1 >= 0 then head - end - 1 else head - end - 1 + buf.Length
    }

    function Contiguous(): int
      reads this
    {
      if head > end then head - end - 1
      else if head == 0 then buf.Length - end - 1
      else buf.Length - end
    }

    method Clear()
      requires Valid()
      modifies this`head, this`end
      ensures Valid() && Contents() == []
    {
      head, end := 0, 0;
    }

    /** One byte more on a buffer that is not full; on a full one the end meets the head and all content is lost. */
    method UnsafeApp(ch: Byte)
      requires Valid() && buf.Length > 0
      modifies this`end, buf
      ensures Valid()
      ensures !old(Full()) ==> Contents() == old(Contents()) + [ch]
      ensures old(Full()) ==> Contents() == []
      ensures forall i :: 0 <= i < buf.Length && i != old(end) ==> buf[i] == old(buf[i])
    {
      buf[end] := ch;
      end := end + 1;
      if end == buf.Length {
        end := 0;
      }
    }

    /** ls_loopbuf_used: move the end on by size, capped at what is available. A negative size moves it back, and must
        not move it out of the buffer; moving it past the head makes the content wrap around. */
    method Used(size: int)
      requires Valid() && buf.Length > 0 && end + size >= 0
      modifies this`end
      ensures Valid()
      ensures var n := if size > old(Available()) then old(Available()) else size;
              && end == (if old(end) + n >= buf.Length then old(end) + n - buf.Length else old(end) + n)
              && Size() == old(Size()) + n + if old(Size()) + n < 0 then buf.Length else 0
      ensures size >= 0 ==> old(Contents()) <= Contents()
    {
      var n := if size > Available() then Available() else size;
      end := end + n;
      if end >= buf.Length {
        end := end - buf.Length;
      }
    }

    method PopFront(size: int) returns (r: int)
      requires Valid()
      modifies this`head, this`end
      ensures Valid()
      ensures size < 0 ==> r == LS_FAIL && Contents() == old(Contents())
      ensures size >= 0 ==> r == (if size >= |old(Contents())| then |old(Contents())| else size)
                            && Contents() == old(Contents())[r..]
    {
      if size < 0 {
        return LS_FAIL;
      }
      r := size;
      if size > 0 {
        var len := Size();
        if size >= len {
          r := len;
          head, end := 0, 0;
        } else {
          DropFront(buf[..], head, end, size);
          head := head + size;
          if head >= buf.Length {
            head := head - buf.Length;
          }
        }
      }
    }

    method PopBack(size: int) returns (r: int)
      requires Valid()
      modifies this`head, this`end
      ensures Valid()
      ensures size < 0 ==> r == LS_FAIL && Contents() == old(Contents())
      ensures size >= 0 ==> r == (if size >= |old(Contents())| then |old(Contents())| else size)
                            && Contents() == old(Contents())[..|old(Contents())| - r]
    {
      if size < 0 {
        return LS_FAIL;
      }
      r := size;
      if size > 0 {
        var len := Size();
        if size >= len {
          r := len;
          head, end := 0, 0;
        } else {
          DropBack(buf[..], head, end, size);
          if end < size {
            end := end - size + buf.Length;
          } else {
            end := end - size;
          }
        }
      }
    }

    /** The copying part of ls_loopbuf_moveto. */
    method CopyOut(target: array<Byte>, len: nat)
      requires Valid() && target != buf && 0 < len <= Size() && len <= target.Length
      modifies target
      ensures target[..] == Patched(old(target[..]), 0, old(Contents())[..len])
    {
      ghost var bytes := buf[..];
      var first := if buf.Length - head > len then len else buf.Length - head;
      var front, rest := buf[head..head + first], buf[..len - first];
      assert front == bytes[head..head + first] && rest == bytes[..len - first];
      FrontPieces(bytes, head, end, len);
      CopyPieces(target, front, rest);
    }

    /** ls_loopbuf_moveto: copy up to size bytes of the front out and remove them. */
    method MoveTo(target: array<Byte>, size: int) returns (r: int)
      requires Valid() && target != buf && size <= target.Length
      modifies this`head, this`end, target
      ensures Valid()
      ensures size < 0 ==> r == LS_FAIL && Contents() == old(Contents()) && target[..] == old(target[..])
      ensures size >= 0 ==> r == (if |old(Contents())| > size then size else |old(Contents())|)
                            && target[..] == Patched(old(target[..]), 0, old(Contents())[..r])
                            && Contents() == old(Contents())[r..]
    {
      if size < 0 {
        return LS_FAIL;
      }
      var len := if Size() > size then size else Size();
      if len > 0 {
        CopyOut(target, len);
        var popped := PopFront(len);
      }
      r := len;
    }

    /** ls_loopbuf_reserve: room for at least size bytes, rounded up; mem tells whether the allocation succeeds. Asking
        for no room gives the allocation back, content and all. */
    method Reserve(size: nat, mem: bool) returns (r: int)
      requires Valid()
      modifies this
      ensures Valid() && (buf == old(buf) || fresh(buf)) && (buf != old(buf) ==> head == 0)
      ensures mem ==> r == LS_OK
      ensures r != LS_OK ==> r == LS_FAIL && buf == old(buf) && Contents() == old(Contents())
      ensures r == LS_OK && (size > 0 || old(buf.Length) == 0) ==>
                && Contents() == old(Contents())
                && buf.Length == if Rounded(size) > old(buf.Length) then Rounded(size) else old(buf.Length)
      ensures size == 0 && old(buf.Length) > 0 ==> r == LS_OK && buf.Length == 0
      ensures size > 0 || old(buf.Length) == 0 ==> (r == LS_OK <==> mem || Rounded(size) <= old(buf.Length))
    {
      r := LS_OK;
      if size == 0 && buf.Length != 0 {
        buf := new Byte[0];
        head, end := 0, 0;
        return;
      }
      var want := Rounded(size);
      if want > buf.Length {
        if !mem {
          return LS_FAIL;
        }
        Grow(want);
      }
    }

    /** Move the content to a bigger allocation. */
    method Grow(want: nat)
      requires Valid() && want > buf.Length
      modifies this
      ensures Valid() && fresh(buf) && buf.Length == want && head == 0 && Contents() == old(Contents())
    {
      var bigger := new Byte[want];
      var len := 0;
      ghost var was, content := bigger[..], Contents();
      if buf.Length != 0 {
        len := MoveTo(bigger, want - 1);
        assert content[..len] == content;
        Landed(was, content);
      }
      buf, head, end := bigger, 0, len;
    }

    /** ls_loopbuf_guarantee: room for size bytes more. */
    method Guarantee(size: nat, mem: bool) returns (r: int)
      requires Valid()
      modifies this
      ensures Valid() && (buf == old(buf) || fresh(buf))
      ensures Contents() == old(Contents())
      ensures buf != old(buf) ==> head == 0
      ensures r == LS_OK ==> size <= Available() && buf.Length > 0
      ensures r == if !mem && size > old(Available()) then LS_FAIL else LS_OK
      ensures buf.Length == if size <= old(Available()) || !mem then old(buf.Length)
                            else Rounded(size + |old(Contents())| + 1)
    {
      if size <= Available() {
        return LS_OK;
      }
      r := Reserve(size + Size() + 1, mem);
    }

    /** ls_loopbuf_append. */
    method Append(data: seq<Byte>, mem: bool) returns (r: int)
      requires Valid()
      modifies this, buf
      ensures Valid() && (buf == old(buf) || fresh(buf))
      ensures r == if old(Space()).Fits(|data|, mem) then |data| else LS_FAIL
      ensures r == -1 <==> |data| > 0 && !mem && |old(Contents())| + |data| >= old(buf.Length)
      ensures Contents() == if r == LS_FAIL then old(Contents()) else old(Contents()) + data
      ensures Space() == old(Space()).After(|data|, mem)
    {
      r := |data|;
      if |data| > 0 {
        var ok := Guarantee(|data|, mem);
        if ok != LS_OK {
          return LS_FAIL;
        }
        Write(data);
      }
    }

    /** The copying part of ls_loopbuf_append, once there is room. */
    method Write(data: seq<Byte>)
      requires Valid() && 0 < |data| <= Available()
      modifies this`end, buf
      ensures Valid() && Contents() == old(Contents()) + data
    {
      ghost var was := buf[..];
      var len := if Contiguous() > |data| then |data| else Contiguous();
      Memmove(buf, end, data[..len]);
      if |data| - len != 0 {
        AppendWrapped(was, head, end, data, len);
        Memmove(buf, 0, data[len..]);
      } else {
        assert data[..len] == data;
        AppendFlat(was, head, end, data);
      }
      Used(|data|);
    }

    /** The content of a buffer that lies in one piece from the start: ls_loopbuf_begin and ls_loopbuf_size. */
    method Whole() returns (data: seq<Byte>)
      requires Valid() && head == 0 && end == |Contents()|
      ensures data == Contents()
    {
      data := buf[..end];
      assert data == buf[..][0..end];
    }

    /** ls_loopbuf_straight: the same content in one piece. */
    method Straight()
      requires Valid()
      modifies this
      ensures Valid() && fresh(buf)
      ensures Contents() == old(Contents())
      ensures head == 0 && end == |Contents()| && buf.Length == Rounded(|Contents()| + 1)
    {
      ghost var content := Contents();
      var tmp := Prepared(Size());
      MoveAll(tmp.buf, content);
      buf, head, end := tmp.buf, tmp.head, tmp.end;
    }

    /** A new buffer that counts size bytes as stored. */
    static method Prepared(size: nat) returns (tmp: LoopBuf)
      ensures fresh(tmp) && fresh(tmp.buf) && tmp.head == 0 && tmp.end == size && tmp.buf.Length == Rounded(size + 1)
    {
      tmp := new LoopBuf.Zeroed();
      var ok := tmp.Guarantee(size, true);
      tmp.Used(size);
    }

    /** Move the whole content to the start of another allocation. */
    method MoveAll(target: array<Byte>, ghost content: seq<Byte>)
      requires Valid() && Contents() == content && target != buf && |content| < target.Length
      modifies this`head, this`end, target
      ensures Stored(target[..], 0, |content|) == content
    {
      ghost var was := target[..];
      var moved := MoveTo(target, Size());
      assert content[..|content|] == content;
      Landed(was, content);
    }
  }
}
