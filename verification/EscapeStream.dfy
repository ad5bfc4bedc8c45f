/** The escaping stream pair: addon/example/updatetcpout1.c writes every byte as "=XX", addon/example/updatetcpout2.c
    reads the triples back. Both keep what the next stage did not take in a ring buffer.
  */
module EscapeStream {
  import opened Bytes
  import opened LoopBuffer

  const MAX_BLOCK_BUFSIZE: nat := 8192
  const EQUALS: Byte := 61

  // ---------------------------------------------------------------- the code

  /** The digit of "%02X". */
  function HexDigit(n: nat): Byte
    requires n < 16
  {
    if n < 10 then 48 + n else 55 + n
  }

  /** sprintf "=%02X". */
  function EncodeByte(b: Byte): seq<Byte> {
    [EQUALS, HexDigit(b / 16), HexDigit(b % 16)]
  }

  function Encode(s: seq<Byte>): seq<Byte> {
    if s == [] then [] else EncodeByte(s[0]) + Encode(s[1..])
  }

  predicate IsHex(c: Byte) { 48 <= c <= 57 || 65 <= c <= 70 || 97 <= c <= 102 }

  function HexValue(c: Byte): nat
    requires IsHex(c)
  {
    if c <= 57 then c - 48 else if c <= 70 then c - 55 else c - 87
  }

  predicate IsSpace(c: Byte) { c == 32 || 9 <= c <= 13 }

  /** strtol in base 16 of the string of the characters a and b: leading space, sign and "0x" as the C library reads
      them, 0 without digits. */
  function StrtolHex(a: Byte, b: Byte): int {
    var tail := if IsHex(b) then HexValue(b) else 0;
    if IsHex(a) then
      if IsHex(b) then 16 * HexValue(a) + tail else HexValue(a)
    else if a == 45 then -tail
    else if a == 43 || IsSpace(a) then tail
    else 0
  }

  /** The byte a triple stands for, or nothing when it does not start with '='. */
  function DecodeTriple(t: seq<Byte>): (r: seq<Byte>)
    requires |t| == 3
    ensures |r| <= 1
  {
    if t[0] == EQUALS then [StrtolHex(t[1], t[2]) % 256] else []
  }

  /** Every triple starts with '='. */
  ghost predicate Decodable(s: seq<Byte>)
    requires |s| % 3 == 0
  {
    s == [] || (s[0] == EQUALS && Decodable(s[3..]))
  }

  /** The bytes decoded before the first bad triple. */
  ghost function Decode(s: seq<Byte>): seq<Byte>
    requires |s| % 3 == 0
  {
    if s == [] || s[0] != EQUALS then [] else DecodeTriple(s[..3]) + Decode(s[3..])
  }

  /** The triples before offset j are valid and decode to done, where all is what the whole decodes to, and valid tells
      whether all of it is. */
  ghost predicate DecodedUpTo(s: seq<Byte>, j: nat, done: seq<Byte>, all: seq<Byte>, valid: bool) {
    && |s| % 3 == 0 && j % 3 == 0 && j <= |s|
    && done + Decode(s[j..]) == all && (Decodable(s[j..]) <==> valid)
  }

  /** The triple at offset j: its byte, or the discovery that it is invalid. */
  method ReadTriple(s: seq<Byte>, j: nat, ghost done: seq<Byte>, ghost all: seq<Byte>, ghost valid: bool)
      returns (ok: bool, byte: seq<Byte>)
    requires DecodedUpTo(s, j, done, all, valid) && j < |s|
    ensures ok ==> |byte| == 1 && DecodedUpTo(s, j + 3, done + byte, all, valid)
    ensures !ok ==> !valid && all == done
  {
    ghost var head, tail := s[j..j + 3], s[j + 3..];
    TripleAt(s, j);
    OnTriple(done, head, tail, all, valid);
    ok := s[j] == EQUALS;
    byte := if ok then DecodeTriple(s[j..j + 3]) else [];
  }

  lemma TripleAt(s: seq<Byte>, j: nat)
    requires |s| % 3 == 0 && j % 3 == 0 && j < |s|
    ensures j + 3 <= |s| && |s[j + 3..]| % 3 == 0
    ensures s[j..] == s[j..j + 3] + s[j + 3..] && s[j..j + 3][0] == s[j]
  {
  }

  /** The triple head, when done was decoded before it and all is what the whole decodes to. */
  lemma OnTriple(done: seq<Byte>, head: seq<Byte>, tail: seq<Byte>, all: seq<Byte>, valid: bool)
    requires |head| == 3 && |tail| % 3 == 0 && |head + tail| % 3 == 0
    requires done + Decode(head + tail) == all && (Decodable(head + tail) <==> valid)
    ensures if head[0] == EQUALS then done + DecodeTriple(head) + Decode(tail) == all && (Decodable(tail) <==> valid)
            else !valid && all == done
  {
    DecodeCons(head, tail);
    Reassociate(done, DecodeTriple(head), Decode(tail));
  }

  /** One triple in front of others. */
  lemma DecodeCons(head: seq<Byte>, tail: seq<Byte>)
    requires |head| == 3 && |tail| % 3 == 0
    ensures |head + tail| % 3 == 0
    ensures Decodable(head + tail) <==> head[0] == EQUALS && Decodable(tail)
    ensures Decode(head + tail) == if head[0] == EQUALS then DecodeTriple(head) + Decode(tail) else []
  {
    assert (head + tail)[..3] == head && (head + tail)[3..] == tail;
  }

  lemma DecodedAll(s: seq<Byte>, done: seq<Byte>, all: seq<Byte>, valid: bool)
    requires DecodedUpTo(s, |s|, done, all, valid)
    ensures valid && all == done
  {
  }

  lemma TripleRoundTrip(b: Byte)
    ensures DecodeTriple(EncodeByte(b)) == [b]
  {
    assert b == 16 * (b / 16) + b % 16;
  }

  lemma {:induction false} EncodeAppend(s: seq<Byte>, t: seq<Byte>)
    ensures Encode(s + t) == Encode(s) + Encode(t)
  {
    if s == [] {
      assert s + t == t;
    } else {
      assert (s + t)[1..] == s[1..] + t;
      EncodeAppend(s[1..], t);
    }
  }

  lemma {:induction false} EncodeLength(s: seq<Byte>)
    ensures |Encode(s)| == 3 * |s|
  {
    if s == [] {
    } else {
      EncodeLength(s[1..]);
    }
  }

  /** Round trip: for every byte sequence, decoding its encoding gives it back, without an invalid entry. */
  lemma {:induction false} RoundTrip(s: seq<Byte>)
    ensures |Encode(s)| % 3 == 0 && Decodable(Encode(s)) && Decode(Encode(s)) == s
  {
    EncodeLength(s);
    if s == [] {
    } else {
      var e := Encode(s);
      EncodeLength(s[1..]);
      assert e[..3] == EncodeByte(s[0]) && e[3..] == Encode(s[1..]);
      TripleRoundTrip(s[0]);
      RoundTrip(s[1..]);
    }
  }

  /** What decode and valid do to a triple in front of others. */
  ghost predicate ReadsTriple(decode: seq<Byte> -> seq<Byte>, valid: seq<Byte> -> bool, head: seq<Byte>, tail: seq<Byte>) {
    |head| == 3 && |tail| % 3 == 0 ==>
      && (valid(head + tail) <==> head[0] == EQUALS && valid(tail))
      && decode(head + tail) == if head[0] == EQUALS then DecodeTriple(head) + decode(tail) else []
  }

  /** Whatever reads triple by triple may read piece by piece. */
  lemma {:induction false} ReadsAppend(decode: seq<Byte> -> seq<Byte>, valid: seq<Byte> -> bool, s: seq<Byte>, t: seq<Byte>)
    requires forall head: seq<Byte>, tail: seq<Byte> :: ReadsTriple(decode, valid, head, tail)
    requires valid([]) && decode([]) == [] && |s| % 3 == 0 && |t| % 3 == 0
    ensures valid(s + t) <==> valid(s) && valid(t)
    ensures decode(s + t) == if valid(s) then decode(s) + decode(t) else decode(s)
  {
    if s == [] {
      assert s + t == t && s == [] && [] + decode(t) == decode(t);
    } else {
      var head, rest := s[..3], s[3..];
      ReadsAppend(decode, valid, rest, t);
      assert ReadsTriple(decode, valid, head, rest) && ReadsTriple(decode, valid, head, rest + t);
      assert s == head + rest;
      Reassociate(head, rest, t);
      Reassociate(DecodeTriple(head), decode(rest), decode(t));
    }
  }

  /** Decoding may be done piece by piece as long as the cuts lie between triples. */
  lemma DecodeAppend(s: seq<Byte>, t: seq<Byte>)
    requires |s| % 3 == 0 && |t| % 3 == 0
    ensures Decodable(s + t) <==> Decodable(s) && Decodable(t)
    ensures Decodable(s) ==> Decode(s + t) == Decode(s) + Decode(t)
    ensures !Decodable(s) ==> Decode(s + t) == Decode(s)
  {
    var decode := (x: seq<Byte>) => if |x| % 3 == 0 then Decode(x) else [];
    var valid := (x: seq<Byte>) => |x| % 3 == 0 && Decodable(x);
    forall head: seq<Byte>, tail: seq<Byte>
      ensures ReadsTriple(decode, valid, head, tail)
    {
      if |head| == 3 && |tail| % 3 == 0 {
        DecodeCons(head, tail);
      }
    }
    ReadsAppend(decode, valid, s, t);
  }

  // ---------------------------------------------------------------- the code in plain words

  /** The digits of "%X" are those of this table. */
  lemma UpperDigits(n: nat)
    requires n < 16
    ensures HexDigit(n) == "0123456789ABCDEF"[n] as int
  {
    var table := "0123456789ABCDEF";
    assert |table| == 16;
  }

  /** A byte goes out as '=' and its two hexadecimal digits in upper case, the high one first. */
  lemma EncodedAs(b: Byte)
    ensures EncodeByte(b) == ['=' as int, "0123456789ABCDEF"[b / 16] as int, "0123456789ABCDEF"[b % 16] as int]
  {
    UpperDigits(b / 16);
    UpperDigits(b % 16);
  }

  /** Byte i of the input is entry i of what goes out. */
  lemma {:induction false} EncodedAt(s: seq<Byte>, i: nat)
    requires i < |s|
    ensures |Encode(s)| == 3 * |s| && Encode(s)[3 * i..3 * i + 3] == EncodeByte(s[i])
    decreases s
  {
    EncodeLength(s);
    var rest := s[1..];
    if i == 0 {
      assert Encode(s)[..3] == EncodeByte(s[0]);
    } else {
      EncodedAt(rest, i - 1);
      assert Encode(s) == EncodeByte(s[0]) + Encode(rest);
      assert Encode(s)[3 * i..3 * i + 3] == Encode(rest)[3 * (i - 1)..3 * (i - 1) + 3];
    }
  }

  /** Digit n, upper or lower case. */
  predicate IsDigit(c: Byte, n: nat)
    requires n < 16
  {
    c == "0123456789ABCDEF"[n] as int || c == "0123456789abcdef"[n] as int
  }

  /** The digits the decoder reads have their values. */
  lemma DigitRead(c: Byte, n: nat)
    requires n < 16 && IsDigit(c, n)
    ensures IsHex(c) && HexValue(c) == n
  {
  }

  /** There are no others. */
  lemma OnlyDigitsRead(c: Byte)
    ensures IsHex(c) ==> HexValue(c) < 16 && IsDigit(c, HexValue(c))
  {
  }

  /** Two digits are read as 16 times the high one and the low one. */
  lemma PairRead(a: Byte, b: Byte, high: nat, low: nat)
    requires high < 16 && low < 16 && IsDigit(a, high) && IsDigit(b, low)
    ensures StrtolHex(a, b) == 16 * high + low && DecodeTriple(['=' as int, a, b]) == [16 * high + low]
  {
    DigitRead(a, high);
    DigitRead(b, low);
  }

  /** One digit is read alone, behind a space or a sign too, and nothing else as 0; a negative value wraps around to a
      byte. */
  lemma SingleRead(a: Byte, b: Byte)
    ensures IsHex(a) && !IsHex(b) ==> StrtolHex(a, b) == HexValue(a)
    ensures (a == ' ' as int || 9 <= a <= 13 || a == '+' as int) && IsHex(b) ==> StrtolHex(a, b) == HexValue(b)
    ensures a == '-' as int && IsHex(b) ==>
              StrtolHex(a, b) + HexValue(b) == 0 && DecodeTriple(['=' as int, a, b]) == [(256 - HexValue(b)) % 256]
    ensures !IsHex(a) && !IsHex(b) ==> StrtolHex(a, b) == 0
    ensures !IsHex(a) && a != ' ' as int && !(9 <= a <= 13) && a != '+' as int && a != '-' as int ==> StrtolHex(a, b) == 0
  {
  }

  /** Decoding goes entry by entry to the end or to the first entry that does not start with '='. */
  lemma {:induction false} DecodedAt(s: seq<Byte>)
    requires |s| % 3 == 0
    ensures 3 * |Decode(s)| <= |s|
    ensures forall i :: 0 <= i < |Decode(s)| ==> s[3 * i] == '=' as int && Decode(s)[i] == StrtolHex(s[3 * i + 1], s[3 * i + 2]) % 256
    ensures 3 * |Decode(s)| < |s| ==> s[3 * |Decode(s)|] != '=' as int
    ensures Decodable(s) <==> 3 * |Decode(s)| == |s|
  {
    DecodedLength(s);
    if s == [] || s[0] != EQUALS {
    } else {
      var rest := s[3..];
      DecodedAt(rest);
      assert Decode(s) == DecodeTriple(s[..3]) + Decode(rest);
      forall i | 0 <= i < |Decode(s)|
        ensures s[3 * i] == '=' as int && Decode(s)[i] == StrtolHex(s[3 * i + 1], s[3 * i + 2]) % 256
      {
        if i > 0 {
          assert Decode(s)[i] == Decode(rest)[i - 1] && s[3 * i] == rest[3 * (i - 1)];
        }
      }
    }
  }

  /** The count of a call that meets its first invalid segment at i: twice what came before, the segment, and three for
      each entry decoded of it. */
  lemma {:induction false} CountedExactly(iov: seq<seq<Byte>>, i: nat)
    requires Aligned(iov) && i < |iov| && !Decodable(iov[i]) && forall k :: 0 <= k < i ==> Decodable(iov[k])
    ensures Counted(iov) == 2 * |Joined(iov[..i])| + |iov[i]| + 3 * |Decode(iov[i])|
    decreases i
  {
    DecodedLength(iov[0]);
    if i == 0 {
    } else {
      CountedExactly(iov[1..], i - 1);
      assert iov[..i][1..] == iov[1..][..i - 1];
    }
  }

  // ---------------------------------------------------------------- segments

  ghost predicate Aligned(iov: seq<seq<Byte>>) {
    forall i :: 0 <= i < |iov| ==> |iov[i]| % 3 == 0
  }

  /** Decoding a list of segments, stopping at the first invalid entry. */
  ghost function DecodeIov(iov: seq<seq<Byte>>): seq<Byte>
    requires Aligned(iov)
  {
    if iov == [] then []
    else if Decodable(iov[0]) then Decode(iov[0]) + DecodeIov(iov[1..])
    else Decode(iov[0])
  }

  /** What the hook counts: the length of every segment it looks at and three for every triple it decodes. */
  ghost function Counted(iov: seq<seq<Byte>>): nat
    requires Aligned(iov)
  {
    if iov == [] then 0
    else |iov[0]| + 3 * |Decode(iov[0])| + if Decodable(iov[0]) then Counted(iov[1..]) else 0
  }

  /** The segments before i are valid, decode to done and count for total. */
  ghost predicate DecodedSegments(iov: seq<seq<Byte>>, i: nat, done: seq<Byte>, total: int) {
    && Aligned(iov) && i <= |iov|
    && done + DecodeIov(iov[i..]) == DecodeIov(iov) && total + Counted(iov[i..]) == Counted(iov)
    && (DecodableIov(iov[i..]) <==> DecodableIov(iov))
  }

  /** Segment i: one more, or the end. */
  lemma NextSegment(iov: seq<seq<Byte>>, i: nat, done: seq<Byte>, total: int)
    requires DecodedSegments(iov, i, done, total) && i < |iov|
    ensures var piece := Decode(iov[i]);
            var count := total + |iov[i]| + 3 * |piece|;
            if Decodable(iov[i]) then DecodedSegments(iov, i + 1, done + piece, count)
            else !DecodableIov(iov) && DecodeIov(iov) == done + piece && Counted(iov) == count
  {
    var suffix := iov[i..];
    assert suffix[0] == iov[i] && suffix[1..] == iov[i + 1..];
    DecodableCons(suffix);
    Reassociate(done, Decode(iov[i]), DecodeIov(suffix[1..]));
  }

  lemma NoSegment(iov: seq<seq<Byte>>)
    requires Aligned(iov)
    ensures DecodedSegments(iov, 0, [], 0)
  {
    assert iov[0..] == iov;
  }

  lemma AllSegments(iov: seq<seq<Byte>>, done: seq<Byte>, total: int)
    requires DecodedSegments(iov, |iov|, done, total)
    ensures DecodableIov(iov) && DecodeIov(iov) == done && Counted(iov) == total
  {
  }

  lemma {:induction false} DecodedLength(s: seq<Byte>)
    requires |s| % 3 == 0
    ensures 3 * |Decode(s)| <= |s| && (Decodable(s) <==> 3 * |Decode(s)| == |s|)
  {
    if s == [] {
    } else {
      DecodedLength(s[3..]);
    }
  }

  /** When everything is valid the count is twice the bytes taken; an invalid entry makes it less. */
  lemma {:induction false} CountedTwice(iov: seq<seq<Byte>>)
    requires Aligned(iov)
    ensures Counted(iov) <= 2 * |Joined(iov)|
    ensures Counted(iov) == 2 * |Joined(iov)| <==> DecodableIov(iov)
  {
    if iov == [] {
    } else {
      DecodableCons(iov);
      DecodedLength(iov[0]);
      CountedTwice(iov[1..]);
    }
  }

  ghost predicate DecodableIov(iov: seq<seq<Byte>>)
    requires Aligned(iov)
  {
    forall i :: 0 <= i < |iov| ==> Decodable(iov[i])
  }

  /** The decoder sees the same bytes however the stream is cut between triples. */
  lemma {:induction false} DecodeAnySplit(iov: seq<seq<Byte>>)
    requires Aligned(iov)
    ensures |Joined(iov)| % 3 == 0
    ensures Decodable(Joined(iov)) <==> DecodableIov(iov)
    ensures Decode(Joined(iov)) == DecodeIov(iov)
  {
    if iov == [] {
    } else {
      var first, rest := iov[0], iov[1..];
      DecodableCons(iov);
      DecodeAnySplit(rest);
      DecodeAppend(first, Joined(rest));
      assert Joined(iov) == first + Joined(rest);
      assert DecodeIov(iov) == if Decodable(first) then Decode(first) + DecodeIov(rest) else Decode(first);
    }
  }

  lemma DecodableCons(iov: seq<seq<Byte>>)
    requires Aligned(iov) && iov != []
    ensures Aligned(iov[1..]) && (DecodableIov(iov) <==> Decodable(iov[0]) && DecodableIov(iov[1..]))
  {
    forall i | 0 < i < |iov|
      ensures iov[i] == iov[1..][i - 1]
    {
    }
  }

  /** Encoding a byte sequence and decoding it across any split into segments of whole triples gives it back. */
  lemma RoundTripAnySplit(s: seq<Byte>, iov: seq<seq<Byte>>)
    requires Aligned(iov) && Joined(iov) == Encode(s)
    ensures DecodableIov(iov) && DecodeIov(iov) == s
  {
    RoundTrip(s);
    DecodeAnySplit(iov);
  }

  lemma Reassociate(a: seq<Byte>, b: seq<Byte>, c: seq<Byte>)
    ensures a + (b + c) == (a + b) + c
  {
  }

  /** How much of what is kept a next stage takes that answers written: nothing on an error, never more than there is. */
  function Clamp(written: int, kept: seq<Byte>): (n: nat)
    ensures n <= |kept|
    ensures (written <= 0 ==> n == 0) && (0 <= written <= |kept| ==> n == written) && (written > |kept| ==> n == |kept|)
  {
    if written < 0 then 0 else if written > |kept| then |kept| else written
  }

  /** popfront by what the next stage answered. */
  method PopAnswered(b: LoopBuf, written: int, ghost kept: seq<Byte>)
    requires b.Valid() && b.Contents() == kept
    modifies b`head, b`end
    ensures b.Valid() && b.Contents() == kept[Clamp(written, kept)..]
  {
    var popped := b.PopFront(written);
  }

  /** What passing on as much as answered does. */
  lemma ClampedParts(passed: seq<Byte>, kept: seq<Byte>, written: int)
    ensures var n := Clamp(written, kept);
            && (written <= 0 ==> passed + kept[..n] == passed && kept[n..] == kept)
            && (0 <= written <= |kept| ==> |passed + kept[..n]| == |passed| + written)
            && (written > |kept| ==> kept[n..] == [])
  {
  }

  /** Moving the front of what is kept to what is passed on loses nothing. */
  lemma MovesOver(passed: seq<Byte>, kept: seq<Byte>, n: nat)
    requires n <= |kept|
    ensures (passed + kept[..n]) + kept[n..] == passed + kept
  {
    assert kept[..n] + kept[n..] == kept;
  }

  // ---------------------------------------------------------------- bytes lost without memory

  /** The bytes whose append succeeds, when byte k is the k-th append of n bytes and mem tells which of them can get
      memory. */
  ghost function Survivors(s: seq<Byte>, n: nat, room: Room, mem: nat -> bool): seq<Byte> {
    if s == [] then []
    else
      var k := |s| - 1;
      Survivors(s[..k], n, room, mem) + if room.FitsAt(n, mem, k) then [s[k]] else []
  }

  /** The first count appends of n bytes all find room or memory. */
  ghost predicate AllFit(n: nat, room: Room, mem: nat -> bool, count: nat) {
    forall k: nat :: k < count ==> room.FitsAt(n, mem, k)
  }

  lemma SurvivorsSnoc(s: seq<Byte>, b: Byte, n: nat, room: Room, mem: nat -> bool)
    ensures Survivors(s + [b], n, room, mem)
            == Survivors(s, n, room, mem) + if room.FitsAt(n, mem, |s|) then [b] else []
  {
    assert (s + [b])[..|s|] == s;
  }

  /** target tells, for whatever data came in, what the buffer then holds: one byte more adds its piece of n bytes if
      that append finds room or memory. */
  ghost predicate Builds(target: seq<Byte> -> seq<Byte>, piece: Byte -> seq<Byte>, n: nat, room: Room, mem: nat -> bool) {
    && (forall b: Byte :: |piece(b)| == n)
    && forall data: seq<Byte>, b: Byte :: BuildsOn(target, piece, n, room, mem, data, b)
  }

  ghost predicate BuildsOn(target: seq<Byte> -> seq<Byte>, piece: Byte -> seq<Byte>, n: nat, room: Room, mem: nat -> bool,
                           data: seq<Byte>, b: Byte) {
    target(data + [b]) == if room.FitsAt(n, mem, |data|) then target(data) + piece(b) else target(data)
  }

  /** In this call data came in, and the buffer holds what target says. */
  ghost predicate Building(buf: LoopBuf, target: seq<Byte> -> seq<Byte>, data: seq<Byte>, n: nat, room: Room,
                           mem: nat -> bool)
    reads buf, buf.buf
  {
    buf.Valid() && buf.Space() == room.AfterAll(n, mem, |data|) && buf.Contents() == target(data)
  }

  /** One byte more: its piece is appended. The result of the append is ignored, so without room and memory the byte is
      lost. */
  method BuildOne(buf: LoopBuf, b: Byte, bytes: seq<Byte>, mem: nat -> bool, at: nat, ghost target: seq<Byte> -> seq<Byte>,
                  ghost piece: Byte -> seq<Byte>, ghost n: nat, ghost room: Room, ghost data: seq<Byte>)
    requires Building(buf, target, data, n, room, mem) && Builds(target, piece, n, room, mem)
    requires at == |data| && bytes == piece(b)
    modifies buf, buf.buf
    ensures buf.buf == old(buf.buf) || fresh(buf.buf)
    ensures Building(buf, target, data + [b], n, room, mem)
  {
    assert BuildsOn(target, piece, n, room, mem, data, b) && |piece(b)| == n;
    var r := buf.Append(bytes, mem(at));
  }

  /** The encoder's target: what was kept at the start and the encoding of the survivors. */
  ghost function Encoded(start: seq<Byte>, room: Room, mem: nat -> bool): seq<Byte> -> seq<Byte> {
    (data: seq<Byte>) => start + Encode(Survivors(data, 3, room, mem))
  }

  lemma EncodedBuilds(start: seq<Byte>, room: Room, mem: nat -> bool)
    ensures Builds(Encoded(start, room, mem), EncodeByte, 3, room, mem)
    ensures Encoded(start, room, mem)([]) == start
  {
    forall data: seq<Byte>, b: Byte
      ensures BuildsOn(Encoded(start, room, mem), EncodeByte, 3, room, mem, data, b)
    {
      OneMore(start, data, b, room, mem);
    }
  }

  lemma OneMore(start: seq<Byte>, data: seq<Byte>, b: Byte, room: Room, mem: nat -> bool)
    ensures var was := start + Encode(Survivors(data, 3, room, mem));
            start + Encode(Survivors(data + [b], 3, room, mem))
            == if room.FitsAt(3, mem, |data|) then was + EncodeByte(b) else was
  {
    SurvivorsSnoc(data, b, 3, room, mem);
    EncodeSnoc(start, Survivors(data, 3, room, mem), b);
  }

  lemma EncodeSnoc(start: seq<Byte>, s: seq<Byte>, b: Byte)
    ensures start + Encode(s + [b]) == start + Encode(s) + EncodeByte(b)
    ensures s + [] == s
  {
    EncodeAppend(s, [b]);
    assert [b][1..] == [];
    Reassociate(start, Encode(s), EncodeByte(b));
  }

  /** The decoder's target: what was kept at the start and the survivors. */
  ghost function Decoded(start: seq<Byte>, room: Room, mem: nat -> bool): seq<Byte> -> seq<Byte> {
    (data: seq<Byte>) => start + Survivors(data, 1, room, mem)
  }

  function Single(b: Byte): seq<Byte> { [b] }

  lemma DecodedBuilds(start: seq<Byte>, room: Room, mem: nat -> bool)
    ensures Builds(Decoded(start, room, mem), Single, 1, room, mem)
    ensures Decoded(start, room, mem)([]) == start
  {
    forall data: seq<Byte>, b: Byte
      ensures BuildsOn(Decoded(start, room, mem), Single, 1, room, mem, data, b)
    {
      var kept := Survivors(data, 1, room, mem);
      SurvivorsSnoc(data, b, 1, room, mem);
      assert kept + [] == kept;
      Reassociate(start, kept, [b]);
    }
  }

  lemma OneFurther(data: seq<Byte>, segment: seq<Byte>, j: nat)
    requires j < |segment|
    ensures data + segment[..j + 1] == data + segment[..j] + [segment[j]]
  {
  }

  lemma {:induction false} SurvivorsAll(s: seq<Byte>, n: nat, room: Room, mem: nat -> bool)
    ensures if AllFit(n, room, mem, |s|) then Survivors(s, n, room, mem) == s
            else |Survivors(s, n, room, mem)| < |s|
  {
    if s == [] {
    } else {
      var k := |s| - 1;
      assert s == s[..k] + [s[k]];
      SurvivorsAll(s[..k], n, room, mem);
      assert AllFit(n, room, mem, |s|) <==> AllFit(n, room, mem, k) && room.FitsAt(n, mem, k);
    }
  }

  /** What follows is the encoding of everything taken exactly when no byte of it was lost. */
  lemma LostIffMissing(before: seq<Byte>, was: seq<Byte>, taken: seq<Byte>, n: nat, room: Room, mem: nat -> bool)
    requires before == Encode(was)
    ensures before + Encode(Survivors(taken, n, room, mem)) == Encode(was + taken) <==> AllFit(n, room, mem, |taken|)
  {
    EncodeAppend(was, taken);
    SurvivorsAll(taken, n, room, mem);
    EncodeLength(taken);
    EncodeLength(Survivors(taken, n, room, mem));
  }

  // ---------------------------------------------------------------- updatetcpout1

  class Encoder {
    const writeBuf: LoopBuf
    ghost var accepted: seq<Byte>  // input bytes reported as taken, over all calls
    ghost var passed: seq<Byte>    // bytes the next stage took, over all calls

    ghost predicate Valid()
      reads this, writeBuf
    {
      writeBuf.Valid()
    }

    /** Nothing is lost, doubled or reordered: what was passed on and what is kept is the encoding of all accepted
        input. */
    ghost predicate Conserves()
      requires Valid()
      reads this, writeBuf, writeBuf.buf
    {
      passed + writeBuf.Contents() == Encode(accepted)
    }

    constructor (mem: bool)
      ensures Valid() && fresh(writeBuf) && fresh(writeBuf.buf)
      ensures writeBuf.Contents() == [] && accepted == [] && passed == []
      ensures !mem ==> writeBuf.Space() == Room(0, 0)
    {
      writeBuf := new LoopBuf(MAX_BLOCK_BUFSIZE, mem);
      accepted, passed := [], [];
    }

    /** The inner loop: encode one segment. */
    method EncodeSegment(segment: seq<Byte>, mem: nat -> bool, at: nat, ghost target: seq<Byte> -> seq<Byte>,
                         ghost room: Room, ghost data: seq<Byte>)
      requires Building(writeBuf, target, data, 3, room, mem) && Builds(target, EncodeByte, 3, room, mem) && at == |data|
      modifies writeBuf, writeBuf.buf
      ensures writeBuf.buf == old(writeBuf.buf) || fresh(writeBuf.buf)
      ensures Building(writeBuf, target, data + segment, 3, room, mem)
    {
      var j := 0;
      assert data + segment[..0] == data;
      while j < |segment|
        invariant 0 <= j <= |segment| && Building(writeBuf, target, data + segment[..j], 3, room, mem)
        invariant writeBuf.buf == old(writeBuf.buf) || fresh(writeBuf.buf)
      {
        OneFurther(data, segment, j);
        var triple := EncodeByte(segment[j]);
        BuildOne(writeBuf, segment[j], triple, mem, at + j, target, EncodeByte, 3, room, data + segment[..j]);
        j := j + 1;
      }
      assert segment[..j] == segment;
    }

    /** The outer loop: encode all segments and count their bytes. */
    method EncodeEach(iov: seq<seq<Byte>>, mem: nat -> bool, ghost target: seq<Byte> -> seq<Byte>, ghost room: Room)
        returns (total: int)
      requires Building(writeBuf, target, [], 3, room, mem) && Builds(target, EncodeByte, 3, room, mem)
      modifies writeBuf, writeBuf.buf
      ensures writeBuf.buf == old(writeBuf.buf) || fresh(writeBuf.buf)
      ensures total == |Joined(iov)| && Building(writeBuf, target, Joined(iov), 3, room, mem)
    {
      total := 0;
      var i := 0;
      while i < |iov|
        invariant 0 <= i <= |iov| && total == |Joined(iov[..i])|
        invariant writeBuf.buf == old(writeBuf.buf) || fresh(writeBuf.buf)
        invariant Building(writeBuf, target, Joined(iov[..i]), 3, room, mem)
      {
        JoinedSnoc(iov, i);
        EncodeSegment(iov[i], mem, total, target, room, Joined(iov[..i]));
        total := total + |iov[i]|;
        i := i + 1;
      }
      assert iov[..i] == iov;
    }

    /** Both loops; mem tells which appends can get memory. */
    method EncodeAll(iov: seq<seq<Byte>>, mem: nat -> bool) returns (total: int)
      requires Valid()
      modifies writeBuf, writeBuf.buf
      ensures Valid() && (writeBuf.buf == old(writeBuf.buf) || fresh(writeBuf.buf))
      ensures total == |Joined(iov)|
      ensures writeBuf.Contents()
              == old(writeBuf.Contents()) + Encode(Survivors(Joined(iov), 3, old(writeBuf.Space()), mem))
    {
      EncodedBuilds(writeBuf.Contents(), writeBuf.Space(), mem);
      total := EncodeEach(iov, mem, Encoded(writeBuf.Contents(), writeBuf.Space(), mem), writeBuf.Space());
    }

    /** What a call takes of its input: everything, or nothing while the buffer is at its limit. */
    ghost function Taken(iov: seq<seq<Byte>>): seq<Byte>
      requires Valid()
      reads this, writeBuf, writeBuf.buf
    {
      if |writeBuf.Contents()| < MAX_BLOCK_BUFSIZE then Joined(iov) else []
    }

    /** What a call adds to the buffer: the encoding of the bytes taken that find room or memory. */
    ghost function Added(iov: seq<seq<Byte>>, mem: nat -> bool): seq<Byte>
      requires Valid()
      reads this, writeBuf, writeBuf.buf
    {
      Encode(Survivors(Taken(iov), 3, writeBuf.Space(), mem))
    }

    /** l4send up to the call of the next stage. */
    method Offer(iov: seq<seq<Byte>>, mem: nat -> bool) returns (total: int)
      requires Valid()
      modifies this`accepted, writeBuf, writeBuf.buf
      ensures Valid() && fresh(writeBuf.buf)
      ensures total == |old(Taken(iov))| && accepted == old(accepted) + old(Taken(iov))
      ensures writeBuf.Contents() == old(writeBuf.Contents()) + old(Added(iov, mem))
      ensures writeBuf.head == 0 && writeBuf.end == |writeBuf.Contents()|
      ensures writeBuf.buf.Length == Rounded(|writeBuf.Contents()| + 1)
    {
      ghost var start, taken, added := writeBuf.Contents(), Taken(iov), Added(iov, mem);
      total := 0;
      if MAX_BLOCK_BUFSIZE > writeBuf.Size() {
        total := EncodeAll(iov, mem);
      } else {
        assert start + added == start;
      }
      accepted := accepted + taken;
      assert writeBuf.Contents() == start + added;
      writeBuf.Straight();
    }

    /** l4send after the next stage returned written. */
    method Settle(written: int) returns (hasData: bool)
      requires Valid()
      modifies this`passed, writeBuf`head, writeBuf`end
      ensures Valid()
      ensures var kept := old(writeBuf.Contents());
              var n := Clamp(written, kept);
              passed == old(passed) + kept[..n] && writeBuf.Contents() == kept[n..]
      ensures var kept := old(writeBuf.Contents());
              && (written <= 0 ==> passed == old(passed) && writeBuf.Contents() == kept)
              && (0 <= written <= |kept| ==> |passed| == |old(passed)| + written)
              && (written > |kept| ==> writeBuf.Contents() == [])
      ensures passed + writeBuf.Contents() == old(passed + writeBuf.Contents())
      ensures writeBuf.Valid() && writeBuf.buf == old(writeBuf.buf)
      ensures hasData <==> writeBuf.Contents() != []
    {
      ghost var kept := writeBuf.Contents();
      PopAnswered(writeBuf, written, kept);
      MovesOver(passed, kept, Clamp(written, kept));
      passed := passed + kept[..Clamp(written, kept)];
      hasData := writeBuf.Size() != 0;
    }

    /** One call of the hook; written is what the next stage answers: any count, or an error. Of the kept bytes and those
        added, exactly as many as answered are passed on, and the rest is kept. The call keeps the conservation law if
        and only if every append finds room or memory. */
    method L4Send(iov: seq<seq<Byte>>, mem: nat -> bool, written: int) returns (total: int)
      requires Valid()
      modifies this, writeBuf, writeBuf.buf
      ensures Valid() && fresh(writeBuf.buf)
      ensures total == |old(Taken(iov))| && accepted == old(accepted) + old(Taken(iov))
      ensures var kept := old(writeBuf.Contents()) + old(Added(iov, mem));
              var n := Clamp(written, kept);
              && passed == old(passed) + kept[..n] && writeBuf.Contents() == kept[n..]
              && writeBuf.buf.Length == Rounded(|kept| + 1)
      ensures var kept := old(writeBuf.Contents()) + old(Added(iov, mem));
              && (written <= 0 ==> passed == old(passed) && writeBuf.Contents() == kept)
              && (0 <= written <= |kept| ==> |passed| == |old(passed)| + written)
              && (written > |kept| ==> writeBuf.Contents() == [])
      ensures total == if |old(writeBuf.Contents())| < 8192 then |Joined(iov)| else 0
      ensures old(Conserves()) ==> (Conserves() <==> AllFit(3, old(writeBuf.Space()), mem, total))
    {
      ghost var before, kept, added := passed, writeBuf.Contents() + Added(iov, mem), Added(iov, mem);
      ghost var was, taken, room := accepted, Taken(iov), writeBuf.Space();
      ghost var conserves := Conserves();
      Reassociate(passed, writeBuf.Contents(), added);
      total := SendOn(iov, mem, written);
      ClampedParts(before, kept, written);
      MovesOver(before, kept, Clamp(written, kept));
      if conserves {
        LostIffMissing(Encode(was), was, taken, 3, room, mem);
      }
    }

    /** The two halves. */
    method SendOn(iov: seq<seq<Byte>>, mem: nat -> bool, written: int) returns (total: int)
      requires Valid()
      modifies this, writeBuf, writeBuf.buf
      ensures Valid() && fresh(writeBuf.buf)
      ensures total == |old(Taken(iov))| && accepted == old(accepted) + old(Taken(iov))
      ensures var kept := old(writeBuf.Contents()) + old(Added(iov, mem));
              var n := Clamp(written, kept);
              && passed == old(passed) + kept[..n] && writeBuf.Contents() == kept[n..]
              && writeBuf.buf.Length == Rounded(|kept| + 1)
    {
      total := Offer(iov, mem);
      var hasData := Settle(written);
    }
  }

  /** A call that counts a byte as taken and loses it: without memory one byte comes in, and the next stage takes
      nothing. */
  method LostByteExample() returns (encoder: Encoder, total: int)
    ensures total == 1 && encoder.Valid() && encoder.accepted == [7]
    ensures encoder.passed == [] && encoder.writeBuf.Contents() == [] && !encoder.Conserves()
  {
    encoder := new Encoder(false);
    var mem := (k: nat) => false;
    assert Joined([[7]]) == [7] + Joined([]);
    assert !Room(0, 0).FitsAt(3, mem, 0) && [7][..0] == [];
    assert Survivors([7], 3, Room(0, 0), mem) == [];
    total := encoder.L4Send([[7]], mem, 0);
  }

  // ---------------------------------------------------------------- updatetcpout2

  class Decoder {
    const writeBuf: LoopBuf
    ghost var decoded: seq<Byte>  // bytes decoded, over all calls
    ghost var passed: seq<Byte>   // bytes the next stage took, over all calls

    ghost predicate Valid()
      reads this, writeBuf
    {
      writeBuf.Valid()
    }

    ghost predicate Conserves()
      requires Valid()
      reads this, writeBuf, writeBuf.buf
    {
      passed + writeBuf.Contents() == decoded
    }

    constructor (mem: bool)
      ensures Valid() && fresh(writeBuf) && fresh(writeBuf.buf)
      ensures writeBuf.Contents() == [] && decoded == [] && passed == []
    {
      writeBuf := new LoopBuf(MAX_BLOCK_BUFSIZE, mem);
      decoded, passed := [], [];
    }

    /** The inner loop: decode one segment, up to its first invalid entry. */
    method DecodeSegment(segment: seq<Byte>, mem: nat -> bool, at: nat, ghost target: seq<Byte> -> seq<Byte>,
                         ghost room: Room, ghost data: seq<Byte>)
        returns (ok: bool, n: int)
      requires Building(writeBuf, target, data, 1, room, mem) && Builds(target, Single, 1, room, mem)
      requires at == |data| && |segment| % 3 == 0
      modifies writeBuf, writeBuf.buf
      ensures writeBuf.buf == old(writeBuf.buf) || fresh(writeBuf.buf)
      ensures (ok <==> Decodable(segment)) && n == 3 * |Decode(segment)|
      ensures Building(writeBuf, target, data + Decode(segment), 1, room, mem)
    {
      var j, k := 0, at;
      ghost var done, all, well: bool := [], Decode(segment), Decodable(segment);
      n := 0;
      assert segment[0..] == segment && data + done == data;
      while j < |segment|
        invariant n == 3 * |done| && k == at + |done| && DecodedUpTo(segment, j, done, all, well)
        invariant Building(writeBuf, target, data + done, 1, room, mem)
        invariant writeBuf.buf == old(writeBuf.buf) || fresh(writeBuf.buf)
        decreases |segment| - j
      {
        var valid, byte := ReadTriple(segment, j, done, all, well);
        if !valid {
          return false, n;
        }
        Reassociate(data, done, byte);
        assert byte == [byte[0]];
        BuildOne(writeBuf, byte[0], byte, mem, k, target, Single, 1, room, data + done);
        done := done + byte;
        n := n + 3;
        j, k := j + 3, k + 1;
      }
      DecodedAll(segment, done, all, well);
      ok := true;
    }

    /** The outer loop. The count adds the length of every segment seen and three for every triple decoded. */
    method DecodeEach(iov: seq<seq<Byte>>, mem: nat -> bool, ghost target: seq<Byte> -> seq<Byte>, ghost room: Room)
        returns (ok: bool, total: int)
      requires Building(writeBuf, target, [], 1, room, mem) && Builds(target, Single, 1, room, mem) && Aligned(iov)
      modifies writeBuf, writeBuf.buf
      ensures writeBuf.buf == old(writeBuf.buf) || fresh(writeBuf.buf)
      ensures (ok <==> DecodableIov(iov)) && total == Counted(iov)
      ensures Building(writeBuf, target, DecodeIov(iov), 1, room, mem)
    {
      total := 0;
      var i, count := 0, 0;
      ghost var done: seq<Byte> := [];
      NoSegment(iov);
      while i < |iov|
        invariant DecodedSegments(iov, i, done, total) && count == |done|
        invariant Building(writeBuf, target, done, 1, room, mem)
        invariant writeBuf.buf == old(writeBuf.buf) || fresh(writeBuf.buf)
      {
        ghost var piece := Decode(iov[i]);
        NextSegment(iov, i, done, total);
        total := total + |iov[i]|;
        var fine, n := DecodeSegment(iov[i], mem, count, target, room, done);
        total := total + n;
        done := done + piece;
        if !fine {
          return false, total;
        }
        count := count + n / 3;
        i := i + 1;
      }
      AllSegments(iov, done, total);
      ok := true;
    }

    /** Both loops; mem tells which appends can get memory. */
    method DecodeAll(iov: seq<seq<Byte>>, mem: nat -> bool) returns (ok: bool, total: int)
      requires Valid() && Aligned(iov)
      modifies writeBuf, writeBuf.buf
      ensures Valid() && (writeBuf.buf == old(writeBuf.buf) || fresh(writeBuf.buf))
      ensures (ok <==> DecodableIov(iov)) && total == Counted(iov)
      ensures writeBuf.Contents() == old(writeBuf.Contents()) + Survivors(DecodeIov(iov), 1, old(writeBuf.Space()), mem)
    {
      DecodedBuilds(writeBuf.Contents(), writeBuf.Space(), mem);
      ok, total := DecodeEach(iov, mem, Decoded(writeBuf.Contents(), writeBuf.Space(), mem), writeBuf.Space());
    }

    ghost predicate Accepts()
      requires Valid()
      reads this, writeBuf, writeBuf.buf
    {
      |writeBuf.Contents()| < MAX_BLOCK_BUFSIZE
    }

    /** What a call decodes of its input: up to the first invalid entry, or nothing while the buffer is at its limit. */
    ghost function Taken(iov: seq<seq<Byte>>): seq<Byte>
      requires Valid() && Aligned(iov)
      reads this, writeBuf, writeBuf.buf
    {
      if Accepts() then DecodeIov(iov) else []
    }

    /** An invalid entry ends the call before the next stage is called. */
    ghost predicate BreaksOff(iov: seq<seq<Byte>>)
      requires Valid() && Aligned(iov)
      reads this, writeBuf, writeBuf.buf
    {
      Accepts() && !DecodableIov(iov)
    }

    /** What a call adds to the buffer: the bytes decoded that find room or memory. */
    ghost function Added(iov: seq<seq<Byte>>, mem: nat -> bool): seq<Byte>
      requires Valid() && Aligned(iov)
      reads this, writeBuf, writeBuf.buf
    {
      Survivors(Taken(iov), 1, writeBuf.Space(), mem)
    }

    /** l4send up to the call of the next stage. */
    method Offer(iov: seq<seq<Byte>>, mem: nat -> bool) returns (ok: bool, total: int)
      requires Valid() && Aligned(iov)
      modifies this`decoded, writeBuf, writeBuf.buf
      ensures Valid() && (writeBuf.buf == old(writeBuf.buf) || fresh(writeBuf.buf))
      ensures ok == !old(BreaksOff(iov)) && decoded == old(decoded) + old(Taken(iov))
      ensures total == if old(Accepts()) then Counted(iov) else 0
      ensures writeBuf.Contents() == old(writeBuf.Contents()) + old(Added(iov, mem))
    {
      ghost var start, taken, added := writeBuf.Contents(), Taken(iov), Added(iov, mem);
      decoded := decoded + taken;
      if MAX_BLOCK_BUFSIZE > writeBuf.Size() {
        ok, total := DecodeAll(iov, mem);
        if !ok {
          return;
        }
      } else {
        ok, total := true, 0;
        assert start + added == start;
      }
      assert writeBuf.Contents() == start + added;
      writeBuf.Straight();
    }

    /** One call of the hook. Of the kept bytes and those added, exactly as many as answered are passed on, and the rest
        is kept; after an invalid entry none are. The call keeps the conservation law if and only if every append finds
        room or memory. */
    method L4Send(iov: seq<seq<Byte>>, mem: nat -> bool, written: int) returns (total: int)
      requires Valid() && Aligned(iov)
      modifies this, writeBuf, writeBuf.buf
      ensures Valid() && (writeBuf.buf == old(writeBuf.buf) || fresh(writeBuf.buf))
      ensures decoded == old(decoded) + old(Taken(iov))
      ensures total == if old(Accepts()) then Counted(iov) else 0
      ensures var kept := old(writeBuf.Contents()) + old(Added(iov, mem));
              var n := if old(BreaksOff(iov)) then 0 else Clamp(written, kept);
              passed == old(passed) + kept[..n] && writeBuf.Contents() == kept[n..]
      ensures var kept := old(writeBuf.Contents()) + old(Added(iov, mem));
              if |old(writeBuf.Contents())| < 8192 && !DecodableIov(iov) then
                passed == old(passed) && writeBuf.Contents() == kept
              else
                && (written <= 0 ==> passed == old(passed) && writeBuf.Contents() == kept)
                && (0 <= written <= |kept| ==> |passed| == |old(passed)| + written)
                && (written > |kept| ==> writeBuf.Contents() == [])
      ensures |old(writeBuf.Contents())| < 8192 ==> decoded == old(decoded) + DecodeIov(iov) && total == Counted(iov)
      ensures |old(writeBuf.Contents())| >= 8192 ==> decoded == old(decoded) && total == 0
      ensures old(Conserves()) ==> (Conserves() <==> AllFit(1, old(writeBuf.Space()), mem, |old(Taken(iov))|))
    {
      ghost var was, taken, room := decoded, Taken(iov), writeBuf.Space();
      ghost var kept := writeBuf.Contents() + Added(iov, mem);
      ghost var conserves := Conserves();
      Reassociate(passed, writeBuf.Contents(), Added(iov, mem));
      SurvivorsAll(taken, 1, room, mem);
      var ok;
      ok, total := Offer(iov, mem);
      if ok {
        PopAnswered(writeBuf, written, kept);
        MovesOver(passed, kept, Clamp(written, kept));
        passed := passed + kept[..Clamp(written, kept)];
      }
      assert passed + writeBuf.Contents() == old(passed) + kept;
    }
  }

  // ---------------------------------------------------------------- both hooks on one connection

  /** updatetcpout1 runs first and its next stage is updatetcpout2. */
  class Pipeline {
    const encoder: Encoder
    const decoder: Decoder
    ghost var pending: seq<Byte>  // input bytes whose encoding the encoder still keeps

    /** The encoder keeps the encoding of what is pending. */
    ghost predicate Filled()
      reads this, encoder, encoder.writeBuf, encoder.writeBuf.buf
    {
      encoder.Valid() && encoder.writeBuf.Contents() == Encode(pending)
    }

    ghost predicate Valid()
      reads this, encoder, decoder, encoder.writeBuf, decoder.writeBuf, encoder.writeBuf.buf, decoder.writeBuf.buf
    {
      && Filled() && decoder.Valid()
      && encoder.writeBuf != decoder.writeBuf
      && encoder.writeBuf.buf != decoder.writeBuf.buf
    }

    /** End to end nothing is lost, doubled or reordered: what left the pipeline, what the decoder keeps and what the
        encoder keeps is, in that order, all the input that was accepted. */
    ghost predicate EndToEnd()
      requires Valid()
      reads this, encoder, decoder, encoder.writeBuf, decoder.writeBuf, encoder.writeBuf.buf, decoder.writeBuf.buf
    {
      decoder.passed + decoder.writeBuf.Contents() + pending == encoder.accepted
    }

    constructor ()
      ensures Valid() && EndToEnd() && fresh(encoder) && fresh(decoder)
      ensures fresh(encoder.writeBuf) && fresh(encoder.writeBuf.buf)
      ensures fresh(decoder.writeBuf) && fresh(decoder.writeBuf.buf)
    {
      encoder := new Encoder(true);
      decoder := new Decoder(true);
      pending := [];
    }

    /** The encoder's half: take the input and line it up; what finds no room and no memory is lost. */
    method Take(iov: seq<seq<Byte>>, mem: nat -> bool) returns (total: int)
      requires Valid()
      modifies this`pending, encoder`accepted, encoder.writeBuf, encoder.writeBuf.buf
      ensures Valid() && fresh(encoder.writeBuf.buf)
      ensures total == |old(encoder.Taken(iov))|
      ensures encoder.accepted == old(encoder.accepted) + old(encoder.Taken(iov))
      ensures pending == old(Arrived(iov, mem))
      ensures encoder.writeBuf.head == 0 && encoder.writeBuf.end == |encoder.writeBuf.Contents()|
    {
      ghost var arrived := Arrived(iov, mem);
      EncodeAppend(pending, Survivors(encoder.Taken(iov), 3, encoder.writeBuf.Space(), mem));
      total := encoder.Offer(iov, mem);
      pending := arrived;
    }

    /** The input pending once a call has taken its own. */
    ghost function Arrived(iov: seq<seq<Byte>>, mem: nat -> bool): seq<Byte>
      requires encoder.Valid()
      reads this, encoder, encoder.writeBuf, encoder.writeBuf.buf
    {
      pending + Survivors(encoder.Taken(iov), 3, encoder.writeBuf.Space(), mem)
    }

    /** What is handed to the decoder when this much has arrived: everything, unless its buffer is at its limit. */
    ghost function Handed(arrived: seq<Byte>): seq<Byte>
      requires decoder.Valid()
      reads this, decoder, decoder.writeBuf, decoder.writeBuf.buf
    {
      if decoder.Accepts() then arrived else []
    }

    /** What the decoder then has: what it kept, and what it is handed and finds room or memory for. */
    ghost function Kept(arrived: seq<Byte>, mem: nat -> bool): seq<Byte>
      requires decoder.Valid()
      reads this, decoder, decoder.writeBuf, decoder.writeBuf.buf
    {
      decoder.writeBuf.Contents() + Survivors(Handed(arrived), 1, decoder.writeBuf.Space(), mem)
    }

    /** Of kept, as much as answered left the pipeline behind what had left it before, and the decoder keeps the rest. */
    ghost predicate Released(before: seq<Byte>, kept: seq<Byte>, written: int)
      requires decoder.Valid()
      reads decoder, decoder.writeBuf, decoder.writeBuf.buf
    {
      var n := Clamp(written, kept);
      decoder.passed == before + kept[..n] && decoder.writeBuf.Contents() == kept[n..]
    }

    /** Handing over: the decoder reports twice what it took, and the encoder's buffer still ends up empty, because
        popfront removes no more than it holds; when the decoder takes nothing it reports nothing. */
    method HandOver(mem: nat -> bool, written: int)
      requires Valid()
      requires encoder.writeBuf.head == 0 && encoder.writeBuf.end == |encoder.writeBuf.Contents()|
      modifies this`pending, encoder`passed, decoder, encoder.writeBuf`head, encoder.writeBuf`end
      modifies decoder.writeBuf, decoder.writeBuf.buf
      ensures Valid() && pending == old(pending)[|old(Handed(pending))|..]
      ensures Released(old(decoder.passed), old(Kept(pending, mem)), written)
    {
      ghost var handed := Handed(pending);
      var data := encoder.writeBuf.Whole();
      var answer := PassOn(data, mem, written);
      Empty(answer, handed, decoder.writeBuf.buf);
    }

    /** The encoder's call of its next stage. */
    method PassOn(data: seq<Byte>, mem: nat -> bool, written: int) returns (answer: int)
      requires Valid() && data == Encode(pending)
      modifies decoder, decoder.writeBuf, decoder.writeBuf.buf
      ensures Valid() && (decoder.writeBuf.buf == old(decoder.writeBuf.buf) || fresh(decoder.writeBuf.buf))
      ensures data[Clamp(answer, data)..] == Encode(pending[|old(Handed(pending))|..])
      ensures Released(old(decoder.passed), old(Kept(pending, mem)), written)
    {
      DecodesBack(pending, data);
      answer := decoder.L4Send([data], mem, written);
    }

    /** The encoder's buffer after its next stage answered. */
    method Empty(answer: int, ghost handed: seq<Byte>, ghost other: array<Byte>)
      requires Filled() && |handed| <= |pending| && encoder.writeBuf.buf != other
      requires Encode(pending)[Clamp(answer, Encode(pending))..] == Encode(pending[|handed|..])
      modifies this`pending, encoder`passed, encoder.writeBuf`head, encoder.writeBuf`end
      ensures Filled() && pending == old(pending)[|handed|..] && encoder.writeBuf.buf != other
    {
      var hasData := encoder.Settle(answer);
      pending := pending[|handed|..];
    }

    /** One write through both hooks; written is the answer of whatever comes after the decoder, mem and memOut tell
        which appends of the encoder and of the decoder can get memory. Of what the decoder kept and what reaches it
        now, exactly as much as answered leaves the pipeline. Nothing is lost if and only if every append finds room or
        memory. */
    method Send(iov: seq<seq<Byte>>, mem: nat -> bool, memOut: nat -> bool, written: int) returns (total: int)
      requires Valid()
      modifies this, encoder, decoder, encoder.writeBuf, decoder.writeBuf, encoder.writeBuf.buf, decoder.writeBuf.buf
      ensures Valid()
      ensures total == |old(encoder.Taken(iov))|
      ensures encoder.accepted == old(encoder.accepted) + old(encoder.Taken(iov))
      ensures Released(old(decoder.passed), old(Kept(Arrived(iov, mem), memOut)), written)
      ensures old(Handed(Arrived(iov, mem))) + pending == old(Arrived(iov, mem))
      ensures var kept := old(Kept(Arrived(iov, mem), memOut));
              && (written <= 0 ==> decoder.passed == old(decoder.passed) && decoder.writeBuf.Contents() == kept)
              && (0 <= written <= |kept| ==> |decoder.passed| == |old(decoder.passed)| + written)
              && (written > |kept| ==> decoder.writeBuf.Contents() == [])
      ensures pending == if |old(decoder.writeBuf.Contents())| < 8192 then [] else old(Arrived(iov, mem))
      ensures old(EndToEnd()) ==>
                (EndToEnd() <==> && AllFit(3, old(encoder.writeBuf.Space()), mem, total)
                                 && AllFit(1, old(decoder.writeBuf.Space()), memOut, |old(Handed(Arrived(iov, mem)))|))
    {
      ghost var before, kept := decoder.passed, Kept(Arrived(iov, mem), memOut);
      total := Relay(iov, mem, memOut, written);
      ClampedParts(before, kept, written);
    }

    /** The two halves. */
    method Relay(iov: seq<seq<Byte>>, mem: nat -> bool, memOut: nat -> bool, written: int) returns (total: int)
      requires Valid()
      modifies this, encoder, decoder, encoder.writeBuf, decoder.writeBuf, encoder.writeBuf.buf, decoder.writeBuf.buf
      ensures Valid()
      ensures total == |old(encoder.Taken(iov))|
      ensures encoder.accepted == old(encoder.accepted) + old(encoder.Taken(iov))
      ensures Released(old(decoder.passed), old(Kept(Arrived(iov, mem), memOut)), written)
      ensures old(Handed(Arrived(iov, mem))) + pending == old(Arrived(iov, mem))
      ensures old(EndToEnd()) ==>
                (EndToEnd() <==> && AllFit(3, old(encoder.writeBuf.Space()), mem, total)
                                 && AllFit(1, old(decoder.writeBuf.Space()), memOut, |old(Handed(Arrived(iov, mem)))|))
    {
      ghost var taken, roomIn, roomOut := encoder.Taken(iov), encoder.writeBuf.Space(), decoder.writeBuf.Space();
      ghost var arrived := Arrived(iov, mem);
      ghost var handed, kept := Handed(arrived), Kept(arrived, memOut);
      total := Take(iov, mem);
      assert Handed(pending) == handed && Kept(pending, memOut) == kept;
      HandOver(memOut, written);
      MovesOver(old(decoder.passed), kept, Clamp(written, kept));
      AllThereIffAllFit(old(decoder.passed), old(decoder.writeBuf.Contents()), old(pending), old(encoder.accepted), taken,
                        roomIn, mem, handed, roomOut, memOut, pending);
    }
  }

  /** End to end, counting bytes: everything is there if and only if neither hook lost a byte. */
  lemma AllThereIffAllFit(passed: seq<Byte>, held: seq<Byte>, pending: seq<Byte>, accepted: seq<Byte>, taken: seq<Byte>,
                          roomIn: Room, mem: nat -> bool, handed: seq<Byte>, roomOut: Room, memOut: nat -> bool,
                          rest: seq<Byte>)
    requires handed + rest == pending + Survivors(taken, 3, roomIn, mem)
    ensures passed + held + pending == accepted ==>
              (passed + (held + Survivors(handed, 1, roomOut, memOut)) + rest == accepted + taken <==>
               AllFit(3, roomIn, mem, |taken|) && AllFit(1, roomOut, memOut, |handed|))
  {
    SurvivorsAll(taken, 3, roomIn, mem);
    SurvivorsAll(handed, 1, roomOut, memOut);
    AllThere(passed, held, pending, taken, Survivors(taken, 3, roomIn, mem), handed, Survivors(handed, 1, roomOut, memOut),
             rest);
  }

  /** The same on the bytes alone. */
  lemma AllThere(passed: seq<Byte>, held: seq<Byte>, pending: seq<Byte>, taken: seq<Byte>, stored: seq<Byte>,
                 handed: seq<Byte>, arrived: seq<Byte>, rest: seq<Byte>)
    requires handed + rest == pending + stored
    requires stored == taken || |stored| < |taken|
    requires arrived == handed || |arrived| < |handed|
    ensures passed + (held + arrived) + rest == passed + held + pending + taken <==> stored == taken && arrived == handed
  {
    assert |handed| + |rest| == |pending| + |stored|;
    if stored == taken && arrived == handed {
      Reassociate(passed, held, handed);
      Reassociate(passed + held, handed, rest);
      Reassociate(passed + held, pending, taken);
    } else {
      assert |arrived| + |rest| < |pending| + |taken|;
      assert |passed + (held + arrived) + rest| < |passed + held + pending + taken|;
    }
  }

  lemma DecodesBack(s: seq<Byte>, data: seq<Byte>)
    requires data == Encode(s)
    ensures Aligned([data]) && DecodableIov([data]) && DecodeIov([data]) == s && Counted([data]) == 2 * |data|
  {
    RoundTrip(s);
    assert Joined([data]) == data;
    RoundTripAnySplit(s, [data]);
    CountedTwice([data]);
  }
}
