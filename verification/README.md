# OpenLiteSpeed: verified models of the shared-memory primitives and stream handlers

This project models the parts of OpenLiteSpeed in which a small amount of code carries a hard argument, and proves what
that code promises for every input, every interleaving and every run:

- the two futex locks of `include/lsr/ls_lock.h`, as step relations over any number of threads and processes;
- the shared session list of the `mtpostmt` handler, pointer by pointer, under every interleaving of its callbacks;
- the intrusive doubly linked queue, the ring buffer, the pointer list and the object pool of the `lsr` library;
- the stream handlers `mtaltreadwrite`, `updatetcpout1`, `updatetcpout2`, `mtpostmt2` and `mteventseq`;
- the bounded string functions of `include/lsdef.h`.

| file | what it models |
|---|---|
| `FutexMutex.dfy` | three-state adaptive futex mutex: mutual exclusion, no lost wake-up, every call completes |
| `SafeFutex.dfy` | crash-tolerant mutex between processes: exclusion, single rescue, waiter bit, recovery of every waiter |
| `SessionList.dfy` | spinlock-protected linked list of sessions over an explicit heap |
| `DLinkQueue.dfy` | sentinel ring of links, refined to a sequence |
| `LoopBuffer.dfy` | growing ring buffer, refined to a sequence |
| `EscapeStream.dfy` | `=XX` encoder and decoder over the ring buffer, alone and chained |
| `StreamAdapter.dfy` | two-cursor adapter between a read size and a write size |
| `BlockCheck.dfy` | numbered-block receiver and sender |
| `ObjectPool.dfy` | pointer list and object pool |
| `BoundedString.dfy` | bounded copy and concatenation |
| `EventSequence.dfy` | in-order event consumer |
| `Bytes.dfy`, `Sequences.dfy`, `Ranking.dfy` | shared: bytes and `memmove`, removal from sequences, termination ranks |

## How the code is modelled

Concurrent code is a transition system: a state, an `Enabled` predicate and a function `Do` that performs one atomic
step of one thread. A run is any sequence of enabled actions, so a lemma about all runs covers all interleavings. Atomics
are sequentially consistent. Sequential code that changes memory is a class or an array method with its loops; each
states its new contents as a function of the old. The answers of the server (short reads, short writes, errors) and of
the memory allocator are parameters; where a loop of the source can wait for the server for ever, the answers come in a
script, and the contract says which answers a run has used and which of them ended it. The main loop of
`mtaltreadwrite.c` is also studied for requests with infinitely many answers, because whether it ends is the question.

## Where the code and its promise part

- `ls_futex_safe_lock`: a sleeper can be left without waiter bit, pending wake or awake contender when the process that
  would have woken it crashes at the wrong moment. `SafeFutex.RunsStayCovered` gives the exact condition over whole runs,
  `SafeFutex.StrandedSleeper` a run, and `SafeFutex.FairRunsServe` shows that the one-second time-out repairs it: once
  crashes and new calls stop and no live thread keeps the lock for ever, every live caller is served.
- `mtaltreadwrite.c` with equal read and write size: one partial read or write while bytes are still missing wedges the
  loop for ever, because the buffer then has room for neither. `StreamAdapter.EndsUnlessWedged` is the exact condition
  for the loop to end, for all sizes, and `StreamAdapter.WedgedExample` a request for which it does not: pieces of four,
  eight bytes to come, a first read of three.
- `mtpostmt2.c`: `recvThread` reports success when the body ends early. `BlockCheck.EarlyEnd` is the exact condition
  (the run ended on a call that delivered nothing), `BlockCheck.EarlyEndExample` a call: blocks of eight,
  sixteen bytes announced, three delivered, success with nothing compared.
- `ls_loopbuf_getnumseg` reports two segments for an empty buffer and `ls_loopbuf_insiov` then refuses it
  (`LoopBuffer.InsIovMatches`); `ls_loopbuf_unsafeapp` on a full buffer loses all content (`LoopBuffer.LoopBuf.UnsafeApp`).
- `updatetcpout1.c` and `updatetcpout2.c` ignore the result of `ls_loopbuf_append`: a byte that finds neither room nor
  memory is counted as taken and lost. `EscapeStream.Encoder.L4Send` and `EscapeStream.Decoder.L4Send` keep their
  conservation laws, and `EscapeStream.Pipeline.Send` the one of both together, if and only if every append fits, which
  the capacity, the bytes held and the memory to be had decide before the call; `EscapeStream.LostByteExample` is a call
  that loses a byte.
- `updatetcpout2.c` returns twice the number of bytes it took. Behind `updatetcpout1.c` this is harmless, because
  `ls_loopbuf_popfront` removes no more than there is (`EscapeStream.Pipeline.HandOver`).

## Model

| member | source | states |
|---|---|---|
| FutexMutex.StepExclusive | include/lsr/ls_lock.h:259-294 | every step of lock, trylock and unlock keeps: at most one thread is between its acquire and its release exchange, the word is nonzero exactly while one is, and the unlock assertion has not failed |
| FutexMutex.StepNoLostWake | include/lsr/ls_lock.h:278-290 | every step keeps: while a thread sleeps, the word is LOCKED2, an unlocker still owes its wake, or a thread is awake in the slow loop |
| FutexMutex.RunsAreSafe | include/lsr/ls_lock.h:259-430 | both invariants hold after every run from a safe state |
| FutexMutex.ReachableIsSafe | include/lsr/ls_lock.h:404-430 | both invariants hold in every state reachable by n threads mixing lock, trylock and unlock |
| FutexMutex.StuckOnlyWhenDone | include/lsr/ls_lock.h:278-290 | deadlock freedom: a safe state in which no thread can move has a free lock and no call in progress |
| FutexMutex.DrainDescends | include/lsr/ls_lock.h:265-289 | every step other than a new call or an interrupted wait lowers a five-part rank |
| FutexMutex.DrainCompletes | include/lsr/ls_lock.h:424-430 | once no new calls arrive and no wait is interrupted, every run under every scheduler, fair or not, reaches the state in which all calls have returned and the lock is free |
| FutexMutex.DrainingRunExists | include/lsr/ls_lock.h:259-294 | the runs of the previous row exist from every state |
| FutexMutex.InterruptedDrainCompletes | include/lsr/ls_lock.h:278-290 | with waits interrupted early and as often as they like, every run without new calls in which nobody keeps the lock for ever reaches that state too |
| FutexMutex.NeverRises | include/lsr/ls_lock.h:259-294 | no step, an interrupted wait included, raises the first three parts of the rank, and the release exchange lowers them |
| FutexMutex.DrainingIsOngoing | include/lsr/ls_lock.h:259-294 | the runs of DrainCompletes are among those of InterruptedDrainCompletes |
| FutexMutex.SomeoneAcquires | include/lsr/ls_lock.h:259-294 | with lock and trylock calls arriving all the time and waits interrupted at will, if nobody keeps the lock for ever, then whenever a thread contends some thread acquires the lock later |
| FutexMutex.FreeStepDescends | include/lsr/ls_lock.h:265-289 | a step that leaves the lock free, a new call included, lowers a rank and lets no contender go |
| FutexMutex.BusyRunExists | include/lsr/ls_lock.h:259-294 | such runs exist from every safe state |
| FutexMutex.LockContends | include/lsr/ls_lock.h:259-277 | a call of lock begins to contend, whatever the word is, and changes nothing else |
| FutexMutex.CallGoesOn | include/lsr/ls_lock.h:265-293 | a lock call that has begun goes on until it owns the lock, whatever any thread does |
| FutexMutex.LockReturnsToOwner | include/lsr/ls_lock.h:259-294 | over runs: a thread that has called lock and no longer contends has owned the lock since that call |
| FutexMutex.TryLockDecides | include/lsr/ls_lock.h:404-412 | trylock owns the lock afterwards if and only if the word was 0; otherwise nothing changed and it does not wait |
| FutexMutex.UnlockReleases | include/lsr/ls_lock.h:424-430 | unlock keeps the lock until its exchange, which leaves the word 0; with waiters it wakes one sleeper, if any sleeps, and no other |
| FutexMutex.SpinsTenTimes | include/lsr/ls_lock.h:265-275 | ten tries in the adaptive loop while the lock is held without waiters, and none more when there are some |
| SafeFutex.WordBits | include/lsr/ls_lock.h:296-297 | comparing, masking and flag test on the 32-bit word agree with the abstract owner and waiter bit |
| SafeFutex.StepWellFormed | include/lsr/ls_lock.h:326-356 | with crashes at any step the unlock assertion does not fail, and a takeover is attempted only for an owner found dead |
| SafeFutex.LockEffect | include/lsr/ls_lock.h:311-390 | a step acquires only a lock no live process owns and writes its own pid, releases only its own, or changes neither owner nor holder |
| SafeFutex.StepExclusive | include/lsr/ls_lock.h:311-366 | with crashes at any step, at most one live thread holds, and the word names a live process exactly while one of its threads holds |
| SafeFutex.StepRescuedOnce | include/lsr/ls_lock.h:326-329 | a dead owner's lock is taken over at most once, and the rescuer is the one told its pid |
| SafeFutex.RunsAreSafe | include/lsr/ls_lock.h:311-390 | exclusion, single rescue and no failed unlock assertion after every run with any crashes |
| SafeFutex.ReachableIsSafe | include/lsr/ls_lock.h:311-390 | the same in every state reachable from the free lock |
| SafeFutex.StepCovered | include/lsr/ls_lock.h:330-335 | every step, takeovers included, keeps a sleeper covered by the waiter bit, a pending wake or an awake contender if and only if it is not a stranding crash |
| SafeFutex.RunsStayCovered | include/lsr/ls_lock.h:324-366 | over whole runs with any crashes the sleepers are covered all along if and only if no crash of the run strands one: no waiter bit, another process asleep, and nobody else awake in the slow path |
| SafeFutex.HolderCrashesAreHarmless | include/lsr/ls_lock.h:324-366 | in particular the sleepers stay covered when processes crash only while holding, sleeping or outside the slow path |
| SafeFutex.StrandedSleeper | include/lsr/ls_lock.h:352-366 | a run in which a crash between exchange and wake leaves a sleeper on a free lock |
| SafeFutex.Rescue | include/lsr/ls_lock.h:314-335 | from every reachable state a live contender running alone gets a free or orphaned lock within eight steps and is told the dead owner |
| SafeFutex.StuckOnlyWhenServed | include/lsr/ls_lock.h:324-366 | a state in which nobody can proceed, not even by time-out, has every live caller served and no live owner |
| SafeFutex.ProceedDescends | include/lsr/ls_lock.h:311-366 | every step lowers a five-part rank; a time-out that nobody could have preceded happens only on a lock no live process owns |
| SafeFutex.EveryWaiterServed | include/lsr/ls_lock.h:311-366 | recovery under every scheduler that fires a time-out only when nothing else can move: whatever crashed before, every run without new calls and crashes ends with every live caller served |
| SafeFutex.SettlingRunExists | include/lsr/ls_lock.h:311-366 | the runs of the previous row exist from every state |
| SafeFutex.FairRunsServe | include/lsr/ls_lock.h:311-366 | recovery with early time-outs, repeated while others could move: every run without new calls and crashes in which no live thread keeps the lock for ever ends with every live caller served |
| SafeFutex.NeverRises | include/lsr/ls_lock.h:311-366 | no step, an early time-out included, raises the first three parts of the rank, and unlocking lowers them |
| SafeFutex.SettlingIsOngoing | include/lsr/ls_lock.h:311-366 | the runs of EveryWaiterServed are among those of FairRunsServe |
| SafeFutex.SomeoneAcquires | include/lsr/ls_lock.h:311-366 | with calls arriving, waits timing out and processes crashing all the time, if no live thread keeps the lock for ever, then whenever a thread contends some live thread acquires the lock later, unless the contender's own process crashes |
| SafeFutex.FreeStepDescends | include/lsr/ls_lock.h:311-366 | on a lock no live process owns, a step by which nobody gets it lowers a rank, new calls and crashes included |
| SafeFutex.BusyRunExists | include/lsr/ls_lock.h:311-366 | such runs exist from every safe state |
| SafeFutex.LockContends | include/lsr/ls_lock.h:311-323 | a call of lock begins to contend, whoever owns the word, and changes nothing else |
| SafeFutex.CallGoesOn | include/lsr/ls_lock.h:324-337 | a lock call that has begun goes on until it holds the lock, whatever any thread does |
| SafeFutex.LockReturnsToHolder | include/lsr/ls_lock.h:311-340 | over runs with crashes: a thread that has called lock and no longer contends has held the lock since that call |
| SafeFutex.LockTellsOwner | include/lsr/ls_lock.h:318-329 | lock returns 0 for a free lock and the dead owner's pid for one taken over, and only a dead owner's is |
| SafeFutex.TryLockDecides | include/lsr/ls_lock.h:380-390 | trylock holds the lock afterwards if and only if the word was 0; otherwise nothing changed, be the owner alive or dead |
| SafeFutex.UnlockReleases | include/lsr/ls_lock.h:352-366 | unlock leaves the word 0; with the waiter bit set it wakes one sleeper, if any live one sleeps, and no other |
| SessionList.LockDiscipline | addon/example/mtpostmt.c:31-33 | a callback enters only by setting a clear lock, leaves only by clearing it; none takes it twice or returns holding it |
| SessionList.StepExclusive | addon/example/mtpostmt.c:31-33 | the lock is set exactly while one thread is inside |
| SessionList.PrependedGood | addon/example/mtpostmt.c:158-161 | inserting puts the node in front of an intact list |
| SessionList.FreeWalkGood | addon/example/mtpostmt.c:78-96 | the walk of session_listFree always finds its node ahead and stays on allocated nodes |
| SessionList.RootUnlinkedGood | addon/example/mtpostmt.c:73-77 | unlinking the head keeps the others in order |
| SessionList.UnlinkedGood | addon/example/mtpostmt.c:81-91 | unlinking an inner node takes out that node only and keeps the others in order |
| SessionList.ReleasedGood | addon/example/mtpostmt.c:101-106 | freeing touches a node no other callback and no list link refers to |
| SessionList.FindResult | addon/example/mtpostmt.c:44-58 | session_listFind returns the first node of the session, or NULL exactly when there is none |
| SessionList.StepInv | addon/example/mtpostmt.c:125-223 | every step of every callback keeps the list, the lock and the ownership of nodes |
| SessionList.RunsAreSafe | addon/example/mtpostmt.c:44-223 | after every interleaving the list is acyclic and spells the nodes published and not unlinked, no freed memory is touched, nothing leaks |
| SessionList.ReachableIsSafe | addon/example/mtpostmt.c:44-223 | in every state reachable from the empty list it is acyclic, at most one thread is inside the lock, no callback touched freed memory or missed its node, and a session whose callback is over has left no node outside the list |
| SessionList.ProcessReqPublishes | addon/example/mtpostmt.c:143-161 | process_req puts its new node at the head of the list and then works on it |
| SessionList.ReadBodyFinds | addon/example/mtpostmt.c:188-202 | read_req_body works on the first node of its session, if and only if the list holds one when it is called; otherwise it returns |
| SessionList.FinishDisposes | addon/example/mtpostmt.c:64-107 | when the callback that finishes with a node is over, the node is neither linked nor allocated for the session any more |
| SessionList.CheckDoneCompares | addon/example/mtpostmt.c:214-216 | after its last read the callback comes to compare, under the lock, with its own node |
| SessionList.ComparingDecides | addon/example/mtpostmt.c:214-223 | when the callback is over the node is gone if at least the content length was received, and in the list otherwise |
| SessionList.GoBackKeeps | addon/example/mtpostmt.c:183-184 | a callback that goes back keeps its node in the list, whatever the other sessions do while it is away |
| SessionList.ReceivedIsCounted | addon/example/mtpostmt.c:168-172 | over any run m_TotalCount grows by exactly what its session reads, however the callbacks interleave |
| DLinkQueue.DLink.AddNext | include/lsr/ls_link.h:346-355 | all pointer writes of addnext, self-loops included; every other field of every link stays |
| DLinkQueue.DLink.AddPrev | include/lsr/ls_link.h:391-401 | all pointer writes of addprev; every other field of every link stays |
| DLinkQueue.DLink.Remove | include/lsr/ls_link.h:435-444 | neighbours connected, link zeroed; the neighbours keep their other link and their payload |
| DLinkQueue.DLink.Cut | include/lsr/ls_link.h:435-444 | the rest of a linked stretch stays linked |
| DLinkQueue.DLink.Extend | include/lsr/ls_link.h:346-355 | the stretch with the new link behind this one is linked |
| DLinkQueue.DLink.Precede | include/lsr/ls_link.h:391-401 | the stretch with the new link before this one is linked |
| DLinkQueue.DLink.RemoveNext | include/lsr/ls_link.h:366-379 | successor taken out and zeroed; the links that stay keep their payload |
| DLinkQueue.DLinkQ.constructor | include/lsr/ls_dlinkq.h:229-233 | an empty ring |
| DLinkQueue.DLinkQ.Size | include/lsr/ls_dlinkq.h:294-295 | m_iTotal is the number of links in the ring |
| DLinkQueue.DLinkQ.Empty | include/lsr/ls_dlinkq.h:306-307 | the sentinel points to itself exactly when there are no links |
| DLinkQueue.DLinkQ.Append | include/lsr/ls_dlinkq.h:318-322 | ring of the old sequence plus the link at its end; all payloads stay |
| DLinkQueue.DLinkQ.PushFront | include/lsr/ls_dlinkq.h:333-337 | ring of the link followed by the old sequence; all payloads stay |
| DLinkQueue.DLinkQ.Remove | include/lsr/ls_dlinkq.h:348-356 | ring of the sequence without the link; a zeroed link is a no-op; all other payloads stay |
| DLinkQueue.DLinkQ.PopFront | include/lsr/ls_dlinkq.h:368-377 | first link taken out and zeroed, or NULL on an empty ring with the assertion holding; all other payloads stay |
| DLinkQueue.Run | include/lsr/ls_dlinkq.h:318-377 | every run of the four operations does to the ring what it does to a plain sequence; the links taken out have lost their payload and all others keep it |
| DLinkQueue.Fifo | include/lsr/ls_dlinkq.h:318-377 | appended links are popped in the order they came |
| DLinkQueue.Lifo | include/lsr/ls_dlinkq.h:333-377 | links pushed in front come out in the opposite order |
| DLinkQueue.Conserved | include/lsr/ls_dlinkq.h:318-377 | over any run, what was queued and inserted is what is queued, popped and removed |
| LoopBuffer.PtrOffset | include/lsr/ls_loopbuf.h:448-469 | getptr and getoffset are inverse for every head position; a pointer outside the buffer has offset -1 |
| LoopBuffer.IncPtr | include/lsr/ls_loopbuf.h:505-511 | inc moves from offset i to offset i + 1 around the end |
| LoopBuffer.ReadBack | include/lsr/ls_loopbuf.h:388-453 | getptr of 0 .. size - 1 reads the content, and size is at most sizemax - 1 |
| LoopBuffer.Segments | include/lsr/ls_loopbuf.h:375-394 | front block and wrapped rest are the content; one segment means the block is all of it |
| LoopBuffer.InsIovMatches | src/lsr/ls_loopbuf.c:301-322 | insiov with getnumseg segments describes the content, if and only if the buffer is not empty; an empty one reports two segments |
| LoopBuffer.LoopBuf.constructor | src/lsr/ls_loopbuf.c:106-113 | an empty buffer of the size asked for rounded up, or without storage when the allocation fails |
| LoopBuffer.RoundedIsLeast | src/lsr/ls_loopbuf.c:57 | what is allocated is the least multiple of 64 above the size |
| LoopBuffer.LoopBuf.Size | include/lsr/ls_loopbuf.h:388-394 | the size is the length of the content |
| LoopBuffer.LoopBuf.Empty | include/lsr/ls_loopbuf.h:411-412 | true exactly when there is no content |
| LoopBuffer.LoopBuf.Full | include/lsr/ls_loopbuf.h:420-421 | true exactly when nothing is available |
| LoopBuffer.LoopBuf.Available | src/lsr/ls_loopbuf.c:123-129 | all places but one and the content |
| LoopBuffer.LoopBuf.Clear | include/lsr/ls_loopbuf.h:477-478 | no content |
| LoopBuffer.LoopBuf.UnsafeApp | include/lsr/ls_loopbuf.h:490-495 | one byte appended and no other byte changed; a full buffer loses its content |
| LoopBuffer.LoopBuf.Used | src/lsr/ls_loopbuf.c:142-151 | the end moves by the amount, capped at what is available, and the content is extended; a negative amount moves it back and may wrap the size |
| LoopBuffer.LoopBuf.PopFront | src/lsr/ls_loopbuf.c:206-229 | at most the content is dropped from the front; a negative size is refused |
| LoopBuffer.LoopBuf.PopBack | src/lsr/ls_loopbuf.c:180-203 | at most the content is dropped from the back; a negative size is refused |
| LoopBuffer.LoopBuf.MoveTo | src/lsr/ls_loopbuf.c:154-177 | the front is copied out in order across the wrap and removed |
| LoopBuffer.LoopBuf.Reserve | src/lsr/ls_loopbuf.c:50-89 | growing to the rounded size keeps the content; a failed allocation changes nothing; asking for 0 gives the storage back and empties the buffer |
| LoopBuffer.LoopBuf.Guarantee | src/lsr/ls_loopbuf.c:491-497 | room for the bytes asked for, content kept; fails exactly without room and memory |
| LoopBuffer.LoopBuf.Append | src/lsr/ls_loopbuf.c:463-488 | content extended by the data across wrap and growth, or unchanged with LS_FAIL; it fails exactly when the bytes would fill the buffer and there is no memory, and the capacity afterwards is determined |
| LoopBuffer.LoopBuf.Straight | src/lsr/ls_loopbuf.c:390-400 | same content in one piece, in a new allocation of the rounded size |
| EscapeStream.RoundTrip | addon/example/updatetcpout1.c:96-106 | decoding the encoding of any byte sequence gives it back |
| EscapeStream.EncodedAs | addon/example/updatetcpout1.c:102 | a byte goes out as '=' and its two hexadecimal digits in upper case, the high one first |
| EscapeStream.EncodedAt | addon/example/updatetcpout1.c:96-106 | entry i of what goes out is byte i of the input |
| EscapeStream.PairRead | addon/example/updatetcpout2.c:103-104 | two hexadecimal digits, upper or lower case, are read as 16 times the high one and the low one |
| EscapeStream.SingleRead | addon/example/updatetcpout2.c:103-104 | one digit alone, behind a space or a sign, and anything else as strtol reads it |
| EscapeStream.DecodedAt | addon/example/updatetcpout2.c:100-114 | decoding goes entry by entry to the end or to the first entry that does not start with '=' |
| EscapeStream.DecodeAnySplit | addon/example/updatetcpout2.c:95-115 | cutting between triples changes neither what is decoded nor what is refused |
| EscapeStream.RoundTripAnySplit | addon/example/updatetcpout2.c:95-115 | round trip across any split into segments of whole triples |
| EscapeStream.CountedTwice | addon/example/updatetcpout2.c:97-113 | the count returned is twice the bytes given if and only if every entry is valid, and less otherwise |
| EscapeStream.CountedExactly | addon/example/updatetcpout2.c:97-113 | the count of a call that meets an invalid segment: twice what came before, the segment, and three for each entry decoded of it |
| EscapeStream.Encoder.EncodeAll | addon/example/updatetcpout1.c:96-106 | the encoding of all bytes that find room or memory is appended, in order; all bytes are counted |
| EscapeStream.Encoder.Offer | addon/example/updatetcpout1.c:93-111 | all input or none is taken; the count returned is what was taken, stored or not; exactly the bytes that find room or memory are stored |
| EscapeStream.Encoder.Settle | addon/example/updatetcpout1.c:113-121 | an error or 0 leaves the kept bytes and what was passed on as they are; an answer up to what is kept moves exactly as many bytes; a larger one empties the buffer |
| EscapeStream.Encoder.L4Send | addon/example/updatetcpout1.c:77-124 | over all calls, bytes passed on followed by the buffer are the encoding of all accepted input, if and only if every append finds room or memory; an error or 0 passes nothing on, an answer up to what is kept exactly as many bytes, a larger one all; input is taken below 8192 bytes kept |
| EscapeStream.LostByteExample | addon/example/updatetcpout1.c:103-105 | without memory one byte comes in and is counted as taken; nothing is passed on, nothing is kept, and the conservation law is broken |
| EscapeStream.BuildOne | addon/example/updatetcpout1.c:103-104 | one byte more is appended if and only if it finds room or memory |
| EscapeStream.LostIffMissing | addon/example/updatetcpout1.c:93-107 | what is passed on and kept is the encoding of everything taken if and only if every append fits |
| EscapeStream.Decoder.DecodeSegment | addon/example/updatetcpout2.c:100-114 | a segment is decoded up to its first invalid entry; three is counted for each decoded byte |
| EscapeStream.Decoder.DecodeAll | addon/example/updatetcpout2.c:95-115 | all segments are decoded up to the first invalid entry, and counted as far as that; exactly the bytes that find room or memory are stored |
| EscapeStream.Decoder.L4Send | addon/example/updatetcpout2.c:75-132 | over all calls, bytes passed on followed by the buffer are all bytes decoded, if and only if every append finds room or memory; an error or 0 passes nothing on, an answer up to what is kept exactly as many bytes, a larger one all; an invalid entry passes nothing on |
| EscapeStream.Pipeline.HandOver | addon/example/updatetcpout2.c:93-132 | chained behind the encoder, the doubled count still empties exactly what was taken, and exactly what the last stage answered leaves the decoder |
| EscapeStream.Pipeline.Send | addon/example/updatetcpout1.c:109-113 | end to end: output, decoder buffer and encoder buffer are, in order, all accepted input, if and only if every append of both hooks finds room or memory; each call releases exactly what the last stage answered and moves everything pending to a decoder below its limit |
| StreamAdapter.RoundInBounds | addon/example/mtaltreadwrite.c:236-267 | the cursors stay ordered and inside the buffer |
| StreamAdapter.Progress | addon/example/mtaltreadwrite.c:202-220 | with different sizes a full read fits or a full write is available at every loop head |
| StreamAdapter.ExactRoom | addon/example/mtaltreadwrite.c:202-220 | the buffer is just so large that a full read fits, with a byte to spare, behind less than a write's worth of data; with equal sizes just a read fits |
| StreamAdapter.EqualStuck | addon/example/mtaltreadwrite.c:202-206 | with equal sizes a round gets stuck exactly on a partial read or write |
| StreamAdapter.StuckForever | addon/example/mtaltreadwrite.c:236-271 | a stuck round changes nothing |
| StreamAdapter.EndsUnlessWedged | addon/example/mtaltreadwrite.c:234-271 | for all sizes, a server that again and again moves a byte and a content length that becomes known: the main loop goes on for ever if and only if the sizes are equal and, with no error before, some round moves part of a piece while bytes are missing |
| StreamAdapter.WedgedStays | addon/example/mtaltreadwrite.c:236-267 | from such a round on the cursors never move again |
| StreamAdapter.FreeUnlessPartial | addon/example/mtaltreadwrite.c:202-220 | every loop head has room for a read or data for a write, unless the sizes are equal and a round was partial |
| StreamAdapter.WedgedExample | addon/example/mtaltreadwrite.c:202-271 | size four, content length eight and a first read of three wedge the loop for ever |
| StreamAdapter.Throughput | addon/example/mtaltreadwrite.c:234-271 | with different sizes and a server that moves a byte each time, i rounds move at least i bytes |
| StreamAdapter.LeavesWithin | addon/example/mtaltreadwrite.c:271 | so the loop has left after 2L rounds for a content length L |
| StreamAdapter.DrainsWithin | addon/example/mtaltreadwrite.c:273-289 | what is kept is drained in as many calls as it has bytes |
| StreamAdapter.DrainTakes | addon/example/mtaltreadwrite.c:275-286 | one call of the drain loop takes what the server answers, if that is no more than the write size and what is left |
| StreamAdapter.AskedInPlainNumbers | addon/example/mtaltreadwrite.c:277-280 | every call of the drain loop asks for the write size or for what is left, whichever is smaller |
| StreamAdapter.DrainsInPieces | addon/example/mtaltreadwrite.c:275-289 | a server that takes all it is offered drains whole pieces of the write size and the rest at last |
| StreamAdapter.UnsignedWraps | addon/example/mtaltreadwrite.c:271 | a negative content length counts as its value plus 2^64 |
| StreamAdapter.Adapter.Deliver | addon/example/mtaltreadwrite.c:238-245 | a read of any length extends the kept bytes |
| StreamAdapter.Adapter.PutOut | addon/example/mtaltreadwrite.c:251-257 | a write of any length moves kept bytes to the output |
| StreamAdapter.Adapter.Compact | addon/example/mtaltreadwrite.c:261-267 | memmove keeps the kept bytes and their order |
| StreamAdapter.Adapter.OneRound | addon/example/mtaltreadwrite.c:234-267 | one round: output followed by kept bytes is the input; cursors as in the cursor model; failure exactly on an error answer |
| StreamAdapter.Adapter.Drain | addon/example/mtaltreadwrite.c:273-289 | the drain loop asks in every call for the smaller of the write size and what is left, puts out exactly what the answers it uses take, and ends with everything put out, at the first error, or with all answers used |
| StreamAdapter.Adapter.MakeRound | addon/example/mtaltreadwrite.c:234-267 | a round takes the handler from the head of round i to the head of round i + 1, or fails exactly on an error answered to a call it makes |
| StreamAdapter.Adapter.MainLoop | addon/example/mtaltreadwrite.c:233-271 | makes every round up to its exit, the first error or the end of patience, and reads exactly what those rounds deliver |
| StreamAdapter.Adapter.ProcessReq | addon/example/mtaltreadwrite.c:233-289 | which rounds and drain calls are made, what was read and how much was put out, for every server; completion means exactly what was read was put out, and at least the content length; with different sizes and a server that moves a byte each time it completes |
| BlockCheck.NextBlock | addon/example/mtpostmt2.c:520-535 | after whole blocks a piece continues the pattern if and only if it is the next block |
| BlockCheck.PaddedReads | addon/example/mtpostmt2.c:513-514 | the number of a block is written in digits, exactly eight below 10^8, that read as the number |
| BlockCheck.BlockInPlainWords | addon/example/mtpostmt2.c:363-385 | number in the first eight bytes, letters from A or a behind, zeros in a block the sender finds too short |
| BlockCheck.BlocksAreNumbered | addon/example/mtpostmt2.c:511-520 | what follows the pattern numbers its whole blocks 1, 2, 3, ... in this order |
| BlockCheck.FillLetters | addon/example/mtpostmt2.c:478-480 | the buffer holds the letters of the pattern |
| BlockCheck.Receiver.ReadBlock | addon/example/mtpostmt2.c:491-514 | a block is assembled in order however it is delivered; otherwise the last call made says why not |
| BlockCheck.Receiver.Matches | addon/example/mtpostmt2.c:520-528 | the comparison is with exactly the next numbered block |
| BlockCheck.Receiver.OneBlock | addon/example/mtpostmt2.c:481-540 | one more block counted with the match kept, or the verdict the calls made determine |
| BlockCheck.Receiver.RecvThread | addon/example/mtpostmt2.c:477-545 | the verdict is what the calls made determine; success before the end exactly when the last call delivered nothing; for a body that is there and delivered in whatever pieces, success if and only if it follows the pattern, and failure if a whole block carries a wrong number |
| BlockCheck.VerdictIsRight | addon/example/mtpostmt2.c:477-545 | success if and only if the whole body follows the pattern, when the server delivers all of it |
| BlockCheck.MisnumberedIsRefused | addon/example/mtpostmt2.c:520-535 | a body whose blocks are out of order, or numbered wrong in any other way, is refused |
| BlockCheck.EarlyEnd | addon/example/mtpostmt2.c:499-506 | success with bytes not compared if and only if the run ended on a call that delivered nothing |
| BlockCheck.EarlyEndExample | addon/example/mtpostmt2.c:499-506 | a receiver of three bytes and then nothing, of sixteen announced, ends in success after two calls with nothing compared |
| BlockCheck.PositionGrows | addon/example/mtpostmt2.c:491-498 | as long as calls deliver something, i calls deliver i bytes |
| BlockCheck.BlockContinues | addon/example/mtpostmt2.c:520-535 | a complete block is the expected one if and only if the body follows the pattern up to its end |
| BlockCheck.Sender.Number | addon/example/mtpostmt2.c:379-384 | the buffer front becomes the block |
| BlockCheck.Sender.OneBlock | addon/example/mtpostmt2.c:367-393 | exactly the next block sent, or nothing on an error |
| BlockCheck.Sender.SendThread | addon/example/mtpostmt2.c:363-402 | terminates; what is sent follows the pattern and numbers its whole blocks 1, 2, 3, ...; it fails exactly at the first block that cannot be sent, with all blocks before it sent, and otherwise sends exactly the content length |
| ObjectPool.StepConserves | include/lsr/ls_ptrlist.h:281-403 | one push, pop or erase neither loses nor invents an element |
| ObjectPool.RunConserves | include/lsr/ls_ptrlist.h:281-403 | the same over any run, as multisets |
| ObjectPool.PopFrontKeepsOrder | include/lsr/ls_ptrlist.h:388-403 | popped piece followed by the rest is the list |
| ObjectPool.PtrList.Reserve | src/lsr/ls_ptrlist.c:85-101 | reallocation keeps the elements; a capacity below the size cuts them off and leaves the end behind the storage |
| ObjectPool.PtrList.UnsafePushBack | include/lsr/ls_ptrlist.h:302-304 | element appended |
| ObjectPool.PtrList.PushBack | src/lsr/ls_ptrlist.c:120-132 | element appended with growth, or nothing changed on failure |
| ObjectPool.PtrList.UnsafePushBackN | src/lsr/ls_ptrlist.c:152-159 | elements appended in order |
| ObjectPool.PtrList.UnsafePopBackN | src/lsr/ls_ptrlist.c:162-168 | last elements taken in order |
| ObjectPool.PtrList.PopBack | include/lsr/ls_ptrlist.h:372-373 | last element taken |
| ObjectPool.PtrList.PopFront | include/lsr/ls_ptrlist.h:388-403 | first elements taken, the rest moved to the front in order |
| ObjectPool.PtrList.Erase | include/lsr/ls_ptrlist.h:281-288 | the last element fills the gap and all others stay in place |
| ObjectPool.ObjPool.constructor | src/lsr/ls_objpool.c:50-59 | an empty pool with a positive chunk size |
| ObjectPool.ObjPool.Alloc | src/lsr/ls_objpool.c:23-41 | exactly the objects getnew_fn returns before its first failure join the free list, in order, and room is kept for every object of the pool |
| ObjectPool.ObjPool.Get | src/lsr/ls_objpool.c:70-78 | hands out the last object of the free list and creates nothing, unless the list was empty; then the last of a complete refill, or NULL exactly after an incomplete one, whose objects stay |
| ObjectPool.ObjPool.GetMulti | src/lsr/ls_objpool.c:81-91 | hands out the last n objects of the free list, refilled if it was shorter, or none exactly after an incomplete refill |
| ObjectPool.ObjPool.Recycle | include/lsr/ls_objpool.h:135-139 | the unchecked push always has room for an object handed out |
| ObjectPool.ObjPool.RecycleMulti | include/lsr/ls_objpool.h:150-155 | the same for several objects; a null array is ignored |
| ObjectPool.ObjPool.ShrinkTo | include/lsr/ls_objpool.h:175-185 | exactly the objects beyond sz are released, each once; poolsize minus free count unchanged |
| ObjectPool.FromTheBack | include/lsr/ls_objpool.h:175-185 | the objects are released from the back of the free list |
| BoundedString.HoldsTextIn | include/lsdef.h:64-70 | a buffer holds the text before its first NUL and no other |
| BoundedString.CutAppend | include/lsdef.h:64-76 | cutting early and appending is appending and cutting |
| BoundedString.CutIsLongest | include/lsdef.h:50-62 | the text is kept whole, or cut to leave room for nothing but the NUL |
| BoundedString.PatchedHolds | include/lsdef.h:50-62 | memory over which a cut text was written holds that text as a C string |
| BoundedString.JoinCut | include/lsdef.h:72-76 | two texts joined and cut are the first one cut and the second one cut to the room left |
| BoundedString.Lstrncpy | include/lsdef.h:50-62 | the memory afterwards is the memory before with the cut text and its NUL written over it; end pointer at the NUL |
| BoundedString.Lstrncat | include/lsdef.h:64-70 | the same with the joined text cut to fit; a buffer without NUL is left alone |
| BoundedString.Lstrncat2 | include/lsdef.h:72-76 | the same as lstrncpy of the joined strings |
| BoundedString.AppendAll | include/lsdef.h:64-70 | folding lstrncat writes the concatenation cut to n - 1 characters and its NUL, and nothing else |
| EventSequence.CreateEvents | addon/example/mteventseq.c:157-160 | the events 0 .. num - 1 in order |
| EventSequence.EventData.ProcessEvent | addon/example/mteventseq.c:51-92 | accepted exactly when in order and appended; accepted events are 0, 1, ... in order; done exactly when all are |
| EventSequence.EventData.Deliver | addon/example/mteventseq.c:51-92 | done if and only if the deliveries contain 0 .. num - 1 as a successful subsequence |
| EventSequence.InOrderStep | addon/example/mteventseq.c:63-91 | taking the first fitting event loses nothing |

## Left out

- Memory ordering weaker than sequential consistency in `include/lsr/ls_atomic.h`: every primitive is one atomic step.
- Pid reuse in `ls_futex_safe_lock`: a pid names one process for ever, and `kill` reports ESRCH exactly for crashed ones.
- LoopBuffer.LoopBuf.Straight: finds memory; without it the source works on null pointers.
- EscapeStream.Encoder.Offer: `ls_loopbuf_straight` finds memory, as above.
- EscapeStream.Decoder.L4Send: segments have whole triples, because the source reads past the end of any other.
- Argument parsing of `mtaltreadwrite.c` and `mtpostmt2.c`, and non-positive sizes in both.
- Allocation failures in `mtpostmt.c` and `mtpostmt2.c`, and the content of their post buffers.
- Deallocation of `myData_t` in `mteventseq.c` after a time-out: it depends on when the server drops late events.
- `lsnprintf`, `ls_linkq_t`, `ls_dlink_removeprev`, `ls_loopbuf_update` and `ls_loopbuf_search`: they would only add easier members or depend on library searches.
- The plain and pid spinlocks, `ls_hash`, `ls_map`, `ls_aho`, the lock-free queues, shared memory, configuration parsing, digests, sockets, TLS and HTTP: not part of this model.
