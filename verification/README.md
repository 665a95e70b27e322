# Verified model of the emulator's networking and authentication core

The repository is a server emulator in C++.  This project models the parts of it whose correctness is not
visible from reading one function, and proves what those parts promise.

* **Queues** (`LinkChain`, `IntrusiveQueue`, `EmptyDequeue`, `IntrusiveQueueClass`, `NonIntrusiveQueue`,
  `NonIntrusiveQueueClass`).  The two lock-free multi-producer single-consumer queues.  Each is a transition
  system with one step per atomic access, any number of producers and one consumer, under sequential
  consistency; and a class whose methods perform those accesses in place, with arbitrary steps of the other
  threads between any two of them (`Interfere`).  The chain of nodes is described by its history: `log` is the
  order of the head exchanges and `popped` how far the tail has moved.  An edge of the chain may be null
  exactly while the enqueue that will store it lies between its exchange and its store.
* **Framing** (`Framing`, `FrameMemory`, `StreamAborts`, `KeySafety`, `MessageBuffers`, `Sessions`).  How the authentication
  session cuts the byte stream into frames.  `Parse` is a reference parser on a complete stream; `ReadLoop` is
  one call of the read handler, including the length field that is read before it has arrived, for any bytes
  behind the received ones; `ReadMem` is the same call over the memory of the buffer, whose earlier contents
  those bytes are.  `Sessions.Session` is the class over a read buffer with positions, whose completed reads are
  proved to do what `FeedMem` says.  `KeySafety` says what a stream of any bytes must contain before the session has
  a key.
* **Writing** (`WriteQueue`, `Sockets`, `Connections`).  The packet queue of a socket, with partial writes,
  would-block answers, hard errors, asynchronous waits and closing; and a whole connection, from the bytes
  received to the bytes sent.
* **SRP-6** (`Bytes`, `Arithmetic`, `BigNumbers`, `HexString`, `ModularPower`, `InterleavedHash`, `SrpGroup`,
  `SecureRemotePassword`, `SrpStandard`, `SrpRefinement`).  The server's arithmetic and key derivation.  What they
  should compute is in `SrpStandard`, written from sections 2.5 and 2.6 of RFC 5054 (with 3 in place of k) and
  sections 3 and 3.1 of RFC 2945 by positions in byte strings, with the client's side of the protocol; it shares no
  function with the server.  `SrpRefinement` connects the two.  SHA-1 is an arbitrary function from byte strings
  to 20 bytes.
* **Handlers** (`Authentication`, `ByteBuffers`, `RealmList`, `ClientWire`, `RealmClient`, `RealmMeaning`, `LoginRun`,
  `LoginMemory`).  What each frame does to the session and which reply it produces, and a complete login over one
  connection.  `ClientWire` and `RealmClient` are the client's view of the wire, with every offset and value
  written out, and `RealmMeaning` says what a decoded realm list tells about a realm; the theorems about the
  handlers are stated in these terms.
* **Worker threads** (`ConnectionPool`, `WorkerThreads`, `WorkerSockets`, `LoadBalance`).  The connection counter and the two
  socket lists of a worker, with appends, ticks and closing sockets interleaved, and the choice of the least
  loaded thread while all workers run.  `WorkerSockets` replaces the pool's open or closed identifiers by the
  sockets of `WriteQueue`.

Five properties one might expect do not hold without a condition.  The project keeps the code as it is and
states the conditions.

* The result of reading depends on how the stream is split: when a read ends inside the first four bytes of
  a challenge, the code looks at bytes that have not arrived and may close the connection.  Those bytes are
  zeros at first and bytes of earlier frames later.  `LoginMemory.StaleBytesClose` gives three reads that close
  a connection, `FrameMemory.ReadMemExactly` the effect of every read, and `FrameMemory.MemAgreementIff` the
  exact condition.  Without regard to what the bytes are, `Framing.RunAlwaysAgreesIff` says that exactly the
  splits in which no read ends there always agree.  A login is not affected, however it is split:
  `LoginMemory.LoginAlwaysCompletes`.
* Bytes are lost on the write side when the operating system reports a hard error or takes nothing, because
  the packet at the front is dropped.  `WriteQueue.HardErrorLoses` gives such a run, and
  `WriteQueue.ConservationExactly` says that bytes are conserved if and only if no attempt with bytes to send
  gets such an answer.
* The realm list tells the client about its realms exactly when its length and its count fit their fields:
  `RealmMeaning.PacketTellsIff` and `RealmList.RoundTripExactly`.  `LoginRun.UnreadableRealmLists` gives streams that lead to lists that do not.
* A proof that arrives without an unused exchange reaches an assertion or an empty optional.  The model calls
  the outcome `Undefined` (`Aborted` for a stream) and claims nothing about what follows.
  `StreamAborts.StreamAbortsIff` says when, and `LoginRun.AbortingStream` gives such a stream.
* A call of dequeue may return nothing although an element is pending.  `NonIntrusiveQueue.NothingIff` and
  `EmptyDequeue.CallReturnsNothingIff` say exactly when; `NonIntrusiveQueue.PendingButNothing` and
  `EmptyDequeue.ReasonBetweenLoads` give reachable states.

## Model

| member | source | states |
|---|---|---|
| LinkChain.SwapPreserves | Shared/Thread/MPSCQueue.hpp:35-35 | the exchange of the head keeps the chain well formed: distinct live nodes whose edges are null only in front of a node whose enqueue has not stored its link |
| LinkChain.JoinPreserves | Shared/Thread/MPSCQueue.hpp:36-36 | the late link store keeps the chain well formed, and the node it writes is still live and in the chain |
| LinkChain.AdvancePreserves | Shared/Thread/MPSCQueue.hpp:47-47 | a stored link of the tail names the next node of the exchange order; moving the tail there keeps the chain well formed and leaves the old tail unreferenced |
| LinkChain.OutsideIsUnreferenced | Shared/Thread/MPSCQueue.hpp:89-94 | a node outside the chain and held by no enqueue is neither head nor tail, and no enqueue has it as its previous head |
| LinkChain.TailLink | Shared/Thread/MPSCQueue.hpp:99-100 | the link of the tail is null exactly when the tail is the head or the edge behind it is still broken, and otherwise names the next node of the exchange order |
| IntrusiveQueue.StepPreserves | Shared/Thread/MPSCQueue.hpp:89-130 | every atomic step of every thread keeps the inductive invariant |
| IntrusiveQueue.StepRefinesFifo | Shared/Thread/MPSCQueue.hpp:89-130 | every step is a step of an abstract queue: input joins at the back, output leaves at the front, and the dummy is never output |
| IntrusiveQueue.RunConserves | Shared/Thread/MPSCQueue.hpp:89-130 | over any run from any good state, old contents followed by inputs are outputs followed by new contents |
| IntrusiveQueue.FifoExactlyOnce | Shared/Thread/MPSCQueue.hpp:89-130 | under every interleaving the nodes returned are a prefix of the exchange order without the dummy, the rest is still queued, and the dummy is never returned |
| IntrusiveQueue.DummyUnique | Shared/Thread/MPSCQueue.hpp:100-129 | the dummy occurs at most once in the chain and is re-enqueued only when it is absent |
| IntrusiveQueue.NoUseAfterFree | Shared/Thread/MPSCQueue.hpp:89-130 | no step of any run touches the link of a destroyed node |
| IntrusiveQueue.HandedBackIsUnreferenced | Shared/Thread/MPSCQueue.hpp:110-127 | a node handed back is not head, tail, in the chain, or previous head of any enqueue |
| IntrusiveQueue.OwnedNodeIsLeftAlone | Shared/Thread/MPSCQueue.hpp:89-94 | no step touches or changes a node outside the queue until somebody enqueues it |
| IntrusiveQueue.OwnedNodeIsLeftAloneForever | Shared/Thread/MPSCQueue.hpp:89-127 | the same over whole runs: a handed-back node is not written again |
| IntrusiveQueue.WaitFree | Shared/Thread/MPSCQueue.hpp:96-130 | every access of dequeue brings the call closer to its end, nobody else delays it, and a call has at most ten accesses |
| IntrusiveQueue.QuiescentDequeue | Shared/Thread/MPSCQueue.hpp:96-130 | with no enqueue between exchange and store, an undisturbed dequeue returns the oldest node, and nothing if and only if nothing is pending |
| EmptyDequeue.NothingIff | Shared/Thread/MPSCQueue.hpp:99-129 | at each load: the call returns nothing if and only if, behind the dummy, nothing is pending or the oldest node is not linked yet; or a node has been exchanged in behind the tail when the head is loaded; or the node in front of the re-enqueued dummy is not linked yet |
| EmptyDequeue.CallReturnsNothingIff | Shared/Thread/MPSCQueue.hpp:96-130 | a whole call under every interleaving returns nothing if and only if one of its loads finds that |
| EmptyDequeue.NothingHasReason | Shared/Thread/MPSCQueue.hpp:96-130 | hence a call that returns nothing has met a moment at which nothing was pending or some producer lay between its exchange and its store |
| EmptyDequeue.ReasonBetweenLoads | Shared/Thread/MPSCQueue.hpp:107-119 | that moment need not be a load of the call: a reachable state in which a whole enqueue between two loads makes the call return nothing |
| IntrusiveQueue.DrainReleasesAll | Shared/Thread/MPSCQueue.hpp:80-87 | dequeueing until nothing comes back ends and yields every pending node once, in order |
| IntrusiveQueueClass.OthersSatisfyRely | Shared/Thread/MPSCQueue.hpp:89-130 | what any run of the other threads leaves alone between two accesses of a method |
| IntrusiveQueueClass.MpscQueueIntrusive.constructor | Shared/Thread/MPSCQueue.hpp:73-78 | the queue starts as the dummy alone, with a null link |
| IntrusiveQueueClass.MpscQueueIntrusive.Enqueue | Shared/Thread/MPSCQueue.hpp:89-94 | with other threads between its accesses, enqueue keeps the invariant and gives the node a new place in the exchange order |
| IntrusiveQueueClass.MpscQueueIntrusive.DequeueLast | Shared/Thread/MPSCQueue.hpp:117-129 | the end of dequeue: compare with the head, re-enqueue the dummy, retry; the delivered list grows by the result |
| IntrusiveQueueClass.MpscQueueIntrusive.Dequeue | Shared/Thread/MPSCQueue.hpp:96-130 | under interference the delivered list grows by exactly the result, which is unreferenced and not the dummy; undisturbed it is the transition system's dequeue |
| IntrusiveQueueClass.MpscQueueIntrusive.DeliveredInOrder | Shared/Thread/MPSCQueue.hpp:89-130 | the exchange order without the dummy is what was delivered followed by what is pending |
| IntrusiveQueueClass.MpscQueueIntrusive.DrainAndDelete | Shared/Thread/MPSCQueue.hpp:80-87 | the destructor's loop ends, deletes every pending node exactly once in order, and leaves the queue empty |
| NonIntrusiveQueue.StepPreserves | Shared/Thread/MPSCQueue.hpp:32-50 | every atomic step keeps the invariant on chain, data and live nodes |
| NonIntrusiveQueue.StepRefinesFifo | Shared/Thread/MPSCQueue.hpp:32-50 | every step is a step of an abstract queue of elements |
| NonIntrusiveQueue.RunConserves | Shared/Thread/MPSCQueue.hpp:32-50 | conservation of elements over any run from any good state |
| NonIntrusiveQueue.RefinesFifo | Shared/Thread/MPSCQueue.hpp:32-50 | under every interleaving the elements in exchange order are the delivered ones followed by the pending ones |
| NonIntrusiveQueue.ResultIsDelivered | Shared/Thread/MPSCQueue.hpp:46-49 | the result of a finished call is the element it delivered, the oldest pending one |
| NonIntrusiveQueue.NoUseAfterFree | Shared/Thread/MPSCQueue.hpp:39-50 | no step touches a deleted node, and data that was never written is never read |
| NonIntrusiveQueue.DeletedIsUnreferenced | Shared/Thread/MPSCQueue.hpp:48-48 | a node being deleted is not head, tail, in the chain, or previous head of any enqueue |
| NonIntrusiveQueue.LiveNodes | Shared/Thread/MPSCQueue.hpp:16-50 | in every reachable state the live nodes are the undelivered ones, one stub, those not yet exchanged, and the one being deleted |
| NonIntrusiveQueue.QuiescentDequeue | Shared/Thread/MPSCQueue.hpp:39-50 | with no enqueue between exchange and store, dequeue returns the oldest element, and false if and only if nothing is pending |
| NonIntrusiveQueue.NothingIff | Shared/Thread/MPSCQueue.hpp:41-44 | under every interleaving, a call returns false if and only if at its load nothing is pending or the oldest pending element belongs to an enqueue between its exchange and its store |
| NonIntrusiveQueue.PendingButNothing | Shared/Thread/MPSCQueue.hpp:32-44 | a reachable state with two pending elements, the second enqueued completely, in which a call returns false |
| NonIntrusiveQueueClass.MpscQueueNonIntrusive.constructor | Shared/Thread/MPSCQueue.hpp:16-20 | the queue starts as one stub whose data has never been written |
| NonIntrusiveQueueClass.MpscQueueNonIntrusive.Enqueue | Shared/Thread/MPSCQueue.hpp:32-37 | under interference the element gets a new place in the exchange order |
| NonIntrusiveQueueClass.MpscQueueNonIntrusive.Dequeue | Shared/Thread/MPSCQueue.hpp:39-50 | under interference the delivered list grows by exactly the result; undisturbed it is the transition system's dequeue |
| NonIntrusiveQueueClass.MpscQueueNonIntrusive.DeleteNode | Shared/Thread/MPSCQueue.hpp:48-49 | the deleted node is unreferenced and gone from memory |
| NonIntrusiveQueueClass.MpscQueueNonIntrusive.DrainAndDelete | Shared/Thread/MPSCQueue.hpp:22-30 | the destructor yields every pending element once, in order, and no node stays live |
| MessageBuffers.MessageBuffer.Reset | Shared/Utilities/MessageBuffer.cpp:37-41 | nothing is active any more |
| MessageBuffers.MessageBuffer.Normalize | Shared/Utilities/MessageBuffer.cpp:43-53 | the active bytes are unchanged and start at the front of the same memory; what lies behind them stays as it was |
| MessageBuffers.MessageBuffer.EnsureFreeSpace | Shared/Utilities/MessageBuffer.cpp:55-61 | there is room afterwards, the active bytes are unchanged, and memory grows by 4096 only if there was none |
| MessageBuffers.MessageBuffer.ReadCompleted | Shared/Utilities/MessageBuffer.cpp:63-63 | drops bytes from the front of the active ones |
| MessageBuffers.MessageBuffer.WriteCompleted | Shared/Utilities/MessageBuffer.cpp:65-65 | the bytes behind the write position become active |
| MessageBuffers.MessageBuffer.Write | Shared/Utilities/MessageBuffer.cpp:67-74 | appends to the active bytes |
| MessageBuffers.MessageBuffer.ActiveSize | Shared/Utilities/MessageBuffer.cpp:33-33 | the difference of the positions is the number of active bytes |
| Framing.AcceptedSize | Servers/Authentication/Session.cpp:96-99 | although the 16-bit size can wrap, an accepted frame is not empty, and an accepted challenge has length field 30 + n, size 34 + n and its name inside |
| Framing.RoundInNumbers | Servers/Authentication/Session.cpp:44-89 | one round of the reader in the numbers of the protocol: command 0 has a 16-bit length behind byte 2 and at most 51 bytes, 1 has 75 bytes, 16 has 5, any other command ends the reading; what waits, what closes, and what each verdict of a handler leads to |
| Framing.ChallengeTaken | Servers/Authentication/Session.cpp:66-79 | for every session, build and name: the packed challenge is answered and is the first frame of any stream that begins with it if and only if its name has at most 17 bytes; a longer name closes |
| Framing.FramesAreSized | Servers/Authentication/Session.cpp:66-99 | every handled challenge has 34 to 51 bytes, and its length field counts what follows the first four; proofs have 75 bytes, requests 5 |
| Framing.ReadLoopExactly | Servers/Authentication/Session.cpp:44-91 | one call of the read handler is the reference parser, except that a read ending in a challenge header may close, for all contents of the unreceived bytes |
| Framing.ReadAgreesIff | Servers/Authentication/Session.cpp:67-79 | when one call agrees with the reference, as an if and only if |
| Framing.LittleIsKept | Servers/Authentication/Session.cpp:66-91 | fewer than 75 bytes stay unconsumed when another read is armed |
| Framing.FramesAreInput | Servers/Authentication/Session.cpp:78-88 | the frames followed by the kept bytes are the input; in every case the frames are a prefix of it |
| Framing.ParseResumes | Servers/Authentication/Session.cpp:44-91 | parsing two pieces at once is parsing the first and reading on with the second |
| Framing.SafeRunsAgree | Servers/Authentication/Session.cpp:44-91 | for every split into safe reads: frames, replies, session, kept bytes and fate are those of the one-shot parser |
| Framing.RunsArePrefixes | Servers/Authentication/Session.cpp:44-91 | for every split and every content of unreceived bytes, handled frames and replies are a prefix of the reference's, and a run not closed early is the reference |
| Framing.AgreementIff | Servers/Authentication/Session.cpp:67-79 | agreement after every read holds if and only if every read is safe |
| Framing.CallAlwaysAgreesIff | Servers/Authentication/Session.cpp:67-79 | one call agrees with the reference for every content of the unreceived bytes if and only if it does not end in the first four bytes of a challenge |
| Framing.RunAlwaysAgreesIff | Servers/Authentication/Session.cpp:67-79 | the same for any split: agreement after every read, whatever the unreceived bytes are, if and only if no read ends there |
| FrameMemory.ReadMemExactly | Shared/Network/Socket.hpp:80-92 | one call over the memory of the buffer is the reference parser, except that in a challenge header the stale bytes behind decide |
| FrameMemory.RunMemIsRun | Shared/Utilities/MessageBuffer.cpp:43-53 | any number of reads into the same memory is one of the runs of the framing model, with the stale bytes behind each read |
| FrameMemory.MemRunsArePrefixes | Servers/Authentication/Session.cpp:44-91 | for every split, frames and replies are a prefix of the one-shot parser's, and a run not closed early is the parser |
| FrameMemory.MemAgreementIff | Servers/Authentication/Session.cpp:67-79 | agreement after every read holds if and only if no read ends in a challenge header where the stale bytes do not ask for more |
| LoginMemory.FirstChallengeWaits | Servers/Authentication/Session.cpp:66-79 | the first challenge of a connection is read correctly however it is split: zeros lie behind it |
| LoginMemory.StaleProofCloses | Servers/Authentication/Session.cpp:67-76 | an answered challenge, a proof whose third and fourth byte are 0 and 1, then the first byte of a challenge: stale bytes of the proof close the connection although the parser waits |
| LoginMemory.StaleBytesClose | Servers/Authentication/Session.cpp:67-76 | such reads byte for byte |
| Sessions.Session.constructor | Servers/Authentication/Session.cpp:30-34 | a new session is open and armed, has read and sent nothing, and its buffer is 4096 zeros |
| Sessions.SmallTablesFit | Shared/Utilities/ByteBuffer.cpp:77-81 | bounded names, addresses and version numbers and not too many realms: every realm list of every client stays below the limit that the buffer asserts |
| Sessions.ManyRealmsFit | Shared/Utilities/ByteBuffer.cpp:77-81 | for example up to a thousand realms with names and addresses of a thousand bytes |
| Sessions.Session.LengthsVerdict | Servers/Authentication/Session.cpp:96-99 | the comparison of the two lengths decides the same whatever bytes have not arrived |
| Sessions.Session.LogonChallengeHandler | Servers/Authentication/Session.cpp:94-148 | the handler in place does what the specification of a challenge says, in success and in refusal |
| Sessions.Session.LogonProofHandler | Servers/Authentication/Session.cpp:150-217 | the same for a proof |
| Sessions.Session.RealmlistHandler | Servers/Authentication/Session.cpp:219-310 | the same for the realm list |
| Sessions.Session.SendPacket | Servers/Authentication/Session.cpp:312-320 | an empty packet is not sent, any other goes to the end of the queue |
| Sessions.Session.HandleFrame | Servers/Authentication/Session.cpp:81-88 | a frame is consumed exactly if its handler succeeds, and nothing but the frame is |
| Sessions.Session.ReadFrame | Servers/Authentication/Session.cpp:45-89 | one round of the loop, with strictly fewer active bytes whenever the loop goes on |
| Sessions.Session.HandleNext | Servers/Authentication/Session.cpp:78-88 | what handling the next frame leaves of the call |
| Sessions.Session.RunFrames | Servers/Authentication/Session.cpp:45-89 | the loop ends, leaves the outcome of `ReadMem`, and re-arms if and only if reading goes on |
| Sessions.Session.OnRead | Servers/Authentication/Session.cpp:36-92 | the loop ends and leaves what `ReadMem` computes on the memory of the buffer, and the kept bytes at its front |
| Sessions.Session.AsyncRead | Shared/Network/Socket.hpp:75-93 | kept bytes move to the front, the rest of the memory stays, there is room, and the memory is the original 4096 bytes |
| Sessions.Session.Receive | Shared/Network/Socket.hpp:82-92 | a completed read is one read of the model with memory, outcome and memory alike, and while reading goes on the buffer never grows |
| Sessions.Session.ReceiveError | Shared/Network/Socket.hpp:84-88 | a failed read closes and handles no frame |
| WriteQueue.StepPreserves | Shared/Network/Socket.hpp:38-154 | every step, closing by the read side included, keeps the invariant of queue, wire and waits |
| WriteQueue.ConservedIff | Shared/Network/Socket.hpp:114-138 | wire followed by active bytes is everything queued if and only if each packet that left the queue was consumed completely |
| WriteQueue.AttemptLosesIff | Shared/Network/Socket.hpp:114-140 | one attempt loses bytes exactly in the branches of a hard error or a zero write with bytes left, and a loss is never repaired |
| WriteQueue.ConservationExactly | Shared/Network/Socket.hpp:38-154 | over any run, wire followed by active bytes is all queued packets in order if and only if no attempt with bytes to send gets a failing answer |
| WriteQueue.HardErrorLoses | Shared/Network/Socket.hpp:114-122 | a run of one packet and one hard error that loses its byte |
| WriteQueue.Conservation | Shared/Network/Socket.hpp:103-154 | over any run without hard error and zero write, wire followed by active bytes is all queued packets in order |
| WriteQueue.WireIsPrefixes | Shared/Network/Socket.hpp:103-154 | over any run the wire has one prefix of each packet, in order; only the front packet is partly consumed; at most one wait is outstanding |
| WriteQueue.WaitIsExclusive | Shared/Network/Socket.hpp:43-47 | while a wait is outstanding, any number of updates, queued packets and a close write nothing |
| WriteQueue.ClosedIsFinal | Shared/Network/Socket.hpp:40-62 | after closing at most the packet of an outstanding wait is still sent, and without a wait nothing is |
| WriteQueue.DrainEnds | Shared/Network/Socket.hpp:103-154 | without a failing answer the loop ends with an empty queue or an outstanding wait |
| WriteQueue.UpdateStrandsNothing | Shared/Network/Socket.hpp:38-154 | the same for an update after any earlier run |
| WriteQueue.AttemptEffect | Shared/Network/Socket.hpp:103-141 | what an attempt writes, keeps, drops and asks for next, field by field for each answer of the operating system |
| WriteQueue.StepClosesIff | Shared/Network/Socket.hpp:38-141 | a step closes the socket if and only if it is the read side's close or takes the last packet of a closing socket |
| WriteQueue.AliveIff | Shared/Network/Socket.hpp:38-50 | after every run, an update answers that the socket is alive if and only if no step of the run closed it, be it idle, waiting or writing |
| WriteQueue.EverythingGetsOut | Shared/Network/Socket.hpp:38-154 | after every run without close and failing answer, the callback of a wait and one update put everything ever queued on the wire when the operating system takes what it is offered |
| Sockets.Socket.SendPacket | Servers/Authentication/Session.cpp:312-320 | a packet is copied into a fresh buffer and queued, an empty one is not |
| Sockets.Socket.QueuePacket | Shared/Network/Socket.hpp:73-73 | the packet joins at the back of the queue |
| Sockets.Socket.CloseSocket | Shared/Network/Socket.hpp:52-62 | closing is the close step of the write model |
| Sockets.Socket.AttemptFront | Shared/Network/Socket.hpp:103-141 | one attempt on the front buffer, in every branch, is the step of the write model |
| Sockets.Socket.HandleQueueAsync | Shared/Network/Socket.hpp:143-154 | a second wait is never started |
| Sockets.Socket.Update | Shared/Network/Socket.hpp:38-50 | a tick is the update step of the write model, and answers alive if and only if the socket was not closed |
| Sockets.Socket.Drain | Shared/Network/Socket.hpp:46-47 | the loop over attempts is the drain of the write model |
| Sockets.Socket.OnWritable | Shared/Network/Socket.hpp:149-152 | the callback of a wait is the wakeup step |
| Connections.WireIsReplyPrefixes | Servers/Authentication/Session.cpp:36-320 | for every interleaving of reads, errors, ticks and wakeups, the wire has one prefix of each reply of the one-shot parser, in order; with safe reads the packets are all of its replies |
| Connections.RepliesConserved | Shared/Network/Socket.hpp:38-154 | with safe reads, wire followed by queued bytes is the parser's replies if and only if no attempt with bytes to send got a failing answer |
| Connections.EverythingArrives | Servers/Authentication/Session.cpp:312-320 | once the queue is empty and nothing failed, the client has received exactly the parser's replies |
| Connections.EveryReplyGetsOut | Shared/Network/Socket.hpp:38-154 | for every interleaving without a failing answer, while the connection is open: one more callback and one more tick put on the wire exactly the parser's replies to everything received, if the operating system takes what it is offered |
| Connections.DroppedIff | Shared/Network/Socket.hpp:38-92 | over every interleaving, the next update answers no if and only if the read side has refused a frame or a read has failed |
| Bytes.LeRoundTrip | Shared/Crypto/BigNumber.cpp:63-83 | writing little-endian and reading back is the number modulo 256^n, and the number itself if and only if it fits |
| Bytes.LeBytesOfValue | Shared/Crypto/BigNumber.cpp:35-52 | reading and writing back keeps every byte |
| Bytes.XorTwice | Shared/Crypto/Srp6.cpp:101-102 | exclusive or with the same operand twice is the identity, and it is that of the bits |
| BigNumbers.MinimalFits | Shared/Crypto/BigNumber.cpp:66-70 | the minimal form has at most n bytes if and only if the number is below 256^n |
| BigNumbers.PaddedAt | Shared/Crypto/BigNumber.cpp:72-78 | the padded little-endian form is the minimal form backwards and then zeros |
| BigNumbers.BigNumber.SetBinary | Shared/Crypto/BigNumber.cpp:35-52 | the loop that reverses reads the little-endian number |
| BigNumbers.BigNumber.GetBytes | Shared/Crypto/BigNumber.cpp:63-83 | fill, offset and reversal write exactly the padded number |
| HexString.HexStringToByteArray | Shared/Crypto/Srp6.cpp:28-48 | the loop in either direction lists the parsed pairs in that direction |
| HexString.HexBytesValue | Shared/Crypto/Srp6.cpp:28-48 | forward bytes denote the hexadecimal number big-endian, reversed ones little-endian |
| HexString.PairsAsRead | Shared/Crypto/Srp6.cpp:28-48 | how pairs of characters are read: digits of either case, one digit, a space or a sign, no number |
| SrpGroup.ModulusValue | Shared/Crypto/Srp6.cpp:65-69 | the modulus is the number its constant denotes |
| SrpGroup.PublicKeyIsNotZero | Shared/Crypto/Srp6.cpp:91-93 | a client following the protocol never sends a key that is a multiple of the modulus |
| ModularPower.SecretsAgree | Shared/Crypto/Srp6.cpp:76-96 | for every group, generator, exponents and password the server's and the client's premaster secret are equal |
| InterleavedHash.SkipIsStandard | Shared/Crypto/Srp6.cpp:120-129 | skipping in the split halves hashes what stripping before splitting hashes |
| InterleavedHash.Split | Shared/Crypto/Srp6.cpp:112-118 | the first loop separates even and odd bytes |
| InterleavedHash.Merge | Shared/Crypto/Srp6.cpp:131-137 | the last loop interleaves the digests |
| InterleavedHash.Sha1InterLeave | Shared/Crypto/Srp6.cpp:110-138 | for every 32-byte secret and hash function the loops compute the key of section 3.1 of RFC 2945 |
| InterleavedHash.BoundaryCases | Shared/Crypto/Srp6.cpp:120-126 | with 31 leading zeros both hashes are of the empty string |
| SrpRefinement.KeyOfIs | Shared/Crypto/Srp6.cpp:110-138 | the key of a secret by positions: with z leading zeros rounded up to even, byte 2i is byte i of the hash of the bytes at even positions from z on, byte 2i + 1 that of the odd ones |
| SrpRefinement.RaiseIs | Shared/Crypto/Srp6.cpp:76-97 | the power used by the server is the power computed by squaring |
| SrpRefinement.ServerPublicIs | Shared/Crypto/Srp6.cpp:76-79 | the server's public key is 3v + 7^b modulo the written-out modulus |
| SrpRefinement.ServerPremasterIs | Shared/Crypto/Srp6.cpp:96-96 | the server's secret is (A v^u)^b |
| SecureRemotePassword.ServerKeyIs | Shared/Crypto/Srp6.cpp:95-97 | the server's key is the key of the documents for its number, u the number of the hash of both public keys |
| SecureRemotePassword.EvidenceIs | Shared/Crypto/Srp6.cpp:98-104 | the hashed evidence is one string of 176 bytes, each given by its position: H(N) xor H(g), H(U), s, A, B, K |
| SecureRemotePassword.SessionVerifierIs | Shared/Crypto/Srp6.cpp:81-84 | the server's own evidence is the hash of one string of 92 bytes, each given by its position: A, M, K |
| SecureRemotePassword.VerifyIs | Shared/Crypto/Srp6.cpp:86-108 | a proof is accepted if and only if the client's key is not a multiple of the modulus and its evidence is the hash of that string; the key is then that of the documents |
| SecureRemotePassword.NewExchangeIs | Shared/Crypto/Srp6.cpp:71-79 | a new exchange has the hashed name, the numbers of the random bytes and of the stored verifier, the salt and the public key of the documents, and is unused |
| SecureRemotePassword.Srp6.constructor | Shared/Crypto/Srp6.cpp:71-79 | the exchange holds the hashed name, the exponents and the public key, unused |
| SecureRemotePassword.Srp6.VerifyChallenge | Shared/Crypto/Srp6.cpp:86-108 | uses the exchange up and returns the key exactly for a key not a multiple of the modulus with the right evidence |
| SecureRemotePassword.HonestClientAccepted | Shared/Crypto/Srp6.cpp:71-108 | a client that computes its key and evidence from the documents, with none of the server's functions, is always accepted, with the same session key on both sides |
| Authentication.LengthsMatchMeans | Servers/Authentication/Session.cpp:97-98 | in 64-bit unsigned arithmetic the check accepts exactly length field 30 + name length |
| Authentication.ChallengeSpans | Servers/Authentication/Session.cpp:66-99 | an accepted challenge is 34 bytes and its name |
| Authentication.ChallengeVerdict | Servers/Authentication/Session.cpp:94-148 | a challenge is answered if and only if its lengths agree; the build is that of the frame, PreBc up to 6141; an unknown build is answered with 9, an unknown account with 4, and account and exchange stay; otherwise the account is the one named in the frame, a new exchange for it begins, and the reply carries key, generator 7, the modulus and the salt |
| Authentication.HelloRoundTrip | Servers/Authentication/Session.cpp:133-141 | a client reads from the reply exactly key, generator, modulus and salt, then the sixteen fixed bytes and a zero |
| Authentication.ProofReplyDecodes | Servers/Authentication/Session.cpp:180-204 | a client of either dialect reads from its reply the server proof, the account flags 0x00800000 of the newer one, and the zero fields |
| Authentication.HandshakeCompletes | Servers/Authentication/Session.cpp:94-217 | a client that decodes the reply and answers it is accepted, shares the key, and receives the server's proof of it |
| Authentication.ProofVerdict | Servers/Authentication/Session.cpp:158-216 | the reply is the expected answer if and only if the client's key is not a multiple of the modulus, its evidence is the hash of the string given by positions and the token bit is clear, and otherwise 1, 4, 0, 0; the session key changes under the first two; the exchange is used up |
| Authentication.ProofRefusedIff | Servers/Authentication/Session.cpp:152-156 | a proof closes the connection if and only if no known build has been announced |
| Authentication.RequestVerdict | Servers/Authentication/Session.cpp:219-310 | a request is answered in every session, and tells the client about the realms it may see, with the counts of the session's account, if and only if length and count fit |
| Authentication.UndefinedIff | Servers/Authentication/Session.cpp:152-159 | exactly when a frame reaches the assertion or the empty optional |
| StreamAborts.StreamAbortsIff | Servers/Authentication/Session.cpp:150-159 | a stream aborts if and only if the next complete frame is a proof, the last challenge was for a known build, and no reply with an exchange lies after the last proof |
| KeySafety.KeyIsEarned | Servers/Authentication/Session.cpp:94-217 | for every stream of bytes: the session key is all zeros, or a handled proof has the evidence for exactly this key, for the account named by the last challenge that began an exchange before it, with that exchange's secret exponent, and no other proof lies between |
| KeySafety.KeyIsEarnedInMemory | Servers/Authentication/Session.cpp:36-217 | the same for the session as it reads, for every split and all stale bytes |
| LoginRun.AcceptedFrame | Servers/Authentication/Session.cpp:45-89 | a complete accepted frame is cut off any longer stream |
| LoginRun.LoginParses | Servers/Authentication/Session.cpp:36-310 | challenge, proof and realm request as one stream are three frames with the three expected replies |
| LoginRun.GoodVisitsExist | Servers/Authentication/Session.cpp:94-131 | for every hash function, password exponent, build and name of at most 17 bytes there is an environment to which the login results apply |
| LoginRun.FrameByFrameIsSafe | Servers/Authentication/Session.cpp:44-91 | a client that waits for each reply, one frame a read, meets the condition on splits whatever the unreceived bytes are |
| LoginRun.LoginCompletes | Servers/Authentication/Session.cpp:36-310 | for every split into safe reads: the session has the client's key and the named account, the client can read the first reply, gets the server's proof in the second, and is told about the realms it may see with that account's counts in the third |
| LoginMemory.LoginAlwaysCompletes | Servers/Authentication/Session.cpp:36-310 | login completeness for every split of the stream, without any assumption on the reads or on what lies beyond the buffer |
| LoginRun.ProofWithoutAccountAborts | Servers/Authentication/Session.cpp:119-159 | a challenge for a known build and an unknown account, then a proof: the stream aborts |
| LoginRun.SecondProofAborts | Servers/Authentication/Session.cpp:150-159 | a completed handshake, then another proof: the stream aborts |
| LoginRun.AbortingStream | Servers/Authentication/Session.cpp:119-159 | such a stream byte for byte |
| ByteBuffers.ByteBuffer.Append | Shared/Utilities/ByteBuffer.cpp:77-101 | resize and copy are concatenation |
| ByteBuffers.ByteBuffer.Put8 | Shared/Utilities/ByteBuffer.cpp:43-47 | appends the low byte |
| ByteBuffers.ByteBuffer.Put16 | Shared/Utilities/ByteBuffer.cpp:49-53 | appends two bytes, little-endian |
| ByteBuffers.ByteBuffer.Put32 | Shared/Utilities/ByteBuffer.cpp:55-59 | appends four bytes, little-endian |
| ByteBuffers.ByteBuffer.PutString | Shared/Utilities/ByteBuffer.cpp:61-69 | appends the string and a zero |
| ByteBuffers.ByteBuffer.AppendBuffer | Shared/Utilities/ByteBuffer.cpp:103-109 | appends everything written to the other buffer |
| ByteBuffers.ByteBuffer.Resize | Shared/Utilities/ByteBuffer.cpp:111-116 | keeps the common prefix and pads with zeros |
| RealmList.FindBuild | Shared/Realm/RealmList.cpp:43-51 | a build that is found is in the table with the number asked for, and none is found only if no entry has it |
| RealmList.ShownBuildIsKnown | Servers/Authentication/Session.cpp:240-253 | whenever the build flag is set, the build data that is dereferenced exists |
| RealmList.FlagsMeaning | Servers/Authentication/Session.cpp:240-249 | what the shown flags say about build, availability and the realm's own flags |
| RealmList.EntryRoundTrip | Servers/Authentication/Session.cpp:255-279 | an entry of either dialect followed by anything decodes to itself |
| RealmList.HeaderAsRead | Servers/Authentication/Session.cpp:284-307 | length, padding, count, entries and the two last bytes of the packet where the client looks for them, in numbers |
| RealmMeaning.DecimalReads | Servers/Authentication/Session.cpp:252-252 | the text of a version number is its decimal number without leading zeros |
| RealmMeaning.EntryDescribes | Servers/Authentication/Session.cpp:240-279 | kind, address, population and category are the realm's; the count is the account's for this realm or 0; the id is the low byte or 0; flags, name and build say what they should in either dialect |
| RealmMeaning.PacketTellsIff | Servers/Authentication/Session.cpp:233-307 | the decoded packet has one such description for each realm the client may see, in order, if and only if length and count fit their fields |
| RealmList.FieldsOfPacket | Servers/Authentication/Session.cpp:284-306 | length field, padding, count and contents of the packet, with truncation |
| RealmList.RoundTripExactly | Servers/Authentication/Session.cpp:284-307 | the packet decodes to its entries if and only if length and count fit their fields |
| RealmList.CountWraps | Servers/Authentication/Session.cpp:299-300 | 256 realms with different ids and the client's build in the older dialect: the count byte is zero and the client does not recover them |
| RealmList.LengthWraps | Servers/Authentication/Session.cpp:304-304 | ten thousand realms in the newer dialect: the length wraps and the client does not recover them |
| LoginRun.UnreadableRealmLists | Servers/Authentication/Session.cpp:36-310 | streams from a new connection, with known builds and different realm ids, whose realm list does not tell the client about its realms, for either limit |
| LoginRun.EarlyRequest | Servers/Authentication/Session.cpp:219-310 | a request on a new connection is answered as for build 0, account 0 and the older format |
| RealmList.AdjustFlags | Servers/Authentication/Session.cpp:240-249 | the branches compute the shown flags |
| RealmList.WriteFront | Servers/Authentication/Session.cpp:255-271 | the fields every entry has, in the order of the format |
| RealmList.WriteRealm | Servers/Authentication/Session.cpp:240-279 | one round of the loop writes the encoding of the realm's entry |
| RealmList.WriteRealms | Servers/Authentication/Session.cpp:233-282 | the loop writes the visible realms in order and counts them |
| RealmList.WriteSizes | Servers/Authentication/Session.cpp:295-300 | padding and count in the width of the dialect |
| RealmList.WritePacket | Servers/Authentication/Session.cpp:233-307 | the whole packet is the encoding of the visible realms |
| ConnectionPool.StepPreserves | Shared/Network/Thread.hpp:52-125 | every step of acceptor, worker and closing sockets keeps the books |
| ConnectionPool.Accounting | Shared/Network/Thread.hpp:52-125 | at every step of every interleaving the counter is the sockets in charge plus the one being appended; each appended socket is there or dropped, once and in order; dropped sockets are closed |
| ConnectionPool.CounterIsListSizes | Shared/Network/Thread.hpp:96-125 | the counter is new plus active sockets, without new ones already taken over or dropped, and minus those rejected in the current pass |
| ConnectionPool.PassUpdatesOnce | Shared/Network/Thread.hpp:96-108 | a pass updates every active socket exactly once in order and keeps exactly those that say they are alive |
| ConnectionPool.UndisturbedTick | Shared/Network/Thread.hpp:86-125 | an undisturbed tick keeps exactly the open sockets of both lists in order, and the counter is their number |
| WorkerSockets.StepAgrees | Shared/Network/Thread.hpp:86-125 | every event of a worker over real sockets keeps the sets of closed sockets equal and is the pool's own step |
| WorkerSockets.PoolAccounts | Shared/Network/Thread.hpp:86-125 | over every interleaving the books of real sockets are those of a run of the pool, and a socket's update answers no exactly if it is in the pool's closed set |
| WorkerSockets.OpenSocketsStay | Shared/Network/Thread.hpp:96-108 | a dropped socket was closed by its session or a failed read; any other is still in charge as often as it was appended, however idle it is |
| ConnectionPool.MinIndex | Shared/Network/SocketManager.hpp:89-98 | the first position of the smallest load |
| ConnectionPool.AcceptsAreRoundRobin | Shared/Network/SocketManager.hpp:58-98 | after n accepts without disconnects on k threads, thread i has n / k connections, and one more if i < n mod k |
| ConnectionPool.Balanced | Shared/Network/SocketManager.hpp:58-98 | loads never differ by more than one |
| LoadBalance.AlwaysBalanced | Shared/Network/SocketManager.hpp:58-98 | at every moment of every interleaving of accepts with the ticks of all workers and no closed socket, loads are round robin in the number of appends and differ by at most one |
| WorkerThreads.OthersSatisfyRely | Shared/Network/Thread.hpp:52-125 | what any run of the other threads leaves alone between two steps of a method |
| WorkerThreads.WorkerThread.Append | Shared/Network/Thread.hpp:52-57 | under interference exactly this socket is appended and the counter grows by one less the sockets dropped meanwhile |
| WorkerThreads.WorkerThread.WaitForLock | Shared/Network/Thread.hpp:54-54 | the others run until no take-over holds the lock |
| WorkerThreads.WorkerThread.TakeOver | Shared/Network/Thread.hpp:117-123 | one round of the loop over new sockets takes the socket over if and only if it is not closed |
| WorkerThreads.WorkerThread.AddNewSockets | Shared/Network/Thread.hpp:111-125 | under interference the old active sockets stay in front and the books agree |
| WorkerThreads.WorkerThread.Visit | Shared/Network/Thread.hpp:96-106 | one round of the removal pass keeps the socket if and only if it is not closed |
| WorkerThreads.WorkerThread.Update | Shared/Network/Thread.hpp:86-109 | under interference every old active socket is updated once, in order, and the list keeps exactly those alive; undisturbed, the open ones of both lists |
| WorkerThreads.SocketManager.ThreadWithMinConnections | Shared/Network/SocketManager.hpp:89-98 | with all workers running between the reads of the counters, the result is the first thread with the fewest connections unless a socket is dropped meanwhile |
| WorkerThreads.SocketManager.OnSocketOpen | Shared/Network/SocketManager.hpp:58-70 | the load of the chosen thread grows by one, and loads change otherwise only by dropped sockets |
| WorkerThreads.SocketManager.Accept | Shared/Network/SocketManager.hpp:83-98 | under interference of all workers the socket goes to exactly one thread, and unless a socket is dropped meanwhile this is one accept of the load model |

## Left out

- IntrusiveQueue.FifoExactlyOnce: memory orders weaker than sequential consistency and failing allocation are not modelled; callers are assumed not to enqueue a node that is already in the queue.
- IntrusiveQueueClass.MpscQueueIntrusive.Interfere: stands for the other threads; its contract allows any of their runs, its body is the run without a step.
- IntrusiveQueueClass.MpscQueueIntrusive.Enqueue: under interference it promises the invariant and the place in the exchange order; what that means for delivery is in the transition system.
- NonIntrusiveQueueClass.MpscQueueNonIntrusive.Interfere: as for the intrusive queue.
- WorkerThreads.WorkerThread.Interfere: as for the queues.
- WorkerThreads.WorkerThread.AddNewSockets: that the worker gets the lock is its precondition; the acceptor's waiting is `WaitForLock`.
- WorkerThreads.WorkerThread.Update: sockets are identifiers with a flag; what their own update writes is in `Sockets`, and that the flag is theirs in `WorkerSockets`.  The flag for stopping, the timers, and starting and joining the thread are left out.
- WorkerThreads.SocketManager.Accept: there is one acceptor; where sockets are dropped meanwhile, the loads are stated and no balance is claimed.
- WriteQueue.ConservationExactly: the field for closing is set by no file of the repository, so it is an arbitrary constant; the shutdown of the operating system's socket is left out.
- WriteQueue.WireIsPrefixes: what the operating system answers to a write is arbitrary, except that it cannot take more than it is offered.
- Framing.SafeRunsAgree: independence of chunking is claimed for safe reads only, because it fails otherwise; `FrameMemory.MemAgreementIff` is the exact condition.
- Connections.RepliesConserved: stated for reads with arbitrary bytes behind, of which those with the memory of the buffer are a case.
- Sessions.Session.OnRead: requires that no proof arrives without an unused exchange; the code asserts or dereferences an empty optional there.
- Sessions.Session.constructor: requires that the realm list of every client stays below 10,000,000 bytes, as the code asserts when it appends; `Sessions.SmallTablesFit` gives a condition on the tables.
- Sessions.Session.SendPacket: the session collects its replies in order; that they join the write queue one by one is stated in `Connections`, on values.
- RealmList.WritePacket: the same limit of the output buffer; the encoder on values has no such limit.
- RealmList.RoundTripExactly: strings are free of zeros, as a zero ends a string of the format; the population is carried as four bytes.
- RealmMeaning.PacketTellsIff: the address chosen for a client is an input; the selection of a network range is not modelled.
- ByteBuffers.ByteBuffer.Append: reserving capacity and the read position are left out.
- BigNumbers.BigNumber.GetBytes: the branch for OpenSSL before 1.1 is modelled, the other branch calls the library for the same result; arithmetic operators are integer arithmetic.
- Authentication.HandshakeCompletes: one accepted challenge followed by one proof; a proof without an unused exchange is `Undefined`.
- SecureRemotePassword.Srp6.VerifyChallenge: requires an unused exchange, as the code asserts.  SHA-1, modular exponentiation and random bytes are a function, mathematics and parameters.
- Accounts, builds, realms and character counts are plain maps and sequences; SQL text, the MySQL classes and the refresh of the realm list are left out.
- Boost.Asio (sockets, acceptor, resolver, timers, signals) appears only through the results of its operations.
- Logging, start-up code, the World server's session, build scripts and database scripts are left out.
- Converting byte order, looking up build names and turning enumerations into text are left out.
