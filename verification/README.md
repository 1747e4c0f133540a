# A model of the Intel QuickAssist driver

This project models the parts of the QuickAssist (QAT) Linux driver that carry its hardest promises, and proves them:

- **Data plane requests.** `DataPlane` is the protocol as a state machine over the steps of the client, the driver and
  the device; its theorems hold for every run. `QueuePair` is the driver's code on the two rings it shares with the
  device: slots in arrays, shadow and written tails, the empty mark, the shared in-flight counter, coalesced head
  writes, per-session counters. Every call is proved to take the memory from one state of a run to another, so the
  theorems about runs carry over to the memory (`QueuePair.Pair.CallbacksOfSession`), in every accepted configuration
  but the largest, where the exact condition is that the ring has not been overrun (`QueuePair.Pair.ValidIff`). `RingSize` sizes the rings.
- **Messages in parts.** `BlockModes` has the CBC and CTR modes of NIST SP 800-38A (sections 6.2 and 6.5) over an
  arbitrary block cipher and proves that parts with a carried state are the whole. `PartialSession` is the session's
  request queue and state buffer, and proves that in every run in which no queued message is taken exactly at the last
  retry, whatever the interleaving, a message sent in parts comes out as one packet would.
- **Public key arithmetic.** `Rsa` (PKCS #1 v2.1, sections 3.2, 5.1.1 and 5.1.2) and `Dsa` (FIPS 186-3, sections 4.6 and
  4.7, Appendices A.1.1.2 and A.2.1), on `NumberTheory` (Euclid's lemma, Fermat's little theorem, the two-prime Chinese
  Remainder Theorem, all proved here) and `LargeNumber` (octet strings and the driver's comparison of them).
- **Memory.** `MemSlab` is the user-space slab allocator: a bitmap searched through a sliding 64-bit window.
- **Formats and the compatibility layer.** `Ccm` (NIST SP 800-38C, Appendix A.2), `Kstrto` and `HexDump` (parsing,
  printing, and that they are inverse), `Registry`, `AuthencKeys`, `Msix`, `BitOps`.

`dafny verify dfyconfig.toml` checks everything.

## Where code and documentation differ

The model follows the code, or the equations where there is no code, and says exactly when the promise holds.

- The DSA header gives p < X; the equations give p = X + 1 or p = X when X mod 2q is 0 or 1 (`Dsa.CandidateBelowXIff`).
- The RSA header allows messages from 0 to n - 1; the driver refuses 0 (`Rsa.EncryptCheck`,
  `Rsa.ZeroMessageRefused`).
- A response quota of zero is documented as reading all messages; the code stops after 10000, which leaves some if and
  only if more came (`QueuePair.Pair.Poll`, `QueuePair.QuotaFallsShort`).
- The header presents a batch as several enqueues; it is refused as a whole where singles would be accepted in part
  (`DataPlane.BatchIsSinglesIff`, `DataPlane.BatchDiffers`).
- A queued request taken by the ring at the last permitted attempt is sent and also kept queued
  (`PartialSession.DrainConservesIff`); if it is a part, the message can come out wrong (`PartialSession.LateRun`). A drain
  given up on, or a part whose response is bad, leaves the session accepting requests and never sending one
  (`PartialSession.Session.ProcessCallback`).
- 65536 concurrent requests are accepted, but a ring is at most 4 MB, which is 32768 requests of 128 octets; nothing
  compares the two (`RingSize.RingSlots`, `QueuePair.SymInit`). There, requests enqueued to be submitted later are
  not submitted by cpaCySymDpPerformOpNow when they are a multiple of 32768, against the header
  (`QueuePair.Pair.PerformOpNow`, `QueuePair.NothingSubmitted`); an accepted request can overwrite one not yet read
  (`QueuePair.Overrun`); and an accepted batch can be invisible to the device (`QueuePair.BatchUnseen`). Every other
  accepted configuration is free of this (`DataPlane.RingHoldsIff`, `QueuePair.Pair.ValidIff`).
- The total size of a ring is computed on 32 bits (`RingSize.ValidateRingSize`), though a total that does not fit them
  takes more messages than any caller asks for. Messages of some accepted sizes run over the ring's end
  (`RingSize.NeverStraddlesIff`).
- Initialising a session that is owed callbacks is not refused, and loses count of them (`QueuePair.Pair.InitSession`);
  its removal then succeeds, and callbacks follow it (`QueuePair.Pair.InitThenRemove`, `QueuePair.RemovedTooSoon`).
- The check of a private key's second representation refuses generated keys with e equal to 1 modulo p-1 or q-1
  (`Rsa.GeneratedKeyAccepted`).
- The large-number comparison calls numbers equal whose difference is a nonzero multiple of 256 to the longer length;
  with the deltas of the modelled checks that happens only against a number that is zero
  (`LargeNumber.CompareCorrectIff`, `LargeNumber.ComparePredecessor`).
- Freeing memory that is not allocated clears whatever blocks the last size recorded there covers
  (`MemSlab.StaleFreeHarmlessIff`, `MemSlab.StaleFreeRun`).

## What is assumed of the surroundings

- The device fetches submitted requests in order and answers those of one session in order; across sessions it is
  free, and it may act at any point of a poll. No response looks like the empty mark.
- The ring below a partial-packet session takes each message at some attempt or never; which is a parameter.
- Kernel calls (`crypto_register_alg`, `crypto_unregister_alg`, `pci_enable_msix`, `find_next_bit`, the `RTA_` macros)
  are small contracts of their own; what the kernel refuses or answers is a parameter.
- Each driver call is taken as one step with respect to other callers, as its locks or its contract provide.

## Model

| member | source | states |
|---|---|---|
| `DataPlane.StepKeeps` | quickassist/include/lac/cpa_cy_sym_dp.h:789-831 | Every step of the client, the driver or the device (initialise, remove, enqueue, submit, fetch, answer, callback, end of poll) keeps the protocol invariant: the counts agree, answers are distinct, each session is answered in order, and whatever is owed a callback belongs to a live session |
| `DataPlane.RunKeeps` | quickassist/include/lac/cpa_cy_sym_dp.h:789-831 | The same for every run, by induction over its steps |
| `DataPlane.ExactlyOnePlace` | quickassist/include/lac/cpa_cy_sym_dp.h:816-831 | In every run the accepted requests are partitioned into enqueued, submitted and called back; none is called back twice; and enqueued plus submitted are what the in-flight counter counts once a poll has ended |
| `DataPlane.PrefixOfSession` | quickassist/include/lac/cpa_cy_sym_dp.h:793-794 | If nothing is answered before its predecessors in its own session, a session's answers are a prefix of its requests |
| `DataPlane.CallbacksInOrder` | quickassist/include/lac/cpa_cy_sym_dp.h:789-794 | In every run, under any interleaving of sessions, the callbacks of a session are a prefix of its requests in the order they were accepted |
| `DataPlane.NoCallbackAfterRemoval` | quickassist/include/lac/cpa_cy_sym_dp.h:723-729 | In every run, a callback about to be made belongs to a session that is initialised and not removed since |
| `DataPlane.DrainedOwesNothing` | quickassist/lookaside/access_layer/src/common/crypto/sym/lac_sym_api.c:750-771 | When everything submitted has been answered and called back, no session is owed anything, so removal will succeed |
| `DataPlane.DeviceCanAnswer` | quickassist/include/lac/cpa_cy_sym_dp.h:789-794 | In every run, if the device has fetched a request it has not answered, some request is next in its session, so answering in order never leaves it stuck |
| `DataPlane.ReachBacklog` | quickassist/lookaside/access_layer/src/qat_direct/src/adf_user_ETring_mgr_dp.c:96-103 | For every number below the limit there is a run after which that many responses wait to be polled |
| `DataPlane.RingHoldsIff` | quickassist/lookaside/access_layer/src/qat_direct/src/adf_user_ETring_mgr_dp.c:96-111 | In every run what the device has not fetched fits a ring, and what it was told of can be told from nothing, if and only if the limit on requests in flight is within the slots; nothing is ever overwritten if and only if the limit is at most one more than the slots |
| `DataPlane.SinglesDeferred` | quickassist/lookaside/access_layer/src/common/crypto/sym/lac_sym_dp.c:862-917 | Deferred single enqueues accept the first requests up to the room there is, in order, and refuse the rest |
| `DataPlane.BatchIsSinglesIff` | quickassist/include/lac/cpa_cy_sym_dp.h:120-140 | A batch reaches the state of as many single enqueues, the last carrying the flag, if and only if the whole batch fits or not even one request does; it succeeds if and only if it fits |
| `DataPlane.BatchDiffers` | quickassist/lookaside/access_layer/src/common/crypto/sym/lac_sym_dp.c:1007-1015 | A run on a ring of 64 messages to a state with room for one request, where a batch of two is refused and the first of two singles accepted |
| `DataPlane.PlacementIrrelevant` | quickassist/include/lac/cpa_cy_sym_dp.h:973-977 | Wherever perform-now flags are placed among uninterrupted enqueues, one last perform-now leaves the same state |
| `DataPlane.SubmittedByAnyRun` | quickassist/include/lac/cpa_cy_sym_dp.h:973-977 | Whatever polls, device steps, removals and submissions lie between, any two runs that accept the same requests and end with nothing left to submit have submitted the same requests in the same order |
| `QueuePair.Put` | quickassist/lookaside/access_layer/src/qat_direct/src/adf_user_ETring_mgr_dp.c:105-111 | A message written at the tail of a ring with room overwrites no message still to be read |
| `QueuePair.Take` | quickassist/lookaside/access_layer/src/qat_direct/src/adf_user_ETring_mgr_dp.c:193-202 | Marking the slot under the head empty and advancing it leaves every other message in place and every free slot marked |
| `QueuePair.EmptyMark` | quickassist/lookaside/access_layer/src/qat_direct/src/adf_user_ETring_mgr_dp.c:186-191 | The slot under the head carries the empty mark if and only if every response written has been called back |
| `QueuePair.SlotsDifferIff` | quickassist/lookaside/access_layer/src/qat_direct/src/adf_user_ETring_mgr_dp.c:109-111 | Two positions stand at the same slot if and only if they lie a whole number of rings apart |
| `QueuePair.TailTells` | quickassist/lookaside/access_layer/src/qat_direct/src/adf_user_ETring_mgr_dp.c:246-254 | On every ring the shadow tail differs from the written one if and only if the number of requests enqueued and not submitted is not a multiple of the slots |
| `QueuePair.TailTellsAll` | quickassist/lookaside/access_layer/src/qat_direct/src/adf_user_ETring_mgr_dp.c:246-254 | With no more in flight than there are slots, that is: if and only if some request is enqueued and not submitted |
| `QueuePair.TailFooled` | quickassist/lookaside/access_layer/src/qat_direct/src/adf_user_ETring_mgr_dp.c:246-254 | A run with the limit of the largest configuration after which 32768 requests wait, none is submitted, and the two tails stand at the same of 32768 slots |
| `QueuePair.FetchKeeps` | quickassist/lookaside/access_layer/src/qat_direct/src/adf_user_ETring_mgr_dp.c:105-111 | What the device reads at its own position is the request accepted under that number, unaltered |
| `QueuePair.OutstandingAfterEnqueue` | quickassist/lookaside/access_layer/src/common/crypto/sym/lac_sym_dp.c:907-909 | Accepting a request adds one to what its own session is owed and nothing to any other |
| `QueuePair.OutstandingAfterCallback` | quickassist/lookaside/access_layer/src/common/crypto/sym/lac_sym_cb.c:391-408 | A callback takes one from what its own session is owed and nothing from any other |
| `QueuePair.PollEndHead` | quickassist/lookaside/access_layer/src/qat_direct/src/adf_user_ETring_mgr_dp.c:210-231 | Whether the head is written or held back, its lag and the coalescing counter still add up to the configured number |
| `QueuePair.Pair.constructor` | quickassist/lookaside/access_layer/src/qat_direct/src/uio_user_ring.c:332-362 | For every accepted configuration, rings as validateRingSize makes them: as many response slots as messages, as many request slots unless 65536 were asked for, when there are 32768; one message fewer in flight than was asked for, two fewer in a batch; and the start of the protocol |
| `QueuePair.Pair.ValidIff` | quickassist/lookaside/access_layer/src/qat_direct/src/adf_user_ETring_mgr_dp.c:96-111 | After any of the driver's own calls the memory is a state of the protocol if and only if the request ring has not been overrun, and it never is if no more can be in flight than it has slots |
| `QueuePair.SymInit` | quickassist/lookaside/access_layer/src/common/ctrl/sal_crypto.c:1452-1467 | Rings are made if and only if the number is a power of two from 64 to 65536, and have a slot for all that can be in flight if and only if it is not 65536 |
| `QueuePair.NothingSubmitted` | quickassist/lookaside/access_layer/src/common/crypto/sym/lac_sym_dp.c:936-941 | On rings of 65536 messages, a run of 32768 deferred enqueues and cpaCySymDpPerformOpNow, after which nothing has been submitted |
| `QueuePair.Overrun` | quickassist/lookaside/access_layer/src/qat_direct/src/adf_user_ETring_mgr_dp.c:96-111 | One more enqueue is then accepted, with 32769 requests unread on 32768 slots, and the slot where the device will read the first request holds the last |
| `QueuePair.BatchUnseen` | quickassist/lookaside/access_layer/src/common/crypto/sym/lac_sym_dp.c:1007-1030 | On the same rings a batch of 32768 to be performed now succeeds, and the tail the device is told is the one it had |
| `QueuePair.Pair.CallbacksOfSession` | quickassist/include/lac/cpa_cy_sym_dp.h:789-794 | In every state of the memory, overrun or not, the callbacks the client has had from a session are a beginning of the requests accepted for it |
| `QueuePair.SessionCallbacks` | quickassist/include/lac/cpa_cy_sym_dp.h:789-794 | The same for every run of the protocol, as requests rather than numbers |
| `QueuePair.Pair.QueueDataToSend` | quickassist/lookaside/access_layer/src/qat_direct/src/adf_user_ETring_mgr_dp.c:246-254 | Answers whether what waits is not a multiple of the slots; with no more in flight than slots, whether anything waits |
| `QueuePair.Pair.UpdateQueueTail` | quickassist/lookaside/access_layer/src/qat_direct/src/adf_user_ETring_mgr_dp.c:138-147 | Takes exactly the submit step, on every ring |
| `QueuePair.Pair.InitSession` | quickassist/lookaside/access_layer/src/common/crypto/sym/lac_sym_api.c:641-705 | Clears the session's counter with its descriptor; the counters are right afterwards if and only if the session was owed no callback |
| `QueuePair.Pair.InitThenRemove` | quickassist/lookaside/access_layer/src/common/crypto/sym/lac_sym_api.c:748-771 | In every state with a response waiting for a session, initialising that session lets the removal succeed, and the response is still there to be called back |
| `QueuePair.RemovedTooSoon` | quickassist/lookaside/access_layer/src/common/crypto/sym/lac_sym_api.c:748-771 | A run to such a state: a session is removed with its callback still to come |
| `QueuePair.Pair.WriteMessage` | quickassist/lookaside/access_layer/src/common/crypto/sym/lac_sym_dp.c:1017-1025 | Takes exactly the enqueue step, for a request whose room has been reserved, on every ring |
| `QueuePair.Pair.EnqueueOp` | quickassist/lookaside/access_layer/src/common/crypto/sym/lac_sym_dp.c:862-917 | On every ring, overrun or not: malformed is InvalidParam, no room is Retry, and neither changes anything at all; otherwise the request is last, and submitted if asked; the memory is again a state of the protocol if and only if the ring is not overrun |
| `QueuePair.Pair.EnqueueOpBatch` | quickassist/lookaside/access_layer/src/common/crypto/sym/lac_sym_dp.c:948-1033 | The same for a batch, all or none; an empty, too long or partly malformed batch is InvalidParam |
| `QueuePair.Pair.PerformOpNow` | quickassist/lookaside/access_layer/src/common/crypto/sym/lac_sym_dp.c:919-946 | Submits everything accepted, unless what waits is a multiple of the slots, when it submits nothing; with no more in flight than slots, everything accepted is submitted in every state |
| `QueuePair.Pair.RemoveSession` | quickassist/lookaside/access_layer/src/common/crypto/sym/lac_sym_api.c:748-809 | Succeeds if and only if the session's counter is zero, that is if and only if it is owed no callback unless it was initialised when it was; otherwise asks for a retry, and what was accepted has been submitted as by cpaCySymDpPerformOpNow |
| `QueuePair.Pair.ProcessResponse` | quickassist/lookaside/access_layer/src/qat_direct/src/adf_user_ETring_mgr_dp.c:193-207 | One turn of the poll loop is one callback step, for the request the response stands for |
| `QueuePair.Pair.FinishPoll` | quickassist/lookaside/access_layer/src/qat_direct/src/adf_user_ETring_mgr_dp.c:210-231 | Gives the polled room back; the device is told the head if and only if more was polled than the coalescing counter |
| `QueuePair.Pair.PollLoop` | quickassist/lookaside/access_layer/src/qat_direct/src/adf_user_ETring_mgr_dp.c:186-208 | Terminates though the device goes on answering; stops only when no response is left or the quota is used up |
| `QueuePair.Pair.Poll` | quickassist/lookaside/access_layer/src/qat_direct/src/adf_user_ETring_mgr_dp.c:173-238 | Callbacks only ever extend the log of callbacks, which is the responses in order; retry if and only if there was none; no more callbacks than the quota, or 10000 for quota zero, and fewer only if no response is left; the ring is drained if and only if no more responses came than the quota, always if no more requests were in flight than the quota, and never if more responses were waiting; the reported head lags by at most the configured number, so after a drain the device sees at least half the ring free |
| `QueuePair.QuotaFallsShort` | quickassist/lookaside/access_layer/src/qat_direct/src/adf_user_ETring_mgr_dp.c:181-191 | A run on rings of 16384 messages after which 10001 responses wait, of which a poll with quota zero must leave one unread |
| `RingSize.ValidateRingSize` | quickassist/lookaside/access_layer/src/qat_direct/src/uio_user_ring.c:47-91 | For every valid input the ring is sized for the total cut to 32 bits; it holds the messages if and only if they come to at most 4 MB or to exactly 4 GB |
| `RingSize.WrapExample` | quickassist/lookaside/access_layer/src/qat_direct/src/uio_user_ring.c:51-81 | Messages of a little over 4 GB, more than any caller asks for, get a ring of 1 KB, which does not hold them |
| `RingSize.ValidateConcurrRequest` | quickassist/lookaside/access_layer/src/common/ctrl/sal_ctrl_services.c:1417-1446 | Accepts exactly the powers of two from 64 to 65536 |
| `RingSize.RingSlots` | quickassist/lookaside/access_layer/src/qat_direct/src/uio_user_ring.c:47-91 | For every accepted number of messages of 32, 64 or 128 octets, the ring made has exactly that many slots, except for 65536 of 128 octets, which get 32768 |
| `RingSize.OffsetStep` | quickassist/lookaside/access_layer/src/qat_direct/src/adf_user_ETring_mgr_dp.c:109-111 | For every message size, each step of the tail leads to the offset of the next message |
| `RingSize.OffsetIsSlot` | quickassist/lookaside/access_layer/src/qat_direct/src/adf_user_ETring_mgr_dp.c:109-111 | When the message size divides the ring, the tail stands at slot position modulo slots |
| `RingSize.NeverStraddlesIff` | quickassist/lookaside/access_layer/src/qat_direct/src/uio_user_ring.c:57-91 | No message ever runs over the end of the ring if and only if the message size divides the ring size |
| `RingSize.FortyEightStraddles` | quickassist/lookaside/access_layer/src/qat_direct/src/uio_user_ring.c:57-58 | 48 is an accepted message size that divides no ring: on every ring some message runs over the end, and none of 64 or 128 octets does |
| `BlockModes.Split` | quickassist/include/lac/cpa_cy_sym.h:1493-1499 | For every mode that works block by block, processing a whole number of blocks and then the rest from the carried state is processing both at once |
| `BlockModes.PartsAreWhole` | quickassist/include/lac/cpa_cy_sym.h:1475-1499 | For every legal split of a message, the parts in order with the carried state give the output and the state of one full-packet operation |
| `BlockModes.CbcInverse` | quickassist/include/lac/cpa_cy_sym.h:789-790 | Cipher block chaining: decryption undoes encryption of whole blocks, for every cipher |
| `BlockModes.CounterInverse` | quickassist/include/lac/cpa_cy_sym.h:789-790 | Counter mode: applying it twice from the same counter gives the message back, whatever its length and however the counter advances |
| `BlockModes.CbcAnySplit` | quickassist/include/lac/cpa_cy_sym.h:1475-1499 | Cipher block chaining: what was encrypted under one legal split is recovered by decryption under any other |
| `BlockModes.CounterAnySplit` | quickassist/include/lac/cpa_cy_sym.h:1475-1499 | The same for counter mode, with no condition on the length of the message |
| `PartialSession.CurrentIsParts` | quickassist/include/lac/cpa_cy_sym.h:137-142 | The state a session carries, and what the parts so far gave, are those of processing these parts in order from the first one's vector |
| `PartialSession.MessageIsWhole` | quickassist/include/lac/cpa_cy_sym.h:1475-1480 | When the last part is processed, all that the parts gave is what one full packet would have given |
| `PartialSession.DrainConservesIff` | quickassist/lookaside/access_layer/src/common/crypto/sym/lac_sym_cb.c:494-568 | Draining the queue neither loses nor repeats a request if and only if no message it comes to is taken exactly at the last of the 10000 attempts; that one is sent and stays queued |
| `PartialSession.LateIsRepeated` | quickassist/lookaside/access_layer/src/common/crypto/sym/lac_sym_cb.c:555-564 | A queue of one full packet taken at attempt 10000 has gone and is left |
| `PartialSession.PromptDrain` | quickassist/lookaside/access_layer/src/common/crypto/sym/lac_sym_cb.c:494-574 | If every message is taken in time, the drain stops only at a part, which is the last to go, or when nothing is left |
| `PartialSession.GivenUp` | quickassist/lookaside/access_layer/src/common/crypto/sym/lac_sym_cb.c:555-564 | If it gives up, requests stay queued, nothing was sent whose completion would drain them, and the session is blocked exactly if it was a part that was given up on |
| `PartialSession.GiveUpKeeps` | quickassist/lookaside/access_layer/src/common/crypto/sym/lac_sym_cb.c:502-528 | Giving up keeps the session's books, though the vector of the part given up on is already in the state buffer |
| `PartialSession.DrainStalls` | quickassist/lookaside/access_layer/src/common/crypto/sym/lac_sym_cb.c:494-579 | A drain without a late send leaves a session that only queues from then on if and only if it is given up |
| `PartialSession.SendKeeps` | quickassist/lookaside/access_layer/src/common/crypto/sym/lac_sym_queue.c:154-192 | Sending the next request when no part is in flight keeps the session's books: the state buffer holds what the part needs, and at most one part is in flight |
| `PartialSession.RefusedKeeps` | quickassist/lookaside/access_layer/src/common/crypto/sym/lac_sym_queue.c:178-206 | A first part refused by the ring may leave its vector in the state buffer, and nothing depends on the buffer then |
| `PartialSession.ProcessKeeps` | quickassist/lookaside/access_layer/src/common/crypto/sym/lac_sym_cipher.c:154-199 | The device working on a request gives what the requests before it, taken in order, call for, and leaves the state the next part needs |
| `PartialSession.CompleteKeeps` | quickassist/lookaside/access_layer/src/common/crypto/sym/lac_sym_cb.c:252-278 | The vector handed back for a part is the state carried on from it |
| `PartialSession.MessageDelivered` | quickassist/include/lac/cpa_cy_sym.h:1475-1499 | Whenever the books are right, the outputs collected for the parts of a message sent are together what one full packet would have given |
| `PartialSession.Session.WholeDelivered` | quickassist/include/lac/cpa_cy_sym.h:1475-1499 | In every run without a late send, whatever full packets were interleaved, however the device scheduled the work and whether or not drains were given up, the outputs collected for the parts of an accepted message are together what one full packet would have given |
| `PartialSession.LateRun` | quickassist/lookaside/access_layer/src/common/crypto/sym/lac_sym_cb.c:558-564 | A run in which the second of three parts is taken at the last attempt: it goes out twice, four outputs come back for three parts, and the last part comes out wrong |
| `PartialSession.Session.constructor` | quickassist/lookaside/access_layer/src/common/crypto/sym/lac_sym_api.c:700-706 | A new session has nothing queued, sent or open |
| `PartialSession.PartialPacketStateCheck` | quickassist/lookaside/access_layer/src/common/crypto/sym/lac_sym_partial.c:88-117 | Accepts a part exactly unless it is a last part with no message open |
| `PartialSession.PartialPacketStateUpdate` | quickassist/lookaside/access_layer/src/common/crypto/sym/lac_sym_partial.c:119-136 | A message is open after a part and closed after a last part |
| `PartialSession.PutWithRetries` | quickassist/lookaside/access_layer/src/common/crypto/sym/lac_sym_cb.c:537-556 | The message is taken if and only if the ring takes it within 10000 attempts, and the number of attempts is reported |
| `PartialSession.Session.RequestSend` | quickassist/lookaside/access_layer/src/common/crypto/sym/lac_sym_queue.c:105-209 | Queued if the session is blocked or anything is queued, otherwise sent or refused as the ring decides, with exactly these effects in every state; a valid session stays valid, and is stalled if and only if it was |
| `PartialSession.Session.PerformOp` | quickassist/lookaside/access_layer/src/common/crypto/sym/lac_sym_api.c:937-975 | In every state, exactly the effects of refusing, queueing, sending or being refused; a valid session stays valid, a last part is then invalid if and only if no message is open, and it is stalled if and only if it was; a stalled session sends nothing |
| `PartialSession.Session.DeviceProcess` | quickassist/lookaside/access_layer/src/common/crypto/sym/lac_sym_cipher.c:150-199 | Any request on the ring may be processed next: a full packet from its own vector, a part from the state buffer, which it updates; a valid session stays valid |
| `PartialSession.Session.SendHead` | quickassist/lookaside/access_layer/src/common/crypto/sym/lac_sym_cb.c:494-568 | The head is sent if the ring takes it, and leaves the queue only if that took fewer than 10000 attempts; the books stay right unless it took exactly that many |
| `PartialSession.Session.PendingReqsDequeue` | quickassist/lookaside/access_layer/src/common/crypto/sym/lac_sym_cb.c:474-579 | In every state, what is sent, what stays queued, the blocking flag and the state buffer are those of the drain; the books stay right without a late send, given up or not |
| `PartialSession.Session.ProcessCallback` | quickassist/lookaside/access_layer/src/common/crypto/sym/lac_sym_cb.c:252-315 | A completed part hands back the vector, and drains the queue if its response is good; a valid session stays valid if and only if nothing is sent late, is then stalled if and only if the response was bad or the drain given up, and once stalled never sends anything again |
| `Dsa.CandidatePProperties` | quickassist/include/lac/cpa_cy_dsa.h:761-780 | For every X and q the candidate p is odd, is 1 modulo 2q, lies in X-2q+2 to X+1, and is the only such number there |
| `Dsa.CandidateBelowXIff` | quickassist/include/lac/cpa_cy_dsa.h:810-811 | The documented bound p < X holds if and only if X mod 2q is at least 2 |
| `Dsa.CandidateNotBelowX` | quickassist/include/lac/cpa_cy_dsa.h:810-811 | Two inputs, one per failing residue, for which the candidate is not below X |
| `Dsa.GenPExactly` | quickassist/include/lac/cpa_cy_dsa.h:761-780 | Success with a number if and only if it is the one 1 modulo 2q in the window of X, has L bits and passes the limited test; otherwise status false and zero |
| `Dsa.GenYSteps` | quickassist/include/lac/cpa_cy_dsa.h:945-949 | g^x mod p is 1 for x = 0 and takes one factor g per step |
| `Dsa.GenGIsPower` | quickassist/include/lac/cpa_cy_dsa.h:855-872 | Refused exactly outside 1 < h < p-1; otherwise g is h to the quotient of p-1 by q, and the status says it is not 1 |
| `Dsa.GenGMakesDomain` | quickassist/include/lac/cpa_cy_dsa.h:855-872 | For primes p and q with q dividing p-1 and every permitted h, g^q is 1 modulo p, the status is true exactly when g is usable, and then the order of g is exactly q |
| `Dsa.GenerationComposes` | quickassist/include/lac/cpa_cy_dsa.h:761-780 | Generating p and then g gives a usable domain whenever both report success and p is prime |
| `Dsa.SignatureOfNonce` | quickassist/include/lac/cpa_cy_dsa.h:1203-1220 | For every nonce, r is g^k mod p mod q and k s is z + x r modulo q, which no other s below q meets; refused exactly for values out of range; the status says neither is zero |
| `Dsa.TwoStepsOfNonce` | quickassist/include/lac/cpa_cy_dsa.h:1020-1032 | The same for r and s signed in two calls |
| `Dsa.TwoStepSigning` | quickassist/include/lac/cpa_cy_dsa.h:1020-1032 | Signing r and then s gives the pair, the refusals and the status of signing both at once |
| `Dsa.VerifyMeans` | quickassist/include/lac/cpa_cy_dsa.h:1295-1306 | For every public key: refused exactly for values out of range; otherwise compares r with g^u1 y^u2 mod p mod q for the u1, u2 that are z and r divided by s modulo q |
| `Dsa.VerifyValue` | quickassist/include/lac/cpa_cy_dsa.h:1295-1306 | The value verification computes is g to the nonce the signature implies |
| `Dsa.NonceEquation` | quickassist/include/lac/cpa_cy_dsa.h:1203-1211 | s comes from nonce k if and only if k is the nonce s implies |
| `Dsa.SignThenVerify` | quickassist/include/lac/cpa_cy_dsa.h:1203-1220 | Every signature that signing reports as good is accepted under y = g^x mod p |
| `Dsa.VerifyExactly` | quickassist/include/lac/cpa_cy_dsa.h:1295-1306 | Verification accepts a pair if and only if some nonce signs to it, or r is 1 and z + x is a multiple of q |
| `Rsa.DecryptEncrypt` | quickassist/include/lac/cpa_cy_rsa.h:366-412 | For every key pair and every value below n, decryption undoes encryption and encryption undoes decryption |
| `Rsa.Recombine` | quickassist/include/lac/cpa_cy_rsa.h:197-211 | The recombined value is below n, and is the one result modulo p and the other modulo q |
| `Rsa.RepresentationsAgree` | quickassist/include/lac/cpa_cy_rsa.h:161-211 | Both representations compute the same function on every input, multiples of p and q included, when neither reduced exponent is zero |
| `Rsa.RepresentationsDiffer` | quickassist/include/lac/cpa_cy_rsa.h:197-211 | When p-1 or q-1 divides d, some input below n tells the representations apart |
| `Rsa.RepresentationsAgreeIff` | quickassist/include/lac/cpa_cy_rsa.h:161-211 | The second representation is exact for every ciphertext if and only if neither p-1 nor q-1 divides the private exponent |
| `Rsa.GeneratedExponents` | quickassist/include/lac/cpa_cy_rsa.h:204-207 | Every key pair with odd primes meets that condition |
| `Rsa.KeyPairIff` | quickassist/include/lac/cpa_cy_rsa.h:204-207 | A key pair is: distinct primes, and e and d inverse modulo p-1 and modulo q-1 |
| `Rsa.PrimitiveSteps` | quickassist/include/lac/cpa_cy_rsa.h:366-412 | Encryption and decryption with the first representation multiply up as many factors modulo n as the exponent says |
| `Rsa.SecondRepresentation` | quickassist/include/lac/cpa_cy_rsa.h:197-211 | Decryption with the second representation is the only number below p q that is c^dP modulo p and c^dQ modulo q |
| `Rsa.GeneratedKeyWorks` | quickassist/include/lac/cpa_cy_rsa.h:366-412 | Both representations of every key pair with odd primes decrypt every encryption |
| `Rsa.ModulusCheck` | quickassist/lookaside/access_layer/src/common/crypto/asym/rsa/lac_rsa_p.h:91-109 | Finds the one operation size a modulus can have, and accepts it exactly when that is 64, 128, 192, 256, 384 or 512 octets and the modulus is odd and at least a quarter of the range of that size |
| `Rsa.FitsSize` | quickassist/lookaside/access_layer/src/common/crypto/asym/include/lac_pke_utils.h:307-330 | Whether the number, leading zeros dropped, fits that many octets |
| `Rsa.InputInRange` | quickassist/lookaside/access_layer/src/common/crypto/asym/rsa/lac_rsa_encrypt.c:400-409 | Accepts exactly the inputs above 0 and below the modulus |
| `Rsa.EncryptCheck` | quickassist/lookaside/access_layer/src/common/crypto/asym/rsa/lac_rsa_encrypt.c:354-415 | Accepts exactly: an odd modulus of one of the six sizes with one of its two top bits set, an odd exponent that fits it, an input above 0 and below the modulus, and room for the output |
| `Rsa.ZeroMessageRefused` | quickassist/lookaside/access_layer/src/common/crypto/asym/rsa/lac_rsa_encrypt.c:400-401 | At every size, a modulus and exponent with which the message 0 is refused and the message 1 accepted |
| `Rsa.Type2StdsCheck` | quickassist/lookaside/access_layer/src/common/crypto/asym/rsa/lac_rsa.c:184-234 | Accepts exactly 1 < dP < p-1, 1 < dQ < q-1 and 1 <= qInv < p, for buffers of any length |
| `Rsa.ProductPassesModulusCheck` | quickassist/lookaside/access_layer/src/common/crypto/asym/rsa/lac_rsa_p.h:91-109 | The product of any two accepted primes of half the size passes the modulus check |
| `Rsa.TopBitAloneWouldRefuse` | quickassist/lookaside/access_layer/src/common/crypto/asym/rsa/lac_rsa_p.h:94-101 | Two primes with their top bit set whose product has not: asking for the top bit alone would be too strict |
| `Rsa.TopBitAtEverySize` | quickassist/lookaside/access_layer/src/common/crypto/asym/rsa/lac_rsa_p.h:94-101 | The same at every modulus size, for odd numbers the factor check takes |
| `Rsa.CiphertextAccepted` | quickassist/lookaside/access_layer/src/common/crypto/asym/rsa/lac_rsa_encrypt.c:400-409 | The ciphertext of an accepted message is never 0, so it is accepted in turn |
| `Rsa.BufferRoundTrip` | quickassist/include/lac/cpa_cy_rsa.h:366-412 | From buffers to buffers: an accepted message is encrypted into an output buffer, the result is acceptable, and either representation restores the input octet for octet |
| `Rsa.CheckedKeyIsExact` | quickassist/lookaside/access_layer/src/common/crypto/asym/rsa/lac_rsa.c:184-234 | Buffers holding the second representation of a private exponent, leading zeros and all, that pass the check decrypt every ciphertext as the first representation does |
| `Rsa.GeneratedKeyAccepted` | quickassist/lookaside/access_layer/src/common/crypto/asym/rsa/lac_rsa.c:184-234 | Buffers holding the second representation of a key pair with odd primes pass the check if and only if neither reduced private exponent is 1, equivalently if and only if e is not 1 modulo p-1 or q-1; always, if 1 < e < p-1 and e < q-1 |
| `NumberTheory.InverseUnique` | quickassist/include/lac/cpa_cy_ln.h:355-360 | Whatever the modulus, a number has at most one inverse below it |
| `LargeNumber.Encode` | quickassist/include/lac/cpa_cy_ln.h:95-104 | A number is written if and only if the buffer is large enough, and reading it back gives the number |
| `LargeNumber.EncodeValue` | quickassist/include/lac/cpa_cy_ln.h:99-104 | Reading a buffer and writing the number into a buffer of that size restores it |
| `LargeNumber.LeadingZeros` | quickassist/include/lac/cpa_cy_ln.h:102-104 | Leading zero octets never change the value |
| `LargeNumber.ValueInjective` | quickassist/include/lac/cpa_cy_ln.h:99-104 | Buffers of one length holding one number are equal |
| `LargeNumber.GetMinBytes` | quickassist/lookaside/access_layer/src/common/crypto/asym/pke_common/lac_pke_utils.c:202-214 | The octets left without leading zeros: the most significant one is where the header says, and the value is bounded on both sides by their number |
| `LargeNumber.GetBitLen` | quickassist/lookaside/access_layer/src/common/crypto/asym/pke_common/lac_pke_utils.c:263-297 | The bit length, refused if and only if the number needs more than 4096 bits |
| `LargeNumber.Compare` | quickassist/lookaside/access_layer/src/common/crypto/asym/pke_common/lac_pke_utils.c:128-178 | The sign of the difference of two numbers with deltas, except that a difference that is a multiple of 256 to the longer length reads as equality |
| `LargeNumber.CompareSignIs` | quickassist/lookaside/access_layer/src/common/crypto/asym/pke_common/lac_pke_utils.c:128-178 | What each of the three answers of the comparison means |
| `LargeNumber.CompareCorrectIff` | quickassist/lookaside/access_layer/src/common/crypto/asym/pke_common/lac_pke_utils.c:128-178 | The comparison is right if and only if the difference is zero or no multiple of that power |
| `LargeNumber.CompareSignExact` | quickassist/lookaside/access_layer/src/common/crypto/asym/pke_common/lac_pke_utils.c:128-178 | With equal deltas it is right for all numbers |
| `LargeNumber.ComparePredecessor` | quickassist/lookaside/access_layer/src/common/crypto/asym/pke_common/lac_pke_utils.c:128-178 | Against b-1 it is right unless b is zero and a is all ones |
| `LargeNumber.CompareReportsEqual` | quickassist/lookaside/access_layer/src/common/crypto/asym/pke_common/lac_pke_utils.c:128-178 | One-octet numbers whose difference of 256 reads as equality |
| `LargeNumber.CompareZero` | quickassist/lookaside/access_layer/src/common/crypto/asym/pke_common/lac_pke_utils.c:180-200 | The sign of a number plus a delta |
| `Kstrto.OverflowTest` | quickassist/qat/compat/qat_compat.c:56-58 | The test before the multiplication fires if and only if the result would exceed 64 bits |
| `Kstrto.DetectBase` | quickassist/qat/compat/qat_compat.c:28-38 | A given base is kept; for base 0, 16 after 0x and a hexadecimal digit, else 8 after a zero, else 10; the digits start behind a prefix in base 16 and at the front otherwise |
| `Kstrto.KstrtoullRaw` | quickassist/qat/compat/qat_compat.c:23-67 | The loop gives the judgement of the whole text: value, range error or malformed, decided by the longest run of good digits |
| `Kstrto.ParseOkIff` | quickassist/qat/compat/qat_compat.c:23-67 | Success with value v if and only if, after base detection and one optional prefix, the text is a nonempty run of digits below the base that denotes v, at most one final newline, and v fits 64 bits |
| `Kstrto.ParseRangeIff` | quickassist/qat/compat/qat_compat.c:54-57 | Range error -34 if and only if some leading run of good digits already exceeds 64 bits, whatever follows; the only other error is -22 |
| `Kstrto.AutoBase` | quickassist/qat/compat/qat_compat.c:28-36 | Detecting the base gives what being told it would |
| `Kstrto.AutoDecimal` | quickassist/qat/compat/qat_compat.c:28-36 | Text that does not start with a zero is parsed as in base 10 |
| `Kstrto.AutoOctal` | quickassist/qat/compat/qat_compat.c:28-36 | Text that starts with a zero not followed by x and a hexadecimal digit is parsed as in base 8 |
| `Kstrto.AutoHex` | quickassist/qat/compat/qat_compat.c:28-38 | In base 16 exactly one prefix is dropped, and a prefix with a hexadecimal digit behind it announces that base |
| `Kstrto.GivenBase` | quickassist/qat/compat/qat_compat.c:23-67 | In a given base the whole text but for a prefix in base 16 is digits of that base and at most one newline, and a value above 64 bits is a range error |
| `Kstrto.PlusSign` | quickassist/qat/compat/qat_compat.c:69-74 | One plus sign in front is dropped, in every base |
| `Kstrto.DigitsByName` | quickassist/qat/compat/qat_compat.c:42-52 | 0 to 9 and a to f in either case stand for their place, and nothing else is a digit |
| `Kstrto.Kstrtoull` | quickassist/qat/compat/qat_compat.c:69-74 | An optional plus sign is skipped; the result is stored on success and left alone on error |
| `Kstrto.KstrtoulNarrow` | quickassist/qat/compat/qat_compat.c:76-88 | The wide result if it fits, a range error if it does not, the same errors otherwise, the result cell left alone on any error |
| `Kstrto.Kstrtoul` | quickassist/qat/compat/qat_compat.h:184-196 | The direct path and the narrowing path agree for either width |
| `Kstrto.Kstrtouint` | quickassist/qat/compat/qat_compat.c:90-102 | The same for 32 bits |
| `Kstrto.ParseHex` | quickassist/qat/compat/qat_compat.c:23-74 | Hexadecimal digits of a number, at any width that holds it, parse back to it |
| `HexDump.SeqHexDump` | quickassist/qat/compat/qat_compat.c:336-354 | Appends to the text exactly the rows of eight words behind their addresses |
| `HexDump.DumpFields` | quickassist/qat/compat/qat_compat.c:343-353 | The fields of the text are the labels and the words, each at its place |
| `HexDump.RoundTrip` | quickassist/qat/compat/qat_compat.c:336-354 | Reading the fields back with the parsers gives every word in order, and row j the buffer address plus 32 j; words are eight digits and capitals, addresses sixteen digits and small letters |
| `HexDump.DumpLines` | quickassist/qat/compat/qat_compat.c:343-353 | One line for an empty buffer, otherwise one for every eight words begun; line j holds label j and words 8 j to 8 j + 7, and every line but the last is full |
| `MemSlab.BitmapRead` | quickassist/utilities/libusdm_drv/linux/user_space/qae_mem_utils.c:228-259 | The 64 bits from any position, across two words; all ones from the barrier on |
| `MemSlab.SetBitmap` | quickassist/utilities/libusdm_drv/linux/user_space/qae_mem_utils.c:332-360 | Sets exactly the bits of the range, across any number of words |
| `MemSlab.ClearBitmap` | quickassist/utilities/libusdm_drv/linux/user_space/qae_mem_utils.c:293-323 | Clears exactly the bits of the range |
| `MemSlab.AlignUp` | quickassist/utilities/libusdm_drv/linux/user_space/qae_mem_utils.c:372-468 | The least aligned position from a position on |
| `MemSlab.FindBlocks` | quickassist/utilities/libusdm_drv/linux/user_space/qae_mem_utils.c:372-468 | Finds the lowest aligned run of free blocks if there is one, and nothing only if there is none |
| `MemSlab.Skip` | quickassist/utilities/libusdm_drv/linux/user_space/qae_mem_utils.c:372-468 | No position the search jumps over can start a fit |
| `MemSlab.AllocKeeps` | quickassist/utilities/libusdm_drv/linux/user_space/qae_mem_utils.c:372-468 | Taking a fit overlaps no live allocation and keeps the bitmap exact |
| `MemSlab.FreeKeeps` | quickassist/utilities/libusdm_drv/linux/user_space/qae_mem_utils.c:474-530 | Giving back a live allocation keeps the bitmap exact |
| `MemSlab.StaleFreeHarmlessIff` | quickassist/utilities/libusdm_drv/linux/user_space/qae_mem_utils.c:474-530 | Freeing an address that is not live leaves the bitmap exact if and only if every block it clears was already free |
| `MemSlab.StaleFreeRun` | quickassist/utilities/libusdm_drv/linux/user_space/qae_mem_utils.c:511-525 | A run on a new slab after which a second free of one address marks a block of a live allocation free |
| `MemSlab.AllocFreeRestores` | quickassist/utilities/libusdm_drv/linux/user_space/qae_mem_utils.c:372-530 | Allocating and freeing restores the bitmap bit for bit |
| `MemSlab.Slab.constructor` | quickassist/utilities/libusdm_drv/linux/user_space/qae_mem_utils.c:565-577 | A new slab has exactly its control blocks reserved, and a barrier at the end |
| `MemSlab.Slab.MemAlloc` | quickassist/utilities/libusdm_drv/linux/user_space/qae_mem_utils.c:372-468 | First fit: the lowest aligned run; refused if and only if the size is 0 or nothing fits; a refusal changes nothing; the octets asked for lie in the blocks taken, as few as will do, inside the slab behind the control blocks, and meet no block of any other live allocation |
| `MemSlab.Slab.MemFree` | quickassist/utilities/libusdm_drv/linux/user_space/qae_mem_utils.c:474-530 | Clears exactly the recorded length at that block if it stays inside the slab; frees what was allocated there; ignores an address that is not on a block boundary |
| `Ccm.DecodeFormat` | quickassist/include/lac/cpa_cy_sym.h:899-922 | A reader that knows only the octets recovers tag length, nonce, message length and associated data from the formatted blocks, which are whole blocks (NIST SP 800-38C, Appendix A.2) |
| `Ccm.DecodeIff` | quickassist/include/lac/cpa_cy_sym.h:899-922 | For every permitted request, octets read as that request if and only if they start with its format, reserved bit and padding included |
| `Ccm.FormatInjective` | quickassist/include/lac/cpa_cy_sym.h:899-922 | No two requests have the same blocks, and none has a beginning of another's |
| `Ccm.SetNonce` | quickassist/include/lac/cpa_cy_sym.h:948-951 | The nonce goes to octet 1 of both arrays and nothing else changes |
| `Ccm.SetAad` | quickassist/include/lac/cpa_cy_sym.h:963-965 | The data goes to octet 18 and nothing else changes |
| `Ccm.SetsCommute` | quickassist/include/lac/cpa_cy_sym.h:948-965 | Nonce and data may be set in either order, and the slots left for flags and lengths are not touched |
| `Ccm.CheckCcmData` | quickassist/lookaside/access_layer/src/common/crypto/sym/lac_sym_auth_enc.c:115-156 | Accepts exactly nonces of 7 to 13 octets that leave enough octets for the message length |
| `Ccm.LengthFieldValue` | quickassist/lookaside/access_layer/src/common/crypto/sym/lac_sym_auth_enc.c:198-212 | The octets written for the message length are that length, cut to the octets there are |
| `Ccm.WriteLength` | quickassist/lookaside/access_layer/src/common/crypto/sym/lac_sym_auth_enc.c:198-212 | Writes those octets behind the nonce and nothing else |
| `Ccm.PrepareCcmData` | quickassist/lookaside/access_layer/src/common/crypto/sym/lac_sym_auth_enc.c:163-239 | The array then starts with the format of what the client put there, the rest of it unchanged, and the other array with the first counter block |
| `Ccm.PreparedReadsBackIff` | quickassist/lookaside/access_layer/src/common/crypto/sym/lac_sym_auth_enc.c:146-153 | What was prepared reads back as what was asked for if and only if the length check would accept |
| `Registry.RollBack` | quickassist/qat/compat/qat_compat.c:119-121 | Unregisters each once, last first; the registry is as before if and only if no unregistration was refused |
| `Registry.CallsInOrder` | quickassist/qat/compat/qat_compat.c:107-138 | One call per element, in the order of the elements |
| `Registry.RegisterAlgs` | quickassist/qat/compat/qat_compat.c:107-124 | All registered, or the first refused one's error with those before it unregistered in reverse; the registry is then as before if and only if no unregistration was refused |
| `Registry.UnregisterAlgs` | quickassist/qat/compat/qat_compat.c:126-138 | Tries every element in order despite errors, returns 0, and removes all of them if none is refused |
| `Registry.RegisterThenUnregister` | quickassist/qat/compat/qat_compat.c:107-138 | Unregistering undoes a successful registration, and a failed one has undone itself, if no unregistration is refused |
| `AuthencKeys.ExtractKeys` | quickassist/qat/compat/qat_compat.c:286-313 | Succeeds if and only if the attribute is well formed and the encryption key fits what remains; the keys are adjacent and end with the blob if and only if the aligned attribute fits the blob |
| `AuthencKeys.OverrunExample` | quickassist/qat/compat/qat_compat.c:302-306 | A blob whose aligned attribute runs over its end: the subtraction wraps and the keys are not in the blob |
| `AuthencKeys.ExtractBuilt` | quickassist/qat/compat/qat_compat.c:286-313 | Any two keys put in a blob, with any extra attribute data and padding, are the keys taken out |
| `BitOps.RoundUpIsLeast` | quickassist/qat/compat/qat_compat.h:124-125 | For every word width and power of two, the least multiple from x on when it fits the word, 0 when it does not, x = 0 included |
| `BitOps.GenMaskBits` | quickassist/qat/compat/qat_compat.h:319-321 | The mask has exactly the bits l to h |
| `BitOps.ForEachSetBit` | quickassist/qat/compat/qat_compat.h:126-129 | Visits every set bit below the size, once each, in increasing order |
| `BitOps.WalkGenMask` | quickassist/qat/compat/qat_compat.h:126-129 | Over a range mask it visits l, l + 1, up to h |
| `BitOps.Bitmap.constructor` | quickassist/include/cpa_types.h:232-233 | Enough words for the size, no bit set |
| `BitOps.Bitmap.Test` | quickassist/include/cpa_types.h:235-236 | Whether the bit is in the set the bitmap stands for |
| `BitOps.Bitmap.Set` | quickassist/include/cpa_types.h:243-244 | Adds the bit to the set, and changes no other |
| `BitOps.Bitmap.Clear` | quickassist/include/cpa_types.h:251-252 | Takes the bit out of the set, and changes no other |
| `Msix.EnableExact` | quickassist/qat/compat/qat_compat.h:334-351 | For every sequence of kernel answers: never positive, never asks for less than before, goes on exactly while offered at least what it asks for, asks once if only ever offered less, and on success has exactly the vectors wanted if and only if no more was ever offered |

## Left out

- Building of request descriptors, hashing and authentication state, XTS, KASUMI, SNOW 3G and ARC4 in partial packets: the session model has one carried cipher state.
- PartialSession.Session.ProcessCallback: a part whose response is bad has still been processed, as when a digest does not match; what a device that failed half way leaves in the state buffer is not modelled.
- adf_user_put_msg, the traditional request path on the ring: its effect on a session is the ring taking a message or not.
- Concurrency inside one driver call (locks, atomic counters) and enqueueing from within a data plane callback.
- QueuePair.Pair.EnqueueOp: the individual parameter checks are one flag of the request, because they are independent tests with no state.
- QueuePair.Pair.Poll: the request ring has not been overrun; what the device makes of slots overwritten before it read them is not modelled.
- QueuePair.Pair.FinishPoll: offsets are in messages rather than bytes (`RingSize.OffsetIsSlot` relates the two for message sizes that divide the ring), and the 32-bit counters do not wrap, because they are bounded by the ring.
- LargeNumber.Compare: the running difference is an unbounded integer where the code keeps 32 bits, which the octet steps never fill.
- Kstrto.KstrtoullRaw: the C string is the octets before its terminator; reading past the terminator is excluded by the model of `At`.
- HexDump.RoundTrip: pointers print as sixteen lower-case digits, and the loop counter does not overflow.
- MemSlab.FindBlocks: a shift by the full word width, undefined in C, gives zero, as the search needs.
- MemSlab.Slab.MemFree: clearing of freed memory, page tables, slab lists, hashing by address and huge pages are not part of the model.
- BitOps.GenMaskBits: a mask of all 64 bits is excluded, because the shift is then undefined in C.
- Ccm.CheckCcmData: the shift by 32 bits or more that the code computes and then ignores is not modelled.
- BlockModes.CounterAnySplit: how the counter advances is a parameter, because it is the device's.
- Dsa.GenP and the primality of p: the limited primality test is a parameter.
- RSA key generation, prime testing, Diffie-Hellman, elliptic curves, compression, random numbers and statistics: hardware or prototypes only.
- `kmalloc_array`, PCI configuration access and the remaining compatibility shims: they would only add easy members.
