# A model of yarf in Dafny

yarf is a C++ RPC toolkit. This project models the parts of it whose correctness is not visible from one
function, and proves what they promise. Each part is modelled in the form of its source: rings, pools,
channels and packers are classes and loops over arrays and maps, each proved against a function of the
values before; concurrent code is a step system with one step per access to shared memory, and its
results hold for every sequence of steps.

- **Ring** (`Bytes`, `Packet`, `RingLayout`, `RingQueue`, `RingProtocol`, `RingRuns`). One shared-memory
  ring between one sender and one receiver. `RingLayout` reads the bytes in two ways, as the receiver does and as
  packets laid end to end; `RingQueue` runs each operation to completion; `RingProtocol` interleaves both
  threads byte by byte; `RingRuns` shows that an operation run alone in the second is the one of the first.
- **Thread pool** (`ThreadPool`, `ThreadPoolCalls`). The mailbox protocol of the main thread and its workers,
  and what the main thread's calls return.
- **Linter** (`Brackets`, `Angles`, `Preprocessor`). The two bracket matchers over many lines, from real and
  from angle brackets, and the nesting stack's checkpoints at preprocessor conditionals.
- **Pools** (`FixedLenPool`, `HashPool`). The offset-based allocator and the chained hash table on it.
- **Channel** (`Channel`, `Wiring`). Receiving from many rings in turn, and how processes connect from
  one table.
- **Codec** (`ByteOrder`, `Codec`, `WireGrammar`, `BinPacker`). The generated binary Encode and Decode, as an interpreter
  of the generator's templates over a schema.

What the model takes as given:

- Memory is sequentially consistent; `volatile` is not studied further.
- A ring's capacity is above 48 and at most 2^31 bytes, so that no `uint32_t` sum wraps around
  (`RingLayout.SizesInCode`). The reserved bytes of a packet head, which the code leaves unset, are zero.
- Bodies of messages have at most 65528 bytes. `RingQueue.HandsBackIff` shows that this is the exact limit:
  beyond it one of the two 16-bit lengths in the head is cut.
- Requests and responses of the thread pool are not empty. `ThreadPoolCalls.EmptyRequestStrands` and
  `EmptyResponseStrands` show that either loses its worker for ever.
- `FixedLenPool::Deref` is the inverse of `Ref`, as its comment and all callers have it. As written it adds
  the position to a `Header*` and is scaled by 56; `FixedLenPool.DerefIsInverseIff` shows that the two
  forms agree at position 0 only. Keys of the hash pool are unsigned and bucket numbers fit an `int`.
- The host is little-endian. Shared segments are zeroed and their ids are handed out once.

Where properties turned out to hold only under a condition, the condition is stated with an
if-and-only-if: `RingQueue.HandsBackIff` (length of a body), `RingQueue.PassesForeverIff` and
`RingRuns.AnyNumberIff` (size of a packet against the capacity), `ThreadPool.RefusesIff` with
`ThreadPool.RefusalHappens` (a free worker may refuse a request), `FixedLenPool.DerefIsInverseIff`,
`Wiring.CrossConnected` (a channel to oneself), `Wiring.DeliveredIff` with `Wiring.MixedUp` (peers whose ids
agree in 32 bits), `Codec.RoundTripIff` (vectors of messages lose all but the first),
`Codec.DecodeAllWithinIff` with `Codec.LongStringTaken` (received strings are not compared with their maximum).

## Model

| member | source | states |
|---|---|---|
| `Packet.PackSize` | src/yarf/channel/unlock_queue.cc:60-67 | the packet takes a multiple of 8 bytes, at least head and body and less than 8 more |
| `Packet.PacketFields` | src/yarf/channel/channel_pack.h:24-44 | a packet that was written whole reads back its body, its length, its aligned size, its command and its sequence number |
| `Packet.LengthsFit` | src/yarf/channel/channel_pack.h:27-28 | both 16-bit lengths survive exactly for bodies of at most 65528 bytes |
| `Packet.SameHead` | src/yarf/channel/unlock_queue.cc:76-79 | only the low 32 bits of the message count reach the head |
| `RingLayout.SizesInCode` | src/yarf/channel/unlock_queue.cc:69-70 | for capacities up to 2^31 the `uint32_t` expressions with `%` are the cyclic distances that the rest of the model uses |
| `RingLayout.StepsCloser` | src/yarf/channel/unlock_queue.cc:140-191 | any packet the receiver accepts, even from corrupt bytes, brings head strictly nearer to tail, so decoding ends |
| `RingLayout.ForeignBytes` | src/yarf/channel/unlock_queue.cc:151-188 | which of the two errors GetNextPack answers to bytes that no Send wrote |
| `RingLayout.RunFrame` | src/yarf/channel/unlock_queue.cc:111-113 | packets laid end to end depend on their own bytes only |
| `RingLayout.RunAppend` | src/yarf/channel/unlock_queue.cc:111-113 | a packet written behind a run of packets extends the run by exactly its message |
| `RingLayout.TailSeen` | src/yarf/channel/unlock_queue.cc:143-148 | head equals tail exactly when no message is pending |
| `RingLayout.FirstPacket` | src/yarf/channel/unlock_queue.cc:151-188 | with any tail read since the first pending packet was published, both halves of GetNextPack succeed at that packet, across both wrap encodings |
| `RingLayout.TakeFirst` | src/yarf/channel/unlock_queue.cc:252-253 | moving head past the first packet leaves exactly the other pending messages |
| `RingLayout.DecodesPending` | src/yarf/channel/unlock_queue.cc:140-191 | reading packet after packet from head to tail gives the pending bodies in order with consecutive 32-bit numbers |
| `RingLayout.PlaceHasRoom` | src/yarf/channel/unlock_queue.cc:82-109 | if the free size is enough for the head as it is at the second read, the chosen place is clear of all pending packets and its end does not meet head |
| `RingLayout.PlaceIff` | src/yarf/channel/unlock_queue.cc:69-109 | both decisions are positive exactly when there is room behind the tail or at offset 0 |
| `RingLayout.RoomIsClear` | src/yarf/channel/unlock_queue.cc:82-109 | room at a place means that the packet fits there, covers no occupied byte and neither reaches over head nor ends at it |
| `RingLayout.WriteFree` | src/yarf/channel/unlock_queue.cc:104-112 | bytes outside the occupied part can be overwritten without changing any pending message |
| `RingLayout.Publish` | src/yarf/channel/unlock_queue.cc:113-115 | moving tail past a written packet appends exactly its message, at the tail or behind filler, and never makes the ring look empty |
| `RingLayout.PublishKeepsFirst` | src/yarf/channel/unlock_queue.cc:115-115 | a publish leaves the first packet where it is and keeps an older tail usable |
| `RingLayout.TakeKeepsRoom` | src/yarf/channel/unlock_queue.cc:252-253 | a move of head never shrinks the room or the free size that the sender has already checked |
| `RingProtocol.SenderKeeps` | src/yarf/channel/unlock_queue.cc:59-119 | every step of Send keeps the invariant and the first pending packet |
| `RingProtocol.ReceiverKeeps` | src/yarf/channel/unlock_queue.cc:140-256 | every access of Recv, Peek and Drop, the three reads of body_len included, keeps the invariant |
| `RingProtocol.InvInEveryRun` | src/yarf/channel/unlock_queue.cc:59-256 | the invariant holds after every interleaving |
| `RingProtocol.FifoInEveryRun` | src/yarf/channel/unlock_queue.cc:59-256 | in every interleaving from a reset queue, what was taken is a prefix of what was sent, byte for byte, and the bytes from head to tail decode to the rest with consecutive sequence numbers |
| `RingProtocol.NeverBroken` | src/yarf/channel/unlock_queue.cc:151-188 | in no interleaving does GetNextPack answer kChanPackInvalid or kUnexpect |
| `RingProtocol.SendSparesPending` | src/yarf/channel/unlock_queue.cc:69-115 | in every reachable state a step of Send writes no occupied byte, leaves head alone, and leaves a ring with pending packets, or one it published to, non-empty |
| `RingProtocol.PeekedPacketStays` | src/yarf/channel/unlock_queue.cc:193-230 | through any number of Sends the peeked packet keeps its place and its bytes and stays the one that Drop removes |
| `RingProtocol.RefusedWithoutRoom` | src/yarf/channel/unlock_queue.cc:69-94 | in every reachable state a step that answers kChanFull finds no room |
| `RingProtocol.AcceptedWithRoom` | src/yarf/channel/unlock_queue.cc:69-115 | in every interleaving a Send that begins with room is not refused: its message is on its way until it is published |
| `RingProtocol.RefusedForever` | src/yarf/channel/unlock_queue.cc:69-94 | an empty ring that refuses a packet size stays as it is in every continuation that sends that size only |
| `RingProtocol.SentAtMostOnce` | src/yarf/channel/unlock_queue.cc:69-94 | from a reset queue of less than twice a packet's size, that size is sent at most once, in every interleaving of sends and receives |
| `RingQueue.SendTo` | src/yarf/channel/unlock_queue.cc:59-119 | accepted exactly when there is room for the packet behind the tail or at offset 0, else kChanFull; the ring stays well formed |
| `RingQueue.AcceptsIff` | src/yarf/channel/unlock_queue.cc:69-94 | in bytes: accepted exactly when the packet fits at the tail or at 0 without covering an occupied byte, reaching over head or ending at it |
| `RingQueue.SendAppends` | src/yarf/channel/unlock_queue.cc:59-119 | an accepted Send appends its message to the queue, a refused one changes nothing |
| `RingQueue.RecvTakesFirst` | src/yarf/channel/unlock_queue.cc:232-256 | Recv returns the first message and removes exactly it; empty queue and short buffer are reported with no change |
| `RingQueue.PeekThenDropIsRecv` | src/yarf/channel/unlock_queue.cc:193-256 | Peek shows what Recv copies and Drop leaves what Recv leaves |
| `RingQueue.RefusesOnlyWhenTight` | src/yarf/channel/unlock_queue.cc:69-94 | a refusal means that occupied bytes plus twice the packet exceed the capacity |
| `RingQueue.RoundOnRing` | src/yarf/channel/unlock_queue.cc:59-256 | on any empty ring one Send and one Recv succeed or the Send is refused as the positions say; afterwards the ring is empty again at the computed position |
| `RingQueue.PassesForeverIff` | src/yarf/channel/unlock_queue.cc:84-94 | a message passes a reset queue any number of times, by Send and Recv in turn, exactly when twice its packet fits the buffer |
| `RingQueue.HandsBackIff` | src/yarf/channel/unlock_queue.cc:76-79 | a reset queue hands a body back and is empty again exactly when the body has at most 65528 bytes |
| `RingQueue.UnlockQueue.Send` | src/yarf/channel/unlock_queue.cc:59-119 | the in-place Send, in 32-bit arithmetic, is SendTo of the ring before |
| `RingQueue.UnlockQueue.GetNextPack` | src/yarf/channel/unlock_queue.cc:140-191 | the reads and checks in 32-bit arithmetic give the same answer as the specification |
| `RingQueue.UnlockQueue.Recv` | src/yarf/channel/unlock_queue.cc:232-256 | the in-place Recv is RecvFrom of the ring before |
| `RingQueue.UnlockQueue.Peek` | src/yarf/channel/unlock_queue.cc:193-210 | Peek hands out where the first body lies and how long it is, and changes nothing |
| `RingQueue.UnlockQueue.Drop` | src/yarf/channel/unlock_queue.cc:212-230 | the in-place Drop is DropFrom of the ring before |
| `RingQueue.CreateUnlockQueue` | src/yarf/channel/unlock_queue.cc:258-281 | memory that cannot hold both heads is refused with kArg; with reset the queue is empty, without it the queue goes on with the ring as it lies in memory |
| `RingRuns.SendAlone` | src/yarf/channel/unlock_queue.cc:59-119 | Send as steps of the sender alone ends with the ring, the answer and the record that SendTo gives, and is accepted exactly when there is room |
| `RingRuns.ReadAlone` | src/yarf/channel/unlock_queue.cc:193-256 | so do Recv, Peek and Drop as steps of the receiver alone, with RecvFrom, the first body's place and length, and DropFrom |
| `RingRuns.AnyNumberIff` | src/yarf/channel/unlock_queue.cc:69-94 | from a reset queue any number of packets of one size can be sent in some interleaving exactly when two of them fit the buffer; else none sends two |
| `RingRuns.StuckAfterOne` | src/yarf/channel/unlock_queue.cc:84-94 | a packet of more than half the buffer, sent and received once, leaves an empty ring that no continuation sends that size to again |
| `ThreadPool.TurnKeeps` | src/yarf/thread/thread_pool.cc:71-89 | every access of Run keeps the worker's part, touches no inbox it was not given and no outbox that waits to be fetched |
| `ThreadPool.StepKeeps` | src/yarf/thread/thread_pool.cc:39-164 | every access of the main thread or of any worker keeps the invariant |
| `ThreadPool.InvInEveryRun` | src/yarf/thread/thread_pool.cc:39-164 | the invariant holds after every interleaving |
| `ThreadPool.ExactlyOnce` | src/yarf/thread/thread_pool.cc:39-164 | each accepted request is processed once and in order, its response is fetched at most once with the right bytes, and a worker owes a response exactly while it is in the busy list or on its way there |
| `ThreadPool.NeverTogether` | src/yarf/thread/thread_pool.cc:48-84 | while a worker is inside Process the main thread copies neither into its inbox nor out of its outbox |
| `ThreadPool.GuardNeverSpins` | src/yarf/thread/thread_pool.cc:79-84 | the "should not happen here" loop is never entered and Process gets exactly the accepted request |
| `ThreadPool.BusyShown` | src/yarf/thread/thread_pool.cc:35-37 | IsBusy answers true exactly from before Process until the response is out and the inbox is clear |
| `ThreadPool.NoLostWakeUp` | src/yarf/thread/thread_pool.cc:48-76 | a worker blocked with a request has a token, unless the unlock is the main thread's next step |
| `ThreadPool.Sleeps` | src/yarf/thread/thread_pool.cc:71-76 | a worker without a request is blocked after at most four of its turns and stays so until it is woken |
| `ThreadPool.WorkersConserved` | src/yarf/thread/thread_pool.cc:124-164 | the free and the busy list together always hold the initial workers, each once |
| `ThreadPool.RefusesIff` | src/yarf/thread/thread_pool.cc:39-46 | a free worker refuses a request of legal size exactly while it has yet to zero its inbox length |
| `ThreadPool.RefusalHappens` | src/yarf/thread/thread_pool.cc:143-164 | such a refusal is reachable: the response can be fetched between the worker's last writes |
| `ThreadPool.Finishes` | src/yarf/thread/thread_pool.cc:71-89 | in every run a busy worker has its response fetched, or has come nearer to it by each of its own turns whatever all other threads did; after at most eight of its turns it can be fetched |
| `ThreadPool.PollFetches` | src/yarf/thread/thread_pool.cc:143-164 | in every run a poll that has not passed a response that fits its buffer fetches one within 3 * j + 5 accesses of the main thread, j being that worker's place in the busy list |
| `ThreadPoolCalls.FetchIsAnswer` | src/yarf/thread/thread_pool.cc:54-66 | on every event a response is recorded as fetched exactly when a call of the main thread ends by returning it, and it is that worker's next |
| `ThreadPoolCalls.PollAnswers` | src/yarf/thread/thread_pool.cc:143-164 | in every run a poll that is over has answered nothing and fetched nothing, or has returned the response to the last request of the one worker it fetched from |
| `ThreadPoolCalls.PollReturns` | src/yarf/thread/thread_pool.cc:143-164 | in every run a poll begun while a response that fits its buffer can be fetched is over within 3 * j + 5 accesses and has returned a response |
| `ThreadPoolCalls.PollAlone` | src/yarf/thread/thread_pool.cc:143-164 | with the workers standing still a poll returns the response of the first busy-list worker that is not busy and has one that fits, and nothing exactly when there is none |
| `ThreadPoolCalls.SubmitAnswers` | src/yarf/thread/thread_pool.cc:124-141 | in every run a Process call that is over has answered Ok and handed its request to the first free worker, once, or has answered kUnexpect and changed nothing |
| `ThreadPoolCalls.SubmitEnds` | src/yarf/thread/thread_pool.cc:39-52 | in every run it is over within five accesses, and accepted if the first free worker's inbox is clear and the request is not too long |
| `ThreadPoolCalls.StrandedForever` | src/yarf/thread/thread_pool.cc:71-89 | a busy-list worker with neither request nor response stays there and gives nothing, in every run |
| `ThreadPoolCalls.EmptyRequestStrands` | src/yarf/thread/thread_pool.cc:39-52 | an empty request is accepted and leaves its worker so |
| `ThreadPoolCalls.EmptyResponseStrands` | src/yarf/thread/thread_pool.cc:82-87 | so does an empty response |
| `Brackets.FindEndOfExpressionInLine` | cpplint.py:1466-1541 | the loop over one line with its stack is the character-by-character scan |
| `Brackets.FindStartOfExpressionInLine` | cpplint.py:1588-1662 | the leftward loop, with its skips, is the leftward scan |
| `Brackets.CloseExpression` | cpplint.py:1544-1585 | the loop over the lines is the forward match from the given place |
| `Brackets.ReverseCloseExpression` | cpplint.py:1665-1700 | the loop over the lines is the backward match from the given place |
| `Brackets.EndTurnPlain` | cpplint.py:1479-1538 | one character of the forward scan, begun at a real bracket, does what the plain matcher does up to tentative angle brackets |
| `Brackets.StartTurnPlain` | cpplint.py:1604-1660 | the same leftwards; a skipped character is never a bracket |
| `Brackets.CloseIsPlain` | cpplint.py:1544-1585 | begun at ( [ or {, CloseExpression gives what a matcher gives that ignores angle brackets, semicolons and operators |
| `Brackets.ReverseIsPlain` | cpplint.py:1665-1700 | begun at ) ] or }, so does ReverseCloseExpression |
| `Brackets.TurnUndone` | cpplint.py:1481-1515 | on stacks of real brackets the backward step undoes the forward step of the same character |
| `Brackets.CloseAndReverseAreInverse` | cpplint.py:1544-1700 | for every text and every opening bracket, CloseExpression answers a place exactly when ReverseCloseExpression from the closer before it answers that bracket |
| `Brackets.GetTextInside` | cpplint.py:4536-4551 | the text returned is what lies between the bracket and its match of the plain matcher, and None exactly when there is no match |
| `Angles.AfterOperatorIff` | cpplint.py:1490-1490 | the test for an operator name holds exactly for texts that end with the word operator and space |
| `Angles.StartsIff` | cpplint.py:1567-1568 | CloseExpression starts exactly at ( [ { or < that does not begin << or <= |
| `Angles.CloseIsMatching` | cpplint.py:1544-1585 | from every place, angle brackets included, CloseExpression answers what a matcher gives that counts the angle brackets of one level and passes over ( [ { groups by the plain matcher |
| `Angles.AngleMatch` | cpplint.py:1484-1528 | a match begun at a < that counts ends just behind a > that counts, in no arrow, shift or operator name |
| `Angles.ReverseIsMatching` | cpplint.py:1665-1700 | the same for ReverseCloseExpression and the leftward matcher |
| `Angles.AngleMatchBack` | cpplint.py:1609-1632 | a match begun at a > that counts starts at a < that is in no shift |
| `Angles.NotInverse` | cpplint.py:1613-1617 | from angle brackets the two directions are no inverse pair: in `<a >= b` the forward match ends at the > that the backward one takes for an operator |
| `Preprocessor.KindOfDirective` | cpplint.py:2424-2443 | a directive is recognized by its whole first word, whatever space surrounds the # and whatever follows the word |
| `Preprocessor.KindOfOther` | cpplint.py:2424-2443 | a line that is empty or begins with anything but # is no directive |
| `Preprocessor.NestingState.UpdatePreprocessor` | cpplint.py:2424-2457 | the update in place is the checkpoint step for the directive on the line |
| `Preprocessor.NestingState.Update` | cpplint.py:2469-2622 | first the directive, then the line's own effect on the stack |
| `Preprocessor.PpKeepsTrunk` | cpplint.py:2424-2457 | no directive changes the stack that counts, the one saved at the outermost open #else or else the current one |
| `Preprocessor.CheckpointsDeleteBranches` | cpplint.py:2424-2457 | for every sequence of lines, balanced or not, the stack that counts is the fold over exactly the lines outside #else and #elif branches |
| `Preprocessor.StackIsCurrent` | cpplint.py:2424-2457 | for every sequence of lines and at every line, inside branches too, the stack is the fold over the lines it comes from: an #else or #elif goes on from before its #if, an #endif from before the first #else of its conditional |
| `Preprocessor.BranchesDeleted` | cpplint.py:2413-2419 | for well-nested conditionals at any depth the stack afterwards is the fold over the text with those branches deleted, and no checkpoint is left |
| `FixedLenPool.DerefIsInverseIff` | include/yarf/memory/fixed_len_pool.h:86-94 | Deref as written undoes Ref at position 0 only |
| `FixedLenPool.CheckHeaderIff` | include/yarf/memory/fixed_len_pool.h:156-170 | of all headers CheckHeader accepts exactly those that a pool of the given shape can have |
| `FixedLenPool.CarveKeeps` | src/yarf/memory/fixed_len_pool.cc:49-52 | carving adds exactly one position to those that IsValidBlock accepts |
| `FixedLenPool.GiveKeeps` | include/yarf/memory/fixed_len_pool.h:187-190 | linking a used block keeps the free list acyclic and equal to the blocks whose link is not 0 |
| `FixedLenPool.TakeKeeps` | include/yarf/memory/fixed_len_pool.h:193-202 | so does taking the first block |
| `FixedLenPool.UsedCount` | include/yarf/memory/fixed_len_pool.h:156-202 | blocks handed out plus blocks listed as free are the carved blocks |
| `FixedLenPool.NodesApart` | include/yarf/memory/fixed_len_pool.h:60-66 | the bytes of every node handed out lie inside its block and within max_size, and two such nodes, with their links, never overlap |
| `FixedLenPool.FixedLenPool.constructor` | src/yarf/memory/fixed_len_pool.cc:14-43 | a new pool has no block and a valid header |
| `FixedLenPool.FixedLenPool.Attach` | src/yarf/memory/fixed_len_pool.cc:33-40 | attaching to used memory succeeds exactly for the shape it was created with |
| `FixedLenPool.FixedLenPool.Alloc` | src/yarf/memory/fixed_len_pool.cc:45-74 | returns a node that was not live, the last one given back or else the next one carved, cleared if asked for and else as it was left, and fails exactly when max_node nodes are live |
| `FixedLenPool.FixedLenPool.Free` | src/yarf/memory/fixed_len_pool.cc:76-93 | accepts exactly the live nodes; any other address, freed already, misaligned or outside, is rejected with no change |
| `HashPool.ChainDrop` | include/yarf/memory/hash_pool.h:197-218 | letting the link before a node take over its link removes exactly that node from the chain |
| `HashPool.PushKeeps` | include/yarf/memory/hash_pool.h:157-165 | a new node at the head of its bucket keeps chains acyclic, disjoint and in the right bucket, and adds exactly its key to the map |
| `HashPool.DropKeeps` | include/yarf/memory/hash_pool.h:197-218 | removing a node keeps them too, and removes exactly its key |
| `HashPool.Walk` | include/yarf/memory/hash_pool.h:225-239 | the walk stops at the first node with the key, or at the end after seeing every node of the chain |
| `HashPool.WalkFinds` | include/yarf/memory/hash_pool.h:225-239 | the walk along the key's bucket finds the key's node exactly when the table has one |
| `HashPool.HashPool.constructor` | include/yarf/memory/hash_pool.h:118-133 | a new table is the empty map |
| `HashPool.Init` | include/yarf/memory/hash_pool.h:99-141 | on fresh memory Init is refused exactly when the memory is smaller than GetMaxSize |
| `HashPool.HashPool.Attach` | include/yarf/memory/hash_pool.h:99-141 | with check_header every reachable table is accepted exactly for its own shape and enough memory |
| `HashPool.HashPool.Alloc` | include/yarf/memory/hash_pool.h:143-170 | adds the key with a cleared value, and fails exactly for a known key or a full table |
| `HashPool.HashPool.Insert` | include/yarf/memory/hash_pool.h:172-181 | adds the key with the value and returns its node, under the same condition |
| `HashPool.HashPool.Get` | include/yarf/memory/hash_pool.h:183-190 | is map lookup |
| `HashPool.HashPool.Free` | include/yarf/memory/hash_pool.h:192-222 | removes exactly the key, fails exactly for an unknown one; the inner pool never refuses the node |
| `HashPool.HashPool.Replay` | include/yarf/memory/hash_pool.h:143-239 | any sequence of operations changes the table and answers as it would on a map bounded by max_node |
| `Channel.CChannel.MoveToNextQueue` | src/yarf/channel/channel.cc:120-135 | goes to the next queue in cyclic order and resets the count |
| `Channel.CChannel.Receive` | src/yarf/channel/channel.cc:171-207 | the loop, with messages arriving before each visit, is the specified sequence of visits |
| `Channel.RecvOutcome` | src/yarf/channel/channel.cc:177-206 | Recv stops at the first queue that its visit finds filled, takes its first message and stays there with its count, or goes on to the next queue if the message does not fit; it changes no other queue and answers kChanEmpty exactly when every visit finds its queue empty |
| `Channel.VisitedOnce` | src/yarf/channel/channel.cc:182-204 | the visits of one Recv reach every queue exactly once |
| `Channel.VisitsSpend` | src/yarf/channel/channel.cc:120-206 | while a queue's first message fits, each Recv returns it, or answers a message of another queue, given or too long, at the cost of credit |
| `Channel.Fairness` | src/yarf/channel/channel_impl.h:25-25 | a message that fits the buffers of all calls sees at most 10 * (n - 1) calls answered by other queues before it is received, whatever arrives and whatever those messages' lengths |
| `Channel.TakesTurns` | src/yarf/channel/channel.cc:171-181 | while no queue runs out and everything fits, the queues are served in cyclic order, ten messages each |
| `Wiring.GlobalConfig.AddChannel` | src/yarf/channel/channel_config.cc:111-156 | adds a row with two new segment ids, or nothing when the table is full or the system refuses |
| `Wiring.GlobalConfig.Create` | src/yarf/channel/channel_config.cc:44-80 | keeps unordered peer pairs unique, keeps what was there, adds rows from the list only, and has every pair of the list whose segments are granted unless the table is full |
| `Wiring.GlobalConfig.GetChansByProcId` | src/yarf/channel/channel_config.cc:29-41 | the rows that name the process, in order |
| `Wiring.Init` | src/yarf/channel/channel.cc:70-116 | the loop with its mirrored configuration and its exits is the specified connection |
| `Wiring.InitConnects` | src/yarf/channel/channel.cc:70-110 | from a table that Create built, the duplicate and kUnexpect exits are unreachable; Init fails exactly on a segment that is not attached or too small, with the error of the first such row, else it holds one end for each of its rows |
| `Wiring.CrossConnected` | src/yarf/channel/channel.cc:74-85 | two processes hold the two ends of a channel or none; the ends are crossed exactly when the processes differ, and the peer is reported as it is exactly when its id has 32 bits |
| `Wiring.RowEnds` | src/yarf/channel/channel.cc:74-85 | peer 0 sends to the segment of send_size and peer 1 receives from it, and the other way with recv_size |
| `Wiring.OneSender` | src/yarf/channel/channel_config.cc:126-142 | a segment has one sending and one receiving process |
| `Wiring.DeliveredInOrder` | src/yarf/channel/channel.cc:137-207 | over every sequence of calls, any of which may be refused and any filled end served, what a process hears under a peer's id is a prefix of what that peer sent to it and the rest is in their ring, if the id has 32 bits and no third peer shares them |
| `Wiring.DeliveredIff` | src/yarf/channel/channel.cc:106-207 | that condition is exact: without it some run breaks delivery |
| `Wiring.MixedUp` | src/yarf/channel/channel.cc:186-188 | processes 1 and 2^32 + 1 connected to process 3 are such a case, since Recv reports a peer by 32 bits |
| `ByteOrder.NetworkOrder32` | include/yarf/net/bin_packer.h:90-96 | htonl and a copy on a little-endian host leave the bytes in network order |
| `ByteOrder.NetworkOrder64` | include/yarf/net/bin_packer.h:98-118 | htonll as written does so for 64 bits |
| `ByteOrder.HostOrder32` | include/yarf/net/bin_packer.h:192-206 | a copy and ntohl give the integer that the bytes hold in network order |
| `ByteOrder.HostOrder64` | include/yarf/net/bin_packer.h:208-228 | so do a copy and ntohll as written |
| `Codec.GetPut` | include/yarf/net/bin_packer.h:192-228 | an integer read back from its bytes is the one written, signed or not |
| `Codec.EncodeIff` | tools/proto2bin.py:170-220 | a field is encoded exactly when its counters keep their maxima and its bytes fit, and then to its wire format |
| `Codec.EncodeAllIff` | tools/proto2bin.py:162-226 | the same for a whole message |
| `Codec.DecodeAllBack` | tools/proto2bin.py:228-281 | Decode of a wire format gives back the message and the position behind it, if vectors of messages hold at most one |
| `Codec.WireAllNeeds` | tools/proto2bin.py:205-220 | Encode writes as many bytes as the decoder needs for the message, or fewer exactly when a vector of messages holds more than one |
| `Codec.DecodeAllNeeds` | tools/proto2bin.py:228-281 | a successful Decode of any bytes gives values of the types of the schema, stays within its length and has read what the message needs |
| `Codec.DecodeAllWithinIff` | tools/proto2bin.py:250-276 | a decoded message respects the maxima of the schema at every depth exactly when every string length that the bytes announce is within the maximum of its field |
| `Codec.LongStringTaken` | tools/proto2bin.py:250-253 | a string longer than its maximum is decoded, whatever its length and the maximum |
| `WireGrammar.DecodesIff` | tools/proto2bin.py:228-281 | Decode of received bytes gives a message and a position exactly when the bytes up to there encode it, by a grammar without positions |
| `WireGrammar.DecodesFull` | tools/proto2bin.py:264-276 | a message with every element of its vectors written out is decoded |
| `Codec.RoundTripIff` | tools/proto2bin.py:162-281 | for every schema and every message that Encode accepts, Decode with the reported length returns the message and uses that length exactly when no vector of messages holds more than one |
| `BinPacker.BinEncoder.WriteBytes` | include/yarf/net/bin_packer.h:120-125 | copies all bytes at the write position and moves it, or does nothing when they do not fit |
| `BinPacker.BinEncoder.WriteInt` | include/yarf/net/bin_packer.h:82-118 | swaps and copies to the network order of the integer |
| `BinPacker.EncodeInts` | tools/proto2bin.py:195-203 | the loop over a vector writes all its integers or fails when they do not fit |
| `BinPacker.EncodeNested` | tools/proto2bin.py:174-185 | the nested message is written in place and its length patched into the four bytes before it |
| `BinPacker.EncodeNestedVec` | tools/proto2bin.py:205-220 | the loop that leaves after its first element writes the count and that element |
| `BinPacker.EncodeField` | tools/proto2bin.py:514-563 | the template selected for a type writes what Encode gives for the field |
| `BinPacker.EncodeMessage` | tools/proto2bin.py:162-226 | the generated Encode leaves in the caller's buffer what EncodeAll gives, reports its length and touches nothing outside its room |
| `BinPacker.BinDecoder.ReadInt` | include/yarf/net/bin_packer.h:192-228 | a copy and a swap move the position and give the integer in network order, or nothing changes when the bytes are missing |
| `BinPacker.DecodeField` | tools/proto2bin.py:236-276 | the template selected for a type reads what Decode gives |
| `BinPacker.DecodeMessage` | tools/proto2bin.py:228-281 | the generated Decode, with its loops and its moving position, is DecodeAll |

## Left out

- Weak memory orders: every access is one step in a global order.
- The ring with bodies above 65528 bytes or capacities above 2^31: only the first use of a reset queue is covered for long bodies, by `HandsBackIff`.
- Control messages, checksum, timestamp and heartbeat of a channel: unused or unfinished in the source.
- RingQueue.UnlockQueue.Recv: a length field that points behind the buffer, which only foreign bytes can contain, is answered like a short receive buffer instead of a read behind it.
- CChannel's Peek visits queues as Recv does and Drop and Send look up one queue: they would add only easy members.
- Wiring.Init: finding the shared table itself and checking its size (the start of CChannel::Init) is not modelled.
- Wiring.DeliveredInOrder: the rings are queues of messages here, as `RingQueue` and `RingProtocol` show them to be; which filled end a Recv serves is left open, `Channel.RecvOutcome` settles it.
- The thread pool is modelled on values, one step per access, not as objects: the mutual updates of two threads are the point there. Thread start, stop and destruction are not modelled.
- Thread pool requests of negative length.
- Preprocessor.NestingState.Update: what one line does to the nesting stack is a parameter; the results about checkpoints hold for every such function.
- The linter's other checks and its cleansing of comments and strings.
- FixedLenPool's iteration over blocks.
- Addresses within one block of the top of the address space, where the block check of FixedLenPool wraps around: positions are unbounded integers here.
- BinPacker.EncodeNested: when fewer than four bytes are left, the source first lets the nested Encode run with a negative length and then fails; the model fails at once, with the same answer but without the writes behind the buffer.
- BinPacker.DecodeField: a string is a value here. What its copy overwrites behind the array of maximum plus one characters, in the cases of `Codec.LongStringTaken`, is not modelled.
- Codec.Decode: reads behind the received bytes, which a wrong length can cause, fail instead of returning whatever lies there.
- Fields of type bool and double, which the decoder cannot read, and the generator's file handling.
