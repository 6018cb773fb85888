# A verified model of the Chord chat client

Chord Chat finds chat users through a Chord ring. Every node has a 160-bit identifier, keeps a
predecessor and a finger table whose first filled slot is its successor, and repairs these pointers
by periodic stabilization. This project models the ring protocol and its parts, the SHA-1 object
that derives identifiers, the record and frame format nodes exchange, and the bounded queue and
worker loop of the asynchronous logger the program uses.

`dafny verify dfyconfig.toml` checks everything.

## How it is built

- **The ring, over all runs.** `Protocol` is a step system: a lookup on behalf of a joining node,
  the join, the question for the successor's predecessor, the judgement of the reply and the
  delivery of the notification are separate steps, with answers and notifications in flight. `Walk`
  holds the theory of following successors, `Runs`, `Quiescence` and `Convergence` the theorems;
  `SettleRun` shows that from every reachable state stabilization can make the ring ideal.
- **Lookups.** `Routing` and `Hops` treat lookups over arbitrary finger tables.
- **The code in place.** `Identifier`, `FingerTable`, `LocalNode` and `ChatClient` are classes over
  arrays and loops. `Nodes.Network` lets nodes call one another and keeps two ghost maps of finger
  slots and predecessors; the node methods are specified by `Routing`, `Repair` and `Maintenance`
  on those maps. `Settling` carries the results over: one uninterrupted stabilization is the three
  protocol steps in a row, a join is the lookup and the join step, once stabilization has converged
  every lookup is right, and once the fingers have been refreshed every lookup is short. `RingRun` has
  one method for each event of the protocol, with the replies, notifications and lookup answers that
  are in flight as values, so the theorems about runs hold of these methods called in any order.
  `FingerRun` calls `FixFingers` on every member until the lookups are short.
- **The queue and the logger.** `BoundedQueue` is the queue as a state machine whose steps are
  single atomic loads, swaps and stores; `MpmcQueue` does each of them in place and runs any
  interleaving. `QueueProgress` is about how calls end. `AsyncLog` is the worker; `LogDelivery` puts it on top of the queue.
- **SHA-1.** `Sha1Spec` states FIPS 180-4; `Sha1` is the buffered object. `Sha1Answers` pins the standard
  down by two of its example digests and the roots its round constants are made of.
- **Records and frames.** `NodeCodec`, with `char` signed or unsigned as a parameter.

Where code and comments differ the code was followed: `fixFingers` says it picks a slot from 1 to
M - 1, but its formula gives 1 to M - 2, so slot 159 is never filled. A lookup in a settled ring then
needs at most 160 forwards, and some lookup needs all of them (`Hops.All160Needed`); with slot 159
refreshed like the others it is 159 (`Hops.AtMost159WithAllSlots`, `Hops.All159NeededWithAllSlots`).

Five properties one might expect do not hold of the code. For each the exact condition is proved, and
a lemma gives an input that fails:

- a chat message that counts as sent need not arrive: the frame's length is one `char`. It arrives whole
  exactly if it goes to the sender's own node or a `char` carries `1 +` its length
  (`ChatClients.ChatClient.Send`, `NodeCodec.HeardIff`, `NodeCodec.LongMessageIsLost`);
- a lookup need not find a member, even when asked for that member's own identifier. A member is found
  from everywhere exactly if no successor pointer jumps over it (`Routing.MemberFoundIff`,
  `Routing.LookupCanMiss`); all lookups are right exactly in a ring with ideal successors
  (`Routing.LookupsRightIffIdeal`);
- the predecessor loop asked for its own node's identifier need not end (`Routing.LoopEndsIff`,
  `Routing.LoopCanStick`);
- a node record need not survive the wire: it does exactly if its name is not empty and a `char` carries
  the frame's length or zeros stand in for what is cut off (`NodeCodec.NodeArrivesIff`,
  `NodeCodec.LongNameIsLost`, `NodeCodec.ZerosArriveAnyway`);
- the worker need not stop after `push_msg(terminate)`: it stops exactly if a poll finds the queue
  empty after a terminate message that the queue accepted was taken, and the overflow policy may
  discard that message (`LogDelivery.WorkerStopsIff`, `LogDelivery.DiscardedTerminate`).

## Model

| member | source | states |
|---|---|---|
| Protocol.StepKeeps | src/LocalNode.cpp:103-142 | Every step of the protocol (lookup, join, ask, judge, deliver) keeps the invariant that stored, in-flight and notified predecessors reach their node without passing it and that everybody reaches the founder, and keeps every walk that passes nothing |
| Protocol.JoinKeeps | src/LocalNode.cpp:103-110 | A join keeps all walks and the ring invariant, also with a leftover reply from the joiner's own earlier stabilization |
| Protocol.JudgeKeeps | src/LocalNode.cpp:126-130 | Adopting a reported predecessor that lies between keeps all walks and the ring invariant, however old the report is |
| Protocol.DeliverKeeps | src/LocalNode.cpp:134-142 | A late or repeated notification keeps all walks and the ring invariant |
| Protocol.LookupShort | src/LocalNode.cpp:64-84 | A lookup answer for a node that is not a member brings it closer to the founder, so the joiner's pointer will not pass the founder |
| Protocol.StartInv | src/LocalNode.cpp:37-48 | The founder alone satisfies the invariant |
| Walk.ShortcutKeeps | src/LocalNode.cpp:126-130 | Replacing a successor by a node that lies between and reaches it keeps every walk that passes nothing |
| Runs.RunKeepsInv | src/LocalNode.cpp:103-142 | The invariant holds in every state of every run |
| Runs.ReachabilityIsForEver | src/LocalNode.cpp:112-142 | In every join-only run, if following successors from a reaches b without passing b, it does so for ever |
| Runs.OneRing | src/LocalNode.cpp:103-142 | In every reachable state no successor passes the founder; there is exactly one successor cycle, every member comes to it, and it goes round the circle exactly once |
| Quiescence.QuietIsTight | src/LocalNode.cpp:126-142 | In a ring of reachable pointers at rest no member lies between a node and its successor |
| Quiescence.QuietIffIdeal | src/LocalNode.cpp:126-142 | No stabilization would change anything exactly when every successor is the next member and names the node as its predecessor |
| Convergence.StepShrinks | src/LocalNode.cpp:126-142 | With fixed membership each step leaves all pointers alone or lowers the number of members between nodes and their pointers |
| Convergence.FinitelyManyChanges | src/LocalNode.cpp:126-142 | A run of n members without joins changes pointers at most 2 n^2 times |
| Convergence.RoundProgress | src/LocalNode.cpp:112-142 | A round in which every member completes a stabilization lowers the measure, or the ring was ideal |
| Convergence.IdealStepChangesNothing | src/LocalNode.cpp:126-142 | An ideal ring stays as it is whatever old replies and notifications arrive |
| Convergence.StabilizationConverges | src/LocalNode.cpp:226-262 | After 2 n^2 + 1 rounds, in any interleaving, the ring is ideal and stays so |
| SettleRun.CanSettle | src/LocalNode.cpp:226-262 | From every state that satisfies the invariant there is a continuation without joins that ends in an ideal ring |
| Routing.FirstFrom | src/FingerTable.cpp:10-27 | The first filled slot at or after an index: it is filled, and all before it are empty |
| Routing.ForwardProgress | src/LocalNode.cpp:80-100 | On the forwarding branch the next node is strictly between the node and the identifier, whatever the slots hold; so lookups end |
| Routing.ClosestIsHighest | src/LocalNode.cpp:86-101 | The scan finds what the highest slot offers whose first filled slot is strictly inside, and the node itself if no slot offers anything |
| Routing.LookupIsSuccessorOfPredecessor | src/LocalNode.cpp:50-84 | For any identifier but the start's own, the recursive lookup visits the nodes of the predecessor loop and answers with the last one's successor |
| Routing.VisitsAreLoopNodes | src/LocalNode.cpp:50-84 | A lookup visits the nodes the predecessor loop comes to, up to the first whose successor answers; for the start's own identifier the start alone, which is the answer |
| Routing.LoopEndsIff | src/LocalNode.cpp:50-62 | The predecessor loop ends exactly when the identifier is not the start's own, or the start is its own successor, or its highest finger is another node |
| Routing.LoopStopsAtEnd | src/LocalNode.cpp:50-62 | The loop stops at the first node it comes to whose successor answers; for any identifier but the start's own that is the predecessor lookups go through |
| Routing.LoopCanStick | src/LocalNode.cpp:50-62 | Two members, the first with itself in slot 158 and the second as successor: the loop for the first one's identifier never ends |
| Routing.LookupFindsOwner | src/LocalNode.cpp:64-101 | With ideal successors and arbitrary member fingers a lookup from any node finds the first member at or after the identifier |
| Routing.LookupsRightIffIdeal | src/LocalNode.cpp:64-101 | All lookups from all nodes are right exactly when every successor is the next member |
| Routing.FoundByAllIff | src/LocalNode.cpp:64-101 | One identifier's owner is found from everywhere exactly when no successor pointer jumps over both the identifier and its owner |
| Routing.MemberFoundIff | src/LocalNode.cpp:64-101 | A member is found from everywhere exactly when no successor pointer jumps over it |
| Routing.LookupCanMiss | src/LocalNode.cpp:64-84 | Three members of which 0 skips 1: the lookup from 0 for member 1 answers 2 |
| Hops.Forward | src/LocalNode.cpp:86-101 | With exact fingers a forward with 2^k still within reach moves at least 2^k closer to the target's predecessor |
| Hops.HopsBelow | src/LocalNode.cpp:64-101 | Each forward clears the top bit of the distance to go: within 2^k at most k forwards |
| Hops.HopsWellBelow | src/LocalNode.cpp:64-101 | At a distance of at most 2^k - 2 one forward less is enough: k - 1 |
| Hops.AtMost160Forwards | src/LocalNode.cpp:64-158 | In a settled ring with slots 0 to 158 exact and slot 159 empty a lookup is forwarded at most 160 times |
| Hops.All160Needed | src/LocalNode.cpp:64-158 | That bound is attained: in the ring of all identifiers, from 0 to the last identifier |
| Hops.AtMost159WithAllSlots | src/LocalNode.cpp:148-150 | With slot 159 exact as well 159 forwards are enough |
| Hops.All159NeededWithAllSlots | src/LocalNode.cpp:148-150 | That bound is attained too, so never refreshing slot 159 costs exactly one forward |
| Hops.StartDist | src/FingerTable.cpp:51-66 | The position of slot k is at clockwise distance 2^k |
| Identifier.FirstDifference | src/ID.cpp:176-193 | The first differing byte decides the numeric order |
| Identifier.ColumnsAddUp | src/ID.cpp:111-124 | Byte columns with a carry add up to the sum of the numbers |
| Identifier.SumModulo | src/ID.cpp:111-124 | Dropping the last carry is reduction modulo 2^160 |
| Identifier.ID.constructor | src/ID.cpp:9-23 | Copies twenty bytes |
| Identifier.ID.AddAssign | src/ID.cpp:111-124 | The in-place carry loop is addition modulo 2^160, also of an identifier to itself |
| Identifier.ID.Plus | src/ID.cpp:126-130 | The sum modulo 2^160, leaving both operands alone |
| Identifier.ID.Equals | src/ID.cpp:156-168 | Byte by byte equality is equality of the numbers |
| Identifier.ID.Less | src/ID.cpp:176-193 | Byte by byte comparison is the numeric order |
| Identifier.ID.IsInInterval | src/ID.cpp:60-68 | For distinct bounds: strictly between them clockwise; for equal bounds: always true |
| FingerTables.FingerTable.GetNode | src/FingerTable.cpp:10-27 | The first filled slot at or after the index, nothing if there is none, an error for an index out of bounds |
| FingerTables.FingerTable.SetNode | src/FingerTable.cpp:40-48 | Changes exactly the slot at the index, or reports an error and changes nothing |
| FingerTables.FingerTable.RemoveNode | src/FingerTable.cpp:74-87 | Empties exactly the slots that hold this very handle |
| FingerTables.FingerTable.Start | src/FingerTable.cpp:51-66 | The identifier n + 2^k modulo 2^160 for every k below 160, otherwise an error |
| FingerTables.BitPosition | src/FingerTable.cpp:60-63 | Bit k % 8 of byte k / 8 from the end weighs 2^k |
| FingerTables.OneBit | src/FingerTable.cpp:60-63 | The number of a byte string with one byte set |
| Repair.OthersFall | src/LocalNode.cpp:118-124 | Each failed ping lowers the number of slots that hold somebody else, so the loop ends |
| Repair.RepairedSlots | src/LocalNode.cpp:116-124 | The slots after the loop are the old ones without the handles that failed |
| Repair.FailedPingedOnce | src/LocalNode.cpp:118-124 | Each failed handle was in the table, was pinged once and did not answer |
| Repair.RepairOutcome | src/LocalNode.cpp:116-124 | For any ping answers each failed handle was the successor when pinged; exactly those are removed, and the successor left is the lowest surviving slot, which has just answered, or the node itself |
| Maintenance.StepsOnPeers | src/LocalNode.cpp:126-142 | Updating slot 0 of one node and the predecessor of its new successor is the protocol's ask, judge and deliver |
| Maintenance.AskOnPeers | src/LocalNode.cpp:126-126 | Keeping the reply of the successor is the protocol's question |
| Maintenance.JudgeOnPeers | src/LocalNode.cpp:127-130 | Adopting what a kept reply names is the protocol's judgement |
| Maintenance.DeliverOnPeers | src/LocalNode.cpp:134-142 | The notified node's new predecessor is the protocol's delivery |
| Maintenance.EverySlotOnce | src/LocalNode.cpp:149-150 | Of 158 successive random numbers each slot from 1 to 158 is chosen by exactly one |
| Maintenance.SlotsInTurn | src/LocalNode.cpp:149-150 | Successive numbers choose successive slots, from 1 to 158 and round again |
| Nodes.LocalNode.constructor | src/LocalNode.cpp:9-12 | A new node is its own successor and knows no predecessor |
| Nodes.LocalNode.SetPredecessor | src/LocalNode.cpp:186-195 | Stores the handle, or the node's own handle for its own identifier |
| Nodes.LocalNode.GetSuccessor | src/LocalNode.cpp:197-207 | The first filled slot; if all are empty slot 0, and no other, becomes the node itself, which lookups cannot tell |
| Nodes.LocalNode.SetSuccessor | src/LocalNode.cpp:209-218 | Slot 0 and nothing else changes |
| Nodes.LocalNode.ClosestPrecedingFinger | src/LocalNode.cpp:86-101 | The scan from the highest slot down: the specified closest finger, and a handle from the table or the node's own |
| Nodes.LocalNode.Notify | src/LocalNode.cpp:134-142 | The new predecessor is the protocol's choice between the old one and the claim |
| Nodes.LocalNode.CheckPredecessor | src/LocalNode.cpp:160-170 | Drops exactly a predecessor other than the node itself that does not answer |
| Nodes.LocalNode.RepairSuccessor | src/LocalNode.cpp:116-124 | The ping loop ends for any answers with the specified slots |
| Nodes.LocalNode.FindSuccessor | src/LocalNode.cpp:64-84 | Through any chain of nodes the answer is the specified lookup's; only slot 0 of the start and slots of nodes nearer to the identifier may be filled in |
| Nodes.LocalNode.FindPredecessor | src/LocalNode.cpp:50-62 | For every identifier it gives the first node the loop comes to whose successor answers, and nothing exactly if there is none |
| Nodes.LocalNode.JudgeIn | src/LocalNode.cpp:126-130 | Adopts the reported node exactly if it lies between, seen from the whole network |
| Nodes.LocalNode.Stabilize | src/LocalNode.cpp:112-132 | Drops dead successors, then takes the ring's pointers through the protocol's three steps and changes no slot but the first |
| Nodes.LocalNode.FixFingers | src/LocalNode.cpp:144-158 | One slot among 1 to 158 becomes the lookup result for its start, nothing else changes |
| Nodes.LocalNode.Join | src/LocalNode.cpp:103-110 | No predecessor, slot 0 alone changed, and as successor what a lookup for the joiner's identifier finds; members keep their pointers |
| Nodes.LocalNode.JoinRing | src/LocalNode.cpp:103-110 | With the joiner as a member there is a valid network again, whose pointers are the old ones plus those of the protocol's join |
| Nodes.Network.constructor | src/LocalNode.cpp:9-48 | Any valid nodes that know one another and share no slots make a valid network |
| Nodes.Network.Found | src/LocalNode.cpp:9-48 | A node alone is a valid network, whose pointers are the protocol's start |
| Nodes.Network.CallGetPredecessor | src/RemoteNode.cpp:98-111 | A new handle for the node's predecessor; an empty reply means there is none |
| Nodes.Network.CallNotify | src/LocalNode.cpp:383-388 | The receiver builds its own handle for the claiming node, and only its predecessor may change |
| Nodes.Network.CallFindSuccessor | src/LocalNode.cpp:350-360 | The reply names the node the specified lookup finds |
| ChatClients.ChatClient.Send | src/ChatClient.cpp:105-117 | Sent exactly if the lookup from the sender finds the recipient, which it does for every member no pointer jumps over; then the recipient gets the whole message if it is the sender or a char carries the frame's length, otherwise the prefix of the length the char says or nothing; all other inboxes stay as they are |
| ChatClients.OwnerIsMember | src/ChatClient.cpp:105-117 | A lookup answers the identifier itself only for members, and from everywhere exactly for members no successor pointer jumps over |
| Settling.StabilizeIsThreeSteps | src/LocalNode.cpp:126-142 | One uninterrupted stabilization is three enabled protocol steps in a row |
| Settling.LookupIsLocate | src/LocalNode.cpp:103-110 | Every lookup for a joiner is an enabled lookup step of the protocol with the same answer |
| Settling.JoinIsTwoSteps | src/LocalNode.cpp:103-110 | The pointers after a join are those after the protocol's lookup step and join step |
| Settling.IdealMeansIdeal | src/LocalNode.cpp:64-101 | A ring at rest has ideal successors, as lookups need them |
| Settling.FounderIsAlwaysFound | src/LocalNode.cpp:64-142 | In every reachable state, settled or not, every lookup for the founder finds it |
| Settling.LookupsSettle | src/LocalNode.cpp:64-142 | After 2 n^2 + 1 rounds of stabilization, in any interleaving, every lookup from every member finds the first member at or after the identifier, whatever the other fingers hold |
| Settling.FirstSlotIsExact | src/FingerTable.cpp:51-66 | In an ideal ring the filled first slot is the exact finger |
| Settling.RefreshMakesExact | src/LocalNode.cpp:144-158 | In an ideal ring a refresh makes its slot exact, spoils no other exact slot and keeps the ring ideal |
| Settling.RefreshesSettle | src/LocalNode.cpp:144-158 | In an ideal ring refreshes in any order that cover slots 1 to 158 of every member make all fingers exact, and no lookup is then forwarded more than 160 times |
| FingerRun.FixAll | src/LocalNode.cpp:144-158 | Calls of FixFingers for any members and random numbers are the refreshes of the slots those numbers choose |
| FingerRun.SettleFingers | src/LocalNode.cpp:144-158 | In a ring with ideal successors 158 calls for each member settle it, and no lookup is then forwarded more than 160 times |
| RingRun.AskStep | src/LocalNode.cpp:126-126 | The nodes' own methods, called for one question, do the protocol's step on the state with everything in flight |
| RingRun.JudgeStep | src/LocalNode.cpp:127-131 | The same for the judgement of a kept reply and the notification it sends |
| RingRun.DeliverStep | src/LocalNode.cpp:134-142 | The same for the delivery of a notification sent at any earlier time |
| RingRun.LocateStep | src/LocalNode.cpp:109-109 | The same for a joining node's lookup from any member |
| RingRun.JoinStep | src/LocalNode.cpp:103-110 | The same for a join with an answer found at any earlier time, and with what the joiner's own stabilization left in flight |
| RingRun.Execute | src/LocalNode.cpp:112-142 | Any schedule of questions, judgements and deliveries leads where the protocol says |
| RingRun.ScheduleIsRun | src/LocalNode.cpp:112-142 | Every schedule of enabled events is a run |
| RingRun.AtRest | src/LocalNode.cpp:9-48 | With nothing in flight a network's state is that of its pointers, and the start for a node alone |
| BoundedQueue.InitInv | lib/spdlog/details/mpmc_bounded_q.h:62-74 | A new queue satisfies the invariant |
| BoundedQueue.StepKeeps | lib/spdlog/details/mpmc_bounded_q.h:82-133 | Every atomic step of every thread keeps the invariant on positions, cells, threads and returned tickets |
| QueueTheorems.RunInv | lib/spdlog/details/mpmc_bounded_q.h:82-133 | The invariant holds in every state of every interleaving |
| QueueTheorems.ScheduleIsRun | lib/spdlog/details/mpmc_bounded_q.h:82-133 | Every schedule of atomic steps is such a run |
| QueueTheorems.RunIsSchedule | lib/spdlog/details/mpmc_bounded_q.h:82-133 | A run's events executed as a schedule lead through its states, and an event that is not possible changes nothing |
| QueueTheorems.StepRefinesFifo | lib/spdlog/details/mpmc_bounded_q.h:82-133 | Each step leaves the contents alone, appends the claiming thread's item to fewer than capacity items, or takes the first item |
| QueueTheorems.ReturnsAreRight | lib/spdlog/details/mpmc_bounded_q.h:110-133 | 0 <= enqueued - dequeued <= capacity, each dequeue returns the item put under its ticket, and no ticket is returned twice |
| QueueTheorems.NothingOverwritten | lib/spdlog/details/mpmc_bounded_q.h:105-106 | When a producer stores its item, every earlier ticket of that cell has been returned |
| QueueTheorems.PutGivesUpIff | lib/spdlog/details/mpmc_bounded_q.h:88-99 | The loaded sequence number makes enqueue fail exactly when the position is the next one and the ticket one lap back is unreleased |
| QueueTheorems.GetGivesUpIff | lib/spdlog/details/mpmc_bounded_q.h:116-126 | It makes dequeue fail exactly when the queue is empty or its first ticket is unpublished |
| QueueTheorems.PutGaveUp | lib/spdlog/details/mpmc_bounded_q.h:82-99 | In every run an enqueue that returns false had, during the call, seen its position as the next one with the ticket one lap back unreleased |
| QueueTheorems.GetGaveUp | lib/spdlog/details/mpmc_bounded_q.h:110-126 | In every run a dequeue that returns false had, during the call, seen the queue empty or its first ticket unpublished |
| QueueTheorems.AtRest | lib/spdlog/details/mpmc_bounded_q.h:82-133 | When all threads are idle every claimed ticket was returned and every other item sits published in its cell |
| QueueTheorems.OneConsumerInOrder | lib/spdlog/details/mpmc_bounded_q.h:110-133 | With one consumer the items come out in ticket order, none skipped |
| QueueProgress.PutRetryIsBehind | lib/spdlog/details/mpmc_bounded_q.h:86-104 | A thread goes round the loop of enqueue again only with a position that others have passed |
| QueueProgress.PutRetries | lib/spdlog/details/mpmc_bounded_q.h:86-104 | In every run an enqueue call goes round at most once for each ticket other threads claimed during it |
| QueueProgress.GetRetries | lib/spdlog/details/mpmc_bounded_q.h:114-129 | In every run a dequeue call goes round at most once for each ticket other threads claimed during it |
| QueueProgress.LoopSteps | lib/spdlog/details/mpmc_bounded_q.h:86-129 | In its loop a thread takes exactly two steps each time round, so it leaves it after at most twice the tickets others claim, and two more |
| QueueProgress.PutterStores | lib/spdlog/details/mpmc_bounded_q.h:105-105 | Whatever others have claimed, a producer with a ticket stores its item with its next step and touches nothing else |
| QueueProgress.PutterPublishes | lib/spdlog/details/mpmc_bounded_q.h:106-107 | With the step after that it publishes the item that is there and returns |
| QueueProgress.GetterTakes | lib/spdlog/details/mpmc_bounded_q.h:130-130 | A consumer with a ticket takes that ticket's item with its next step |
| QueueProgress.GetterReturns | lib/spdlog/details/mpmc_bounded_q.h:131-132 | With the step after that it releases the cell for the next lap and returns the item |
| QueueProgress.ClaimedPutReturns | lib/spdlog/details/mpmc_bounded_q.h:105-107 | In every run an enqueue that has its ticket is over after two further steps of its own, stored and published |
| QueueProgress.ClaimedGetReturns | lib/spdlog/details/mpmc_bounded_q.h:130-132 | In every run a dequeue that has its ticket is over after two further steps of its own and returns the ticket's item |
| Bits.MaskIsMod | lib/spdlog/details/mpmc_bounded_q.h:88-116 | Masking with 2^k - 1 is the remainder modulo 2^k |
| Bits.PowerOfTwoTest | lib/spdlog/details/mpmc_bounded_q.h:66-68 | n & (n - 1) is zero exactly for powers of two |
| MpmcQueues.MpmcQueue.Create | lib/spdlog/details/mpmc_bounded_q.h:62-74 | A queue is made exactly for sizes that are powers of two and at least two, in the initial state |
| MpmcQueues.MpmcQueue.PutStep | lib/spdlog/details/mpmc_bounded_q.h:82-108 | Each atomic action of enqueue, in place, is the state machine's step |
| MpmcQueues.MpmcQueue.GetStep | lib/spdlog/details/mpmc_bounded_q.h:110-133 | Each atomic action of dequeue, in place, is the state machine's step |
| MpmcQueues.MpmcQueue.Execute | lib/spdlog/details/mpmc_bounded_q.h:82-133 | Any interleaving of the threads' actions, in place, follows the state machine and keeps the invariant |
| AsyncLog.AsyncLogHelper.constructor | lib/spdlog/details/async_log_helper.h:191-209 | No request is pending and nothing has been delivered |
| AsyncLog.AsyncLogHelper.Deliver | lib/spdlog/details/async_log_helper.h:300-301 | Every sink receives the event once |
| AsyncLog.AsyncLogHelper.HandleFlushInterval | lib/spdlog/details/async_log_helper.h:319-329 | Flushes when asked to or when the interval has passed, and only then clears the request |
| AsyncLog.AsyncLogHelper.ProcessNextMsg | lib/spdlog/details/async_log_helper.h:277-316 | One poll has the specified effect, and says whether to go on |
| AsyncLog.AsyncLogHelper.WorkerLoop | lib/spdlog/details/async_log_helper.h:255-273 | The loop does what the drain specification says, up to the poll that stops it |
| AsyncLog.AsyncLogHelper.PushMsg | lib/spdlog/details/async_log_helper.h:233-248 | Accepted exactly if the first attempt succeeds or, without the discard policy, any attempt does; the first success ends it, and without one it is still waiting |
| AsyncLog.DrainDelivers | lib/spdlog/details/async_log_helper.h:277-316 | The sinks receive exactly the popped log messages, once each and in order |
| AsyncLog.FlushOnlyWhenEmpty | lib/spdlog/details/async_log_helper.h:306-329 | In one poll a flush happens exactly when the queue is found empty and a flush is due, and a request is never lost |
| AsyncLog.FlushStep | lib/spdlog/details/async_log_helper.h:283-329 | What one poll does to the flush request and the time of the last flush |
| AsyncLog.FirstFlushIff | lib/spdlog/details/async_log_helper.h:319-329 | The first flush is by an empty poll after a flush or terminate message was popped or, if the interval is not 0, once it has passed since the start |
| AsyncLog.NextFlushIff | lib/spdlog/details/async_log_helper.h:319-329 | The next flush after one is by an empty poll after a flush or terminate message popped since or, if the interval is not 0, once it has passed since that flush |
| AsyncLog.DrainNeverFlushes | lib/spdlog/details/async_log_helper.h:321-321 | With interval 0 and no flush or terminate message nothing is ever flushed |
| AsyncLog.DrainIsWorkerAt | lib/spdlog/details/async_log_helper.h:255-273 | A drain ends where its polls lead one after the other |
| AsyncLog.FlushFollows | lib/spdlog/details/async_log_helper.h:277-329 | Over a whole drain a popped flush or terminate message is followed, by the next empty poll at the latest, by a flush before which all log messages popped ahead of it were delivered |
| AsyncLog.StopsIff | lib/spdlog/details/async_log_helper.h:292-313 | For any polls: the worker stops exactly when one finds the queue empty after a terminate message was popped |
| LogDelivery.AcceptedMessagesAreDelivered | lib/spdlog/details/async_log_helper.h:226-329 | Over every interleaving the sinks receive, in ticket order and once each, the log messages of a prefix of those accepted; a worker that stopped had a terminate message in that prefix |
| LogDelivery.NothingLostBeforeTerminate | lib/spdlog/details/async_log_helper.h:213-329 | Once the worker has stopped, all log messages accepted before the first terminate message have been delivered |
| LogDelivery.WorkerStopsIff | lib/spdlog/details/async_log_helper.h:213-316 | The worker stops exactly when a poll finds the queue empty after an accepted terminate message was taken, and never if none was accepted |
| LogDelivery.NeverStops | lib/spdlog/details/async_log_helper.h:213-316 | From a state in which no terminate message was accepted or is being put, the worker never stops unless one is pushed, whatever is logged, taken and polled |
| LogDelivery.DiscardedTerminate | lib/spdlog/details/async_log_helper.h:213-248 | A run in which a full queue refuses the terminate message, and in all continuations without another one the worker never stops |
| LogDelivery.WorkerWaits | lib/spdlog/details/async_log_helper.h:213-316 | One continuation: the worker takes and delivers everything, finds the queue empty, and has not stopped |
| LogDelivery.StoppedPoppedTerminate | lib/spdlog/details/async_log_helper.h:292-313 | A worker that stopped had popped a terminate message |
| Sha1Spec.PaddingFits | src/sha1.cpp:162-180 | The number of zeros is the least that fills the last block, as in section 5.1.1 of FIPS 180-4 |
| Sha1Spec.LengthParts | src/sha1.cpp:159-161 | The two words of the length field are the length in bits |
| Sha1Spec.FoldIsHashBlocks | src/sha1.cpp:136-153 | Folding the compression over the blocks is the hash computation of section 6.1.2 |
| Sha1Hash.LrotIsRotl | src/sha1.cpp:31-35 | The shifted halves are a circular rotation |
| Sha1Hash.ChooseIsCh | src/sha1.cpp:97-99 | The code's choice function is the standard's Ch |
| Sha1Hash.MajorityIsMaj | src/sha1.cpp:103-105 | The code's majority function is the standard's Maj |
| Sha1Hash.StoreBigEndian | src/sha1.cpp:37-45 | Stores four bytes, most significant first, and keeps the rest |
| Sha1Hash.SHA1.constructor | src/sha1.cpp:49-62 | The initial hash value of section 5.3.1 and an empty message |
| Sha1Hash.SHA1.Expand | src/sha1.cpp:86-91 | The 80 words are the message schedule of the buffered block |
| Sha1Hash.RoundStep | src/sha1.cpp:95-117 | One turn of the main loop is one round of the standard |
| Sha1Hash.MainLoop | src/sha1.cpp:80-117 | The loop over 80 rounds computes the standard's working variables |
| Sha1Hash.SHA1.Process | src/sha1.cpp:74-127 | The words become the compression of the old ones with the block, and the buffer is empty |
| Sha1Hash.SHA1.AddBytes | src/sha1.cpp:130-154 | Appends the chunk to the message: the words are the fold over the full blocks, the buffer holds the rest |
| Sha1Hash.ChunksDoNotMatter | src/sha1.cpp:130-154 | Two objects fed the same message in whatever chunks agree in words, size and waiting bytes |
| Sha1Hash.SHA1.FinishBlock | src/sha1.cpp:170-173 | Both padding branches: zeros to the end of the block if there is no room for the length |
| Sha1Hash.SHA1.AddLength | src/sha1.cpp:174-180 | Zeros and the 64-bit length complete the last block |
| Sha1Hash.SHA1.GetDigest | src/sha1.cpp:157-191 | The SHA-1 digest of the whole message below 2^32 bytes; beyond, the same with the length taken modulo 2^32 |
| Sha1Hash.PaddedMessage | src/sha1.cpp:159-180 | What the object adds to a message is the standard's padding, and fills whole blocks |
| Sha1Answers.DigestOfAbc | src/sha1.cpp:74-191 | The specified digest of "abc" is a9993e36 4706816a ba3e2571 7850c26c 9cd0d89d |
| Sha1Answers.DigestOfLonger | src/sha1.cpp:74-191 | The specified digest of the standard's message of two blocks is 84983e44 1c3bd26e baae4aa1 f95129e5 e54670f1 |
| Sha1Answers.ConstantsAreRoots | src/sha1.cpp:97-108 | The round constants are 2^30 times the square roots of 2, 3, 5 and 10, rounded down |
| NodeCodec.ParseNode | src/INode.h:49-69 | The moving position reads the three fields of the specified parse from a string of any length, or fails, as it does for an empty name |
| NodeCodec.ParseMeans | src/INode.h:49-69 | A string parses exactly if three fields of lengths a char carries follow one another, the first not empty and the last a number; the record is what they say |
| NodeCodec.Layout | src/INode.h:152-162 | A printed record is name, host and decimal port, each after its length |
| NodeCodec.MessageLayout | src/RemoteNode.cpp:193-198 | A message is its length, the code and the payload |
| NodeCodec.CharWraps | src/INode.h:154-160 | A char holds lengths below 256 as they are and larger ones modulo 256 |
| NodeCodec.DecimalExamples | src/INode.h:156-159 | Ports are printed most significant digit first |
| NodeCodec.AtoiReads | src/INode.h:64-66 | Reading the port passes over white space, takes a sign, stops after the digits, and gives nothing for numbers that do not fit |
| NodeCodec.AtoiOfDecimal | src/INode.h:66-66 | Reading a printed port gives it back |
| NodeCodec.ParseInvertsSerializeIff | src/INode.h:49-162 | Whatever follows the record, parsing inverts printing exactly for names that are not empty and names and hosts whose lengths a char carries |
| NodeCodec.ReplyParsesBack | src/RemoteNode.cpp:13-19 | A string that holds the record and no more parses back |
| NodeCodec.ReplyArrivesIff | src/RemoteNode.cpp:167-176 | A node sent as a reply arrives as it was exactly if its name is not empty and a char carries the reply's length |
| NodeCodec.FrameIntactIff | src/RemoteNode.cpp:193-198 | The server's frame read gets the whole payload exactly when a char carries the frame's length |
| NodeCodec.CutFrame | src/LocalNode.cpp:309-337 | Of a longer payload the server gets nothing, or the front whose length the char says, and zeros |
| NodeCodec.ReplyRead | src/RemoteNode.cpp:167-176 | Of a reply's payload the client gets the front whose length the char says, or nothing |
| NodeCodec.NodeArrives | src/LocalNode.cpp:309-337 | Any node with a name and a frame length a char carries survives printing, framing, the server's read and parsing |
| NodeCodec.NodeArrivesIff | src/LocalNode.cpp:309-337 | Any node arrives as it was exactly if it has a name and a char carries the frame's length, or it has one, the port is 0 and all that is cut off before it is zero |
| NodeCodec.ZerosStandInNever | src/LocalNode.cpp:309-337 | The second case is impossible with signed chars, and for names and hosts without zero characters |
| NodeCodec.LongNameIsLost | src/LocalNode.cpp:309-337 | With signed chars a node with a name of 127 letters does not arrive |
| NodeCodec.ZerosArriveAnyway | src/LocalNode.cpp:309-337 | With unsigned chars a node with a name of 255 zero characters arrives although its frame is cut short |
| NodeCodec.HeardIff | src/LocalNode.cpp:309-337 | A chat message is heard as it was sent exactly if a char carries the frame's length |
| NodeCodec.HeardIsCut | src/LocalNode.cpp:309-337 | Otherwise nothing is heard, or a proper prefix of exactly the length the char says |
| NodeCodec.HeardPrefix | src/LocalNode.cpp:309-337 | That prefix is the first characters of the message |
| NodeCodec.LongMessageIsLost | src/RemoteNode.cpp:142-147 | With signed chars nothing is heard of a message of 127 bytes |

## Left out

- Crashes in the theorems about runs: when a far finger takes over from a dead successor the code
  does not keep the single-ring invariant. Failures are covered by the repair loop and by
  `CheckPredecessor`.
- Sockets, threads, mutexes, timers and the log text. A node method reads its own state atomically;
  replies and notifications in flight are part of the step system.
- Nodes.LocalNode.JoinRing: the members of a network object are fixed, so a join makes a new one, and
  its lookup and its join are one uninterrupted call; the step system has them apart, with any steps
  in between. Apart from members the joiner's slots may hold itself only, since the network is closed.
- Protocol.StepKeeps: notifications stay available after delivery, so it covers lost, late and
  repeated ones alike.
- Nodes.Network.CallFindSuccessor: calls between nodes return the values they carry, so it assumes that
  the records and replies fit their frames; `NodeArrivesIff` and `ReplyArrivesIff` say when they do.
- RingRun.Execute: a join makes a new network object, so a schedule for one network has no joins in it;
  `JoinStep` stands between two schedules.
- Nodes.LocalNode.FindPredecessor: where the code would stay at the starting node for ever it returns
  nothing; the code has no such test.
- Nodes.LocalNode.constructor: takes the 20 identifier bytes; that they are the digest of a name, and
  that members have different identifiers, is assumed.
- Null lookup replies from unreachable peers. Only the repair loop sees a failed ping.
- `getNodeAt`, a plain read of one slot, which only the unit tests use.
- FingerTables.FingerTable.GetNode: the code looks at the slot before it tests the index; the model
  tests first. The message text of the exceptions is left out, they are error results.
- Nodes.Network.CallGetPredecessor: the server dereferences a missing predecessor; the model sends
  the empty reply that the caller expects.
- Identifier.ID.AddAssign: bytes are unsigned; where `char` is signed the widening of a byte extends
  its sign and the carry differs.
- Subtraction of identifiers, which runs its carry the wrong way and is never used by the protocol.
- BoundedQueue.StepKeeps: atomic actions are sequentially consistent, positions are unbounded, and a
  failed compare-and-swap is one that found another position.
- MpmcQueues.MpmcQueue.Execute: the retry loops of enqueue and dequeue appear as the local state of
  each thread, one atomic action at a time, since other threads act in between. A call's retries are
  bounded by what others claim in the meantime, which itself has no bound.
- AsyncLog.AsyncLogHelper.PushMsg: outcomes of enqueue attempts are inputs, as many as are watched;
  sleeping and the rethrown worker exception are left out.
- LogDelivery.AcceptedMessagesAreDelivered: sinks do not throw.
- Sha1Hash.SHA1.AddBytes: chunks are not empty, as the code asserts; the five hash words are one
  field holding a record.
- Collision resistance of SHA-1, and wiping the object in its destructor.
- NodeCodec.NodeArrives: ports of 2^31 and more, for which the conversion of the digits is undefined
  in C. A frame of length 0 has no code; what the server does then, and the codes it does not implement,
  are left out.
- NodeCodec.ParseNode: a negative length and a field that is not all there are failure results; what
  the code does with them is not modelled further.
- Display functions, the chat console, argument parsing, the formatter and the sinks.
