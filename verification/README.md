# Models of the inter-process, container, identifier and timer algorithms

This project models the self-contained algorithms of the library in Dafny and proves what
they are for. `dafny verify dfyconfig.toml` checks all of it.

- **Reader/writer lock** (`RwLock*.dfy`). The lock is a state machine over any number of
  processes; every P, every V and every group of counter updates is a step of its own, so a
  release can be part-way through its loop when others run. Safety, absence of lost wake-ups,
  draining, who is let in in each mode, and the bound on how long a queued writer is overtaken
  are theorems about all runs. `RwLockObject.dfy` has
  the methods with their branches and loops, and `RwLockSection.dfy` shows that the state
  machine and the methods agree although others interleave.
- **Shared-memory list and bitmap** (`Bitmap.dfy`, `ShmLinks.dfy`, `ShmEnds.dfy`,
  `ShmList.dfy`). Packed bytes, slots, 1-based links and the head object, against an abstract
  sequence; also for a handle whose cached ends another one has left behind.
- **Trie** (`TrieKeys.dfy`, `TrieTree.dfy`, `TrieReasons.dfy`, `TrieRuns.dfy`). Nodes with slots and parent
  links, against a finite map on folded keys; pruning; copying.
- **Message ring** (`MsgBytes.dfy`, `MsgRing.dfy`, `MsgFifo.dfy`, `MsgSplit.dfy`,
  `MsgProtocol.dfy`, `MsgTwoSenders.dfy`, `MsgJoined.dfy`). The bytes of the segment against
  a queue of messages; whole runs; the semaphore protocol as a state machine of one sender and any number of
  receivers; and the two joined, so that the bytes are right in every interleaving.
- **Identifier generator** (`SnowflakeFields.dfy`, `Snowflake.dfy`, `SnowflakeRun.dfy`,
  `SnowflakeUnique.dfy`, `SnowflakeClock.dfy`). Bit fields, the two value buffers, exactly
  which runs repeat an identifier, and what identifiers say about the clock.
- **Cron rules** (`TimerDate.dfy`, `CronWheels.dfy`, `Crontab.dfy`, `CronLoop.dfy`,
  `CronFrequency.dfy`, `CronSuccessor.dfy`). The successor of any date field by field, and,
  for rules of lists, against counting in lexicographic order.
- **Node tree** (`NodePaths.dfy`, `NodeTree.dfy`) and **length-prefixed vectors**
  (`Tvl.dfy`).

`Common.dfy` and `WeightedSum.dfy` are shared.

Operations that change state are methods of classes with the fields of the source; each is
tied to a value of its specification (a sequence, a map, a table of nodes, a queue), and
the theorems are about those values. `RwLock.Do`, `MsgProtocol.Do`, `CronWheels.Turn` and
the like are definitions; what they mean is stated by the members listed below.

Where the code and its intent part ways, the code is modelled and the difference is a
theorem: `Recv` of a body that goes over the end of the ring (`MsgRing.SplitOverruns`,
`MsgSplit.SplitIff`), values that the cron parser takes and `Date::Set` refuses
(`CronSuccessor.NextAdvancesIff`), the frequencies that stay for good at the end of a field
(`CronFrequency.RefusedExactly`, `CronFrequency.EverySecondStops`) or do not start over at 0
(`CronFrequency.StartsAtZeroIff`), the day of the week that moves the day of the year
(`TimerDate.OtherUnits`), the date that `Crontab::Next` gives from one off the
rule, which need not be on it (`CronSuccessor.NextIsLeastAboveIff`), nodes left behind by a
key with a rejected character (`TrieTree.TrieTree.Insert`), the empty vector that stores but does not load
(`Tvl.LoadAfterStore`), the timed-out waiter after which the lock never comes free
(`RwLockTimeout.GivingUpFreesIff`), the list handle that another process leaves behind
(`ShmEnds.BeforeShown`, `ShmList.FirstIsLost`), and the runs that repeat an identifier
(`SnowflakeUnique.UniqueIffNoClash`).

Outcomes of calls into the system are parameters: whether a P goes through, what the clock
and the interfaces answer, how many nodes can still be allocated, whether constructing a
list element succeeds.

## Model

| member | source | states |
|---|---|---|
| `RwLockSafety.InitialInv` | libipc/ipc_sem_rw_lock.h:91-101 | the counters and semaphores that Create leaves satisfy the invariant, for any number of processes |
| `RwLockSafety.StepKeepsInv` | libipc/ipc_sem_rw_lock.h:182-429 | every single step keeps the counting invariant: each P, each V, each counter update, also between a V of the release loop and the updates that follow it, and new calls and a P(0) that fails |
| `RwLockSafety.RunKeepsInv` | libipc/ipc_sem_rw_lock.h:182-429 | the invariant holds in every state that any interleaving of any number of processes reaches |
| `RwLockSafety.MutualExclusion` | libipc/ipc_sem_rw_lock.h:201-429 | a writer never holds together with a reader or with another writer, in either mode, across mode changes, and whichever waiting calls give up at P(1) or P(2) |
| `RwLockSafety.CountersExactWhenFree` | libipc/ipc_sem_rw_lock.h:217-246 | with the control semaphore free, reader_num_ and writer_num_ are the holders plus the tokens under way, the wait counters plus the tokens are the processes pending on each P, and with nobody holding nobody waits |
| `RwLockSafety.BlockedHasCause` | libipc/ipc_sem_rw_lock.h:217-297 | whenever the control semaphore is free, a blocked process implies a holder or a token not yet consumed: no wake-up is lost |
| `RwLockTimeout.RunKeepsOrphans` | libipc/ipc_sem_rw_lock.h:201-429 | waiting places and tokens that no process will claim grow by one with each call that gives up at P(1) or P(2), holders that nobody is do not, and nothing that any process does, from any state, ever makes up for them |
| `RwLockTimeout.GivingUpLeaves` | libipc/ipc_sem_rw_lock.h:226-239 | otherwise, role by role, the places still counted as waiting and the tokens lying there are as many as the calls that gave up, and each such token counts as a holder |
| `RwLockTimeout.GivingUpFreesIff` | libipc/ipc_sem_rw_lock.h:226-239 | for runs in which any number of calls give up: if all processes come to rest, the lock is free exactly if none gave up at P(1) or P(2) |
| `RwLockTimeout.GivingUpCanDeadlock` | libipc/ipc_sem_rw_lock.h:226-228 | a run in which a reader times out and then a writer waits although nobody holds, with no step left but new calls |
| `RwLockSafety.CountersInRange` | libipc/ipc_sem_rw_lock.h:95-97 | the unsigned counters never wrap: at every step they lie between 0 and the number of processes, writer_num_ between 0 and 1 |
| `RwLockDrain.DrainStepDecreases` | libipc/ipc_sem_rw_lock.h:312-421 | with no new lock calls every step lowers a measure over the program points |
| `RwLockDrain.DrainRunBounded` | libipc/ipc_sem_rw_lock.h:312-421 | so every run without new lock calls is no longer than the measure at its start |
| `RwLockDrain.DrainProgress` | libipc/ipc_sem_rw_lock.h:312-421 | while a process holds, waits or is inside a call, some process can go on: no deadlock |
| `RwLockDrain.IdleIsUnlocked` | libipc/ipc_sem_rw_lock.h:323-337 | with all processes idle all counters and both token semaphores are zero |
| `RwLockDrain.LockDrains` | libipc/ipc_sem_rw_lock.h:312-421 | from any reachable state, a run without new lock calls that cannot be continued ends with all processes idle and the lock fully free |
| `RwLockBypass.WaitingRun` | libipc/ipc_sem_rw_lock.h:231-240 | over a whole run the reader releases before the next writer grant are counted by reader_num_ |
| `RwLockBypass.WriterGrantedAfterExactly` | libipc/ipc_sem_rw_lock.h:340-358 | in PreferWrite a queued writer is granted after exactly as many reader releases as reader_num_ showed, however many RLock calls arrive, and not missing once control is free again |
| `RwLockSection.PassIsAtomic` | libipc/ipc_sem_rw_lock.h:306-429 | one pass through the control section, with any steps of others in between, has the effect of its statements executed alone, less the tokens taken meanwhile |
| `RwLockPolicy.PreferReadLetsReaderIn` | libipc/ipc_sem_rw_lock.h:220-229 | in PreferRead, in every state that any run reaches, an RLock is let in without waiting exactly unless a writer holds or has a token: waiting writers do not matter |
| `RwLockPolicy.PreferWriteLetsReaderIn` | libipc/ipc_sem_rw_lock.h:231-240 | in PreferWrite exactly unless a writer holds or waits |
| `RwLockPolicy.PreferReadLetsWriterIn` | libipc/ipc_sem_rw_lock.h:272-281 | in PreferRead a WLock is let in exactly if nobody holds, no reader waits and no writer has a token |
| `RwLockPolicy.PreferWriteLetsWriterIn` | libipc/ipc_sem_rw_lock.h:283-292 | in PreferWrite exactly if nobody holds and nobody has a token |
| `RwLockPolicy.WriterTokenPosted` | libipc/ipc_sem_rw_lock.h:331-358 | in every run V(2) comes only when nobody holds and a writer waits, and in PreferRead only when no reader does |
| `RwLockPolicy.ReaderTokenPosted` | libipc/ipc_sem_rw_lock.h:322-330 | V(1) comes only when no writer holds and a reader waits, and in PreferWrite only when no writer does |
| `RwLockPolicy.ReaderWaitsBehindHolder` | libipc/ipc_sem_rw_lock.h:322-330 | while PreferRead is never left, a reader without a token waits only while a writer holds or has one |
| `RwLockPolicy.ReaderWaitsBehindWriter` | libipc/ipc_sem_rw_lock.h:340-358 | in any mode and across changes of it, only while a writer holds or waits |
| `RwLockPolicy.WriterWaitsBehindHolder` | libipc/ipc_sem_rw_lock.h:312-358 | a writer without a token waits only while somebody holds or a reader has a token |
| `RwLockPolicy.ModeStored` | libipc/ipc_sem_rw_lock.h:182-192 | SetPerfer stores the mode it was given, and nothing else ever changes the mode |
| `RwLockObject.SharedLock.constructor` | libipc/ipc_sem_rw_lock.h:91-101 | Create leaves cleared counters, PreferRead and one unit on the control semaphore |
| `RwLockObject.SharedLock.ReleaseAllReaders` | libipc/ipc_sem_rw_lock.h:325-330 | the release loop posts one token for each waiting reader and moves as many from the wait counter to reader_num_ |
| `RwLockObject.SemRWLock.RLock` | libipc/ipc_sem_rw_lock.h:201-252 | RLock, with the error for a caller that has a lock and for a failed P(0); otherwise in PreferRead it succeeds exactly if no writer is counted, in PreferWrite exactly if besides none is counted as waiting; reader_num_ or wait_reader_num_ goes up by one and nothing else changes |
| `RwLockObject.SemRWLock.WLock` | libipc/ipc_sem_rw_lock.h:254-304 | the same for WLock, which succeeds exactly if nobody is counted as holding and, in PreferRead, no reader as waiting |
| `RwLockObject.SemRWLock.UnLock` | libipc/ipc_sem_rw_lock.h:306-429 | UnLock of a reader or a writer in both modes: who is let in, and how many; a failed P(0) and an unlock without a lock change nothing |
| `RwLockObject.SemRWLock.SetPerfer` | libipc/ipc_sem_rw_lock.h:182-192 | the mode becomes the given one, under the control semaphore, and nothing else changes |
| `Bitmap.SetBits` | libcontainer/container_bitmap.h:66-69 | setting an index changes that one bit of the packed bytes |
| `Bitmap.UnsetBits` | libcontainer/container_bitmap.h:97-100 | clearing an index changes that one bit of the packed bytes |
| `Bitmap.BitPlace` | libcontainer/container_bitmap.h:66-69 | which bit of which byte an index stands for |
| `Bitmap.Bitmap.Set` | libcontainer/container_bitmap.h:59-72 | Set with its three outcomes: the set of indices gains this one, or nothing changes |
| `Bitmap.Bitmap.Unset` | libcontainer/container_bitmap.h:90-103 | Unset likewise loses this one |
| `Bitmap.Bitmap.Isset` | libcontainer/container_bitmap.h:121-135 | Isset tells membership, and false out of bounds |
| `Bitmap.Bitmap.Find0` | libcontainer/container_bitmap.h:152-171 | the least clear index in 1..max, or 0 exactly when all are set |
| `Bitmap.Bitmap.Find1` | libcontainer/container_bitmap.h:172-191 | the least set index, or 0 exactly when all are clear |
| `Bitmap.Bitmap.IsFull` | libcontainer/container_bitmap.h:192-198 | true exactly when all indices are set |
| `ShmLinks.LinkIn` | libipc/ipc_shm_list.h:284-309 | the pointer updates that link a slot in give a correctly linked list for the sequence with the slot inserted |
| `ShmLinks.LinkOut` | libipc/ipc_shm_list.h:398-412 | the updates that unlink a slot give a correctly linked list for the sequence without it |
| `ShmLinks.DistinctBounded` | libipc/ipc_shm_list.h:258-261 | a list without repetition over n slots has at most n elements, and with fewer some slot is free |
| `ShmLinks.ReversedAt` | libipc/ipc_shm_list.h:117-125 | what stands where in the reverse that a backward walk gives |
| `ShmEnds.ShownUnique` | libipc/ipc_shm_list.h:64-78 | the stored ends and the links show at most one list |
| `ShmEnds.BeforeShown` | libipc/ipc_shm_list.h:284-309 | a push before a node, by a handle with any cached head: the list shows the new slot at a place exactly if that is the place meant and, without a node, the cached head is the stored one, with a node, the two agree on whether it is the head |
| `ShmEnds.AfterShown` | libipc/ipc_shm_list.h:351-376 | the mirror image for a push after, with the tails |
| `ShmEnds.BeforeCuts` | libipc/ipc_shm_list.h:284-293 | without a node, what comes before the cached head is cut off, all of the list if there is no cached head |
| `ShmEnds.AfterCuts` | libipc/ipc_shm_list.h:351-360 | likewise what comes after the cached tail |
| `ShmEnds.PopShown` | libipc/ipc_shm_list.h:398-412 | a pop of a linked node shows the list without it, whatever ends the handle holds |
| `ShmList.Segment.constructor` | libipc/ipc_shm_list.h:169-197 | Create leaves an empty list and an empty bitmap |
| `ShmList.ShmList.Open` | libipc/ipc_shm_list.h:205-213 | reopening rebuilds the head object from the stored indices and shows the same list, also for a handle that was left behind |
| `ShmList.ShmList.Allocate` | libipc/ipc_shm_list.h:254-282 | a slot is found exactly if the list is open, has fewer elements than slots, and constructing the value succeeds; else the error of the first of these that fails; the slot is the least free one: bitmap and value change, the list does not |
| `ShmList.ShmList.SlotsNotExhausted` | libipc/ipc_shm_list.h:258-268 | after the check for a full list Find0 finds a slot: the bitmap error behind it is unreachable |
| `ShmList.ShmList.PushBefore` | libipc/ipc_shm_list.h:248-314 | through a handle with whatever cached ends: it succeeds exactly if the list is open, not full, and the value can be constructed; the least free slot is taken, counter and bitmap go up by it, and the list shows the new slot at a place exactly as `ShmEnds.BeforeShown` says; where it does, the values are the old ones with the new one inserted there, always so if the handle holds the stored ends; on each of the errors nothing changes |
| `ShmList.PushBeforeBeside` | libipc/ipc_shm_list.h:64-78 | of two open handles, a push through one leaves the other's cached ends behind exactly if it succeeds at the head, and they stay slots that have been linked, as the operations ask |
| `ShmList.PopBeside` | libipc/ipc_shm_list.h:383-416 | and a pop exactly if it takes the first or the last element |
| `ShmList.FirstIsLost` | libipc/ipc_shm_list.h:228-230 | two handles opened on the empty list each push to the head: the list shows the second element alone, and the counter is 2 |
| `ShmList.ShmList.PushAfter` | libipc/ipc_shm_list.h:315-381 | the same after a node, with the tails |
| `ShmList.ShmList.PushHead` | libipc/ipc_shm_list.h:228-230 | the new value comes first exactly if the cached head is the stored one; with no cached head it is all that the list shows |
| `ShmList.ShmList.PushTail` | libipc/ipc_shm_list.h:231-233 | the new value comes last exactly if the cached tail is the stored one |
| `ShmList.FillUp` | libipc/ipc_shm_list.h:169-197 | from Create and Open exactly as many pushes succeed as there are slots, the next is refused with NoSpace, and each pop makes room for one more; the contents are in the order pushed |
| `ShmList.ShmList.Pop` | libipc/ipc_shm_list.h:383-416 | popping a linked node removes exactly it from the sequence, the bitmap and the count, whatever ends the handle holds; popping a node that has left the list leaves a counter that is not the number of slots taken; no node and a closed list are errors that change nothing |
| `ShmList.ShmList.PopHead` | libipc/ipc_shm_list.h:238-240 | through an open handle the first element goes, if there is one, exactly if the cached head is the stored one; with the errors of a handle that holds it |
| `ShmList.ShmList.PopTail` | libipc/ipc_shm_list.h:241-243 | the same for the last element and the cached tail |
| `ShmList.ShmList.WalkForward` | libipc/ipc_shm_list.h:126-134 | walking Next from a linked head ends and gives the sequence from there on, all of it for a handle that holds the stored ends |
| `ShmList.ShmList.WalkBackward` | libipc/ipc_shm_list.h:117-125 | walking Prev from a linked tail ends and gives the reverse of the sequence up to there |
| `TrieKeys.SameOffset` | libcontainer/container_trie_tree.h:68-68 | two characters share an offset exactly when they differ at most in bit 0x20 |
| `TrieReasons.CharTable` | libcontainer/container_trie_tree.h:68-69 | the offset of every character, and which characters are rejected |
| `TrieKeys.CharRoundTrip` | libcontainer/container_trie_tree.h:68-69 | the character read off an offset leads back to the offset |
| `TrieKeys.UnfoldRoundTrip` | libcontainer/container_trie_tree.h:449-461 | the key read off a path leads back to the path |
| `TrieKeys.FoldUnfold` | libcontainer/container_trie_tree.h:449-461 | the key read back has bit 0x20 set in every character |
| `TrieTree.TrieTree.constructor` | libcontainer/container_trie_tree.h:106-112 | an empty trie of one node |
| `TrieTree.TrieTree.Walk` | libcontainer/container_trie_tree.h:169-182 | the loop of find and remove: the node of the folded key, or the reason there is none |
| `TrieTree.TrieTree.Find` | libcontainer/container_trie_tree.h:163-185 | the element of the folded key in the abstract map, and the reported return value in every case |
| `TrieTree.TrieTree.Insert` | libcontainer/container_trie_tree.h:198-246 | the abstract map gains exactly the folded key, or nothing on an error, which is foretold from the nodes and the memory; no dead nodes are left exactly unless a character in mid-key is rejected beyond the nodes that were there |
| `TrieTree.TrieTree.Descend` | libcontainer/container_trie_tree.h:207-229 | the descent creates the missing nodes down to where it ends, and nothing else |
| `TrieTree.TrieTree.Remove` | libcontainer/container_trie_tree.h:255-283 | the abstract map loses exactly the folded key, or nothing with the right error, and no dead nodes are left |
| `TrieTree.TrieTree.DeleteData` | libcontainer/container_trie_tree.h:332-341 | an element is cleared and the nodes it kept alive are pruned |
| `TrieTree.TrieTree.CleanReverse` | libcontainer/container_trie_tree.h:373-398 | walking up drops the empty nodes: if only beginnings of the path could be dead, afterwards every node but the root leads to an element |
| `TrieTree.TrieTree.TidyShape` | libcontainer/container_trie_tree.h:373-398 | then the nodes are exactly the beginnings of the stored paths |
| `TrieTree.TrieTree.GetKey` | libcontainer/container_trie_tree.h:449-461 | walking up and reversing gives the key of the node's path |
| `TrieTree.TrieTree.InsertTree` | libcontainer/container_trie_tree.h:426-440 | reinserting what hangs below a node adds exactly the elements at and below its path, with their values |
| `TrieTree.TrieTree.CopyOf` | libcontainer/container_trie_tree.h:118-125 | a copy has an equal folded map, nodes of its own and no dead nodes |
| `TrieRuns.SameKeyFolds` | libcontainer/container_trie_tree.h:68-68 | keys fold to one path exactly when they differ at most in bit 0x20 of their characters |
| `TrieRuns.RunShowsLastWrite` | libcontainer/container_trie_tree.h:163-283 | after any run of inserts and removes a key shows the last write under an equivalent key; keys that are not taken do not count |
| `TrieRuns.InsertTakes` | libcontainer/container_trie_tree.h:198-246 | with memory for its nodes, insert succeeds exactly for keys of accepted characters and length |
| `TrieRuns.RemoveTakes` | libcontainer/container_trie_tree.h:255-283 | remove succeeds exactly when the key is taken and has an element |
| `TrieReasons.WalkMeans` | libcontainer/container_trie_tree.h:169-182 | which reason find and remove report: a rejected character whose beginning is there, or a node that is missing behind accepted characters |
| `TrieReasons.NodesAreBeginnings` | libcontainer/container_trie_tree.h:373-398 | in a trie without dead nodes a node is there exactly if a stored key begins so |
| `TrieReasons.DescentMeans` | libcontainer/container_trie_tree.h:207-229 | the descent succeeds, meets a rejected character, or runs out of memory, from how many nodes are missing and how many can be allocated |
| `TrieReasons.InsertMeans` | libcontainer/container_trie_tree.h:198-246 | what insert reports in every case |
| `TrieRuns.Perform` | libcontainer/container_trie_tree.h:163-283 | carrying out a run on the trie, with memory for every insert, ends in the elements of the run; without rejected characters it leaves no dead nodes |
| `MsgBytes.AlignRounds` | libipc/ipc_msg_shm.cc:271-273 | _align gives the next multiple of the word, except for the last seven sizes, which wrap to zero |
| `MsgBytes.DecodeEncode` | libipc/ipc_msg_shm.cc:231-255 | length-prefixed messages are decoded again from the stream |
| `MsgRing.QueueIsDecoded` | libipc/ipc_msg_shm.cc:141-197 | the messages of the model are what a reader decodes from the bytes between head and tail |
| `MsgRing.RoomForOne` | libipc/ipc_msg_shm.cc:218-228 | when the free size suffices there is room where Send writes, and no length is split at the end |
| `MsgRing.SplitOverruns` | libipc/ipc_msg_shm.cc:187-189 | when the body goes over the end, the length that Recv computes for its second copy is larger than any object |
| `MsgRing.MsgShm.constructor` | libipc/ipc_msg_shm.cc:41-88 | Create leaves an empty ring, count 0 and mutex 1 |
| `MsgRing.MsgShm.Send` | libipc/ipc_msg_shm.cc:199-268 | it succeeds exactly if there is something to send, the free size holds the padded message and its length, and P(0) goes through; then the padded message is appended and the free size goes down by its frame; else the error, and nothing changes |
| `MsgRing.MsgShm.Store` | libipc/ipc_msg_shm.cc:227-260 | the three ways of writing come to one framed message laid at the tail, nothing else in the segment changed |
| `MsgRing.MsgShm.Recv` | libipc/ipc_msg_shm.cc:129-197 | with both semaphores to be had: the refusal exactly if the padded buffer is smaller than the oldest message, and otherwise that message, for every buffer length, unless its body goes over the end; queue and free size accordingly; every other failure changes nothing |
| `MsgRing.RecvMeaning` | libipc/ipc_msg_shm.cc:156-190 | what a receiver gets, from the room it has and where the body lies: nothing, the oldest message, or the overrun |
| `MsgRing.MsgShm.TakeMessage` | libipc/ipc_msg_shm.cc:181-196 | the copying part: the oldest message byte for byte, or the overrun |
| `MsgRing.MsgShm.TakeMessageRepaired` | libipc/ipc_msg_shm.cc:186-191 | a repair, not the code: with the second length taken first, every message is handed out |
| `MsgFifo.FirstInFirstOut` | libipc/ipc_msg_shm.cc:129-268 | in every run, up to an overrun, what was received is in order the first part of what was accepted, and the rest is in the ring |
| `MsgFifo.RunKeepsSound` | libipc/ipc_msg_shm.cc:129-268 | in every run of padded sends and of receives, lengths and head stay whole words and the load within the capacity, which is what `MsgRing.SplitOverruns` asks for |
| `MsgFifo.Perform` | libipc/ipc_msg_shm.cc:129-268 | a run of sends and receives of any lengths, carried out on the bytes up to the first overrun, hands out the accepted messages in order and byte for byte, and ends in the ring of the run |
| `MsgFifo.UniformRingIsQueue` | libipc/ipc_msg_shm.cc:129-268 | with messages of one length whose frames fill the ring no receiver ever overruns, and the load is the number of messages times the frame |
| `MsgFifo.UniformRefusal` | libipc/ipc_msg_shm.cc:213-216 | in such a ring a message is refused exactly when capacity / frame of them are in it |
| `MsgFifo.PutIsAccepted` | libipc/ipc_msg_shm.cc:199-268 | a message is accepted exactly while fewer than capacity over frame are in the ring |
| `MsgFifo.RoomyGet` | libipc/ipc_msg_shm.cc:129-197 | a receiver with room for the oldest message gets it, however much more room it has |
| `MsgFifo.AllIsDelivered` | libipc/ipc_msg_shm.cc:129-197 | after any run, as many receivers with room as there are messages left get all that was accepted, in order |
| `MsgFifo.PerformUniform` | libipc/ipc_msg_shm.cc:129-268 | so such a run is carried out to its end |
| `MsgFifo.PerformRepaired` | libipc/ipc_msg_shm.cc:186-191 | with the repair every run, of any lengths, is carried out to its end, in order and without an overrun |
| `MsgSplit.SplitIff` | libipc/ipc_msg_shm.cc:129-268 | with messages of one length, some run overruns exactly if a message fits, is longer than a word, and its frames do not fill the ring |
| `MsgProtocol.RunKeepsInv` | libipc/ipc_msg_shm.cc:141-265 | so does every interleaving of one sender and any number of receivers |
| `MsgTwoSenders.TwoSendersOverfill` | libipc/ipc_msg_shm.cc:213-268 | with two senders, any two messages that fit the empty ring one by one and not together can both be written: the load exceeds the capacity and the free size goes below zero |
| `MsgProtocol.OneInside` | libipc/ipc_msg_shm.cc:147-221 | never two processes in the critical section |
| `MsgProtocol.CountMeansMessages` | libipc/ipc_msg_shm.cc:193-196 | the count semaphore plus the receivers between P(1) and consumption or give-back is msg_num, one less between its raising and V(1); with the mutex free they are the messages in the ring and the free size is exact |
| `MsgProtocol.NoUnderrunNoOverflow` | libipc/ipc_msg_shm.cc:213-221 | no receiver enters an empty ring, and the sender's check made without the mutex still holds when it writes |
| `MsgProtocol.NoDeadlock` | libipc/ipc_msg_shm.cc:141-265 | while a message is in the ring or the sender in its call, some process can go on |
| `MsgJoined.StepKeepsInv` | libipc/ipc_msg_shm.cc:141-265 | every step of the protocol, with the bytes that it writes and the message that it takes, keeps counters and bytes in agreement |
| `MsgJoined.RingIsRightWhenFree` | libipc/ipc_msg_shm.cc:141-265 | in every interleaving, whenever the mutex is free the bytes are a ring that holds exactly the messages sent and not taken, msg_num is their number, and the bytes between head and tail decode to them |
| `MsgJoined.InsideIsSafe` | libipc/ipc_msg_shm.cc:158-228 | a receiver inside finds the oldest message at the head, and the sender inside finds the room that it checked for without the mutex |
| `SnowflakeFields.OrIsSum` | libcrypt/crypt_snowflake.h:333-335 | or-ing a value below the bits in use is adding it: the fields do not overlap |
| `SnowflakeFields.IdDetermines` | libcrypt/crypt_snowflake.h:329-338 | for compositions of at most 63 bits identifiers lie in [0, 2^63) and determine their fields |
| `SnowflakeFields.IdOrder` | libcrypt/crypt_snowflake.h:329-338 | the order of identifiers is that of the fields |
| `Snowflake.Generator.ID` | libcrypt/crypt_snowflake.h:111-193 | the identifier of the next fields, or the invalid one exactly when a reading that the composition asks for fails, with last values untouched; the two buffers change places |
| `Snowflake.Generator.Assemble` | libcrypt/crypt_snowflake.h:329-338 | shifting and or-ing gives the positional sum |
| `SnowflakeClock.FailsExactly` | libcrypt/crypt_snowflake.h:112-164 | a call fails exactly if a component of the composition cannot be read or the clock is before the activation time |
| `SnowflakeClock.OuterShows` | libcrypt/crypt_snowflake.h:202-218 | the time field is the clock less the activation time, modulo its size; the address fields likewise are the readings modulo theirs |
| `SnowflakeClock.SingleNodeLayout` | libcrypt/crypt_snowflake.h:365-367 | the identifier of SingleNode is time * 2^18 + time-back * 2^16 + serial |
| `SnowflakeClock.DefaultLayout` | libcrypt/crypt_snowflake.h:362-364 | the identifier of Default is time * 2^22 + MAC * 2^12 + serial |
| `SnowflakeClock.SingleNodeNext` | libcrypt/crypt_snowflake.h:202-218 | one call of SingleNode, from the clock and the last fields |
| `SnowflakeClock.DefaultNext` | libcrypt/crypt_snowflake.h:202-218 | one call of Default, from the clock, the MAC address and the last fields |
| `SnowflakeClock.GenerateSingleNode` | libcrypt/crypt_snowflake.h:111-193 | over a run of any length each identifier is (clock - activation time) * 2^18 + regressions so far modulo 4 * 2^16 + standstills so far modulo 2^16; of two calls the one at the later clock has the larger identifier |
| `SnowflakeClock.GenerateDefault` | libcrypt/crypt_snowflake.h:111-193 | the same for Default, with the last ten bits of the MAC address |
| `SnowflakeRun.FailuresDoNotDisturb` | libcrypt/crypt_snowflake.h:113-159 | failed readings leave no trace in a run |
| `SnowflakeRun.RunIsUnique` | libcrypt/crypt_snowflake.h:111-193 | few enough regressions, short enough stretches of one time and steady addresses make all identifiers of a run different |
| `SnowflakeRun.LongStretchRepeats` | libcrypt/crypt_snowflake.h:304-316 | one call more at one time than the serial number counts repeats an identifier |
| `SnowflakeUnique.SerialIsStills` | libcrypt/crypt_snowflake.h:304-316 | the serial number counts the calls whose time and addresses are those of the call before, modulo its size |
| `SnowflakeUnique.TimeBackIsRegressions` | libcrypt/crypt_snowflake.h:318-327 | the time-back field counts the regressions, modulo its size |
| `SnowflakeUnique.EqualIffClash` | libcrypt/crypt_snowflake.h:111-193 | two calls get one identifier exactly if time and addresses agree and, between them, regressions and unmoved readings are multiples of what their fields count |
| `SnowflakeUnique.UniqueIffNoClash` | libcrypt/crypt_snowflake.h:111-193 | for every proper composition and every run, whatever clock and interfaces do, all identifiers are different exactly if no two calls clash in this way |
| `SnowflakeUnique.UniqueIffShortStretches` | libcrypt/crypt_snowflake.h:111-193 | with few enough regressions and steady addresses: exactly if no time is shown by more calls in a row than the serial number counts |
| `SnowflakeUnique.SingleNodeUniqueIff` | libcrypt/crypt_snowflake.h:365-367 | SingleNode with at most 3 regressions: exactly if no time is shown by more than 65536 calls in a row |
| `SnowflakeUnique.DefaultUniqueIff` | libcrypt/crypt_snowflake.h:362-364 | Default with no regression and one address: exactly if no time is shown by more than 4096 calls in a row |
| `SnowflakeUnique.StandingClockRepeats` | libcrypt/crypt_snowflake.h:365-367 | a run of 65537 calls at one time that repeats an identifier |
| `SnowflakeUnique.SwingingClockRepeats` | libcrypt/crypt_snowflake.h:365-367 | a run with four regressions that repeats an identifier |
| `SnowflakeRun.ModeBits` | libcrypt/crypt_snowflake.h:361-371 | the predefined compositions; the distributed one has 65 bits |
| `SnowflakeRun.Generate` | libcrypt/crypt_snowflake.h:111-193 | the identifiers a generator hands out are those of the run |
| `Tvl.ScanFourDigits` | libparser/parser_tvl.cc:24-49 | what is printed with four digits is scanned back |
| `Tvl.FourDigitsAre` | libparser/parser_tvl.cc:53-56 | a length is four decimal digits, the highest first, with zeros in front |
| `Tvl.ScanReads` | libparser/parser_tvl.cc:28-28 | what is scanned from any text: blanks, a sign, digits; zero without a digit |
| `Tvl.LoadAfterStore` | libparser/parser_tvl.cc:12-60 | loading what was stored restores the vector even with trailing bytes; it fails exactly for the empty vector with nothing behind it |
| `Tvl.StoreLayout` | libparser/parser_tvl.cc:44-60 | where everything lies in the encoding: the number of elements, then each length and each element at its offset, and nothing else |
| `Tvl.LoadReads` | libparser/parser_tvl.cc:14-34 | what any string loads to, stored or not: how many elements, where each comes from, and where substr throws |
| `Tvl.PrefixFree` | libparser/parser_tvl.cc:44-60 | no encoding is a proper beginning of another |
| `Tvl.ParserTvl.LoadString` | libparser/parser_tvl.cc:12-34 | the vector and the outcome for any string, also for malformed numbers and for positions past the end |
| `Tvl.ParserTvl.StoreString` | libparser/parser_tvl.cc:44-60 | the encoding of the vector |
| `NodePaths.SplitJoin` | libutil/string_util.cc:86-97 | every list of names is the split of the path that joins them with slashes |
| `NodePaths.SplitName` | libcontainer/node_tree.cc:213-213 | a name alone is a path of one name |
| `NodePaths.SplitSpread` | libutil/string_util.cc:86-97 | names with any number of slashes before, between and behind them are split into just those names |
| `NodePaths.EverySpread` | libutil/string_util.cc:86-97 | and every text is of that form |
| `NodeTree.AddedLookup` | libcontainer/node_tree.cc:244-271 | a new leaf is found by one path more, all other paths find what they found |
| `NodeTree.AddedKeeps` | libcontainer/node_tree.cc:244-271 | what was found from any node is found still, also among equal names |
| `NodeTree.ElementAny.SearchBrother` | libcontainer/node_tree.cc:124-144 | this node, else the nearest before, else the nearest after of that name, or none exactly if no sibling has it |
| `NodeTree.ElementAny.SearchChild` | libcontainer/node_tree.cc:116-122 | the first child of that name |
| `NodeTree.ElementAny.Search` | libcontainer/node_tree.cc:103-114 | the node the path leads to |
| `NodeTree.ElementAny.InsertNext` | libcontainer/node_tree.cc:254-271 | the element becomes the last sibling, all links right |
| `NodeTree.ElementAny.InsertChild` | libcontainer/node_tree.cc:244-252 | the element becomes the last child |
| `NodeTree.ElementAny.Insert` | libcontainer/node_tree.cc:205-227 | afterwards the path finds exactly the returned node, every path that found a node finds it still, and only beginnings of the path are new; a path that was there changes nothing |
| `TimerDate.ReadWritten` | libtimer/timer_date.h:93-185 | a value that Set takes is read back by Get, and the other units are as before |
| `TimerDate.OtherUnits` | libtimer/timer_date.h:93-185 | the units that are not plain: a week is never set, a day of the year is read back, and setting the day of the week leaves it and moves the day of the year |
| `TimerDate.Date.Set` | libtimer/timer_date.h:129-185 | the values that Set takes, and that it ignores all others |
| `CronFrequency.SettableTable` | libtimer/timer_date.h:129-185 | the values that Set takes, unit by unit |
| `Crontab.ValuesCover` | libtimer/timer_schedue_crontab.cc:146-171 | the list of a field has exactly the numbers its parts cover |
| `Crontab.SortedUniqueFacts` | libtimer/timer_schedue_crontab.cc:180-181 | sorted without repetition, with the same elements |
| `Crontab.ParseSubRule` | libtimer/timer_schedue_crontab.cc:113-244 | the lists of a field from its parts, or nothing for each of the faults |
| `CronFrequency.ParsedExactly` | libtimer/timer_schedue_crontab.cc:113-244 | a field has a frequency exactly if its parts give one, only one, and no numbers; a list exactly if they give numbers, none too large, and no frequency; and never with a fault |
| `CronFrequency.FieldTable` | libtimer/timer_schedue_crontab.cc:192-241 | the largest number of every field |
| `Crontab.SubRuleNext` | libtimer/timer_schedue_crontab.cc:36-106 | for a list the first value above the present one, or else the first and the field starts over; for a frequency n in every field Success with curr + n exactly while that is in the range of the field, else Buckle with a value congruent to it |
| `Crontab.WrappedInRange` | libtimer/timer_schedue_crontab.cc:42-91 | a frequency stays in the range of its field, keeps its residue, and starts over exactly when it leaves the range |
| `CronFrequency.ListMinutes` | libtimer/timer_schedue_crontab.cc:77-82 | repeated calls for a frequency n of minutes give k * n modulo 60, and for a divisor of 60 the values 0, n, 2n, ..., starting over at 0 after 60 / n calls |
| `CronFrequency.StartsAtZeroIff` | libtimer/timer_schedue_crontab.cc:77-82 | it starts over at minute 0 each time exactly if n divides 60 |
| `CronFrequency.RefusedExactly` | libtimer/timer_schedue_crontab.cc:41-88 | a frequency leads to a value inside its field that Set refuses exactly at 12, 24 and 60, at day 7, and in the week everywhere |
| `CronFrequency.SecondSticksIff` | libtimer/timer_schedue_crontab.cc:83-88 | with a frequency of seconds Next gives the present date again exactly if it leads to second 60 |
| `CronFrequency.EverySecondStops` | libtimer/timer_schedue_crontab.cc:83-88 | so a rule for every second counts up to second 59 and stays there for good |
| `Crontab.Cron.constructor` | libtimer/timer_schedue_crontab.cc:307-348 | which rules are taken: eight fields, at most one of Month and Week and one of the two kinds of day given, a list or frequency for each field; which fields are skipped; and what every field holds |
| `Crontab.Cron.Next` | libtimer/timer_schedue_crontab.cc:259-281 | the loop over the fields from Second to Year |
| `CronLoop.NextMovesAll` | libtimer/timer_schedue_crontab.cc:259-281 | for every rule, with lists and frequencies in any field and weeks or days of the week given or not, and every date: one field is the last that is not skipped and does not start over; those from it on that are not skipped come to hold what their sub-rules lead to if Set takes it, and no other changes |
| `CronWheels.RankOrder` | libtimer/timer_schedue_crontab.cc:259-281 | numbering the dates of a rule respects their lexicographic order |
| `CronWheels.TurnIsNext` | libtimer/timer_schedue_crontab.cc:259-281 | one step goes on to the next number, from any date |
| `CronWheels.TurnIsLeastAboveIff` | libtimer/timer_schedue_crontab.cc:259-281 | from any date one step gives the least date of the rule above it exactly if the fields before the last one that does not start over are in their lists |
| `CronWheels.TurnSkipsNone` | libtimer/timer_schedue_crontab.cc:259-281 | from any date one step passes over no date of the rule |
| `CronWheels.TurnsReachAll` | libtimer/timer_schedue_crontab.cc:259-281 | from any date repeated steps reach every later date of the rule once, in order |
| `CronSuccessor.NextMoves` | libtimer/timer_schedue_crontab.cc:264-279 | for every rule of lists and every date: Next moves the fields from the last that does not start over on, each to where its list leads if Date::Set takes that value, and no other |
| `CronSuccessor.NextIsTurnIff` | libtimer/timer_schedue_crontab.cc:264-279 | so it is one step of the counting wheels exactly if Set takes every value that is to be set |
| `CronSuccessor.NextIsLeastAboveIff` | libtimer/timer_schedue_crontab.cc:259-281 | from any date Next gives the least date of the rule above it exactly if the fields before that stop are in their lists and Set takes every value that is to be set |
| `CronSuccessor.NextAdvancesExactly` | libtimer/timer_schedue_crontab.cc:259-281 | from any date Next goes on to a later one exactly if Set takes the value of the field where it stops |
| `CronSuccessor.AnyDateIsReady` | libtimer/timer_schedue.cc:18-26 | the date that Schedue::Next passes, the present time, meets the condition of the next three when Set takes every value of the lists |
| `CronSuccessor.NextIsSuccessor` | libtimer/timer_schedue_crontab.cc:259-281 | from any date if Set takes every value of the lists, and from the dates of the rule if it takes those of every list with more than one: Next goes on to a later date and skips no date of the rule, and gives a date of the rule exactly if the fields before the stop are in their lists, always so from a date of the rule |
| `CronSuccessor.NextListsAll` | libtimer/timer_schedue_crontab.cc:259-281 | from the same dates repeated calls go strictly up and reach every later date of the rule |
| `CronSuccessor.NextComesOnRule` | libtimer/timer_schedue.cc:18-26 | from the same dates, so from the present time, repeated calls come to dates of the rule, first to the least above the start, and stay on them |
| `CronSuccessor.NextAdvancesIff` | libtimer/timer_schedue_crontab.cc:192-241 | Next goes on to a later date from every date exactly if Set takes every value of every list, and from every date of the rule exactly if it takes those of every list with more than one |
| `CronSuccessor.DecemberIsNotReached` | libtimer/timer_date.h:137-141 | an example: month 12 is in the range of the parser and refused by Set |
| `CronSuccessor.OffTheRule` | libtimer/timer_schedue.cc:18-26 | an example: for five o'clock at second 0 and 30, from ten past three Next gives ten past three and 30 seconds, which is no date of the rule |
| `CronSuccessor.CalendarFromText` | libtimer/timer_schedue_crontab.cc:307-348 | which lists of parts make such a rule, and which dates it stands for |

## Left out

- Lock: timeouts on semaphores 1 and 2 are not among the steps of `RwLock.Do` but happenings beside them (`RwLock.Happen`): `RwLockSafety.MutualExclusion` and `RwLockTimeout.dfy` are about runs with them, the other theorems about runs without, since with them the counters are no longer exact and the lock need not drain.
- Lock: `writer_num` (271, 282) is read as `writer_num_` and `rw_mode_` (186) as `rwlock_mode_`; as written those lines name no member. `user_num_`, `SEM_UNDO`, Destroy and the mapping of the segment are not modelled.
- RwLockObject.SemRWLock.RLock: runs from P(0) to V(0) without interruption, like WLock, UnLock and SetPerfer; interleaving is in the state machine, and the two are joined by `RwLockSection.PassIsAtomic`.
- CronFrequency.ListMinutes: is about the sub-rule by itself; other fields meet the values that Date::Set refuses, as `CronFrequency.RefusedExactly` says.
- SnowflakeClock.GenerateSingleNode: the clock is below the limit of the time field throughout; beyond it the field wraps, as `SnowflakeClock.OuterShows` says. Distribute has 65 bits (`SnowflakeRun.ModeBits`) and is not laid out.
- Bitmap: the operations on whole bitmaps, whose loops never advance, and `bit_cur_size_`, which counts calls rather than bits. The list's bitmap is taken to lie over the list's own buffer, which starts at zero.
- ShmList.ShmList.PushBefore: the segment is right when the push begins; a node, like each cached end, is a slot that has been linked, if not now. Without a node and a cached head the cached tail must be missing too, for otherwise the code dereferences NULL; the same holds for the other pushes. Object names, times and destructors of elements are not modelled.
- ShmList.ShmList.WalkForward: the cached end from which a walk starts is linked or missing; a walk from a node that has left the list need not end.
- TrieTree.TrieTree.Insert: keys with `_` or DEL are excluded here and in Find and Remove, because their index 95 passes the range test and lies one past the slot array; a failed allocation of the element itself is not modelled, and `count_` is carried along as the code has it, so it is not the number of keys.
- TrieRuns.Perform: runs with `_` or DEL in a key are excluded with them; TrieRuns.InsertTakes and TrieRuns.RemoveTakes count such a key as rejected.
- TrieRuns.InsertTakes: see TrieRuns.Perform.
- TrieRuns.RemoveTakes: see TrieRuns.Perform.
- TrieTree.TrieTree.InsertTree: reinserts with enough memory for the nodes.
- TrieTree.TrieTree.CopyOf: likewise made with enough memory for its nodes. `empty`, `display` and the destructor are not modelled.
- MsgRing.MsgShm.Send: the buffer behind the pointer is taken to hold the padded length, which the code reads, and to be smaller than half the address space, so that no size wraps.
- MsgRing.MsgShm.Recv: the receiver's buffer is taken to have room for the padded length, up to which the code copies. It promises nothing about the state after an overrun, where the second copy of a split body gets a length that no object has. The head struct is a set of fields beside the bytes. Open, Close, Destroy and the flag they set are not modelled.
- MsgRing.MsgShm.constructor: the size has room for the head struct.
- MsgProtocol.RunKeepsInv: one sender, since with several the check without the mutex is not enough (`MsgTwoSenders.TwoSendersOverfill`), and a split body is an ordinary take there.
- MsgJoined.RingIsRightWhenFree: a receiver that meets a split body takes no further step.
- MsgFifo.FirstInFirstOut: is about the values; `MsgFifo.Perform` carries runs out on the bytes.
- MsgSplit.SplitIff: is about messages of one length; for mixed lengths `MsgRing.MsgShm.Recv` states the exact branch, and `MsgFifo.Perform` what holds up to an overrun.
- Snowflake.Generator.constructor: compositions have at most 63 bits, no component twice, and a serial number of at most 30 bits (beyond that the mask is shifted on an int); the components Begin and End, the hooks `func_*_bit_`, which nothing sets, and how clock and interfaces are read are not modelled.
- NodeTree.ElementAny.Insert: the clone of every new leaf succeeds (InsertLeaf); otherwise the source gets NULL and goes on with it.
- Node tree: Clone of nodes with children, InsertPrev, Erase, the searches that collect all matches, and printing. Names are fixed at construction. node_tree.h is not part of this model.
- Crontab.Cron.constructor: starts from the parts of each field and from whether its text is an asterisk alone.
- CronSuccessor.NextListsAll: rules with frequencies in other fields than Year, or that give Week or DayOfWeek, are in `CronLoop.NextMovesAll` and `CronFrequency.dfy`, and in the order of dates they are not; nor is whether a date exists in the calendar. Reading the clock is a parameter.
- Crontab.ParseSubRule: the parts of a field are values; their texts (regular expressions, `std::stoi`) are not modelled.
- Tvl.ParserTvl.StoreString: lengths over 9999, for which the code writes past its own buffer, are excluded. The pushes and pops are in `Tvl.dfy` with their limits; pushing a vector onto itself is not modelled. Files and the objects that build their own text are not modelled.
- The INI, JSON and YAML parsers, sockets, epoll, files, signals, threads, logging, the memory pool, the process-local linked list and the shared-memory trie: wrappers, easier than what is here, or unfinished.
