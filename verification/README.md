# Proofs about SPheromone's concurrent, table and protocol code

This project models the parts of the repository in which a small mistake would be hard to see,
and proves what each of them is for:

- **The reader/writer lock** `contention_free_shared_mutex` (`SharedMutex*.dfy`). Every atomic load,
  store and compare-and-swap is one step of one thread; any number of threads interleave freely; each
  has an explicit program counter. Mutual exclusion, the exactness of the recursion count, the ownership of
  slots and the measure of the writer's drain loop hold in every reachable state of every run; each call returns, with nobody
  else running, exactly under a condition that is stated, and has then done what it is for.
- **The partitioned sorted map** (`PartitionedMap.dfy`). It refines one plain sorted map over every run.
- **The chained hash table** and its iterator (`Dict.dfy`, `HashTable.dfy`, `DictIterator.dfy`): entries linked
  in the heap, rehashing in place, deletion during iteration. The table refines a finite map over every run.
- **The asynchronous client** (`Async*.dfy`): a pointer-linked callback queue, callbacks that re-enter the
  client, deferred closing. User code is an arbitrary plan of calls, so the results hold for all callbacks. The state after
  any run is given by the events, the replies and the plan.
- **The triggers** (`Triggers.dfy`, `DynamicGroup.dfy`, `CountTriggers.dfy`): the incremental buffers and
  counters against specifications that look at the whole history of arrivals and clears.
- **The multipart codec, timestamps, object names and the receive loop** (`Multipart.dfy`, `Timestamp.dfy`,
  `BucketNames.dfy`, `Requests.dfy`). `Basics.dfy` holds what several of these share,
  `Congruences.dfy` the arithmetic behind the timestamps.

Code that changes state is a class with methods or a method with loops, proved against functions on values;
the properties of those functions are lemmas. A map, set or vector that the code updates is a field of type `map`,
`set` or `seq`; the hash table's chains and the callback queue are linked objects; the codec works on arrays.

## Where the code differs from what it says

- The lock's class comment (common/include/safe_ptr.hpp:434) lists shared after exclusive and shared after shared as recursive.
  Neither always is. A thread that holds the flag, exclusively or because it came in shared without a slot, and that has a slot
  or gets one in the call, waits for its own flag forever. With nobody else running, its call returns exactly when it has no
  slot and can get none (`HolderThenShared`); an exclusive holder with a slot never returns, whatever the others do
  (`RegisteredHolderNeverReturns`). Both failures occur (`BlockedCallOccurs`, `BlockedReaderOccurs`).
- A bucket number of the hash table is an unsigned 32-bit number that is returned as an `int` (deps/hiredis/dict.c:325-342).
  In a table of more than 2^31 slots it can be negative: -1 is taken for a refusal, and any other negative number would
  index outside the table. `Accepts` and `Refuses` give the exact conditions, and a run answers as a finite map
  exactly when every new key is accepted (`AnswersIffFits`). A run that does not exists (`RefusalOccurs`, and `RefusedEntry` on one table);
  runs below 2^31 keys never get there (`FewFit`).
- A hash table of 2^31 slots or more looks empty to the iterator, because the size is compared as an `int`
  (deps/hiredis/dict.c:277-295); `UnseenEntry` builds one with an entry.
- The timeout handler of the asynchronous client runs pending callbacks without refusing new commands, so
  its loop need not end (`DrainEndsIff`), and on a context that is not freed automatically it can forget
  a free that a callback asked for (`TimeoutFreesIff`). One command on a new context is enough for both (`UnendedDrainOccurs`).
- `RedundantTrigger::clear` adds k to a 32-bit counter. A clear that carries it past 2^32, or an arrival that carries it to
  2^32, makes the next action have a number of entries other than k; a clear that reaches 2^32 exactly is harmless
  (`SyncedIff`, `WrapShows`, `DeliversIffHarmless`, `ClearingTwiceCanWrap`).
- `generate_timestamp` never returns for ids from 4135583744 on (`EndsIff`), its result reads back exactly while it fits
  64 bits (`SplitsBackIff`), and the 64-bit results of different ids can be equal, at
  different times (`CollideIff`, `AlwaysMatchedIff`) and, after an overflow, at one time (`SameTimeCollisionIff`, `SameTimeCollisionOccurs`).
- Splitting an object name loses a key and session of together at most 16 characters, and gives the parts back
  only for sessions of exactly 16 (`RoundTripIff`).
- `receive` with no ids to wait for succeeds on the first message of any kind, or gives up after 2^32 timeouts
  (`Receive`, through `Patience`).

## Model

| member | source | states |
|---|---|---|
| SharedMutexSafety.RegisterOwn | common/include/safe_ptr.hpp:553-574 | each step of registering a thread keeps that thread's part of the invariant |
| SharedMutexSafety.LockSharedCross | common/include/safe_ptr.hpp:576-595 | announcing and then testing the flag keeps the invariant between the stepping thread and any other |
| SharedMutexSafety.FallbackCross | common/include/safe_ptr.hpp:598-607 | a reader without a slot that takes the writer flag excludes every other holder of the flag |
| SharedMutexSafety.LockCross | common/include/safe_ptr.hpp:626-645 | winning the flag and draining slot by slot keeps, for every drained slot, that its owner is not inside |
| SharedMutexSafety.UnlockSharedOwn | common/include/safe_ptr.hpp:610-624 | leaving a shared section, by slot or by flag, keeps the thread's part of the invariant |
| SharedMutexSafety.ReleaseCross | common/include/safe_ptr.hpp:647-653 | releasing an exclusive lock keeps the invariant between threads |
| SharedMutexSafety.UnregisterOwn | common/include/safe_ptr.hpp:498-522 | giving a slot back keeps the thread's part of the invariant |
| SharedMutexSafety.InvPreserved | common/include/safe_ptr.hpp:551-653 | every step of every thread, and every call allowed by the rule against upgrading, keeps the whole invariant |
| SharedMutexSafety.InvAlong | common/include/safe_ptr.hpp:551-653 | the invariant holds after every run from a state that has it |
| SharedMutexSafety.ReachableInv | common/include/safe_ptr.hpp:551-653 | every reachable state, for any number of slots and threads, satisfies the invariant |
| SharedMutexSafety.MutualExclusion | common/include/safe_ptr.hpp:576-653 | while a thread is inside the exclusive section, no other is inside an exclusive or shared section, whichever way the reader came in |
| SharedMutexAlone.ReturnsAloneIff | common/include/safe_ptr.hpp:551-653 | from any point of any call, a thread with nobody else running returns exactly when it does not wait for a flag that is up or for a reader that is in |
| SharedMutexAlone.ReachesFinal | common/include/safe_ptr.hpp:551-653 | such a thread returns within a bound of its own steps, with the memory and its own state as the call is meant to leave them |
| SharedMutexAlone.UnlockReturns | common/include/safe_ptr.hpp:647-653 | unlock always returns, after three steps at most; one exclusive lock is released, and the flag and its owner are cleared exactly when no lock by the flag is left |
| SharedMutexAlone.UnlockSharedReturns | common/include/safe_ptr.hpp:610-624 | unlock_shared always returns; the slot shows one less, or the flag is cleared exactly when no lock by it is left |
| SharedMutexAlone.UnregisterReturns | common/include/safe_ptr.hpp:498-522 | unregistering always returns, and frees the slot and drops its reference, or changes nothing inside a shared lock |
| SharedMutexAlone.LockReturnsIff | common/include/safe_ptr.hpp:626-645 | with nobody else running, lock returns exactly when the thread holds it exclusively already, or the flag is down and nobody is in or announced through a slot; the thread then owns the flag |
| SharedMutexAlone.LockSharedReturnsIff | common/include/safe_ptr.hpp:553-607 | with nobody else running, exactly when lock_shared returns, and which of its three ways in it has taken: the own slot, the first free slot, or the flag |
| SharedMutexAlone.BoundedSteps | common/include/safe_ptr.hpp:553-653 | over every interleaving, registering and every call that gives something back take a bounded number of the thread's own steps |
| SharedMutexRuns.NoAssertionFails | common/include/safe_ptr.hpp:576-653 | none of the lock's own assertions fails in a reachable state |
| SharedMutexRuns.CountIsExact | common/include/safe_ptr.hpp:598-653 | the recursion count equals the unreleased exclusive and flag-held shared locks of the one flag holder, and no other thread is about to touch it |
| SharedMutexRuns.SlotHasOneOwner | common/include/safe_ptr.hpp:551-595 | an occupied slot belongs to exactly one thread, and its value is one more than that thread's depth (two while announcing) |
| SharedMutexRuns.SlotFreedOnlyWhenUnheld | common/include/safe_ptr.hpp:498-522 | a slot becomes free only by its owner's unregistering, outside every shared lock |
| SharedMutexRuns.FlagUpStep | common/include/safe_ptr.hpp:583-595 | while the flag is up, one step can only shrink the readers inside and the threads yet to announce |
| SharedMutexRuns.ReadersOnlyLeave | common/include/safe_ptr.hpp:583-645 | over any run with the flag up, readers only leave and the number of new announcements is bounded by the threads yet to announce |
| SharedMutexRuns.AnnouncementWithdrawn | common/include/safe_ptr.hpp:589-594 | over every run with the flag up, a thread that has announced itself withdraws within two of its own steps and stays withdrawn |
| SharedMutexRuns.DrainAdvances | common/include/safe_ptr.hpp:640-641 | whatever the others do, a draining writer never goes back, and passes a slot with the first of its own steps that finds it at 1 or 0 |
| SharedMutexRuns.DrainBlockedBy | common/include/safe_ptr.hpp:632-645 | what a draining writer waits for is a reader inside or a thread that announced and has not withdrawn |
| SharedMutexRuns.SelfBlockedForever | common/include/safe_ptr.hpp:583-595 | a flag holder in the waiting loop stays there over every run, with the flag up |
| SharedMutexRuns.HolderThenShared | common/include/safe_ptr.hpp:576-607 | with nobody else running, a further shared lock of a thread that holds the flag, exclusively or shared, returns exactly when the thread has no slot and can obtain none |
| SharedMutexRuns.SeekingEvent | common/include/safe_ptr.hpp:553-607 | over every interleaving, a flag holder's shared lock returns only through the fallback, without a slot; otherwise it goes on seeking one or is blocked |
| SharedMutexRuns.RegisteredHolderNeverReturns | common/include/safe_ptr.hpp:576-595 | an exclusive holder with a slot never returns from its shared lock, over every run of all threads |
| SharedMutexRuns.BlockedCallOccurs | common/include/safe_ptr.hpp:576-645 | a call that does not return is reachable: one thread, one slot, exclusive and then shared |
| SharedMutexRuns.BlockedReaderOccurs | common/include/safe_ptr.hpp:576-617 | and so is one between shared locks: a reader without a slot locks again after the only slot was given back |
| SharedMutexRuns.UpgradeBreaksExclusion | common/include/safe_ptr.hpp:434-435 | in every reachable state with a flag-held reader and a slot reader, upgrading against the rule lets the first in beside the second |
| SharedMutexRuns.UpgradeStateOccurs | common/include/safe_ptr.hpp:598-607 | such a state is reachable |
| SortedContainer.EmplacedPairs | common/include/safe_ptr.hpp:737-740 | emplacing keeps a container ascending and adds the pair exactly when its key is new |
| SortedContainer.BoundsDelimitRange | common/include/safe_ptr.hpp:719-735 | the stretch between lower bound and upper bound is exactly the pairs in the range, and the rest exactly the others |
| SortedContainer.InsidePairs | common/include/safe_ptr.hpp:719-728 | a range query's meaning: the pairs with keys in the range, ascending |
| SortedContainer.OutsidePairs | common/include/safe_ptr.hpp:730-735 | a range removal's meaning: the pairs with keys outside the range, ascending |
| SortedContainer.AtMostOne | common/include/safe_ptr.hpp:748-748 | a key occurs at most once, and exactly when some pair has it |
| PartitionedMap.BelowPartition | common/include/safe_ptr.hpp:694-704 | all partitions before the one picked for a key hold smaller keys |
| PartitionedMap.AbovePartition | common/include/safe_ptr.hpp:694-704 | all partitions after the one picked for a key hold larger keys |
| PartitionedMap.PartItIff | common/include/safe_ptr.hpp:694-698 | the partition picked for a key is the one whose bound is the first not below it, or the last |
| PartitionedMap.FlatAscending | common/include/safe_ptr.hpp:694-704 | the partitions one after another form one ascending container, so they are disjoint |
| PartitionedMap.EmplaceRefines | common/include/safe_ptr.hpp:737-740 | emplacing into the picked partition is emplacing into the one plain map |
| PartitionedMap.UnvisitedPartition | common/include/safe_ptr.hpp:719-735 | a partition that the walk skips holds nothing in the range |
| PartitionedMap.CutByWalk | common/include/safe_ptr.hpp:730-735 | removing the range from the visited partitions removes it from the whole |
| PartitionedMap.WalkRange | common/include/safe_ptr.hpp:719-728 | the walk collects exactly the ascending slice of the whole map, although it may go past the partition of the upper key |
| PartitionedMap.PartitionedMap.constructor | common/include/safe_ptr.hpp:683-683 | one partition bounded by the default key, standing for the empty map |
| PartitionedMap.PartitionedMap.Stepped | common/include/safe_ptr.hpp:685-688 | partitions at start, start + step and so on up to end; none if start is above end |
| PartitionedMap.PartitionedMap.Listed | common/include/safe_ptr.hpp:690-692 | one partition for each distinct bound of the list, standing for the empty map |
| PartitionedMap.PartitionedMap.Emplace | common/include/safe_ptr.hpp:737-740 | emplaces into the plain map that the object stands for, and keeps the bounds |
| PartitionedMap.PartitionedMap.Erase | common/include/safe_ptr.hpp:748-748 | removes the key from the plain map, keeps the bounds and returns how many pairs that were |
| PartitionedMap.PartitionedMap.Size | common/include/safe_ptr.hpp:742-746 | the sum over the partitions is the size of the plain map |
| PartitionedMap.PartitionedMap.Clear | common/include/safe_ptr.hpp:750-750 | empties the plain map and keeps the bounds |
| PartitionedMap.PartitionedMap.GetRangeEqual | common/include/safe_ptr.hpp:712-717 | exactly the pairs of the plain map with the key |
| PartitionedMap.PartitionedMap.GetRangeLowerUpper | common/include/safe_ptr.hpp:719-728 | exactly the slice of the plain map from low to up |
| PartitionedMap.PartitionedMap.EraseLowerUpper | common/include/safe_ptr.hpp:730-735 | removes exactly that slice, and keeps the bounds |
| PartitionedMap.Replay | common/include/safe_ptr.hpp:683-750 | over any run, a map with any bounds gives the answers of one plain sorted map |
| TableSizes.NextPower | deps/hiredis/dict.c:311-320 | ends with the least power of two that is at least 4 and at least the argument, or with the saturated value |
| TableSizes.MaskIsRemainder | deps/hiredis/dict.c:333-333 | masking with a power of two less one is the remainder, so the bucket is in bounds |
| DictChains.PushedAllPlaced | deps/hiredis/dict.c:108-131 | moving all entries to a new table puts each in the bucket of its hash, once |
| DictChains.RemovedWithout | deps/hiredis/dict.c:204-217 | unlinking one position is removing that key from every chain |
| HashTable.AllocatedSize | deps/hiredis/alloc.h:62-68 | the size that the next power of two gives passes the allocator's overflow check exactly for requests of at most 2^60 slots, and is then a legal table size |
| HashTable.Dict.Find | deps/hiredis/dict.c:255-268 | finds the entry of a key exactly when the map has the key, with its value |
| HashTable.Dict.MoveAll | deps/hiredis/dict.c:112-132 | the loop over the old table moves every entry, in order, to the front of its new chain, and ends with the old count at zero |
| HashTable.Dict.Expand | deps/hiredis/dict.c:92-138 | for every size: rebuilds the table with the least power of two, at least 4, that is enough, and the same map; changes nothing exactly when the size is below the count or the allocation would overflow |
| HashTable.Dict.ExpandIfNeeded | deps/hiredis/dict.c:300-308 | the size afterwards is the one that growing by doubling gives, the map is the same, and success means exactly that there is room: the growth test never misses |
| HashTable.Dict.KeyIndex | deps/hiredis/dict.c:325-342 | for every table: -1 for a present key or a full table, otherwise the bucket of the hash, in the table as it is after growing, converted to `int` |
| HashTable.Dict.Add | deps/hiredis/dict.c:141-163 | adds the pair exactly when the key is new, there is room and its bucket number is not negative as an `int`; otherwise the map stays as it was; the new entry is the first of its chain |
| HashTable.Dict.Replace | deps/hiredis/dict.c:169-191 | a present or accepted key has the new value afterwards, also when the table is rebuilt on the way; reports whether the key was new |
| HashTable.Dict.Delete | deps/hiredis/dict.c:194-222 | removes exactly the key, from its one chain, and reports whether it was there |
| DictIterator.Iterator.constructor | deps/hiredis/dict.c:270-275 | a new iterator stands before all entries of the table |
| DictIterator.Iterator.Next | deps/hiredis/dict.c:277-295 | returns the next of the entries still to come, null exactly when there are none left; a table of 2^31 slots or more looks empty |
| DictIterator.Iterator.DeleteVisited | deps/hiredis/dict.c:194-222 | deleting an entry that has been returned leaves the entries still to come as they were |
| DictIterator.Sweep | deps/hiredis/dict.c:270-295 | a loop that deletes any of the entries just after they are returned ends, visits each key of the start once, in the order of the chains, and deletes exactly those, leaving the size; over a table that had 2^31 slots or more it visits nothing |
| DictIterator.UnseenEntry | deps/hiredis/dict.c:277-295 | a table of 2^31 slots with one entry is swept without seeing it |
| DictIterator.RefusedEntry | deps/hiredis/dict.c:141-148 | a table of 2^32 free slots refuses a new key whose hash is 2^32 - 1 |
| DictIterator.AnswersIffFits | deps/hiredis/dict.c:141-222 | over every run, the table's answers are those of a finite map exactly when every new key finds room and a bucket number that is not negative as an `int` |
| DictIterator.SizeIsLeast | deps/hiredis/dict.c:300-320 | over every run below 2^60 keys the size is the least power of two, at least 4, that has room for all keys that an add or replace met and one more; no table before the first |
| DictIterator.Replay | deps/hiredis/dict.c:92-342 | every run of add, replace, delete and find on a new table, of any length, that does not index outside the table gets the table's answers, which are a finite map's exactly under that condition; the size is then the least that the run needed |
| DictIterator.RefusalOccurs | deps/hiredis/dict.c:141-163 | a run from a new table in which the answers differ |
| DictIterator.FewFit | deps/hiredis/dict.c:300-342 | runs in which every add and replace meets fewer than 2^31 keys meet that proviso, however long they are |
| CallbackLists.CallbackList.Push | deps/hiredis/async.c:269-289 | appends to the queue that the linked nodes stand for |
| CallbackLists.CallbackList.Shift | deps/hiredis/async.c:291-305 | removes and returns the oldest, or reports that there is none |
| AsyncClient.Context.Command | deps/hiredis/async.c:834-968 | a regular command, with or without a function, is appended to the queue and to the accepted commands and leaves output unsent, exactly when the context is not closing; otherwise nothing changes |
| AsyncClient.Context.RunCallback | deps/hiredis/async.c:307-314 | a callback performs its whole plan of re-entrant calls, in order, with the in-callback flag up |
| AsyncClient.Context.AsyncFree | deps/hiredis/async.c:362-409 | ends, with every pending callback consumed with NULL; callable only when new commands are refused or nothing is pending |
| AsyncClient.Context.AsyncDisconnect | deps/hiredis/async.c:427-452 | checks that a clean disconnect leaves nothing pending, flags an unclean one, and frees unless told not to |
| AsyncClient.Context.Disconnect | deps/hiredis/async.c:460-468 | flags, and disconnects at once only outside callbacks with nothing pending |
| AsyncClient.Context.Free | deps/hiredis/async.c:415-424 | flags, and frees at once only outside callbacks |
| AsyncClient.Context.ProcessCallbacks | deps/hiredis/async.c:570-662 | hands a batch of replies to the queued callbacks one by one, with the exits for freeing, stray replies and the end of the batch |
| AsyncClient.Context.HandleTimeout | deps/hiredis/async.c:776-813 | after any number of rounds of its loop, the state that the protocol gives for that many rounds |
| AsyncClient.Context.Handle | deps/hiredis/async.c:709-774 | an event from the event loop or a call from outside callbacks does what the protocol's step does |
| AsyncClient.Drive | deps/hiredis/async.c:269-968 | over any sequence of events on a new context, the linked object and the protocol agree and the invariant holds |
| AsyncRuns.ConsumeOne | deps/hiredis/async.c:307-314 | whatever a callback does, exactly one delivery is logged, flags only rise, and accepted commands are those consumed followed by those queued |
| AsyncRuns.DrainDrains | deps/hiredis/async.c:362-371 | n rounds consume only with NULL, and when new commands are refused each round shortens the queue by one, so the drain ends |
| AsyncRuns.StepGood | deps/hiredis/async.c:570-813 | every event keeps the invariant against all replies that have arrived |
| AsyncRuns.RepliesInOrder | deps/hiredis/async.c:570-662 | over every run and plan, the n-th callback consumed is the n-th accepted command's, and it gets the n-th reply of the wire, or NULL once replies have ended |
| AsyncRuns.NothingSkipped | deps/hiredis/async.c:570-662 | while the connection is healthy every reply that arrived has been delivered, and the queue is exactly the unanswered commands |
| AsyncRuns.FreedConsumesAll | deps/hiredis/async.c:362-409 | once freed, every accepted command's callback was consumed exactly once; after a clean disconnect each got its own reply |
| AsyncRuns.CleanDisconnectAssertionHolds | deps/hiredis/async.c:427-438 | the assertion of the clean disconnect never fails |
| AsyncRuns.CleanDisconnectCompletes | deps/hiredis/async.c:570-585 | after a disconnect request, with the output sent, the replies to all pending commands close the context without an error |
| AsyncRuns.CleanDisconnectWaits | deps/hiredis/async.c:570-585 | a batch closes the context cleanly only if a disconnect was asked for, nothing is pending and nothing is unsent |
| AsyncRuns.UserDisconnectClears | deps/hiredis/async.c:460-468 | asking for a disconnect always leaves the context one that frees itself |
| AsyncRuns.SolicitedReplies | deps/hiredis/async.c:605-632 | a batch no longer than the queue never reaches the subscription assertion |
| AsyncRuns.ClosingIsFinal | deps/hiredis/async.c:849-849 | from the first disconnect or free on, no run accepts a command again |
| AsyncRuns.DrainEndsIff | deps/hiredis/async.c:804-806 | a loop that runs the pending callbacks ends under every plan exactly when new commands are refused or no queued callback has a function |
| AsyncRuns.FreeIsCarriedOut | deps/hiredis/async.c:640-644 | outside the timeout handler, a free asked for in a callback is carried out before the event is over |
| AsyncRuns.TimeoutFreesIff | deps/hiredis/async.c:776-813 | the timeout handler carries it out under every plan exactly when it does nothing, or the context is freed automatically, or there is no callback to ask |
| AsyncRuns.UnendedDrainOccurs | deps/hiredis/async.c:776-813 | after one command on a new context that is not freed automatically, a plan exists under which the handler's loop does not end, and one under which it forgets a free |
| AsyncHistory.ConsumeDid | deps/hiredis/async.c:307-314 | a consumed callback does exactly its part of the plan: commands before the first disconnect or free are accepted, flags rise as asked |
| AsyncHistory.ProcessDid | deps/hiredis/async.c:570-662 | over a batch, the callbacks that got a reply did their parts first, then the context was closed or not, then those without a reply did theirs |
| AsyncHistory.StepDid | deps/hiredis/async.c:570-968 | every event: the commands it added, the flags it raised and what is unsent, in terms of the event and of the plans of the callbacks it invoked |
| AsyncHistory.AcceptedIsIssued | deps/hiredis/async.c:834-968 | over every run, the accepted commands are those issued by calls and by callbacks while the context took commands, in order, and output is unsent exactly when one of them came after the last complete write |
| AsyncDelivery.RepliesDelivered | deps/hiredis/async.c:570-662 | a batch no longer than the queue hands reply j to the j-th pending callback, error replies included, up to the first callback that has the context freed, and NULL to those after it; no reply is an error of the connection |
| AsyncDelivery.StrayReply | deps/hiredis/async.c:605-632 | a reply that nothing waits for closes the context with an error if it is an error reply, and trips the subscription assertion otherwise |
| AsyncDelivery.BatchesJoin | deps/hiredis/async.c:570-662 | how replies are cut into batches makes no difference while the context stays open |
| AsyncDelivery.FreeDelivers | deps/hiredis/async.c:362-409 | freeing hands NULL to every pending callback, in order, and nothing else |
| AsyncDelivery.FailuresClose | deps/hiredis/async.c:709-758 | input or output that fails closes the context: the first error is kept, commands are refused, and unless it is not freed automatically every pending callback gets NULL and it is freed |
| AsyncDelivery.DisconnectCloses | deps/hiredis/async.c:460-468 | a disconnect frees a context with nothing pending at once, and otherwise only refuses commands |
| AsyncDelivery.FreeCloses | deps/hiredis/async.c:415-424 | a free outside callbacks frees at once, with NULL for every pending callback |
| AsyncDelivery.OutputDelivers | deps/hiredis/async.c:737-774 | commands and writes hand out nothing and leave the context open |
| AsyncDelivery.TimeoutDelivers | deps/hiredis/async.c:776-813 | a timeout does nothing to an idle or unconfigured context; otherwise it hands out one NULL a round until nothing is pending, and then closes the context with the timeout error |
| TriggerEvents.ListOf | common/include/trigger.hpp:224-226 | iteration over an unordered container meets each element once |
| BySet.PreparedIsRound | common/include/trigger.hpp:216-233 | the buffer of a session is exactly the keys of the set that arrived since its last fire or clear |
| BySet.FiresIff | common/include/trigger.hpp:216-233 | an event fires exactly when, with it, all keys of the set have arrived in its session since the last fire or clear |
| BySet.SessionsIndependent | common/include/trigger.hpp:216-233 | a session's firings are those of the history with all other sessions left out |
| BySet.Trigger.ActionForNewObject | common/include/trigger.hpp:216-233 | no action, or one that lists every key of the set once with the session |
| BySet.Trigger.ClearSession | common/include/trigger.hpp:271-274 | forgets the session's keys |
| BySet.Replay | common/include/trigger.hpp:210-281 | over any history, each event is answered as the specification says |
| DynamicGroup.Group | common/include/trigger.hpp:300-300 | the longest prefix without a colon that the key has before its first colon |
| DynamicGroup.GroupsAreRound | common/include/trigger.hpp:297-322 | the data buffer is exactly the data keys of the open round, each under its own prefix |
| DynamicGroup.ControlIsRound | common/include/trigger.hpp:297-322 | the control buffer is exactly the control-group keys of the open round |
| DynamicGroup.FiresIff | common/include/trigger.hpp:297-322 | an event fires exactly when it is a control key and, with it, the round has all keys of the control group |
| DynamicGroup.OnlyControlKeysFire | common/include/trigger.hpp:301-305 | with a nonempty control group only one of its own keys can fire |
| DynamicGroup.RoundDelivered | common/include/trigger.hpp:305-317 | on firing there is one action for each prefix of a data key of the round; it lists exactly the round's keys with that prefix, each once, with the firing session, and nothing of an earlier round |
| DynamicGroup.OneActionPerKey | common/include/trigger.hpp:305-317 | so each data key of the round is in exactly one action, the one for its prefix |
| DynamicGroup.Trigger.ActionForNewObject | common/include/trigger.hpp:297-322 | no action, or one action for each data group, naming each of its keys once |
| DynamicGroup.Trigger.ClearAll | common/include/trigger.hpp:336-339 | ends the round |
| DynamicGroup.Replay | common/include/trigger.hpp:291-345 | over any history, each event is answered as the specification says |
| ByBatchSize.BatchesAreConsecutive | common/include/trigger.hpp:160-177 | the objects are delivered in consecutive batches of the size as the comparison reads it: zero acts as one, a negative count as a number near 2^64 |
| ByBatchSize.DeliversConfigured | common/include/trigger.hpp:160-177 | in terms of the configured number: object i completes a batch exactly when `count` divides i + 1, and the batch is the last `count` objects; 0 delivers each object alone, a negative count after count + 2^64 |
| ByBatchSize.ClearRestarts | common/include/trigger.hpp:160-202 | over any history, what is buffered is what a trigger would buffer that had seen only the objects since the last clear |
| ByBatchSize.Replay | common/include/trigger.hpp:154-208 | over any history, each event is answered as the specification says |
| ByBatchSize.Trigger.ActionForNewObject | common/include/trigger.hpp:160-177 | buffers the object, or delivers the whole buffer with it |
| ByBatchSize.Trigger.ClearSession | common/include/trigger.hpp:199-202 | drops the waiting objects |
| Redundant.CountIsPeriodic | common/include/trigger.hpp:352-368 | without clears the counter is the number of arrivals modulo max(n, k + 1), for all 32-bit k and n |
| Redundant.DeliversFirstK | common/include/trigger.hpp:352-368 | each period delivers exactly its first k objects in one action, for every k below 2^32 - 1 |
| Redundant.LargestK | common/include/trigger.hpp:352-368 | for k = 2^32 - 1 it does not: a period's last object leads the next action |
| Redundant.ClearedCount | common/include/trigger.hpp:381-384 | a clear adds k to the counter, less 2^32 where the sum reaches it |
| Redundant.ClearDrops | common/include/trigger.hpp:352-384 | behind a clear below 2^32 - 1 the counter goes on from the sum, objects are dropped and nothing is delivered until it reaches n, and then it starts from 0 |
| Redundant.ClearToLast | common/include/trigger.hpp:352-384 | behind a clear to 2^32 - 1 itself the next action has k + 1 entries |
| Redundant.ClearRestarts | common/include/trigger.hpp:352-384 | behind a clear that reaches 2^32 the next action comes with, and has, 2^32 less the old counter entries |
| Redundant.SyncedIff | common/include/trigger.hpp:352-384 | buffer and counter stay in step over an event exactly when it is harmless: an arrival below 2^32 - 1, or a clear to at most 2^32 |
| Redundant.EveryActionHasK | common/include/trigger.hpp:352-384 | over a history of harmless events, every action has exactly k entries |
| Redundant.WrapShows | common/include/trigger.hpp:352-384 | after an event that is not harmless, the next action has a number of entries other than k |
| Redundant.DeliversIffHarmless | common/include/trigger.hpp:352-384 | over a whole history: at every moment the next action is going to have k entries whatever arrives, exactly when every event of the history is harmless |
| Redundant.ClearingTwiceCanWrap | common/include/trigger.hpp:381-384 | two clears in a row can carry the counter past 2^32 |
| Redundant.Trigger.ActionForNewObject | common/include/trigger.hpp:352-368 | counts in 32 bits, buffers, delivers or drops as the specification says |
| Redundant.Trigger.ClearSession | common/include/trigger.hpp:381-384 | adds k to the counter in 32 bits and drops the buffer |
| Redundant.Replay | common/include/trigger.hpp:347-391 | over any history, each event is answered as the specification says |
| MultipartFormat.NetworkOrder | deps/cppzmq/zmq_addon.hpp:77-102 | reading the four bytes written for a number gives the number |
| MultipartFormat.NetworkOrderInverse | deps/cppzmq/zmq_addon.hpp:77-102 | writing the number read from four bytes gives the bytes |
| MultipartFormat.MostSignificantFirst | deps/cppzmq/zmq_addon.hpp:77-102 | the four bytes are the digits of the number to base 256, the most significant first, for writing and for reading |
| MultipartFormat.WireLayout | deps/cppzmq/zmq_addon.hpp:236-256 | byte by byte: the size in one byte, or 255 and the size in four, and then the data |
| MultipartFormat.EncodedOne | deps/cppzmq/zmq_addon.hpp:240-252 | the one-byte form is used exactly below 255 |
| MultipartFormat.EncodedJoins | deps/cppzmq/zmq_addon.hpp:236-256 | parts are written one after the other |
| MultipartFormat.FirstFrameIff | deps/cppzmq/zmq_addon.hpp:281-297 | a part is read from the front of some bytes exactly when a well-formed frame of it stands there |
| MultipartFormat.ParsedSound | deps/cppzmq/zmq_addon.hpp:275-302 | parsing loses no byte and stops only where no whole frame follows |
| MultipartFormat.ParsedUnique | deps/cppzmq/zmq_addon.hpp:275-302 | there is only one way to read a sequence of bytes |
| MultipartFormat.RoundTrip | deps/cppzmq/zmq_addon.hpp:220-302 | decoding what was encoded gives the same list of parts |
| MultipartFormat.ReEncoding | deps/cppzmq/zmq_addon.hpp:220-302 | encoding what was decoded is never longer than the input, and is the input exactly when every size was in the shorter form |
| Multipart.CheckSizes | deps/cppzmq/zmq_addon.hpp:222-234 | the first pass gives the size of the encoding, or the range error exactly when some part has 2^32 bytes or more |
| Multipart.WriteNetworkOrder | deps/cppzmq/zmq_addon.hpp:77-89 | writes the four digits of the number to base 256, most significant first, and leaves what is before them |
| Multipart.WriteParts | deps/cppzmq/zmq_addon.hpp:236-256 | the second pass fills the buffer with the encoding and ends exactly at its end |
| Multipart.Encode | deps/cppzmq/zmq_addon.hpp:220-258 | the message is exactly the encoding; the only failure is a part of 2^32 bytes or more |
| Multipart.ReadFrame | deps/cppzmq/zmq_addon.hpp:281-294 | reads the size in either form, most significant byte first, and that many bytes after it, or says which bound was exceeded |
| Multipart.Decode | deps/cppzmq/zmq_addon.hpp:275-302 | accepts exactly the bytes that are whole frames to the end and returns their parts; otherwise the parts before the first incomplete frame and the kind of error |
| Timestamp.EndsIff | common/include/common.hpp:144-144 | the loop ends exactly for ids below 4135583744 |
| Timestamp.GenerateTimestamp | common/include/common.hpp:141-146 | the time multiplied by the loop's multiplier plus the id, cut to 64 bits, for every id with which the loop ends |
| Timestamp.LeastPowerOfTen | common/include/common.hpp:142-144 | for ids of at most nine digits the multiplier is the least power of ten above the id, at least ten |
| Timestamp.FirstPowerAbove | common/include/common.hpp:142-144 | for every id with which the loop ends, the multiplier is the first power of ten, from ten on and cut to 32 bits, above the id |
| Timestamp.SplitsBackIff | common/include/common.hpp:145-145 | time and id are quotient and remainder of the 64-bit result exactly when the uncut timestamp fits 64 bits |
| Timestamp.IncreasingInTime | common/include/common.hpp:145-145 | for one id, a later time gives a larger 64-bit result, as long as the later timestamp fits 64 bits |
| Timestamp.GrowsIff | common/include/common.hpp:145-145 | from one tick to the next the 64-bit result grows exactly when the uncut timestamp passes no multiple of 2^64 |
| Timestamp.SameTimeCollisionIff | common/include/common.hpp:141-146 | at one time, any two ids with which the loop ends get the same 64-bit result exactly when 2^64 divides the time multiplied by the difference of their multipliers plus their difference |
| Timestamp.DistinctIds | common/include/common.hpp:141-146 | so different ids never collide at one time while the larger timestamp fits 64 bits, and with equal multipliers never at all |
| Timestamp.SameTimeCollisionOccurs | common/include/common.hpp:141-146 | after an overflow they can: ids 0 and 10 at one clock value |
| Timestamp.CollideIff | common/include/common.hpp:141-146 | at some two clock values any two ids with which the loop ends get the same 64-bit result, exactly when the greatest common divisor of their multipliers and 2^64 divides their difference |
| Timestamp.AlwaysMatchedIff | common/include/common.hpp:141-146 | every 64-bit result of the one id is one of the other at some clock value, exactly when the common divisor of the other's multiplier and 2^64 divides the difference of the ids and the one's multiplier |
| BucketNames.NameLayout | common/include/common.hpp:29-36 | where bucket, bar, key and session stand in a name |
| BucketNames.ParseLayout | common/include/common.hpp:47-72 | the bucket is what precedes the first bar, the session the last 16 characters behind it and the key the rest, or both are empty; a text without a bar stands for all of it |
| BucketNames.RoundTripIff | common/include/common.hpp:47-72 | a name gives bucket, key and session back exactly when the bucket has no bar and the session has 16 characters after a nonempty key, or key and session are empty |
| BucketNames.NamesDistinct | common/include/common.hpp:33-62 | such objects have the same name only if they are the same |
| BucketNames.ParseIff | common/include/common.hpp:47-72 | a text is the name of the parts read from it exactly when it has a bar with nothing or more than 16 characters behind it |
| Requests.OnePerId | common/include/requests.hpp:38-41 | the responses kept are one for each requested id that was answered, and nothing else |
| Requests.KeptIsFirst | common/include/requests.hpp:38-41 | each is the first message of the stream with its id |
| Requests.KeptInOrder | common/include/requests.hpp:38-41 | they are kept in the order in which they came |
| Requests.AnsweredIff | common/include/requests.hpp:38-41 | an id is answered exactly when a message with it has come |
| Requests.TimeoutsCount | common/include/requests.hpp:47-55 | the timeouts counted are those of the stream |
| Requests.PatienceIs | common/include/requests.hpp:28-28 | the wait allows as many timeouts as there are ids; 2^32 when there are none |
| Requests.Receive | common/include/requests.hpp:22-58 | true exactly when a message leaves no id unanswered with fewer timeouts before it than there are ids, false exactly when that many timeouts come first; nothing is read beyond; true appends the kept responses, false empties the list |
| Requests.Collect | common/include/requests.hpp:31-57 | the loop with its 32-bit counter, for any number of ids |
| Requests.MakeRequest | common/include/requests.hpp:69-82 | succeeds exactly when an answer comes before the first timeout, gives up exactly when a timeout comes first, and returns the first answer |

## Left out

- The lock is modelled under sequential consistency; weaker memory orders, yielding, sleeping, thread exit and destruction are not modelled, and threads register only through `lock_shared`.
- SharedMutexSafety.InvPreserved: exclusive after shared, which the class comment calls undefined, is not a call that threads make; the recursion counts are unbounded.
- Progress of a call that waits is stated with nobody else running and not under fair scheduling, because a thread that holds the flag can wait for itself and a waiting one can be overtaken without end.
- PartitionedMap.PartitionedMap.GetRangeLowerUpper: requires low <= up, as an inverted range makes the iterators of the code meaningless; the same holds for EraseLowerUpper.
- The locks around each partition, keys other than integers, and overflow of the stepping key are not modelled.
- HashTable.Dict.Add: requires that a new key's bucket number is not a negative `int` other than -1, which the code would use as an index outside the table; the same holds for Replace and for the runs of DictIterator.Replay.
- HashTable.Dict.Expand: allocation fails only where the size in bytes overflows; key comparison is equality.
- The asynchronous client's subscribe, unsubscribe and monitor modes, push replies, connecting, the disconnect callback and failing allocation are not modelled; failing input or output is taken to report a nonzero error.
- AsyncClient.Context.HandleTimeout: takes the number of rounds of its loop as a parameter, because the loop need not end; every finite part of such a run is covered.
- The rerun bookkeeping of the triggers (`session_status_cache_`) and `dump_pritimive` are not modelled; `ImmediateTrigger` and `ByNameTrigger` would only add easy members, and `ByTimeTrigger` reads the clock.
- Multipart.Encode: the sum of the sizes is unbounded rather than 64 bits wide.
- Timestamp.GenerateTimestamp: requires an id below 4135583744, the ids for which the loop ends; the clock is a parameter.
- Requests.Receive: the stream of messages and timeouts is finite, with an outcome for a stream that is used up; parsing of messages is not modelled.
- Generated protobuf code, the network clients, benchmarks and the thin wrappers over ZeroMQ are not modelled.
