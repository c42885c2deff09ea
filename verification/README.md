# Redundant OPC UA servers over ZooKeeper: a verified model

The repository keeps the address spaces of redundant OPC UA servers equal by storing every node as a
znode. A server that writes or adds a node pushes it to ZooKeeper and records the version (the mzxid)
that the znode then has; the other servers are told by watches, fetch the znode, compare its version
with what they have recorded, and apply it unless they are up to date. The records live in a chained
hash table. Controllers beside the servers agree through ephemeral znodes on which server is active.

The model follows that structure.

* `Protocol` is a state machine over any number of servers and one versioned store. Every call to the
  store is a step of its own, so handlers of different servers interleave between any two calls; memory
  may be refused at any insertion. `Versions` proves that recorded versions never run ahead; `Coherence`
  and `Losses` that a skipped fetch leaves no stale copy, and exactly when; `ReadingBack` what that comes
  to without deletions and refused adds; `WriteBack` that applying a fetched node is not pushed back;
  `Deletions` when a deletion is replicated; `Convergence` and `FirstFetch` what the servers end up with.
  `Races` and `Runs` give the runs in which something fails. `Handlers` and `Replicas` show that the
  handlers, as code over the hash table, do exactly these steps.
* `Table` says what each hash table operation does to the buckets, `TableLemmas` that they make up a
  multimap for any hash function and any key equality, and `HashTables` and `Iterators` are the linked
  chains themselves. `Growth` says when the table grows, `Hashing` and `Mixing` have the functions that
  the servers pass to it.
* `Graphs`, `ParentSearch`, `ServerSubtree` and `ClientBrowse` are the three depth-first browses over
  any finite, possibly cyclic reference graph, with their fixed arrays of visited ids.
* `Failover` is the state machine of the controllers, `FailoverGroups` their code.
* `Url`, `Paths`, `ApplyOrder`, `JsonValues`, `Variants`, `VariantEncoders`, `VariantJson` and
  `Formats` are the codecs, and `BatchWrite` is the write request with rollback.

Throughout, a server (and a controller) runs its handlers one at a time, ZooKeeper answers from its
current state, and every change of the store gets a version of its own, larger than all before it.
Where memory or a local add may be refused, or a stat may be left unwritten, the outcome is a parameter.

Findings, each a lemma, with the condition under which the code does what it is for:

* A server records a version whatever its local add came to: for a client's add that the library refuses,
  say because it does not know the parent, the znode is created all the same (`Races.RefusedAddIsPushed`),
  and a fetched node that is refused is not fetched again (`Races.RefusedFetchIsRecorded`), until the znode
  changes. Of the children that a server fetches first, exactly those arrive whose ancestors come before
  their children in the order of the names (`FirstFetch.ArrivesIffAncestorsFirst`).
* Records stay true throughout a run exactly if no step records a version that was set, read back or
  fetched over a copy of other data, or over none, and none removes a copy whose current version is
  recorded (`Losses.TrueIffLossless`). Such steps are those above; the get after a raced create
  (`Races.RacedCreateDiverges`); a set or create by a server with a stale copy
  (`Deletions.StaleCopyIsRecorded`); a client's deletion with the flag down
  (`Deletions.DeletedCopyIsNotFetchedAgain`); and a deletion event that is handled after the znode exists
  again (`Deletions.LateEventRemovesTheCopy`). What the age check answers is right exactly under the same
  condition (`Losses.CoherentIffLossless`), unless an odd number of rehashes has put an older record before
  the current one (`Races.CurrentShowsIff`). Where nothing is deleted and no add refused but of a node that exists, it comes down to
  whether every get after a create reads back what was pushed (`ReadingBack.CoherentIffReadsBack`), and
  holds if no create is raced (`ReadingBack.UnracedIsCoherent`).
* After such a run, once every server has fetched all children, all hold exactly the contents of the store
  (`Convergence.AllServersAgree`).
* The table's mixing identifies different hashes, by either of its rotations (`Mixing.MixIdentifies`).
* Key equality never tells znode paths apart, so the table identifies a path by its 32-bit hash, and in
  every namespace of every address space two nodes collide (`Hashing.PathsCollide`); a server that
  fetches the newer one first does not fetch the other until it changes (`Races.CollidingRun`). Coherence
  where no step loses it, and versions that never run ahead, hold for a set of live paths exactly if their
  hashes differ (`Hashing.CoherentIffHashInjective`).
* Once a server has replaced or deleted a node because of an event, its replication flag stays down. A
  deletion that its client asks for reaches the store exactly if no event has lowered the flag
  (`Deletions.DeletionReachesStoreIff`); `Deletions.DeletionStaysLocal` is a run in which it does not.
* Two cold controllers that both look before either decides both become active
  (`Failover.InterleavedLooksGiveTwoActive`); there is at most one lock throughout exactly if every
  creation finds Active empty (`Failover.OneActiveIffCreatesFindNone`). A standalone controller stays
  listed exactly if no lock is left over when it starts (`Failover.StandaloneStaysListedIff`).
* The check whether a node belongs to the Server node's subtree never clears its array: with unique ids
  only the first check is answered as the graph has it (`ServerSubtree.Check.InSubtreeEach`). The counter of
  the parent search is never reset, so only so many searches fit (`ParentSearch.Search.LocateParents`).
* A node id is read back from its path exactly if the prefix contains neither marker
  (`Paths.PathRoundTrip`); signed printing moves identifiers from 2^31 on to the front of the apply
  order (`ApplyOrder.AscendingIffSameSign`).
* A variant comes back from JSON unchanged exactly if it owns its data, is no scalar UInt64 and no empty
  array, and its strings fit the buffers (`VariantJson.RoundTripIffFaithful`).
* A write request keeps its rollback promise for all outcomes exactly if it names no target twice
  (`BatchWrite.PromiseKeptIffDistinct`).

To verify the project with Dafny 4.11: `dafny verify dfyconfig.toml`.

## Model

| member | source | states |
|---|---|---|
| ReadingBack.SkippingNeverLeavesAStaleCopy | src/zk_serverReplicate.c:225-251 | in every run of any number of servers in which nothing is deleted, no add is refused but of a node that exists, and every recorded get after a create reads back what was pushed, with raced creates or without: whenever a server would skip a fetch, its copy is the data of the znode |
| ReadingBack.CoherentIffReadsBack | src/zk_intercept.c:145-160 | in every run without deletions and without adds refused for another reason than that the node exists, coherence holds in all states exactly if every recorded get after a create reads back what was pushed, or the node is pushed again |
| ReadingBack.LosesIffMisread | src/zk_intercept.c:152-160 | in the states of such runs a step loses coherence exactly if it is a recorded get that reads back other data than was pushed |
| Losses.LossShows | src/zk_intercept.c:140-160 | after a step that loses coherence, from any state whose records are versions of their paths, the record of the node is as fresh as the store and its copy is other data or gone, if the current record is the one a search finds |
| ReadingBack.UnracedIsCoherent | src/zk_intercept.c:145-160 | coherence holds in every run in which no create is raced, nothing is deleted and no add is refused but of a node that exists |
| Losses.TrueIffLossless | src/zk_intercept.c:774-803 | in every run whose recorded gets leave versions of their paths, with refused adds, raced creates, deletions and lowered flags: each record of a current version stands for a copy of the current data, in all states, exactly if no step records a version that was set, read back or fetched over a copy of other data or none, or removes a copy whose version is recorded |
| Losses.CoherentIffLossless | src/zk_serverReplicate.c:225-251 | in every such run a skipped fetch leaves no stale copy, in any state, exactly if no such step is taken; where a copy is removed, its current record is taken to be the one a search finds |
| Losses.LosslessIsCoherent | src/zk_serverReplicate.c:225-251 | in every run without such a step no skipped fetch leaves a stale copy |
| Losses.LossBreaks | src/zk_jsonDecode.c:1540-1561 | each such step leaves a record of the current version without a copy of its data |
| Losses.StepSound | src/zk_intercept.c:112-167 | every other step, refused adds and deletions included, keeps all records of the server true |
| Losses.OthersStaySound | src/zk_intercept.c:138-144 | any change of the store by one server keeps the records of the others true |
| Losses.RunSound | src/zk_serverReplicate.c:225-251 | the invariant of all servers holds in every state of every run in which no step loses coherence |
| WriteBack.ApplyingNeverWritesBack | src/zk_serverReplicate.c:238-248 | in every run without deletions, with raced creates or without, every change of the store was made for a client; applying a fetched node, also by deleting and adding it again, changes nothing there |
| WriteBack.WriteBackOnlyAfterDeletion | src/zk_serverReplicate.c:238-248 | in every run whose gets succeed, with deletions too, a change made while applying a fetched node comes after a deletion of that znode |
| WriteBack.ApplyMutatesOnlyWhatWasAbsent | src/zk_intercept.c:787-804 | in every such run, a server whose next step changes the store while it applies a fetched node has earlier in the run found this znode absent in its add interceptor |
| WriteBack.InterceptorPushesIffZnodeIsGone | src/zk_intercept.c:787-804 | with races and deletions too, the add interceptor goes on to push exactly if the znode does not exist: the branch "something fresher" is never taken |
| Coherence.AsFreshMeansEqual | src/zk_serverReplicate.c:185-201 | where the age check answers "as fresh", the records are true and no handler has a change of the node to replicate, the local copy equals the znode |
| Convergence.FetchApplies | src/zk_serverReplicate.c:225-251 | an undisturbed fetch is skipped, or records the version and leaves what the library makes of the add: the node added, replaced, deleted and not added again, or nothing changed |
| Convergence.FetchBringsUpToDate | src/zk_serverReplicate.c:225-251 | where the library admits the node, an undisturbed fetch, whether applied, applied by replacing, or skipped, leaves the local copy equal to the znode and everything else alone |
| Convergence.DriveOver | src/zk_jsonDecode.c:1519-1562 | both adds of a replaced node pass the interceptor without touching the store; the fetched node is there afterwards exactly if the second add is admitted |
| Convergence.FetchEachConverges | src/zk_serverReplicate.c:159-183 | a server that fetches nodes undisturbed ends with the store's data for each, and with its other nodes as before |
| Convergence.AllServersAgree | src/zk_serverReplicate.c:159-183 | after any run without deletions in which no step loses coherence, once every server has fetched all children, all of them hold exactly the contents of the store |
| Convergence.FetchingRestoresTheStore | src/zk_serverReplicate.c:159-183 | the same with deletions: each server then holds the store's data for every znode, and what is no znode as before |
| Convergence.AllFetchIsRun | src/zk_serverReplicate.c:159-183 | all servers fetching in turn, handler by handler, is a run of the system |
| FirstFetch.ArrivesIffAncestorsFirst | src/zk_serverReplicate.c:159-183 | a server that knows nothing yet, and whose library admits a node once it knows its parent, fetches the children in the order that sorting gives: exactly those arrive whose ancestors all come before their children by namespace index and signed identifier; the others are recorded, and skipped until they change |
| FirstFetch.CrossingChildIsLate | src/zk_serverReplicate.c:166-168 | a child with an identifier from 2^31 on, whose parent's is below, is among the others |
| Versions.VersionsNeverRunAhead | src/zk_serverReplicate.c:185-213 | in every run whose recorded gets leave versions of their paths, with races and deletions, each recorded version was given to its path by the store and is at most its current one; the age check never answers "fresher" |
| Versions.LoggedIffReadsLogged | src/zk_intercept.c:152-160 | in any run, all recorded versions are ones the store gave to their paths, in all states, exactly if every recorded get after a create finds the znode or leaves such a version in the stat |
| Versions.NeverAhead | src/zk_serverReplicate.c:185-201 | the version found for a path that is in the store is at most its current one |
| Versions.FoundWasRecorded | src/zk_serverReplicate.c:190-199 | the version found for a path was recorded for this path |
| Versions.StepOk | src/zk_serverReplicate.c:203-213 | every step, whatever memory it is refused, keeps all recorded versions in the history of their paths |
| Versions.OthersStay | src/zk_intercept.c:138-160 | the steps of other servers keep a server's records in the history of the store |
| Races.RacedCreateDiverges | src/zk_intercept.c:145-160 | a run of two servers in which a raced create leaves one with other data than the store, under a version that makes it skip every fetch until the znode changes |
| Races.RefusedAddIsPushed | src/zk_intercept.c:774-803 | a run, without races and deletions and with every get reading back, in which a client's add that the library refuses is pushed all the same: the server has recorded the version, does not hold the node, and skips every fetch of it until the znode changes |
| Races.RefusedFetchIsRecorded | src/zk_serverReplicate.c:245-248 | such a run in which a server fetches a node that the library refuses to add, after its version was recorded |
| Deletions.LateEventRemovesTheCopy | examples/cli_UA_server.c:250-263 | a run in which a deletion event is handled after the znode was created again and fetched: the server misses the node |
| Deletions.StaleCopyIsRecorded | src/zk_intercept.c:138-144 | a run in which a server that has not learned of a deletion sets the znode for an add that failed on its stale copy, and records the version over it |
| Deletions.DeletionReachesStoreIff | src/zk_intercept.c:36-61 | in every run, a deletion that a client asks an idle server for removes the znode exactly if no event of the run has lowered the server's flag; the local copy goes unless a replicated deletion finds no znode |
| Deletions.DeletionStaysLocal | src/zk_intercept.c:53-61 | a run from empty servers, without races or deletions, in which a server replaces a fetched node and its client's next deletion stays local |
| Deletions.FlagStep | src/zk_intercept.c:53-61 | the flag is up after a step exactly if it was up and the step neither handles a deletion event nor replaces a fetched node |
| Deletions.FlagIffNeverLowered | src/zk_intercept.c:29-61 | the same over whole runs: the flag is up at the end exactly if it was up and no event lowered it |
| Deletions.DeletedCopyIsNotFetchedAgain | src/zk_intercept.c:36-51 | with the flag down, a client's deletion leaves the server without a node that every later fetch skips |
| Races.RecordsAfterRehashes | src/hashtable/hashtable.c:86-95 | recording other paths leaves a path's records in order after an even number of rehashes and reverses them after an odd one |
| Races.FoundAfterRecording | src/zk_serverReplicate.c:203-213 | after recording a version without removing the old ones, and then any others, a search finds that version, or, after an odd number of rehashes, the oldest one recorded for the path |
| Races.CurrentShowsIff | src/zk_serverReplicate.c:185-201 | a recorded current version is the one that the age check finds exactly if the rehashes since then were even in number, or the oldest record of the path is of the same version |
| Protocol.CheckAge | src/zk_serverReplicate.c:185-201 | the three answers of the age check, each with the found version that gives it |
| Protocol.LocalWritesAt | src/zk_intercept.c:658-659 | after local writes a node holds the value of the last write to it, or its old value; none is added or removed |
| Handlers.DrivePush | src/zk_intercept.c:130-160 | a push, undisturbed: set and record the new version if the znode exists, otherwise create, read back and record |
| Handlers.DriveAdded | src/zk_intercept.c:787-803 | the add interceptor, undisturbed: nothing if the znode is as new as the record, otherwise a push |
| Handlers.FetchCases | src/zk_serverReplicate.c:225-251 | a fetch, undisturbed: nothing if skipped, otherwise record, then add or replace |
| Handlers.ContinueLater | src/zk_jsonDecode.c:1519-1546 | an add or a push inside another handler runs as it would alone, and the handler then goes on |
| Handlers.DriveNextPush | src/zk_intercept.c:662-678 | the loop over a write request pushes the next node and continues with the rest |
| Handlers.DriveNone | src/zk_intercept.c:662-678 | a write request with nothing left to push ends, with store and server as they are |
| Handlers.RequestPushed | src/zk_intercept.c:662-678 | after a write request the store holds what the server holds for each node that was written, and is as before at paths that the request does not name |
| Handlers.DrivePushing | src/zk_intercept.c:662-678 | the request changes the store once for each node that it pushes |
| Handlers.AddRequested | src/zk_intercept.c:768-803 | a client's add is the library's add and then the interceptor |
| Handlers.WriteRequested | src/zk_intercept.c:644-679 | a client's write request is all local writes and then the pushes |
| Replicas.ZooKeeper.Set2 | src/zk_intercept.c:142 | if the znode still exists it has the new data and a version above all earlier ones; if not, nothing changes and the stat is the old one |
| Replicas.ZooKeeper.Create | src/zk_intercept.c:152-153 | creates a znode only if there is none |
| Replicas.ZooKeeper.Delete | src/zk_intercept.c:42-46 | deletes a znode only if there is one |
| Replicas.Replica.constructor | src/zk_cli.c:101-105 | a server with an empty table of at least 16 slots and no nodes |
| Replicas.Replica.CheckMzxidAge | src/zk_serverReplicate.c:185-201 | over the linked table, the answer of Protocol.CheckAge |
| Replicas.Replica.InsertMzxidAge | src/zk_serverReplicate.c:203-213 | the record is put in front of the path's records; good exactly if memory for it was granted |
| Replicas.Replica.ReplicateNode | src/zk_intercept.c:112-167 | store and table end as after the push steps of the protocol: whether it existed or not, the znode has the data and a new version |
| Replicas.Replica.AddLocally | src/zk_intercept.c:774-775 | adds the node if the library admits it and it does not exist; otherwise changes nothing, and says which of the two it was |
| Replicas.Replica.AddNodesSingle | src/zk_intercept.c:768-804 | local add, then the steps of the interceptor, whatever the local add came to: what is no znode becomes one with the data; the result is that of the local add |
| Replicas.Replica.DeleteNodesSingle | src/zk_intercept.c:29-51 | with the flag up the local node goes only if the znode could be deleted; with the flag down it goes alone |
| Replicas.Replica.DeleteNodeDontReplicate | src/zk_intercept.c:53-61 | the node goes locally, the store stays, the flag is left down |
| Replicas.Replica.ZkNodeToUa | src/zk_jsonDecode.c:1519-1562 | add; if the node exists delete it locally and add again; if the first or the second add fails otherwise, nothing more: the steps of the protocol, undisturbed |
| Replicas.Replica.JsonDecodeZkNode | src/zk_serverReplicate.c:225-251 | the fetch step and all that follows it |
| Replicas.Replica.ReplicateZkGetNodes | src/zk_serverReplicate.c:159-183 | sorts the listed children and fetches each of them in that order |
| Replicas.Replica.AddressSpaceWatcher | examples/cli_UA_server.c:236-278 | event 2 deletes exactly the node its path stands for and lowers the flag; on an undisturbed server with true records, after event 3 the node at the path has the znode's data, after event 4 each listed child has, the store and all other nodes being as before; other events change nothing |
| Replicas.Replica.WriteLocally | src/zk_intercept.c:658-659 | writes the nodes that exist, in order, and says which those were |
| Replicas.Replica.ServiceWrite | src/zk_intercept.c:644-679 | all local writes come first, then one push for each that succeeded, with the data as it is by then: the store ends with what the server holds for each written node, and is as before elsewhere |
| TableLemmas.TableRefinesMultimap | src/hashtable/hashtable.c:136-211 | for any hash function and key equality, every sequence of operations gives the answers of a multimap and keeps every entry in its bucket, its hash and the entry count right |
| TableLemmas.ExecRefines | src/hashtable/hashtable.c:136-211 | one operation is one step of the multimap: insert adds, search and remove answer with a matching entry exactly if there is one, remove takes that one away |
| TableLemmas.EntriesAreMatches | src/hashtable/hashtable.c:170-175 | the entries found for a key are exactly those of the table that match it |
| TableLemmas.RehashCorrect | src/hashtable/hashtable.c:70-98 | rehashing keeps the multiset of entries and puts each into the bucket of the new length |
| TableLemmas.RehashReverses | src/hashtable/hashtable.h:97-101 | entries of one hash come out in exactly the reverse order |
| TableLemmas.ExpandCorrect | src/hashtable/hashtable.c:70-126 | expanding keeps the table valid, its entries and their count, and reverses the entries of every key; it does nothing at the last prime or without memory |
| TableLemmas.InsertCorrect | src/hashtable/hashtable.c:136-159 | an insertion puts the entry in front of its key's entries, reversing the older ones exactly if the table was expanded; refused memory leaves the count right |
| TableLemmas.SearchCorrect | src/hashtable/hashtable.c:163-177 | a search answers with the first of the key's entries, and with nothing exactly if there is none |
| TableLemmas.RemoveCorrect | src/hashtable/hashtable.c:181-211 | a removal unlinks exactly the first of the key's entries and keeps the others in order |
| TableLemmas.UnlinkCorrect | src/hashtable/hashtable.c:198-206 | unlinking one position removes this entry only, and the count follows |
| TableLemmas.CreateCorrect | src/hashtable/hashtable.c:28-53 | a new table is valid and empty for every key |
| TableLemmas.BucketIsResidue | src/hashtable/hashtable_private.h:31-35 | the hashes i, n + i, 2n + i, ... share bucket i of n |
| Growth.ExpandGrows | src/hashtable/hashtable.c:70-126 | an expansion that is not refused moves the table to the next prime, with its length and load limit; a refused one changes nothing |
| Growth.InsertGrows | src/hashtable/hashtable.c:136-159 | an insertion moves the table to the next prime exactly if the entry is one more than the load limit, a prime is ahead and memory is granted |
| Growth.OneRehashEachPrime | src/hashtable/hashtable.c:70-126 | over every sequence of operations the table has moved one prime for each rehash |
| Growth.RehashesFromCreation | src/hashtable/hashtable.c:70-126 | so from its creation on it rehashes at most once for each prime ahead |
| Growth.WithinLimitIff | src/hashtable/hashtable.c:136-145 | every table stays within its load limit while memory is granted and a prime is ahead, whatever is done to it, exactly if the limits grow with the primes |
| Growth.StaysWithinLimit | src/hashtable/hashtable.c:136-145 | the same from any table within its limit |
| HashTables.HashTable.constructor | src/hashtable/hashtable.c:28-53 | the length is the first prime above the requested size |
| HashTables.HashTable.Expand | src/hashtable/hashtable.c:70-126 | the relinked chains are the rehashed table, no entry is copied or lost; the array has the length of the next prime and the limit follows; a refused expansion changes nothing |
| HashTables.HashTable.Insert | src/hashtable/hashtable.c:136-159 | the linked table becomes the inserted one, with the same answer; the count goes up by one exactly if the entry was allocated, and the array moves to the next prime exactly if the count was at the limit |
| HashTables.HashTable.Walk | src/hashtable/hashtable.c:167-176 | the walk along a chain stops at its first matching entry, and knows the entry before it |
| HashTables.HashTable.Search | src/hashtable/hashtable.c:163-177 | the answer is that of the abstract search; nothing changes |
| HashTables.HashTable.Remove | src/hashtable/hashtable.c:181-211 | the linked table becomes the one without the first match, whose value is returned |
| HashTables.HashTable.UnlinkAt | src/hashtable/hashtable.c:200-206 | the entry is unlinked through its predecessor or the chain head, and leaves the footprint |
| HashTables.TransferAll | src/hashtable/hashtable.c:86-95 | moving all chains entry by entry yields the pushes in flat order |
| Iterators.HashTableItr.Follow | src/hashtable/hashtable_itr.c:11-112 | the iterator driven by any moves, passing or unlinking: the table ends as what was passed before, then the survivors in order, then what is still to come |
| Iterators.IterationIsExact | src/hashtable/hashtable_itr.c:11-112 | after any k moves an iteration stands before the k-th original entry, and exactly the passed ones are left behind it |
| Iterators.HashTableItr.constructor | src/hashtable/hashtable_itr.c:11-35 | the iterator starts with everything still to come |
| Iterators.HashTableItr.Step | src/hashtable/hashtable_itr.c:47-75 | the next entry in the chain, or the head of the next chain that is not empty |
| Iterators.HashTableItr.Advance | src/hashtable/hashtable_itr.c:41-76 | passes the current entry; answers 0 exactly if none is left |
| Iterators.HashTableItr.Remove | src/hashtable/hashtable_itr.c:86-112 | unlinks exactly the current entry and moves on, with parent null at a chain head and the previous entry elsewhere |
| Iterators.HashTableItr.Search | src/hashtable/hashtable_itr.c:115-142 | stands on the entry that a search answers with, or changes nothing |
| Hashing.ZkHash | src/zk_cli.c:87-95 | the loop computes the 32-bit hash of the string |
| Hashing.PrimesSuffice | src/hashtable/hashtable.c:15-40 | every size that is not refused has a larger prime in the list |
| Hashing.MatchingIsHashing | src/zk_cli.c:97-99 | between znode paths the equality is always true: an entry matches exactly if the hashes agree |
| Hashing.CollisionFreeIffHashInjective | src/zk_cli.c:87-105 | the condition of the protocol's theorems, for the functions the servers pass: no two live paths have one hash |
| Hashing.PathsCollide | src/zk_cli.c:87-122 | two node ids whose paths differ and have the same hash, behind every prefix and in every namespace |
| Mixing.MixIdentifies | src/hashtable/hashtable.c:57-67 | the mixing identifies two hashes exactly if its second additions differ by one of the four words of period two; its first rotation those whose first additions do; the additions none |
| Mixing.TwoMixedToZero | src/hashtable/hashtable.c:57-67 | two hashes that the first rotation identifies |
| Mixing.TwoMixedAlike | src/hashtable/hashtable.c:57-67 | two hashes that only the second rotation identifies |
| Hashing.SameHashIff | src/zk_cli.c:87-95 | two paths have one hash in the table exactly if the mixing identifies their hashes from 5381 on |
| Hashing.HashOfOne | src/zk_cli.c:87-95 | the hash of one character, by its code |
| Hashing.HashOfA | src/zk_cli.c:87-95 | the hash and the mixed hash of "a", as numbers |
| Hashing.EightCharacters | src/zk_cli.c:97-99 | the equality compares exactly the first eight characters |
| Hashing.LoadLimitsIncrease | src/hashtable/hashtable.c:51 | load limits of about 65 per cent of the length grow with the primes |
| Hashing.CoherentIffHashInjective | src/zk_cli.c:87-122 | with the functions the servers pass: coherence, over all runs in which no step loses it and already over those without races, deletions and refused adds, and versions that never run ahead, over all runs whose recorded gets leave versions of their paths, each hold exactly if no two live paths have one hash |
| Hashing.AddressSpaceCollides | src/zk_cli.c:87-122 | an address space with the two colliding nodes does not meet that condition |
| Races.RecordedHides | src/zk_serverReplicate.c:185-201 | after recording one of two colliding paths the age check takes the other, older one for fresher than the store |
| Races.CollisionHidesNode | src/zk_serverReplicate.c:238-242 | an idle server that has recorded neither of two colliding paths in the store, and does not hold the newer one, fetches the newer one and then skips the other |
| Races.CollidingRun | src/zk_serverReplicate.c:225-251 | for any two colliding live paths, a run from empty servers without races and deletions that ends with one server skipping a node it does not have |
| Races.CollisionBreaks | src/zk_serverReplicate.c:225-251 | that run is not coherent, and in it a version has run ahead |
| Graphs.MarkedBelow | src/zk_intercept.c:372-434 | a finished depth-first search has marked every node below its root, if ids are unique and it stopped at most there |
| Graphs.AllMarked | src/zk_clientReplicate.c:306-535 | a finished depth-first search has marked every id below its root |
| Graphs.ClosedAlongPath | src/zk_intercept.c:372-434 | what passes along every reference holds at the end of every path |
| Graphs.Visited.constructor | src/zk_intercept.c:26 | an array full of zeros |
| Graphs.Visited.Clear | src/zk_intercept.c:495-497 | every slot is 0 again; the counter stays |
| Graphs.Visited.Seen | src/zk_intercept.c:381-385 | whether the id is 0 or in the array |
| Graphs.Visited.Mark | src/zk_intercept.c:395 | exactly this id is added, at the cost of one slot |
| ParentSearch.Search.constructor | src/zk_intercept.c:25-26 | nothing visited, nothing found |
| ParentSearch.Search.Browse | src/zk_intercept.c:372-434 | terminates on cyclic graphs; a reported parent is one, is reported once, and the visited set stays closed |
| ParentSearch.Search.ForEachChild | src/zk_intercept.c:426-427 | after the loop every reference that is to be followed leads to a visited node |
| ParentSearch.Search.LocateParent | src/zk_intercept.c:494-519 | the array is overrun only if fewer slots are free than ids can be reached, with unique ids exactly then; otherwise a reported parent has a forward hierarchical reference of the reported type to the node and is the root or below it, and with unique ids a parent is reported exactly if the node is below the root |
| ParentSearch.Search.LocateParents | src/zk_intercept.c:494-519 | a sequence of searches fits, with unique ids, exactly if the free slots are as many as the ids that all of them reach together: the counter is never reset |
| ParentSearch.FoundIffBelow | src/zk_intercept.c:494-519 | what was found, against reachability in the graph |
| ParentSearch.OnlyReference | src/zk_clientReplicate.c:283-303 | a node that only the root ns=0;i=84 refers to is reported with it and with the type of the reference if that is 34, 35, 36, 44, 45, 46, 47, 48, 49 or 56, and not at all if it is another |
| ParentSearch.ReportedHasReference | src/zk_intercept.c:388-391 | a node is reported only if a forward reference of one of these types leads to it |
| ParentSearch.ExploredAll | src/zk_intercept.c:494-519 | a finished search has marked every id it can reach without going past the node it looks for |
| ServerSubtree.Check.constructor | src/zk_serverReplicate.c:257 | nothing visited |
| ServerSubtree.Check.Browse | src/zk_serverReplicate.c:259-284 | terminates; keeps a positive answer right, and the visited set closed if it began empty |
| ServerSubtree.Check.ForEachChild | src/zk_serverReplicate.c:280-282 | after the loop every forward reference leads to a visited node |
| ServerSubtree.Check.InSubtree | src/zk_intercept.c:735-751 | a positive answer is right whatever the array holds; from a fresh array and with unique ids it is given exactly for nodes below the Server node, and the array is overrun exactly if it has fewer slots than there are ids below it; a node whose id is in the array is denied |
| ServerSubtree.Check.InSubtreeEach | src/zk_serverReplicate.c:257-284 | over a sequence of checks with unique ids, only the first is answered as the graph has it; every later one is negative |
| ServerSubtree.AnswerIffBelow | src/zk_serverReplicate.c:259-284 | the answer, against reachability in the graph |
| ServerSubtree.BelowServer | src/zk_serverReplicate.c:259-284 | what ns=0;i=2253 refers to forward is in its subtree, and nothing is if it has no forward reference |
| ClientBrowse.Browser.constructor | src/zk_clientReplicate.c:26 | nothing visited |
| ClientBrowse.Browser.Push | src/zk_clientReplicate.c:338-515 | one znode and one slot for each forward reference of the parent to the child's id, while slots are free |
| ClientBrowse.Browser.Browse | src/zk_clientReplicate.c:306-535 | terminates; only nodes below the root are pushed, and the visited ids are those of the pushed nodes |
| ClientBrowse.Browser.ForEachChild | src/zk_clientReplicate.c:526-527 | after the loop every forward reference leads to a visited node |
| ClientBrowse.Browser.PushAddressSpace | src/zk_clientReplicate.c:537-563 | only nodes below the root are pushed, and each uses a slot; unless the array is overrun, with unique ids all of them, and no id twice if no node has two forward references to one id; under both conditions it is overrun exactly if it has fewer slots than ids below the root |
| ClientBrowse.PushedIffBelow | src/zk_clientReplicate.c:306-535 | what was pushed, against reachability in the graph |
| ClientBrowse.BelowRoot | src/zk_clientReplicate.c:537-563 | what ns=0;i=84 refers to forward is below the root, and nothing is if it has no forward reference |
| ClientBrowse.MarkedIffBelow | src/zk_clientReplicate.c:306-535 | the ids pushed are exactly the ids below the root |
| Failover.NoWakeUpIsLost | examples/cli_UA_failoverController.c:221-325 | in every run a waiting controller without an event to handle has its watch armed, has seen the children as they are, and would decline again; so while Active is empty no cold or warm one is left without an event |
| Failover.CreateNeverFails | examples/cli_UA_failoverController.c:260-265 | a controller that decides to create its lock always succeeds, in every run with distinct URIs |
| Failover.FailoverHappens | examples/cli_UA_failoverController.c:309-325 | once Active is empty any waiting cold or warm controller can handle an event, and if it is not interrupted becomes the one active |
| Failover.AtMostOneActive | examples/cli_UA_failoverController.c:229-266 | with cold and warm controllers of which no two are between looking and deciding at once, there is never more than one lock |
| Failover.InterleavedLooksGiveTwoActive | examples/cli_UA_failoverController.c:205-266 | the run of two cold controllers that breaks exclusivity |
| Failover.StaysExclusiveIff | examples/cli_UA_failoverController.c:205-266 | a creation keeps the lock exclusive exactly if Active is still empty then |
| Failover.OneActiveIffCreatesFindNone | examples/cli_UA_failoverController.c:205-266 | in every run of cold and warm controllers there is at most one lock throughout exactly if every creation finds Active empty |
| Failover.StandaloneStaysListedIff | examples/cli_UA_failoverController.c:382-397 | a standalone controller that starts up stays listed in all continuations until it crashes exactly if no lock of its name is left over when it starts |
| Failover.LockIsOwnedOrExpires | examples/cli_UA_failoverController.c:205-218 | in every reachable state a controller's lock stands exactly if it owns it or an earlier session of it has yet to expire |
| Failover.OwnerStaysListed | examples/cli_UA_failoverController.c:205-218 | an owner that does not crash keeps its lock, whatever the others do |
| Failover.StandaloneRestartGoesUnlisted | examples/cli_UA_failoverController.c:382-397 | a run after which a standalone controller monitors without a lock and without an event |
| Failover.StepAwake | examples/cli_UA_failoverController.c:221-325 | every step, crashes and expiries included, keeps every controller awake |
| Failover.StepExclusive | examples/cli_UA_failoverController.c:229-266 | every step keeps exclusivity while only one controller decides |
| FailoverGroups.Group.Notify | examples/cli_UA_failoverController.c:320-322 | every armed watch fires once |
| FailoverGroups.Group.GetChildren | examples/cli_UA_failoverController.c:319-322 | lists exactly the children, and arms the watch in the same request |
| FailoverGroups.Group.GetActiveNodeLock | examples/cli_UA_failoverController.c:205-218 | creates the lock, or answers with an error exactly if it exists |
| FailoverGroups.Group.EvaluateActiveNodes | examples/cli_UA_failoverController.c:221-304 | if nothing stands in the way the lock is created, and the controller monitors and owns if one of ten attempts to connect succeeds; otherwise the program is down and its lock can expire; if something stands in the way only the phase changes |
| FailoverGroups.Group.ActiveNodesWatcher | examples/cli_UA_failoverController.c:309-325 | one look and then the outcome of an evaluation; if Active is empty, a cold or warm controller that can connect becomes the one active, monitoring and owning its lock |
| FailoverGroups.Group.Register | examples/cli_UA_failoverController.c:378-436 | a standalone controller monitors and its lock stands, whoever created it; any other looks, and then has the outcome of an evaluation |
| Url.DecodeEncode | src/zk_urlEncode.c:37-75 | decoding the encoding of any byte string gives it back |
| Url.EncodeInjective | src/zk_urlEncode.c:37-54 | different strings have different encodings |
| Url.EncodeAlphabet | src/zk_urlEncode.c:41-49 | only unreserved characters, '%' and '+', and between n and 3n of them |
| Url.OneComponent | src/zk_urlEncode.c:37-54 | no '/' and no NUL in an encoding |
| Url.EachByte | src/zk_urlEncode.c:41-49 | digits, letters, '-', '.', '_' and '~' stand for themselves, a space is '+', any other byte '%' and two lower-case digits, by their codes |
| Url.ByteAfterByte | src/zk_urlEncode.c:41-51 | a string is encoded byte after byte |
| Url.EachEscape | src/zk_urlEncode.c:58-75 | what the decoder makes of escapes in either case, of '+', of other bytes and of a lone '%', by their codes |
| Url.DecodeNoLonger | src/zk_urlEncode.c:58-75 | a decoded string is no longer than its source |
| Url.LocksAreSeparate | examples/cli_UA_failoverController.c:360-363 | two URIs have one lock path exactly if they are equal, and the path is a child of Active |
| Url.DistinctUrisSeparate | examples/cli_UA_failoverController.c:357-363 | controllers of servers with distinct URIs compete under distinct names |
| Url.UrlEncode | src/zk_urlEncode.c:37-54 | the loop leaves the encoding, NUL-terminated, in a buffer of 3n + 1 bytes |
| Url.UrlDecode | src/zk_urlEncode.c:58-75 | the loop leaves the decoding and a NUL in a buffer of n + 1 bytes |
| Url.HexDigits | src/zk_urlEncode.c:27-35 | the two digits of a byte give back the byte |
| Paths.PathRoundTrip | src/zk_cli.c:113-122 | every 16-bit namespace index and 32-bit identifier is read back from its path exactly if the prefix contains neither "ns=" nor ";i=" |
| Paths.ReadClean | examples/cli_UA_server.c:250-263 | behind such a prefix, extraction, strtoll and truncation give back the node id, also from 2^31 on |
| Paths.MarkerInPrefix | src/zk_serverReplicate.c:90-110 | behind a prefix with "ns=" the namespace index read does not depend on the node |
| Paths.ExtractName | src/zk_serverReplicate.c:90-110 | from a node's name exactly its two numbers are extracted |
| Paths.ReadDecimal | src/zk_serverReplicate.c:121-123 | every integer printed in decimal is read back, clamped to 64 bits |
| Paths.SearchAcross | src/zk_serverReplicate.c:96-97 | a search for a marker does not reach across a '/' |
| Paths.NoEqualsIsClean | src/zk_cli.c:124-140 | a prefix without '=' contains neither marker |
| Paths.PathsDiffer | src/zk_cli.c:113-122 | different node ids have different paths |
| Paths.PrintedPath | src/zk_cli.c:113-122 | a path, spelled out |
| Paths.PrintedSigned | src/zk_cli.c:113-122 | identifiers from 2^31 on are printed as negative numbers |
| Paths.ReadAround | src/zk_serverReplicate.c:121-123 | a space or a sign before the digits is read, and what follows them ignored |
| Paths.DeletedZnodeDeletesItsNode | examples/cli_UA_server.c:250-263 | the event for a deleted znode deletes the node it stood for |
| ApplyOrder.CompareNames | src/zk_serverReplicate.c:112-157 | on the names of nodes, the comparison is by namespace index and then by identifier, those from 2^31 on before all others, and 0 only for the same node |
| ApplyOrder.TotalOrder | src/zk_serverReplicate.c:112-157 | the comparison is antisymmetric and transitive, and 0 only for the same node |
| ApplyOrder.ParentsFirst | src/zk_serverReplicate.c:164-179 | after sorting a node comes before another exactly if its namespace index and signed identifier are smaller |
| ApplyOrder.OneSortedOrder | src/zk_serverReplicate.c:168 | whatever the sorting routine does, there is only one sorted order of the children |
| ApplyOrder.NamesRearranged | src/zk_serverReplicate.c:168 | any rearrangement of the names of the children is the names of the same children |
| ApplyOrder.AscendingIffSameSign | src/zk_serverReplicate.c:166-168 | ascending identifiers are applied in order unless they cross 2^31 |
| VariantJson.RoundTripIffFaithful | src/zk_jsonDecode.c:901-1055 | a variant comes back unchanged exactly if it owns its data, is no scalar UInt64 and no empty array, and all its strings are shorter than 65535 and free of NUL |
| VariantJson.VariantRead | src/zk_jsonDecode.c:901-1055 | every scalar and non-empty array of the types covered comes back with type, length, dimensions and every element, strings cut to the buffers, a scalar UInt64 as Int64 |
| VariantJson.EmptyArrayLost | src/zk_jsonEncode.c:336-386 | an empty array is never given a type index, and is not read back |
| VariantJson.Keys | src/zk_jsonEncode.c:228-230 | the keys of elements and dimensions are injective, and different from each other and from the fixed keys |
| VariantJson.ArrayFields | src/zk_jsonEncode.c:347-386 | what the decoder finds under each key of an encoded array; the last value set for "type" counts |
| VariantJson.JsonEncodeVariant | src/zk_jsonEncode.c:317-387 | the object ends with exactly the fields of the encoding |
| VariantJson.EmptyComesBack | src/zk_jsonEncode.c:858-866 | the string "empty" is written for a variant without a value and read back as one, and nothing else is |
| VariantJson.JsonEncodeAttribute | src/zk_jsonEncode.c:858-866 | the value attribute of a variable: "empty" or the encoded variant |
| VariantJson.SetObjectDataAndType | src/zk_jsonEncode.c:80-91 | the data under its key and the type index, and no other key changes |
| VariantJson.JsonDecodeVariant | src/zk_jsonDecode.c:901-1055 | the decoding function: an empty variant for the string "empty", otherwise the result of the pass over the keys |
| VariantJson.JsonDecodeFields | src/zk_jsonDecode.c:901-1055 | one pass over the keys in any order, then the elements and dimensions |
| VariantEncoders.JsonEncodeGuid | src/zk_jsonEncode.c:592-624 | exactly the four fields of a Guid and its readable form are set |
| VariantEncoders.JsonEncodeNodeId | src/zk_jsonEncode.c:701-747 | exactly the four fields of a node id are set, by its identifier type |
| VariantEncoders.JsonEncodeText | src/zk_jsonEncode.c:673-681 | length and data of a text |
| VariantEncoders.JsonEncodeValue | src/zk_jsonEncode.c:93-217 | the data of a value of each type |
| VariantEncoders.JsonDecodeGuid | src/zk_jsonDecode.c:73-106 | the stored fields and bytes; an error for a byte that is no integer |
| Variants.ValueRead | src/zk_jsonDecode.c:449-652 | for every type covered, decoding the encoding of a value gives it back, its strings cut to the buffers |
| Variants.NumberRead | src/zk_jsonDecode.c:468-541 | integers of all widths survive the signed 32- and 64-bit unpacking |
| Variants.GuidRead | src/zk_jsonDecode.c:73-106 | a Guid is read back |
| Variants.NodeIdRead | src/zk_jsonDecode.c:112-156 | a node id of each of the four identifier types is read back |
| Variants.ExpandedRead | src/zk_jsonDecode.c:158-188 | an expanded node id is read back |
| Variants.QualifiedRead | src/zk_jsonDecode.c:190-216 | a qualified name is read back |
| Variants.LocalizedRead | src/zk_jsonDecode.c:27-64 | a localized text is read back |
| Variants.BufferedIffPlain | src/zk_jsonEncode.c:658-665 | a string passes the buffer unchanged exactly if it is shorter than 65535 and free of NUL, and only the first pass changes it |
| Variants.TrimIffPlain | src/zk_jsonEncode.c:658-665 | a value comes through unchanged exactly if all its strings do |
| Formats.IntegerComesBack | src/zk_jsonDecode.c:468-541 | an integer within -128 to 127, 0 to 255, -32768 to 32767, 0 to 65535, and so on, comes back unchanged as a scalar of the type at index 1, 2, 3, 4, ..., a UInt64 as the Int64 of the same bits |
| Formats.IntegersComeBack | src/zk_jsonDecode.c:468-541 | the same for the elements of arrays, UInt64 included, with their dimensions |
| Formats.IntegerIsReduced | src/zk_jsonDecode.c:468-541 | any other integer is read as one of the interval that differs by a multiple of the number of values |
| Formats.ValueComesBack | src/zk_jsonDecode.c:449-652 | values of the types at 0, 11, 13 to 17, 19 and 20 come back unchanged if their strings are shorter than 65535 and free of NUL |
| Formats.ValuesComeBack | src/zk_jsonDecode.c:449-652 | and so do arrays of them |
| Formats.ScalarIsWritten | src/zk_jsonEncode.c:317-335 | the four keys of an encoded scalar, spelled out |
| Formats.ArrayIsWritten | src/zk_jsonEncode.c:336-386 | the keys of an encoded array with two elements and two dimensions |
| Formats.VectorIsWritten | src/zk_jsonEncode.c:336-386 | the keys of an encoded array without dimensions |
| Formats.ObjectsAreWritten | src/zk_jsonEncode.c:658-760 | the JSON objects of node ids, expanded node ids, qualified names and localized texts |
| Formats.GuidIsWritten | src/zk_jsonEncode.c:592-624 | the JSON object of a Guid |
| Formats.Refused | src/zk_jsonDecode.c:917-980 | objects without type or length, with another storage type, with type 999 or outside the table, which the original does not check, are refused |
| Formats.RefusedArray | src/zk_jsonDecode.c:980-1055 | arrays without the number of dimensions, or with an element that cannot be read, are refused |
| Formats.IncompleteGuids | src/zk_jsonDecode.c:73-106 | missing bytes and numbers of a Guid are 0, and a ninth byte is refused |
| JsonValues.Wrap | src/zk_jsonDecode.c:519-535 | storing in a fixed width gives a value of that width, and the same value if it fits |
| JsonValues.SignedAndBack | src/zk_jsonDecode.c:519-535 | an unsigned number survives being stored as a signed one of its width |
| BatchWrite.PromiseKeptIffDistinct | src/zk_intercept.c:644-679 | for a request that would change all its targets: every target ends as promised, whatever is answered, exactly if none is named twice |
| BatchWrite.DistinctKeepPromise | src/zk_intercept.c:644-679 | with distinct targets each ends with the new value exactly if its write succeeded and its replication did or its old value could not be written back, otherwise with its old value; nothing else changes |
| BatchWrite.BatchAt | src/zk_intercept.c:644-679 | for any request: the old value if any write to the target was taken back, otherwise that of the last accepted write |
| BatchWrite.RepeatedTargetBreaksPromise | src/zk_intercept.c:669-676 | a target named twice, the second replication failing, loses the first value as well |
| BatchWrite.Server.LibraryWrite | src/zk_intercept.c:658-659 | the accepted writes in order |
| BatchWrite.Server.ServiceWrite | src/zk_intercept.c:644-679 | reads, writes and rollbacks in the order of the code; an item that was taken back is still reported as written |

## Left out

- Versions.VersionsNeverRunAhead: assumes that a get whose version is recorded finds the znode or leaves a version of its path in the stat; Versions.LoggedIffReadsLogged says that exactly then what is recorded are versions.
- Losses.CoherentIffLossless: for a step that removes a copy whose current version is recorded, assumes that a search finds this record; Races.CurrentShowsIff says when it does, and Losses.TrueIffLossless needs no such condition.
- Protocol.LocalWritesAt: a write that the library refuses although the node exists changes nothing and is not pushed, so it stands in the model as no write at all.
- Replicas.Replica.ServiceWrite: replication always reports success, as the original's does (src/zk_intercept.c:555); BatchWrite has the rollback for arbitrary reports.
- Replicas.Replica.AddressSpaceWatcher: session events are not modelled, and the list of children, which the original asks for asynchronously, is given.
- ParentSearch.Search.LocateParent: what the original does once it writes past its array is not modelled; the search then stops. The same holds for ServerSubtree.Check and ClientBrowse.Browser.
- ClientBrowse.Browser.PushAddressSpace: where a node has several forward references to one id, how many slots are used depends on the order of the visit, and no condition for an overrun is given.
- ClientBrowse.Browser.Push: creation of a znode is only counted; attributes, browse paths and the completion callback are not modelled.
- HashTables.HashTable.Expand: a refused allocation makes it return 0; the second attempt through realloc (src/hashtable/hashtable.c:99-122) is not modelled. The load limit is an arbitrary function of the length, not a rounded float.
- Failover.AtMostOneActive: a controller whose session expires while it is alive is not modelled; crash and expiry are.
- Failover.StandaloneStaysListedIff: likewise, a standalone controller whose session expires while it is alive would go unlisted; Failover.OwnerStaysListed and Failover.LockIsOwnedOrExpires share the assumption.
- FailoverGroups.Group.EvaluateActiveNodes: the outcomes of the attempts to connect are given; starting a cold server and monitoring its health only set a flag.
- Url.UrlDecode: what follows a NUL that "%00" decodes to is in the buffer, although the original's callers would not see it.
- Paths.PathRoundTrip: the buffers of 65535 characters are not modelled; prefixes are shorter than 1024. Where the original reads through a null pointer or copies a negative length, the model gives None.
- ApplyOrder.ParentsFirst: the sorting routine of the C library is any routine that leaves no neighbours out of order; ApplyOrder.Sort stands for it. Names that cannot be taken apart, on which the original reads through a null pointer, are excluded.
- VariantJson.RoundTripIffFaithful: lengths and numbers of dimensions are below 2^31; JSON objects are maps, and strings are bytes that form valid UTF-8.
- VariantJson.JsonDecodeVariant: the types that Variants.ValueRead leaves out are answered as failures.
- Variants.GuidRead: json_unpack stores four bytes into fields of two, so the original depends on the order in which the keys come; fields are stored independently here.
- Variants.ValueRead: Float, Double, DataValue and ExtensionObject are not covered, nor is the description of a type beyond its index.
- BatchWrite.Server.ServiceWrite: index ranges and timestamps are not modelled; a target is a node and an attribute.
- Hashing.SameHashIff: says which hashes the mixing identifies, but not how many paths of an address space do collide.
- The order and loss of watch events, ZooKeeper sessions and timeouts: servers fetch whenever they like.
- Method nodes, the rewriting of namespace 0 attributes, and the add interceptor for nodes that the library itself creates, beyond its check of the Server subtree.
- Decoding of whole nodes into attributes; a node's data is one value.
- Configuration files, logging, signals, threads, the demonstration nodeset, health monitoring and its failure counter.
