# Verified models of two nginx modules

This project models the state-changing core of two modules and proves properties of it in Dafny 4.11. `dafny verify
dfyconfig.toml` checks everything.

**Virtual-host traffic status** keeps, in shared memory, a search tree of statistics nodes ordered by (hash of the key,
key bytes). The model covers

- the 64-slot ring of (time, duration) samples with its two averages and the merge of two rings (`TimeQueues`; what a
  merge and a run of insertions mean is in `Samples`, `QueueProperties`, `Averages`);
- keys and their fields (`Keys`), a node's wrapping counters with overflow counts (`Nodes`, `NodeTotals`,
  `RequestCounts`);
- the tree as a value (`Trees`) and linked in place (`LinkedTree`), the store with its deletions (`Stores`), adding
  requests with eviction of the oldest filter node (`NodeStore`), and whole runs of the store (`NodeRuns`);
- the summary row folded over the tree (`Summary`), dump and restore (`Dump`, `RestoreProperties`), the in-place string
  replacement (`ReplaceString`) and the escaping of label values (`EscapeLabel`).

**Upstream check** lets several worker processes share the checking of each peer. The model covers the ownership protocol
as a state machine whose steps are the shared accesses outside the lock and the locked section (`CheckProtocol`), the
counting of results (`Hysteresis`), two resumable parsers (`StatusLine`, `FastcgiRecord`, over `Resumable`) and the
FastCGI request builder (`FastcgiRequest`).

Objects the source updates in place are classes (`TimeQueue`, `StatNode`, `Total`, `Chain`, `Store`, `PeerHealth`, the two
`Parser`s, `Buffer`); their methods are proved against functions on values, and the theorems are about those
functions. What the modules get from elsewhere is a parameter: the hash, the match list of `filter_max_node`, the UTF-8
decoder, the layout of a node in memory, the clock, whether an allocation succeeds. 64-bit wrap-around is written out for
counters and overflow counts, the cutoff of the averaging period, the elapsed time of a check and the offset of a
restore; the other numbers are unbounded, which "Left out" lists where the source could overflow.

## Findings

Where the code does not do in general what its parts are for, the model keeps the code and states exactly when it does.

- `fastcgi_process_record` does not move the buffer position when it asks for more bytes, so each call reads again what
  earlier calls have read. However many read events there are, the outcome is right exactly when the first bytes to come
  are the only ones, or decide by themselves, or are one or two bytes of a header that is bad anyway
  (`FastcgiRecord.CallsRight`).
- The in-place replacement is right on all zero-free texts exactly for patterns of one byte or with distinct first and
  last bytes; any other pattern fails on the text that is the pattern twice. All patterns in use are of the good kind.
- A dump holding a key of more than 1024 bytes does not come back: the skip forgets the size of the node, and reading goes
  on in the middle of the record (`RestoreProperties.RestoreDumpIff`, `LongKeyMisread`).
- The same skip adds a length from the file to the offset without a check. A length of 2^64 - 3 leaves the offset where it
  is and the restore at the record for ever, lengths just below lead back, lengths just above one or two bytes on; a key
  of a dump can hold such bytes (`StuckForEver`, `SkipIff`, `LongKeyHangs`). A restore ends within as many rounds as the
  file has bytes, and one more, or never (`EndsSoonOrNever`); where no length overflows it ends (`ReadsForward`), and
  exactly then it reads where it should (`SameWayIff`).
- The FastCGI builder counts one byte for the length of a name, but writes four for names of more than 127 bytes. One or
  two such names give a request that declares too little and ends behind the buffer, three overrun the buffer
  (`FastcgiRequest.CreateRequest`). The last header of the request is never filled in, and the length field holds 16 bits
  only.
- Mutual exclusion of checks holds as long as nobody takes over (`CheckProtocol.MutualExclusion`), and that is a matter of
  clocks: from whatever orderly state, a start or a server long at work, all interleavings are safe exactly when a worker
  never measures at a time before the stamp, nor sixteen intervals or more after it (`ExclusionIff`). A start is where
  that fails in practice: the stamp is zero, and taking the peer when it is free does not stamp it, so that the first
  check can be taken over while it is going on, with one clock for all (`ColdStart`). Once nobody holds the peer, and with
  a stamp, the guarantees are back (`QuietStart`, `PunctualRuns`). A clock one tick behind the stamp takes over as well,
  for the elapsed time is an unsigned difference (`LateClock`). And because it is measured before the lock, two workers
  can both take over from one that is gone (`DeadOwner`).

## Model

| member | source | states |
|---|---|---|
| `TimeQueues.TimeQueue.Init` | sources/nginx-module-vts/src/ngx_http_vhost_traffic_status_node.c:412-419 | an initialised ring is full: 63 zero samples in 64 slots |
| `TimeQueues.TimeQueue.Push` | sources/nginx-module-vts/src/ngx_http_vhost_traffic_status_node.c:422-436 | a push succeeds exactly when fewer than 63 samples are held, and then appends one |
| `TimeQueues.TimeQueue.Pop` | sources/nginx-module-vts/src/ngx_http_vhost_traffic_status_node.c:439-452 | a pop succeeds exactly when a sample is held, and then removes the oldest |
| `TimeQueues.TimeQueue.Insert` | sources/nginx-module-vts/src/ngx_http_vhost_traffic_status_node.c:463-476 | pop, then push: the held samples become `Inserted` of what they were, whatever the position of the ring in its slots |
| `TimeQueues.TimeQueue.Rear` | sources/nginx-module-vts/src/ngx_http_vhost_traffic_status_node.c:455-460 | the index found is that of the newest sample |
| `TimeQueues.TimeQueue.Amm` | sources/nginx-module-vts/src/ngx_http_vhost_traffic_status_node.c:496-521 | the loop over the slots computes the mean of the samples younger than the period; a full ring is left alone, so its reset branch is unreachable from `Init` |
| `TimeQueues.TimeQueue.Wma` | sources/nginx-module-vts/src/ngx_http_vhost_traffic_status_node.c:524-549 | the same for the average that weighs the k-th sample of the window k times |
| `TimeQueues.TimeQueue.Average` | sources/nginx-module-vts/src/ngx_http_vhost_traffic_status_node.c:479-493 | the configured method decides which of the two is computed, over the samples younger than the period |
| `Samples.CutoffIsYoung` | sources/nginx-module-vts/src/ngx_http_vhost_traffic_status_node.c:507 | a sample passes the cutoff exactly when it is younger than the period, without a period when its time is not zero; a period that reaches back before time zero lets through none there can be |
| `TimeQueues.TimeQueue.Merge` | sources/nginx-module-vts/src/ngx_http_vhost_traffic_status_node.c:552-588 | the index loops over two rings leave in the first one the selection `Merged` of what both hold; the result depends on held samples only, never on the unused slots |
| `QueueProperties.RunKeepsLast63` | sources/nginx-module-vts/src/ngx_http_vhost_traffic_status_node.c:412-476 | after any run of insertions the ring holds the last 63 samples in order, behind zero padding while there are fewer |
| `QueueProperties.RunIsOrdered` | sources/nginx-module-vts/src/ngx_http_vhost_traffic_status_node.c:412-476 | with a non-decreasing clock the ring is ordered by time after any run |
| `QueueProperties.NewerTakesNewest` | sources/nginx-module-vts/src/ngx_http_vhost_traffic_status_node.c:552-588 | from any position of both rings the merge loop takes exactly the newest live times that are left, up to the number wanted |
| `QueueProperties.NewerTakesRuns` | sources/nginx-module-vts/src/ngx_http_vhost_traffic_status_node.c:552-588 | what a merge takes interleaves the newest samples of one ring with the newest of the other; none is skipped or taken twice, and ties go to the second ring |
| `QueueProperties.MergeKeepsNewest` | sources/nginx-module-vts/src/ngx_http_vhost_traffic_status_node.c:552-588 | merging two ordered rings gives a full ordered ring whose live times are the newest 63 of both; everything else in it is padding at the old end |
| `QueueProperties.FoldKeepsNewest` | sources/nginx-module-vts/src/ngx_http_vhost_traffic_status_display_json.c:181-272 | merging node after node with one cutoff gives the newest 63 live samples of all nodes together |
| `QueueProperties.FoldOrderFree` | sources/nginx-module-vts/src/ngx_http_vhost_traffic_status_display_json.c:181-272 | the order of the nodes does not change the times kept, nor the queue when different samples have different times |
| `Samples.NewestIsTop` | sources/nginx-module-vts/src/ngx_http_vhost_traffic_status_node.c:552-588 | what the newest k are: times of the collection, and none left out is larger |
| `Samples.NewestAbsorbs` | sources/nginx-module-vts/src/ngx_http_vhost_traffic_status_display_json.c:214-216 | keeping the newest k of a collection and then adding more is keeping the newest k of all: why folding merges loses nothing |
| `Averages.AveragesBetween` | sources/nginx-module-vts/src/ngx_http_vhost_traffic_status_node.c:496-549 | both averages lie between the smallest and the largest sample of the window |
| `Averages.Weights` | sources/nginx-module-vts/src/ngx_http_vhost_traffic_status_node.c:496-549 | the mean counts every sample of the window once, the weighted average counts the k-th from the oldest k times |
| `Averages.WeightedAtLeastMean` | sources/nginx-module-vts/src/ngx_http_vhost_traffic_status_node.c:496-549 | for rising samples the weighted average is at least the mean, after integer division too |
| `Averages.WindowSkipsPadding` | sources/nginx-module-vts/src/ngx_http_vhost_traffic_status_node.c:496-549 | zero padding in front of the samples is never in the window |
| `Averages.AverageAfterRun` | sources/nginx-module-vts/src/ngx_http_vhost_traffic_status_node.c:463-549 | after any run the average is that of the last 63 samples alone |
| `Averages.YoungAverageAfterRun` | sources/nginx-module-vts/src/ngx_http_vhost_traffic_status_node.c:463-549 | after any run the average of either method is over the young ones among the last 63 samples |
| `Keys.PositionKey` | sources/nginx-module-vts/src/ngx_http_vhost_traffic_status_node.c:39-69 | the scan returns the wanted field of the key split at 0x1f, and where it starts, and fails exactly when that field is missing or empty |
| `Keys.SplitJoin` | sources/nginx-module-vts/src/ngx_http_vhost_traffic_status_node.c:39-69 | splitting undoes joining for parts without the separator |
| `Keys.JoinSplit` | sources/nginx-module-vts/src/ngx_http_vhost_traffic_status_node.c:39-69 | joining undoes splitting for every key |
| `Keys.GeneratedKeyFields` | sources/nginx-module-vts/src/ngx_http_vhost_traffic_status_node.c:13-69 | from a generated key the group tag and every separator-free part are read back at their positions, an empty part as missing, and nothing behind them |
| `Keys.GenerateKeyInjective` | sources/nginx-module-vts/src/ngx_http_vhost_traffic_status_node.c:13-36 | two generated keys are equal exactly when group and name are |
| `Keys.GroupOfName` | sources/nginx-module-vts/src/ngx_http_vhost_traffic_status_module.h:196-222 | tags and groups name each other; an unknown group has the first tag |
| `Nodes.StatNode.Zero` | sources/nginx-module-vts/src/ngx_http_vhost_traffic_status_node.c:267-315 | a reset zeroes all counters and overflow counts and keeps kind and queues |
| `Nodes.StatNode.Init` | sources/nginx-module-vts/src/ngx_http_vhost_traffic_status_node.c:322-346 | the node after its first request |
| `Nodes.StatNode.Set` | sources/nginx-module-vts/src/ngx_http_vhost_traffic_status_node.c:353-373 | the node after another request: counters, overflow counts, queue and average |
| `Nodes.StatNode.Update` | sources/nginx-module-vts/src/ngx_http_vhost_traffic_status_node.c:376-401 | every counter grows by what the request adds to it, modulo 2^64 |
| `Nodes.StatNode.AddUpstream` | sources/nginx-module-vts/src/ngx_http_vhost_traffic_status_shm.c:192-224 | the upstream part: response queue, counter, overflow count, average |
| `NodeTotals.ExactStep` | sources/nginx-module-vts/src/ngx_http_vhost_traffic_status_module.h:110-163 | one request adds its amounts to counter + 2^64 * overflow count, modulo 2^128, for every counter |
| `NodeTotals.RunExact` | sources/nginx-module-vts/src/ngx_http_vhost_traffic_status_node.c:267-401 | over any run of requests and resets, counter + 2^64 * overflow count is the total since the last reset, exactly while it is below 2^128 |
| `NodeTotals.ClassesSumToRequests` | sources/nginx-module-vts/src/ngx_http_vhost_traffic_status_module.h:58-64 | over any such run the totals of the five status classes sum to the total of requests |
| `NodeTotals.ResetKeepsTimes` | sources/nginx-module-vts/src/ngx_http_vhost_traffic_status_node.c:267-315 | resets leave the queue of request times as if they had not happened |
| `RequestCounts.CountersMean` | sources/nginx-module-vts/src/ngx_http_vhost_traffic_status_module.h:58-163 | over any run each counter is, modulo 2^128, the number of requests since the last reset with a status in its range, with its cache status, or the sum of their bytes or durations |
| `RequestCounts.TimesShown` | sources/nginx-module-vts/src/ngx_http_vhost_traffic_status_node.c:318-373 | the request and response times a node shows are those of its first request, then averages with the latest request included, and zero after a reset |
| `RequestCounts.ResetKeepsResponseTimes` | sources/nginx-module-vts/src/ngx_http_vhost_traffic_status_node.c:267-315 | resets leave the queue of response times as if they had not happened |
| `Trees.Lookup` | sources/nginx-module-vts/src/ngx_http_vhost_traffic_status_node.c:228-264 | the walk finds a key exactly when the map has it, with its value, whatever hashes collide |
| `Trees.InsertLeafAdds` | sources/nginx-module-vts/src/ngx_http_vhost_traffic_status_module.c:367-406 | hanging a new key in keeps the order by (hash, bytes) and adds one entry to the map |
| `Trees.ChangedMap` | sources/nginx-module-vts/src/ngx_http_vhost_traffic_status_shm.c:158-162 | updating a node in place keeps the order and changes one entry |
| `Trees.RemovedMap` | sources/nginx-module-vts/src/ngx_http_vhost_traffic_status_control.c:503-536 | taking a key out keeps the order and removes one entry |
| `Trees.SizeIsCount` | sources/nginx-module-vts/src/ngx_http_vhost_traffic_status_module.c:367-406 | an ordered tree has no duplicates: as many nodes as the map has entries |
| `Bytes.LexMeans` | sources/nginx-module-vts/src/ngx_http_vhost_traffic_status_module.c:389-391 | the order of key bytes is by the first difference, a proper prefix coming first |
| `LinkedTree.Chain.Lookup` | sources/nginx-module-vts/src/ngx_http_vhost_traffic_status_node.c:228-264 | the same walk over linked cells |
| `LinkedTree.Chain.FreePlace` | sources/nginx-module-vts/src/ngx_http_vhost_traffic_status_module.c:374-398 | the walk ends at the cell under which the new one belongs, on the side where it belongs, and that side is free |
| `LinkedTree.Chain.InsertValue` | sources/nginx-module-vts/src/ngx_http_vhost_traffic_status_module.c:367-406 | one pointer of the tree is written, and the pointers, the parent pointers too, then spell the tree with the new leaf |
| `LinkedTree.Chain.Insert` | sources/nginx-module-vts/src/ngx_http_vhost_traffic_status_module.c:367-406 | insertion in place refines `InsertLeaf` |
| `LinkedTree.SpellsGrown` | sources/nginx-module-vts/src/ngx_http_vhost_traffic_status_module.c:367-406 | hanging a cell under the place the walk ends in, and nothing else, grows the tree by that leaf |
| `Stores.Store.RestoreAdd` | sources/nginx-module-vts/src/ngx_http_vhost_traffic_status_dump.c:256-311 | an absent non-empty key is added when there is memory; an entry already there is never changed |
| `Stores.Store.DeleteZone` | sources/nginx-module-vts/src/ngx_http_vhost_traffic_status_control.c:503-536 | the key is gone, and the count is the number of entries removed |
| `Stores.Store.DeleteAll` | sources/nginx-module-vts/src/ngx_http_vhost_traffic_status_control.c:425-451 | the map is empty, and the count is the number of entries there were |
| `Stores.Store.DeleteGroup` | sources/nginx-module-vts/src/ngx_http_vhost_traffic_status_control.c:454-500 | exactly the entries of the group are gone, or none when they could not all be collected; the count is the number removed |
| `Stores.Store.GetNodes` | sources/nginx-module-vts/src/ngx_http_vhost_traffic_status_control.c:372-422 | the nodes of the group are collected in the order of the traversal, unless the array runs out of memory |
| `Stores.GroupCount` | sources/nginx-module-vts/src/ngx_http_vhost_traffic_status_control.c:372-500 | collecting meets every entry of the group exactly once |
| `NodeStore.ShmInfoNode` | sources/nginx-module-vts/src/ngx_http_vhost_traffic_status_shm.c:26-63 | the traversal counts all nodes and the filter nodes |
| `NodeStore.FilterNameOfKey` | sources/nginx-module-vts/src/ngx_http_vhost_traffic_status_shm.c:46-50 | the match list is asked about the name of a generated key, unless that is empty or begins with a separator |
| `NodeStore.CountIsFilters` | sources/nginx-module-vts/src/ngx_http_vhost_traffic_status_shm.c:26-63 | the count is the number of filter entries of the map |
| `NodeStore.FindLruNode` | sources/nginx-module-vts/src/ngx_http_vhost_traffic_status_node.c:163-225 | the traversal returns a matching filter node than which none is older, or what it started from |
| `NodeStore.FindLru` | sources/nginx-module-vts/src/ngx_http_vhost_traffic_status_node.c:131-160 | a victim is named exactly when the number of filter nodes has reached the limit; its last update is the earliest of all matching filter nodes |
| `NodeStore.AddNode` | sources/nginx-module-vts/src/ngx_http_vhost_traffic_status_shm.c:83-189 | what adding a request does to the entries on every path: empty key, known key, eviction, failed allocation, new key |
| `NodeRuns.Apply` | sources/nginx-module-vts/src/ngx_http_vhost_traffic_status_control.c:539-560 | every change keeps the tree valid and does to the map what `Changes` says, whatever the shape of the tree |
| `NodeRuns.FiltersBounded` | sources/nginx-module-vts/src/ngx_http_vhost_traffic_status_shm.c:38-157 | over any run there are never more filter nodes than the limit or than there were at first, but for restored ones |
| `NodeRuns.AddedIsFilter` | sources/nginx-module-vts/src/ngx_http_vhost_traffic_status_shm.c:145-163 | an addition of the filter group under a matching key leaves a filter node |
| `NodeRuns.StatsAreStory` | sources/nginx-module-vts/src/ngx_http_vhost_traffic_status_shm.c:83-189 | over any run of additions, evictions, restored nodes and deletions, a node is exactly what the change it last entered with and the additions since make of it |
| `NodeRuns.KindOfStory` | sources/nginx-module-vts/src/ngx_http_vhost_traffic_status_shm.c:153 | its kind is the one it entered with |
| `NodeRuns.EvictsLeastUsed` | sources/nginx-module-vts/src/ngx_http_vhost_traffic_status_node.c:131-225 | over any run the victim is a filter node, and no other filter node's latest addition was earlier |
| `NodeRuns.LastUpdateOfStory` | sources/nginx-module-vts/src/ngx_http_vhost_traffic_status_node.c:195-225 | the time the comparison reads is that of the latest addition |
| `NodeRuns.CountersAreCredit` | sources/nginx-module-vts/src/ngx_http_vhost_traffic_status_shm.c:83-224 | the counters of a node that entered with an addition stand for exactly what the additions since add, modulo 2^128; response times count for the two upstream groups only |
| `NodeRuns.CreditOverRequests` | sources/nginx-module-vts/src/ngx_http_vhost_traffic_status_shm.c:83-163 | but for those times that is what the requests of these additions add |
| `Summary.Total.AddServer` | sources/nginx-module-vts/src/ngx_http_vhost_traffic_status_display_json.c:196-268 | one server node is added to the running totals and its queue merged in |
| `Summary.Total.SetServer` | sources/nginx-module-vts/src/ngx_http_vhost_traffic_status_display_json.c:180-272 | the traversal takes in the server nodes of the whole tree in order and changes no node |
| `Summary.Total.Summarise` | sources/nginx-module-vts/src/ngx_http_vhost_traffic_status_display_json.c:806-842 | from zeroed totals and an initialised queue the summary is the fold over the server nodes; for ordered queues it keeps the newest 63 samples younger than the period of all servers, and padding |
| `Summary.SummaryIsYoung` | sources/nginx-module-vts/src/ngx_http_vhost_traffic_status_display_json.c:206-216 | that a fold of merges keeps exactly these |
| `Summary.FoldExact` | sources/nginx-module-vts/src/ngx_http_vhost_traffic_status_display_json.c:196-268 | for every counter, summary counter + 2^64 * overflow count is the sum of that number over the server nodes, modulo 2^128 |
| `Summary.SameServers` | sources/nginx-module-vts/src/ngx_http_vhost_traffic_status_display_json.c:180-272 | two trees of the same entries have the same server nodes |
| `Summary.SummaryShapeFree` | sources/nginx-module-vts/src/ngx_http_vhost_traffic_status_display_json.c:180-272 | two trees of the same entries have the same summary counters and the same times in the summary queue, and the same queue when times are distinct |
| `Dump.NodeWrite` | sources/nginx-module-vts/src/ngx_http_vhost_traffic_status_dump.c:106-126 | the file gets the records of all nodes in the order of the traversal |
| `Dump.Execute` | sources/nginx-module-vts/src/ngx_http_vhost_traffic_status_dump.c:78-103 | a dump is the header and then those records |
| `Dump.Restore` | sources/nginx-module-vts/src/ngx_http_vhost_traffic_status_dump.c:314-434 | after any number of rounds of the read loop the store holds, and the loop has ended or not, as `Restored` says, for every file, broken or not, with the offset in signed 64 bits |
| `RestoreProperties.RoundsKeepEntries` | sources/nginx-module-vts/src/ngx_http_vhost_traffic_status_dump.c:314-434 | whatever the bytes and however many rounds, restoring changes no existing entry and adds only keys of 1 to 1024 bytes |
| `RestoreProperties.AddsOnlyRecords` | sources/nginx-module-vts/src/ngx_http_vhost_traffic_status_dump.c:374-434 | whatever the bytes, an entry added is a record of the file: node, key of the length it says, and pad |
| `RestoreProperties.AcceptedIff` | sources/nginx-module-vts/src/ngx_http_vhost_traffic_status_dump.c:342-362 | for names without a zero byte, a dump is accepted exactly when its header is whole and begins with the first 127 bytes of the name |
| `RestoreProperties.OtherNameIgnored` | sources/nginx-module-vts/src/ngx_http_vhost_traffic_status_dump.c:342-362 | a dump under another name, or cut off in its header, changes nothing |
| `RestoreProperties.EndsSoonOrNever` | sources/nginx-module-vts/src/ngx_http_vhost_traffic_status_dump.c:374-434 | for any bytes: a restore ends within as many rounds as the file has bytes, and one more, or never |
| `RestoreProperties.SkipIff` | sources/nginx-module-vts/src/ngx_http_vhost_traffic_status_dump.c:388-391 | skipping a long record leads behind it, or to where nothing can be read, exactly when its end is below 2^64; and exactly which lengths lead back |
| `RestoreProperties.ReadsForward` | sources/nginx-module-vts/src/ngx_http_vhost_traffic_status_dump.c:374-434 | when no length on the way makes the end of its record overflow, the restore ends and has added what a reader of whole records adds |
| `RestoreProperties.SameWayIff` | sources/nginx-module-vts/src/ngx_http_vhost_traffic_status_dump.c:374-434 | the restore reads record by record where a reader of whole records reads exactly when no length on the way makes the end of its record overflow |
| `RestoreProperties.StuckForEver` | sources/nginx-module-vts/src/ngx_http_vhost_traffic_status_dump.c:388-391 | a length of 2^64 - 3 keeps the restore at the same record for any number of rounds |
| `RestoreProperties.RestoreIdempotentIff` | sources/nginx-module-vts/src/ngx_http_vhost_traffic_status_dump.c:314-434 | whatever the bytes, a second restore adds nothing and comes as far as the first, whatever memory there is for it, exactly when the first did not end for want of memory |
| `RestoreProperties.RestorePrefix` | sources/nginx-module-vts/src/ngx_http_vhost_traffic_status_dump.c:373-434 | restoring a dump cut off anywhere behind its header ends, and adds exactly the records wholly in what is left |
| `RestoreProperties.WholeIsLargest` | sources/nginx-module-vts/src/ngx_http_vhost_traffic_status_dump.c:373-434 | those are the longest list of leading records that fits |
| `RestoreProperties.RestoreDump` | sources/nginx-module-vts/src/ngx_http_vhost_traffic_status_dump.c:106-434 | restoring a whole dump over a store ends, and adds exactly the dumped entries that were missing |
| `RestoreProperties.RestoreDumpIff` | sources/nginx-module-vts/src/ngx_http_vhost_traffic_status_dump.c:373-391 | some number of rounds brings a dump back whole into an empty store exactly when no key is longer than 1024 bytes |
| `RestoreProperties.LongKeyMisread` | sources/nginx-module-vts/src/ngx_http_vhost_traffic_status_dump.c:388-391 | behind a longer key reading goes on a node's size too early, inside the record just skipped |
| `RestoreProperties.LongKeyHangs` | sources/nginx-module-vts/src/ngx_http_vhost_traffic_status_dump.c:388-391 | if the length read there is 2^64 - 3, restoring the dump never ends |
| `ReplaceString.ReplaceStrc` | sources/nginx-module-vts/src/ngx_http_vhost_traffic_status_string.c:140-167 | the loop on the buffer does what `Run` says, with length and terminator; None stands for the wrapped length of the move |
| `ReplaceString.RunReplacesAll` | sources/nginx-module-vts/src/ngx_http_vhost_traffic_status_string.c:140-167 | for patterns of one byte or with distinct end bytes the stale bytes behind the text never matter: the result is leftmost non-overlapping replacement |
| `ReplaceString.ReplaceCorrectIff` | sources/nginx-module-vts/src/ngx_http_vhost_traffic_status_string.c:140-167 | exactly for those patterns the loop is right on every zero-free text |
| `ReplaceString.UnsafeFails` | sources/nginx-module-vts/src/ngx_http_vhost_traffic_status_string.c:140-167 | any other pattern fails on the text that is the pattern twice |
| `ReplaceString.RunStopsAtZero` | sources/nginx-module-vts/src/ngx_http_vhost_traffic_status_string.c:140-167 | in a text with a zero byte only the part before it is replaced in |
| `EscapeLabel.EscapePrometheus` | sources/nginx-module-vts/src/ngx_http_vhost_traffic_status_string.c:170-262 | prefix scan, early return and copying loop together escape every character one by one; without memory the unescaped prefix is returned |
| `EscapeLabel.EscapeSize` | sources/nginx-module-vts/src/ngx_http_vhost_traffic_status_string.c:206-212 | the output is never longer than the unescaped prefix and five times the rest |
| `EscapeLabel.UnescapeIff` | sources/nginx-module-vts/src/ngx_http_vhost_traffic_status_string.c:170-262 | undoing the escapes gives the input back exactly when all of it is valid for the decoder |
| `EscapeLabel.NoLineEnd` | sources/nginx-module-vts/src/ngx_http_vhost_traffic_status_string.c:224-236 | no line end is left in the output |
| `EscapeLabel.ReadsWhole` | sources/nginx-module-vts/src/ngx_http_vhost_traffic_status_string.c:224-236 | between quotes a reader reads the whole output: no quote ends it early, and it escapes none behind it |
| `EscapeLabel.HexSaysByte` | sources/nginx-module-vts/src/ngx_http_vhost_traffic_status_string.c:240-251 | a byte that is no UTF-8 is written as two backslashes, an x and the two hexadecimal digits of its value |
| `ReplaceString.CallsReplaceAll` | sources/nginx-module-vts/src/ngx_http_vhost_traffic_status_display.c:179-224 | for every pattern the callers pass the result is plain replacement |
| `Hysteresis.PeerHealth.StatusUpdate` | sources/nginx_upstream_check_module-0.4.0/ngx_http_upstream_check_module.c:2509-2538 | one result moves the counts and `down` as `After` says and stamps the time |
| `Hysteresis.CountsAreRuns` | sources/nginx_upstream_check_module-0.4.0/ngx_http_upstream_check_module.c:2509-2538 | the counts are the lengths of the runs a history ends in; at most one is not zero |
| `Hysteresis.LatestProofDecides` | sources/nginx_upstream_check_module-0.4.0/ngx_http_upstream_check_module.c:2509-2538 | the latest prefix that ended in enough successes or failures decides `down`; before the first the default holds |
| `Hysteresis.FlipNeedsRun` | sources/nginx_upstream_check_module-0.4.0/ngx_http_upstream_check_module.c:2509-2538 | a flip comes at the end of a run of equal results of at least the threshold |
| `Hysteresis.FlipsApart` | sources/nginx_upstream_check_module-0.4.0/ngx_http_upstream_check_module.c:2509-2538 | between two flips there are at least as many results as the threshold of the later one |
| `CheckProtocol.StepKeepsInv` | sources/nginx_upstream_check_module-0.4.0/ngx_http_upstream_check_module.c:1021-1163 | every step of every worker, but a takeover from one that is checking, keeps the invariant: owner, phases, log and counts |
| `CheckProtocol.PunctualNeverTakesOver` | sources/nginx_upstream_check_module-0.4.0/ngx_http_upstream_check_module.c:1055-1085 | from any state with no long measurement pending: clocks never behind the stamp and less than sixteen intervals ahead of it never lead to a takeover, though the elapsed time is measured before the lock |
| `CheckProtocol.MutualExclusion` | sources/nginx_upstream_check_module-0.4.0/ngx_http_upstream_check_module.c:1021-1094 | from any state in which owner and phases agree, in every interleaving without takeovers, whatever the clocks: at most one worker checks the peer, and it is the owner named in shared memory |
| `CheckProtocol.ExclusionIff` | sources/nginx_upstream_check_module-0.4.0/ngx_http_upstream_check_module.c:1055-1094 | for any window of clock readings around the stamp: it keeps two or more workers apart, in every interleaving from every orderly state on, exactly when it is never late and at most sixteen intervals wide |
| `CheckProtocol.PunctualRuns` | sources/nginx_upstream_check_module-0.4.0/ngx_http_upstream_check_module.c:1021-1094 | with such clocks, from every sound state on, the whole invariant, exclusion and the bracketing of results hold throughout |
| `CheckProtocol.QuietStart` | sources/nginx_upstream_check_module-0.4.0/ngx_http_upstream_check_module.c:2572-2579 | where nobody holds the peer and owner and phases agree, whatever went on before and whatever the counts are, the invariant holds for what follows |
| `CheckProtocol.CheckOnTime` | sources/nginx_upstream_check_module-0.4.0/ngx_http_upstream_check_module.c:1055-1094 | checks do happen with such clocks: from one interval after any stamp on |
| `CheckProtocol.OneResultPerAcquire` | sources/nginx_upstream_check_module-0.4.0/ngx_http_upstream_check_module.c:2509-2579 | from any sound state, in every interleaving without takeovers, each acquire that is released has exactly one result recorded in between, by the same worker |
| `CheckProtocol.BracketMeans` | sources/nginx_upstream_check_module-0.4.0/ngx_http_upstream_check_module.c:2509-2579 | an unbroken log is a sequence of acquire, result, release triples, the last perhaps unfinished |
| `CheckProtocol.SharedHealthIsHistory` | sources/nginx_upstream_check_module-0.4.0/ngx_http_upstream_check_module.c:2509-2538 | in the same runs, though status_update is not atomic, the shared counts and `down` are those one sequence of results makes of the counts at the beginning |
| `CheckProtocol.ResultsAreOutcomes` | sources/nginx_upstream_check_module-0.4.0/ngx_http_upstream_check_module.c:1095-1492 | in the same runs the results recorded, with the one under way, are the outcomes the handlers decided on, in order: a success for an answer, a failure for a refused connection and every other end of a check |
| `CheckProtocol.HealthIsOutcomes` | sources/nginx_upstream_check_module-0.4.0/ngx_http_upstream_check_module.c:2509-2538 | whenever no result is under way, counts and `down` are what these outcomes make of the counts at the beginning |
| `CheckProtocol.TakenAfterInterval` | sources/nginx_upstream_check_module-0.4.0/ngx_http_upstream_check_module.c:1073-1075 | without takeovers a free peer is taken only after it was measured at least one interval after the stamp it then had |
| `CheckProtocol.StampIsLastWritten` | sources/nginx_upstream_check_module-0.4.0/ngx_http_upstream_check_module.c:1084-1085 | the stamp is the clock of the last result or takeover |
| `CheckProtocol.ColdStart` | sources/nginx_upstream_check_module-0.4.0/ngx_http_upstream_check_module.c:1073-1085 | a peer never stamped: with one and the same clock reading everywhere and before any result, a second worker takes over from the first check |
| `CheckProtocol.LateClock` | sources/nginx_upstream_check_module-0.4.0/ngx_http_upstream_check_module.c:1055-1085 | from a start: a clock one tick behind the stamp takes over from a live worker |
| `CheckProtocol.LateClockBeside` | sources/nginx_upstream_check_module-0.4.0/ngx_http_upstream_check_module.c:1055-1085 | the same beside any check that is found going on |
| `CheckProtocol.DeadOwner` | sources/nginx_upstream_check_module-0.4.0/ngx_http_upstream_check_module.c:1076-1085 | two workers that both measured before either took the lock both take over from one that is gone |
| `StatusLine.Parser.Parse` | sources/nginx_upstream_check_module-0.4.0/ngx_http_upstream_check_module.c:2096-2286 | one call on the unread bytes is `Feed`; state, code, count and position are saved for the next |
| `StatusLine.Calls` | sources/nginx_upstream_check_module-0.4.0/ngx_http_upstream_check_module.c:2096-2286 | calls of the parser on a growing buffer, one for each read event: whatever the chunks, outcome, state, code and consumed bytes are those of one call on all bytes |
| `Resumable.ChunkIndependent` | sources/nginx_upstream_check_module-0.4.0/ngx_http_upstream_check_module.c:1579-2286 | for the automata of both parsers: read on where the last call ended, any list of chunks is one call on all of them |
| `StatusLine.AcceptsExactly` | sources/nginx_upstream_check_module-0.4.0/ngx_http_upstream_check_module.c:2096-2286 | the parser succeeds on exactly the lines of a written-down language, to their end, and reports their codes |
| `StatusLine.ErrorIff` | sources/nginx_upstream_check_module-0.4.0/ngx_http_upstream_check_module.c:2096-2286 | the parser gives up exactly on what no continuation can make an accepted line |
| `StatusLine.AgainIff` | sources/nginx_upstream_check_module-0.4.0/ngx_http_upstream_check_module.c:2096-2286 | it asks for more exactly on the beginnings of accepted lines |
| `StatusLine.AcceptsStatusLine` | sources/nginx_upstream_check_module-0.4.0/ngx_http_upstream_check_module.c:2096-2286 | every status line of section 4 of RFC 9112 with a major version of at least one is accepted with its three-digit code |
| `FastcgiRecord.Parser.ProcessRecord` | sources/nginx_upstream_check_module-0.4.0/ngx_http_upstream_check_module.c:1579-1679 | one call is `Feed` from the unread position, which only a complete header moves |
| `FastcgiRecord.FeedIsOneShot` | sources/nginx_upstream_check_module-0.4.0/ngx_http_upstream_check_module.c:1579-1679 | byte by byte the automaton decodes the header of section 3.3 of the FastCGI 1.0 specification, limited to version 1, request 1 and three types |
| `FastcgiRecord.Calls` | sources/nginx_upstream_check_module-0.4.0/ngx_http_upstream_check_module.c:1672-1718 | one call for each read event on the bytes so far, each starting again at the old position |
| `FastcgiRecord.CallsRight` | sources/nginx_upstream_check_module-0.4.0/ngx_http_upstream_check_module.c:1674-1678 | for any number of read events, empty ones included: the exact condition for the outcome to be that of decoding all bytes at once |
| `FastcgiRecord.TwoCallsRight` | sources/nginx_upstream_check_module-0.4.0/ngx_http_upstream_check_module.c:1674-1678 | the same for two read events |
| `FastcgiRecord.GoodHeaderChunks` | sources/nginx_upstream_check_module-0.4.0/ngx_http_upstream_check_module.c:1674-1678 | for good headers the outcome is right exactly when the first bytes to come are the only ones or hold the whole header |
| `FastcgiRequest.CreateRequest` | sources/nginx_upstream_check_module-0.4.0/ngx_http_upstream_check_module.c:3444-3547 | for any parameters: the writes overrun the buffer exactly from three names of more than 127 bytes on; otherwise the request is in it, all but the last header, and ends with the buffer exactly when no name is longer |
| `FastcgiRequest.DeclaredIff` | sources/nginx_upstream_check_module-0.4.0/ngx_http_upstream_check_module.c:3454-3460 | the computed length is the encoded length exactly when no name is longer than 127 bytes |
| `FastcgiRequest.EncodedLength` | sources/nginx_upstream_check_module-0.4.0/ngx_http_upstream_check_module.c:3454-3460 | it is short by three bytes for each longer name |
| `FastcgiRequest.PairsReadBack` | sources/nginx_upstream_check_module-0.4.0/ngx_http_upstream_check_module.c:3493-3521 | reading the name-value pairs as section 3.4 of the FastCGI 1.0 specification says gives the original list |
| `FastcgiRequest.RequestReadBack` | sources/nginx_upstream_check_module-0.4.0/ngx_http_upstream_check_module.c:3462-3540 | a reader finds the begin record, then, exactly when names are at most 127 bytes and the parameters at most 65535, all of them in one record and the empty record; length and padding are a multiple of eight |

## Left out

- The store holds its tree as a value, and nodes in it as values (`Stores`, `NodeStore`, `Dump`); pointers into the tree, and a node changing under a pointer someone else holds, are not modelled there. `LinkedTree` has the two pointer walks, `Summary` has nodes as objects.
- `ngx_rbtree_insert` and `ngx_rbtree_delete` are not part of this model: insertion and deletion are those of a plain search tree, and no contract of `Store` says anything about the shape, and rotations either way keep order and map (`Trees.RotationKeepsOrder`, `Trees.RotationRightKeepsOrder`), so that rebalancing may be anything made of them.
- The pointer cache of `find_node` (node.c:116-121) compares hashes only and can outlive its node; the model looks every key up.
- `ngx_crc32_short`, `ngx_strstrn`, `ngx_utf8_decode` and `ngx_read_file` are not part of this model; it uses a function parameter, the leftmost occurrence, a parameter with two assumptions, and reads that are short only at the end of the file.
- TimeQueues.TimeQueue.Insert: C does not fix the order of the operands of `pop | push`; the model pops first.
- TimeQueues.TimeQueue.Amm: the sums are unbounded, where the source has 64-bit integers; the same holds for `Wma`.
- Averages.WeightedAtLeastMean: speaks of durations that do not fall within the window; for others the two averages can lie either way.
- QueueProperties.RunIsOrdered: assumes a clock that does not run backwards, as do the merge theorems through their ordered queues.
- Summary.Total.SetServer: one time is read for the whole traversal; the source reads it at each merge.
- NodeTotals.RunExact: is modulo 2^128, because an overflow count wraps unnoticed.
- NodeStore.AddNode: leaves out the sizes a cache node reports, which are copied from elsewhere.
- NodeRuns.StatsAreStory: is about runs from an empty store; a node that enters from a dump starts with what the dump says, and `NodeRuns.CountersAreCredit` leaves it out.
- Summary.SummaryIsYoung: is about server nodes with ordered queues, which is what a clock that does not run backwards makes.
- NodeStore.ShmInfoNode: counts nodes but not their bytes. The match list is asked about the key from its second field on; bytes behind the key in memory, on which `strncmp` can read, are not modelled.
- NodeStore.FindLruNode: the same for the match list.
- NodeRuns.FiltersBounded: assumes the memory for the count itself; without it the source evicts nothing.
- RestoreProperties.RestoreDump: assumes a memory layout that reads back what it wrote for the entries dumped, room for all of them, and a file whose size an offset can hold; read errors other than at offsets below zero, and file locks, are not modelled.
- RestoreProperties.ReadsForward: goes one way, as what is added can be right by accident after reading elsewhere; where it reads is settled both ways by `SameWayIff`.
- EscapeLabel.UnescapeIff: is relative to a decoder whose characters lie within the text and hold no ASCII byte.
- CheckProtocol.MutualExclusion: is about check types without keep-alive, runs without a reload, and check intervals below 2^60. Idle closes of kept-alive connections (lines 1213-1260) clear the owner and are not modelled.
- CheckProtocol.StepKeepsInv: what happens between connecting and a result is one step, named by the handler it ends in and what was found there; a worker leaves between its handlers, being killed within `status_update` is not modelled. Of `status_update`, both counts are written in one step, and `down` is judged and written in one.
- Hysteresis.CountsAreRuns: counts are unbounded, where the source has 64-bit integers.
- StatusLine.Parser.Parse: leaves out the pointers to start and end of the status text, and the growth of the receive buffer, which moves the position back (lines 1410-1424). What a failing call leaves in code and count is not promised; the same holds for the code of `FastcgiRecord.Parser.ProcessRecord`.
- FastcgiRecord.Parser.ProcessRecord: does not promise the code after a failing call.
- FastcgiRecord.CallsRight: is about one header; the parsing of record contents and `parse_fastcgi_status` are not modelled.
- FastcgiRequest.CreateRequest: stops at the first pair that does not fit, where the source writes on behind its buffer.
- Histograms, busyness, limits, variables and formatting: nothing there that the counters and queues do not show already.
- Node reset and status control over groups and zones: only what one reset does to a node is modelled.
- Peer inheritance on reload, the filter and limit sorting by hash difference, sockets, timers and slab allocation.
- Command line tools of OpenSSL that lie beside the modules: wrappers around a library that is not there.
