# Podnet's vote pipeline, modelled and proved in Dafny

Podnet replicas vote on transactions, log the votes and broadcast them; clients collect the votes of all replicas
and answer reads with bounds on each transaction's confirmation timestamp. This project models that pipeline from
the replica's sequence-number counter to the client's reply, and proves what the reply is worth.

- `MessageLayout`, `ReplicaLog`, `LogReading`: the signed byte string, the length-prefixed log, and a writer and a
  resumable reader interleaved on one file whose last frame may be half written.
- `ReplicaRun`, `ReplicaTasks`: one replica run from an empty log. The log-vote loop, the heartbeat loop and the
  catch-up loops of any number of connections are interleaved step by step; the loops themselves are methods proved to
  do what their steps do. `LogDurability`: which logged votes are durable, and what that says about the votes sent.
- `VoteFold`, `ReorderBuffer`, `ClientView`, `PodDataUpdater`, `ViewProperties`: the client's view updater. The class
  `PodDataUpdater.Updater` keeps the maps and has the receive and drain loops; it is proved equal to a value-level
  machine, which splits into one reorder buffer per replica, which refines applying votes 0, 1, 2, ... in order.
- `Evidence`, `Attribution`: the votes a run applies, in order, and whose vote stands behind each timestamp of a view
  and of a reply.
- `OrderStatistics`, `ReadBounds`, `ClientApi`, `ReadInterleaving`, `ReadCompletion`: the reads. Sorted, padded,
  truncated lists and their middle elements, the read service as a class over the updater's maps, reads interleaved
  with the updater's lock-protected steps, and when these can complete.
- `CrossClient`, `EndToEnd`: what one client's read promises about every other client, the exact conditions under which
  it does, and the composition with replica runs. `PlayedRuns`, `Realization`: runs of replicas and clients that bring
  about whatever a view leaves possible. `SmallRuns`, `MetAssumptions`: small runs in which things go wrong, and
  networks that meet every assumption.

## What the model found

- `rperf` is sound and tight. While a transaction is unknown to a client, `rperf` bounds its median at every other
  client, with up to beta faulty replicas, in every run (`EndToEnd.PipelinePastPerfection`), also for reads that run
  beside the updater (`EndToEnd.PipelineRepliesArePastPerfect`), and no larger value does (`CrossClient.RPerfIsExact`).
- `rmin` and `rmax` of a known transaction are not bounds for other clients in general. The code leaves out replicas
  that have no timestamp for a known transaction (the `else` in lines 38 and 69 of client/src/client_api_service.rs
  belongs to the outer test). `CrossClient.ReportedBoundsCanFail` gives a run of two honest replicas in which both are
  wrong. `rmin` is right if and only if the timestamps held below it and the missing replicas that lag behind it are
  together at most alpha/2 - beta; `rmax` if and only if it is the largest timestamp or the timestamps held above it
  and all missing replicas are together at most ceil(alpha/2) - 1 - beta (`CrossClient.RMinIsBoundIff`,
  `CrossClient.RMaxIsBoundIff`). When the held timestamps are distinct, this says: `rmin` is right if and only if no
  missing replica lags behind it, and `rmax` if and only if no replica is missing
  (`CrossClient.RMinWithoutTiesIsBoundIff`, `CrossClient.RMaxWithoutTiesIsBoundIff`). Over runs of replicas that execute
  the code, some other client comes to contradict a value exactly when the replicas that the client has not seen
  equivocate leave room for it (`Realization.LowerBoundFailsInSomeRunIff`, `Realization.UpperBoundFailsInSomeRunIff`).
- A read panics exactly while some known transaction has fewer than alpha - beta timestamps
  (`ClientApi.ReadPanicsIff`): the split in line 75 of client/src/client_api_service.rs then has too few elements. Unless
  alpha is 1 this happens as soon as the first vote for a transaction is in (`SmallRuns.FirstVotePanicsIff`);
  `SmallRuns.ReadCanPanic` is the case of alpha 5, beta 1 and six replicas.
- `rconf` is commented as a median but is taken from an unsorted list. It is the median under every iteration order
  exactly when all timestamps of the row are equal (`ReadBounds.ReportedConfirmationIsMedianIff`);
  `SmallRuns.ReportedConfirmationCanMissMedian` gives a run and an order in which it is not. The theorems about medians
  are therefore about the sorted row.
- A read that completes is atomic: although it takes its locks one after the other and reads `mrt` several times, its
  reply is what reading the view at one moment between two votes gives (`ReadInterleaving.CompletedReadsAreAtomic`).
  Everything it reports can be computed again from the timestamps of the votes it carries
  (`ReadInterleaving.RepliesAreSupported`).
- Not every read completes. The read takes `tsps` and `ts_vote_msg` before `mrt`, the updater takes `mrt` first. A read
  can still end if and only if the updater can finish the vote it is at, that is, if no read holds a lock that it still
  has to take (`ReadCompletion.ReadCanEndIff`); otherwise neither the updater nor any read ever gets further
  (`ReadCompletion.StuckForEver`). One read is enough for that (`ReadCompletion.ReadsCanBlock`,
  `ReadCompletion.OneLockCanBlock`).
- The votes of a reply support the timestamps only. The evidence store is keyed by timestamp, so a vote in `ctx` or `cpp` may be
  another replica's, or about another transaction; in `SmallRuns.EvidenceCanBeAnothers` two replicas vote in one round
  and both votes of `cpp` come from the first. A vote is the listed replica's own exactly when no other vote with its
  timestamp was applied before it (`Attribution.RunRecordVotesAreOwnIff`, `Attribution.RunRecentVotesAreOwnIff`, and the same for interleaved replies), and the
  store is right about every applied vote exactly when no two of them on different subjects share a timestamp
  (`Evidence.EvidenceIsRightIff`).
- Broadcast votes are durable in the log when they are sent. A vote sent by catch-up is completely written, and it is
  durable if and only if its sync is neither outstanding nor failed (`LogDurability.LoggedBeforeSent`).
  `LogDurability.CatchUpCanOutrunSync` gives a run for each of the two cases; as long as no sync fails, only the last
  record of the log can be sent too early (`LogDurability.CatchUpIsOneRecordAhead`).
- A number whose append failed is never sent under, although the loops go on with later numbers. While the log can be
  read back, no client gets past it any more: what clients hold of that replica comes from earlier votes for good
  (`EndToEnd.FailedAppendSilencesReplica`).
- A log frame gives its payload back exactly when the payload is shorter than 2^32 bytes
  (`ReplicaLog.FrameRoundTripIff`). What catch-up sends is therefore claimed for runs whose records fit
  (`ReplicaRun.Readable`); what the two voting loops send is claimed for all runs.

## What is assumed

The signature scheme and the protobuf codec are parameters: `Env.verify`, `Replica.sign`, `Replica.encode` and
`Replica.decode`. The end-to-end lemmas assume that only messages the replica signed in its run verify under its key,
and those about catch-up that decoding an encoded record gives the record. The tightness results assume that every
replica can sign whatever it votes for, and their runs are runs in which no signature of an honest replica was forged.
`MetAssumptions.AssumptionsCanBeMet` shows, for all admissible parameters, a network with beta faulty replicas in
which the assumptions of past-perfection hold together and `rperf` is positive;
`MetAssumptions.ReportedBoundsFailInSomeRun` does this for the tightness results. Timestamps are arbitrary 64-bit
values, not a monotone clock. The network may reorder, duplicate, drop and invent votes. Hash-map iteration is in
arbitrary order. Mapping an empty log file is taken to give an empty mapping. Replica ids are distinct:
client/src/bin/client.rs:56 counts the entries of the configured list, while the maps keep one entry per id, and the
parameter conditions here are about ids.

## Model

| member | source | states |
|---|---|---|
| MessageLayout.LittleEndianRoundTrip | client/src/pod_data_updater.rs:218-221 | little-endian encoding loses nothing that fits the width |
| MessageLayout.LittleEndianDigit | client/src/pod_data_updater.rs:220-221 | byte i of an encoded number is its digit of weight 256^i, so the least significant byte comes first |
| MessageLayout.MessageFields | client/src/pod_data_updater.rs:213-221 | the signed bytes are the data, then eight bytes that decode to the timestamp, then eight that decode to the sequence number |
| MessageLayout.MessageToSignInjective | client/src/pod_data_updater.rs:213-221 | the signed bytes decide data, timestamp and sequence number, for data of any length |
| EndToEnd.SentVotesAreAccepted | pod/src/log_vote_service.rs:36-66 | every vote a replica run sends, from any of its loops, passes the client's signature check: signer and verifier build the same bytes |
| VoteFold.MrtIsMaximum | client/src/pod_data_updater.rs:166-175 | mrt is the maximum of 0 and every applied timestamp, dropped ones included |
| VoteFold.HeldIffTimely | client/src/pod_data_updater.rs:166-196 | a timestamp is held for tx exactly when some applied vote for it was not outdated by an earlier vote and its data are not the bytes HEARTBEAT |
| VoteFold.HeldIsFirstTimely | client/src/pod_data_updater.rs:180-196 | the timestamp held is that of the first such vote |
| VoteFold.HeldAtMostMrt | client/src/pod_data_updater.rs:170-196 | held timestamps never exceed mrt |
| VoteFold.FoldGrows | client/src/pod_data_updater.rs:166-196 | later votes only raise mrt, never change a held timestamp, and add only timestamps at or above the earlier mrt |
| ReorderBuffer.BufferHoldsTheGap | client/src/pod_data_updater.rs:65-144 | after any arrivals, equivocating or not, next is the least sequence number not received and the backlog is exactly the rest |
| ReorderBuffer.BacklogHoldsLast | client/src/pod_data_updater.rs:87-90 | when votes differ under one number, the backlog keeps the one received last |
| ReorderBuffer.BufferRefinesFold | client/src/pod_data_updater.rs:94-144 | the drained column is the fold over votes 0 .. next-1 for every arrival order with repetitions |
| ReorderBuffer.BufferDeliversInOrder | client/src/pod_data_updater.rs:65-144 | gap, backlog contents and column together |
| ReorderBuffer.InOrderIsDetermined | client/src/pod_data_updater.rs:65-144 | two buffers that received the same sequence numbers end alike |
| ClientView.ViewIsReorderBufferPerReplica | client/src/pod_data_updater.rs:29-145 | the whole view, seen per replica, is one reorder buffer over that replica's accepted votes |
| PodDataUpdater.Updater.constructor | client/src/pod_network_client.rs:19-31 | counters and most recent timestamps start at 0 for every configured replica, all else empty |
| PodDataUpdater.Updater.ProcessVote | client/src/pod_data_updater.rs:151-202 | evidence store, mrt and tsps become what the specification machine says; a vote at or above mrt raises it and puts the replica into the row of every transaction whose data are not the bytes HEARTBEAT |
| PodDataUpdater.Updater.DrainBacklog | client/src/pod_data_updater.rs:104-144 | the first-key loop drains exactly the consecutive votes |
| PodDataUpdater.Updater.Admit | client/src/pod_data_updater.rs:65-144 | outdated, future and expected votes are discarded, stored, or applied and drained |
| PodDataUpdater.Updater.ReceiveVote | client/src/pod_data_updater.rs:29-145 | one turn of the receive loop, with its ignored votes and its error |
| PodDataUpdater.Updater.Start | client/src/pod_data_updater.rs:15-148 | the whole loop computes the run of the specification machine and stops where it stops |
| PodDataUpdater.AdmitKeepsBacklogAhead | client/src/pod_data_updater.rs:76-144 | at rest every backlogged vote lies strictly above nextsn |
| PodDataUpdater.StaysBailed | client/src/pod_data_updater.rs:46-51 | after the error nothing changes any more |
| Types.HeartbeatIsSpelledOut | client/src/pod_data_updater.rs:208 | the heartbeat bytes are those of the word HEARTBEAT |
| ViewProperties.CurrentVoteIsHeldIff | client/src/pod_data_updater.rs:166-199 | a vote at or above mrt raises it, and leaves the replica in the row of its transaction exactly when the data are not HEARTBEAT |
| ViewProperties.AcceptedIffSigned | client/src/pod_data_updater.rs:53-63 | a vote of a known replica is accepted exactly when it carries 64 signature bytes that verify, under that replica's key, a message spelling out its data, timestamp and number |
| ViewProperties.ReceivedIffSigned | client/src/pod_data_updater.rs:53-95 | what is not signed so is ignored, and what is signed under the expected number is taken |
| ViewProperties.UpdaterRefinesInOrderApplication | client/src/pod_data_updater.rs:65-144 | for each replica that does not equivocate: nextsn, backlog and column are those of in-order application, whatever other replicas send |
| ViewProperties.ViewHoldsFirstTimelyVote | client/src/pod_data_updater.rs:151-202 | an entry of the row exists exactly for a timely applied vote and equals the first one's timestamp |
| ViewProperties.RunKeepsInv | client/src/pod_data_updater.rs:151-202 | in every reachable view held and most recent timestamps have a stored vote carrying them; rows are non-empty, bounded by mrt, for known replicas, never for heartbeats |
| ViewProperties.BailsIffUnknownReplica | client/src/pod_data_updater.rs:41-51 | the updater fails exactly on a vote with a transaction from an unknown replica |
| ViewProperties.RunsOnlyGrow | client/src/pod_data_updater.rs:160-196 | over every run mrt never falls, stored votes stay the first ones, and held timestamps are write-once |
| ViewProperties.FaultyVotesDoNotInterfere | client/src/pod_data_updater.rs:65-144 | erasing all votes of one replica leaves every other replica's share unchanged |
| ViewProperties.EvidenceKeysAreAppliedTimestamps | client/src/pod_data_updater.rs:160-165 | the keys of ts_vote_msg are exactly the timestamps of the votes applied |
| ViewProperties.ArrivalOrderDoesNotMatter | client/src/pod_data_updater.rs:29-145 | the same set of votes in any order and multiplicity gives equal nextsn, backlog, mrt, tsps and evidence keys |
| Evidence.RunIsProcessing | client/src/pod_data_updater.rs:94-202 | the receive loop with its reorder buffer changes mrt, tsps and ts_vote_msg exactly as processing its applied votes one after the other does |
| Evidence.AppliedInOrder | client/src/pod_data_updater.rs:65-144 | whatever the arrival order, each replica's votes are applied as its votes 0 .. nextsn-1, in this order |
| Evidence.LastReceivedIsApplied | client/src/pod_data_updater.rs:87-137 | each vote is applied as last received under its number |
| Evidence.PartOfRunFollows | client/src/pod_data_updater.rs:94-196 | between any two applied votes the column of a replica that does not equivocate is an initial part of its stream, folded |
| Evidence.StoredIsFirst | client/src/pod_data_updater.rs:160-165 | the stored vote for a timestamp is the first one applied that carries it |
| Evidence.HeldVoteIsOwnIff | client/src/pod_data_updater.rs:160-196 | the stored vote behind a held timestamp is the replica's own for the transaction exactly when no other vote with the timestamp was applied before it |
| Evidence.RecentVoteIsOwnIff | client/src/pod_data_updater.rs:160-175 | the same for most recent timestamps, as to the replica |
| Evidence.EvidenceIsRightIff | client/src/pod_data_updater.rs:160-165 | every applied vote leads back to its replica and transaction exactly when no two votes on different subjects share a timestamp |
| OrderStatistics.RankByCounting | client/src/client_api_service.rs:42-47 | element j of a sorted list is at least x exactly when at most j elements are below x |
| OrderStatistics.SortSorts | client/src/client_api_service.rs:42 | sorting yields a sorted list with the same elements |
| OrderStatistics.IterationOrderIsIrrelevant | client/src/client_api_service.rs:33-42 | whatever the map iteration order, the sorted list is the same |
| OrderStatistics.PointwiseDomination | client/src/client_api_service.rs:50-58 | raising entries raises every order statistic |
| ReadBounds.MinIndex | client/src/client_api_service.rs:42-47 | with alpha elements available, rmin is sorted[alpha/2 - beta] |
| ReadBounds.MinIndexShort | client/src/client_api_service.rs:42-47 | with fewer, it is 0 or sorted[(k - beta)/2] |
| ReadBounds.MaxIndex | client/src/client_api_service.rs:73-79 | rmax is sorted[k + beta - ceil(alpha/2)], and the split panics exactly when k + beta < alpha |
| ReadBounds.BoundsEncloseMedian | client/src/client_api_service.rs:42-79 | rmin <= sorted[k/2] <= rmax whenever a read answers |
| ReadBounds.PaddingCommutesWithSorting | client/src/client_api_service.rs:42-45 | padding a sorted list with zeros is sorting the padded list |
| ReadBounds.BoundsSurviveFaults | client/src/client_api_service.rs:28-80 | the median of any alpha held timestamps with up to beta of them replaced stays between rmin and rmax |
| ReadBounds.ReportedConfirmationIsMedianIff | client/src/client_api_service.rs:114-121 | the unsorted middle is the median for every iteration order exactly when all timestamps are equal |
| SmallRuns.ReportedConfirmationCanMissMedian | client/src/client_api_service.rs:114-121 | a run and an iteration order in which rconf is not the median |
| ClientApi.ClientApiService.MinPossibleTs | client/src/client_api_service.rs:28-48 | the loop, sort, padding and cut give the specified order statistic, independent of iteration order |
| ClientApi.ClientApiService.MinPossibleTsForNewTx | client/src/client_api_service.rs:50-58 | the same for mrt, with padding before sorting |
| ClientApi.ClientApiService.MaxPossibleTs | client/src/client_api_service.rs:60-80 | the upper order statistic, or the panic |
| ClientApi.ClientApiService.CollectRow | client/src/client_api_service.rs:114-120 | the row's timestamps in iteration order, each with a stored vote that carries it |
| ClientApi.ClientApiService.BuildRecord | client/src/client_api_service.rs:106-129 | a record carries rmin, rmax, rconf and ctx of its transaction, or the bound panics |
| ClientApi.ClientApiService.CollectRecords | client/src/client_api_service.rs:106-130 | exactly one record per known transaction, or a panic exactly when one panics |
| ClientApi.ClientApiService.Read | client/src/client_api_service.rs:102-141 | the reply has one record per known transaction, rperf, and a cpp vote carrying each replica's mrt |
| ClientApi.ClientApiService.CollectMostRecent | client/src/client_api_service.rs:132-134 | cpp holds, in the iteration order of mrt, the stored vote of each most recent timestamp |
| Attribution.RunRecordVotesAreOwnIff | client/src/client_api_service.rs:114-120 | after any run, the votes of ctx are the listed replicas' own for the transaction exactly when no held timestamp was overtaken by another applied vote |
| Attribution.ReplyRecordVotesAreOwnIff | client/src/client_api_service.rs:114-120 | the same for each record of the reply of an interleaved read, over the votes noted until then |
| Attribution.RunRecentVotesAreOwnIff | client/src/client_api_service.rs:134 | after any run, the votes of cpp are the listed replicas' own exactly when no most recent timestamp other than 0 was overtaken |
| Attribution.ReplyRecentVotesAreOwnIff | client/src/client_api_service.rs:134 | the same for the reply of an interleaved read |
| SmallRuns.EvidenceCanBeAnothers | client/src/pod_data_updater.rs:162-164 | a run in which all votes looked up for two replicas are the first one's |
| ClientApi.ReadPanicsIff | client/src/client_api_service.rs:75 | a read panics exactly when a known transaction has fewer than alpha - beta timestamps |
| SmallRuns.FirstVotePanicsIff | client/src/client_api_service.rs:75 | after the first vote for a transaction a read panics exactly when alpha exceeds 1 |
| SmallRuns.ReadCanPanic | client/src/client_api_service.rs:75 | alpha 5, beta 1, six replicas, one vote: the read panics |
| ClientApi.UnknownTransactionReadsLikeNew | client/src/client_api_service.rs:38-57 | for an unknown transaction both computations of the lower bound agree, for any iteration orders |
| ClientApi.UnknownTransactionReadsMaximum | client/src/client_api_service.rs:69-79 | for an unknown transaction the upper bound is the largest timestamp |
| ClientApi.FreshReply | client/src/client_api_service.rs:102-141 | before any vote a reply has no records, rperf 0 and one all-default vote per replica |
| ClientApi.RPerfNeverFalls | client/src/client_api_service.rs:50-58 | rperf never decreases over any run of the updater |
| ReadInterleaving.ExecuteKeepsInv | client/src/pod_data_updater.rs:98-102 | over every interleaving of locked updater steps and reads, the shared maps are those of the finished votes plus part of the current one, and each read sees one view |
| ReadInterleaving.CompletedReadsAreAtomic | client/src/client_api_service.rs:102-141 | a reply with its records, rmin, rmax, rconf, rperf and votes is that of an atomic read of the view at one moment, and so is a panic |
| ReadInterleaving.RepliesAreSupported | client/src/client_api_service.rs:102-141 | rperf can be computed again from the timestamps of cpp, and rmin, rmax and rconf from those of ctx |
| ReadInterleaving.RepliesArePastPerfect | client/src/client_api_service.rs:50-58 | past-perfection for the rperf of an interleaved read's reply that has no record of the transaction |
| ReadInterleaving.CompleteRecordsBound | client/src/client_api_service.rs:106-129 | a record of an interleaved read with a vote for every replica encloses every other client's median |
| ReadCompletion.ReadCanEndIff | client/src/client_api_service.rs:102-141 | from any point of any interleaving, a read that has not ended can still end exactly when no read holds a lock that the updater still has to take for the vote it is at |
| ReadCompletion.StuckForEver | client/src/pod_data_updater.rs:98-102 | once the updater cannot finish its vote it never will, and no read ends any more, begun already or not |
| ReadCompletion.BlockedForEver | client/src/client_api_service.rs:104-107 | if the read holds both its locks while the updater waits for one of them, the shared maps never change again either |
| ReadCompletion.ReadsCanBlock | client/src/client_api_service.rs:104-107 | for every vote, an interleaving with one read after which neither can finish |
| ReadCompletion.OneLockCanBlock | client/src/client_api_service.rs:104 | for a vote that needs a row, the read's first lock is enough |
| ReadInterleaving.StepsAreProcessVote | client/src/pod_data_updater.rs:151-202 | uninterrupted, the locked steps do what processing the vote does |
| ReplicaLog.ReplicaLogAppender.Append | pod/src/replica_log.rs:63-84 | what reaches the file and the recorded size for each way it can turn out: encoding, writing or syncing fails, or the file becomes the encoding of the entries with the new one appended |
| ReplicaLog.TornAppendIsCompletedByNext | pod/src/replica_log.rs:76-78 | if a frame torn after its prefix is followed by another, reading completes the entry with the next frame's bytes, and is right exactly when these are the missing ones |
| ReplicaLog.MmapLogIterator.Next | pod/src/replica_log.rs:129-168 | one item, with the rewind when the entry is not all there |
| ReplicaLog.MmapLogIterator.Refresh | pod/src/replica_log.rs:176-203 | if the file has grown, mapping and recorded size are the new ones, else the old ones, and the position stays |
| ReplicaLog.FrameHeader | pod/src/replica_log.rs:68-77 | a frame is four bytes that decode to the payload's length modulo 2^32, then the payload |
| ReplicaLog.FrameRoundTripIff | pod/src/replica_log.rs:68-77 | a payload comes back from its frame exactly when its length fits 32 bits |
| ReplicaLog.ItemAtBoundary | pod/src/replica_log.rs:129-168 | on a frame boundary of a partly mapped log: the next entry, the end, or an error without moving |
| ReplicaLog.TornLogRoundTrip | pod/src/replica_log.rs:68-168 | a log cut anywhere reads back exactly its whole entries, and ends in an error unless cut on a boundary |
| LogReading.NextKeepsInv | pod/src/replica_log.rs:129-168 | a read yields the next appended entry, or nothing and does not move |
| LogReading.ReadingIsResumable | pod/src/replica_log.rs:63-203 | over every interleaving of partial writes, opening, refreshing and reading: entries yielded are a prefix of those appended, the position is a boundary, file_size is within the mapping |
| LogReading.RefreshedReaderSeesTheRest | pod/src/replica_log.rs:176-203 | from any point of any run with no frame half written: after opening or refreshing, the whole file is mapped, the position has stayed, and reading on yields exactly the remaining entries |
| LogReading.RefreshedReaderYieldsTheRest | pod/src/replica_log.rs:129-203 | the same call by call, also in the middle of a write: enough calls have yielded every entry wholly in the file |
| LogReading.ReadingOn | pod/src/replica_log.rs:129-168 | k calls yield the next k entries, or all that are mapped |
| LogReading.HalfWrittenFrameIsSeen | pod/src/replica_log.rs:76-77 | every part of a frame can be found in the file, and is reported as torn |
| ReplicaRun.SignedNumbersAreUnique | pod/src/heartbeat_service.rs:40-72 | over every interleaving, the two loops drawing from one counter never sign two votes under one number |
| ReplicaRun.SentVotesAreSigned | pod/src/log_vote_service.rs:30-75 | what a run sends was signed in it and is accounted for by the log: always for the voting loops, and for catch-up if the log can be read back |
| ReplicaRun.SameNumberSameVote | pod/src/log_vote_service.rs:30-75 | any two votes sent with one sequence number are identical, whoever sent them, catch-up included if the log can be read back |
| LogDurability.NumbersArePartitioned | pod/src/replica_log.rs:78-81 | over every run the log's numbers are the durable ones, those whose sync failed, and the one whose sync is outstanding, without overlap |
| LogDurability.LoggedIsDurableIff | pod/src/replica_log.rs:78-81 | a logged vote is durable exactly when its sync is neither outstanding nor failed |
| LogDurability.LoggedBeforeSent | pod/src/log_vote_service.rs:53-69 | a non-heartbeat-service vote is in the log when it is sent; a broadcast one is durable, one sent by catch-up exactly when its sync is neither outstanding nor failed; overwriting the replica id changes nothing |
| LogDurability.CatchUpIsOneRecordAhead | pod/src/client_comms_service.rs:141-177 | while no sync has failed, the only vote catch-up can have sent before it was durable is the log's last record |
| LogDurability.CatchUpCanOutrunSync | pod/src/client_comms_service.rs:141-177 | for every transaction and codec, a run in which catch-up sends a vote whose sync is outstanding, and one in which it sends a vote whose sync failed |
| LogDurability.FailedAppendIsNeverSent | pod/src/log_vote_service.rs:32-57 | a number whose append failed is never sent under, by any loop |
| LogDurability.AppendCanFail | pod/src/log_vote_service.rs:54-57 | the append of the first number of a run can be one that fails |
| EndToEnd.FailedAppendSilencesReplica | client/src/pod_data_updater.rs:76-95 | no client's nextsn ever gets past a number whose append failed; what it holds of the replica is made of votes below it |
| ReplicaRun.CatchUpSendsPrefix | pod/src/client_comms_service.rs:141-177 | a catch-up loop sends a prefix of the logged votes in order, none skipped or repeated |
| ReplicaRun.CatchUpDelivers | pod/src/client_comms_service.rs:141-177 | over every interleaving, a finished catch-up loop has sent exactly the records in the log when it was mapped, each once and in order |
| ReplicaTasks.CatchUpCompletes | pod/src/client_comms_service.rs:141-177 | whatever happened in between, enough further steps of its own finish a catch-up loop, and then all these records are sent |
| ReplicaTasks.StepsSendHistory | pod/src/client_comms_service.rs:152-176 | left alone, the loop sends what SendHistory sends, one vote a step, for any contents of the log |
| ReplicaTasks.ConnectOpensLog | pod/src/client_comms_service.rs:144-150 | a connection's loop starts at the beginning of the whole file as it is when mapped |
| ReplicaTasks.ReplicaNode.LogVote | pod/src/log_vote_service.rs:30-74 | one turn of the log-vote loop is its step sequence, for each outcome of the append: it draws the next number, logs the vote signed for transaction and round unless writing fails, and sends it if it is durable |
| ReplicaTasks.ReplicaNode.Serve | pod/src/log_vote_service.rs:30-75 | the whole loop is the concatenation of the turns' steps |
| ReplicaTasks.ReplicaNode.Beat | pod/src/heartbeat_service.rs:40-72 | one heartbeat is its step sequence: it draws the next number and sends the heartbeat signed for this round |
| ReplicaTasks.RunFromExtendsExecute | pod/src/pod_network_node.rs:39-68 | what the loops do from a reachable state is again a run of the interleaving |
| ReplicaTasks.TurnsDo | pod/src/log_vote_service.rs:30-75 | whatever requests and ticks come, in whatever order and with whatever outcomes: each turn draws the next number, and exactly the votes and records of the turns are sent and logged, in order |
| ReplicaTasks.ExecuteTurns | pod/src/heartbeat_service.rs:40-72 | the same from the start of a run, with numbers 0, 1, 2, ... shared by both loops |
| ReplicaTasks.SendHistory | pod/src/client_comms_service.rs:141-177 | the catch-up loop sends the votes of all readable records and stops at the end or the first error |
| ReplicaTasks.VotesReadAreLongest | pod/src/client_comms_service.rs:152-176 | the votes sent are those of the longest initial part of the log that decodes |
| ReplicaTasks.HistoryIsWhatIsLogged | pod/src/client_comms_service.rs:152-174 | from any part of an encoded log, catching up sends exactly the votes wholly inside it |
| CrossClient.ViewsAgree | client/src/pod_data_updater.rs:166-196 | two views that follow one stream of a replica, at whatever points, hold equal timestamps, and one held by only one of them is at least the other's mrt |
| CrossClient.ClientsAgreeOnHonestReplica | client/src/pod_data_updater.rs:94-196 | the same for any two clients and an honest replica |
| CrossClient.RunsCouldHold | client/src/pod_data_updater.rs:94-196 | every row a client ever holds is one that every other client's view leaves possible |
| CrossClient.LowerBoundExactly | client/src/client_api_service.rs:28-48 | x bounds all possible medians from below if and only if it does not exceed the order statistic with missing replicas filled in by mrt |
| CrossClient.UpperBoundExactly | client/src/client_api_service.rs:60-80 | the same from above, with missing replicas filled in by the maximum |
| CrossClient.RMinIsBoundIff | client/src/client_api_service.rs:33-47 | rmin is a bound exactly when the timestamps held below it and the missing replicas that lag behind it number at most alpha/2 - beta |
| CrossClient.RMinWithoutTiesIsBoundIff | client/src/client_api_service.rs:33-47 | with distinct timestamps: exactly when no missing replica lags behind it, that is, when more than alpha/2 - beta timestamps of the row are at most the mrt of each missing replica |
| CrossClient.RMaxIsBoundIff | client/src/client_api_service.rs:64-79 | rmax is a bound exactly when it is the maximum or the timestamps held above it and the missing replicas number at most ceil(alpha/2) - 1 - beta |
| CrossClient.RMaxWithoutTiesIsBoundIff | client/src/client_api_service.rs:64-79 | with distinct timestamps: exactly when it is the maximum or no replica is missing |
| CrossClient.ReportedBoundsAreExactWhenComplete | client/src/client_api_service.rs:33-79 | unknown transactions and complete rows get the exact bounds |
| CrossClient.RPerfIsExact | client/src/client_api_service.rs:50-58 | rperf is the largest value that bounds an unknown transaction's possible medians |
| CrossClient.PastPerfection | client/src/client_api_service.rs:50-58 | the median of alpha or more timestamps at any client is at least the rperf of a client that had not seen the transaction |
| CrossClient.FilledBoundsEncloseEveryClient | client/src/client_api_service.rs:28-80 | the filled-in bounds enclose the median of every client in every run |
| CrossClient.ReportedBoundsCanFail | client/src/client_api_service.rs:34-71 | two honest replicas and two clients whose reported bounds contradict each other's medians |
| PlayedRuns.ExecuteServes | pod/src/log_vote_service.rs:30-75 | for every stream of contents there is a replica run whose log-vote loop signs, logs and broadcasts exactly these under the numbers 0, 1, 2, ... |
| PlayedRuns.PlayedColumns | client/src/pod_data_updater.rs:94-196 | a client that receives the first votes of some replicas' streams holds exactly their folds |
| Realization.EveryPossibleRowIsHeld | client/src/pod_data_updater.rs:151-202 | every row a view leaves possible, with the replicas seen equivocating among the faulty, is held by some client of a network whose other replicas run the code and sent everything seen |
| Realization.LowerBoundFailsInSomeRunIff | client/src/client_api_service.rs:28-48 | for any client, equivocation seen or not: some run of replicas and clients goes below x, whichever loops sent the votes, exactly when at most beta equivocators were seen and more than alpha/2 - beta others can still turn out below x; broadcast votes alone then suffice |
| Realization.UpperBoundFailsInSomeRunIff | client/src/client_api_service.rs:60-80 | the same from above |
| EndToEnd.AcceptedVoteWasSigned | client/src/pod_data_updater.rs:53-63 | an accepted vote says what some vote signed in the replica's run says |
| EndToEnd.HonestRunIsHonest | client/src/pod_data_updater.rs:53-63 | a replica that runs the code does not equivocate towards any client |
| EndToEnd.PipelinePastPerfection | client/src/bin/client.rs:50-58 | past-perfection from replica runs to client reads, with alpha >= 4 beta + 1 and alpha + beta replicas |
| EndToEnd.PipelineRepliesArePastPerfect | client/src/client_api_service.rs:50-58 | the same for replies of reads interleaved with the updater |
| EndToEnd.PipelineCompleteRecordsBound | client/src/client_api_service.rs:106-129 | from replica runs: a record of an interleaved read with a vote for every replica encloses every other client's median |
| EndToEnd.PipelineBounds | client/src/bin/client.rs:50-58 | the filled-in bounds hold from replica runs to client reads, and rmin and rmax themselves for unknown transactions and complete rows |
| MetAssumptions.AssumptionsCanBeMet | client/src/bin/client.rs:50-58 | for all admissible parameters a network with beta faulty replicas meets the assumptions of past-perfection with a positive rperf |
| MetAssumptions.ReportedBoundsFailInSomeRun | client/src/client_api_service.rs:34-71 | a client with one vote is contradicted in rmin by some run of the replicas, and in rmax by another |

## Left out

- Ed25519 itself, protobuf encoding, WebSocket, gRPC and channel mechanics, connection retries and broadcast lag: library code; the network is any sequence of arrivals.
- Writes that tear a frame in a replica run: there an append that fails is assumed to write nothing, or everything without its sync. `ReplicaLogAppender.Append` has torn writes, and `ReplicaLog.TornAppendIsCompletedByNext` says what a reader makes of one.
- EndToEnd.SentVotesAreAccepted: asks of votes sent by catch-up that the log can be read back, because past a record of 2^32 bytes or more the loop sends whatever the codec makes of misread bytes.
- What catch-up sends from a log that holds a record of 2^32 bytes or more: the record is appended with the truncated prefix, and readers then lose the frame boundaries (`ReplicaLog.FrameRoundTripIff`).
- LogReading.ReadingIsResumable: appends of 2^32 bytes or more are not among its steps, because a reader loses the frame boundaries there (`ReplicaLog.FrameRoundTripIff`).
- Wrap-around of the 64-bit sequence counters: numbers are drawn only while the counter is below 2^64, and `Realization` asks that no counter of the client has reached it.
- Restart with an existing log, while the counter starts again at 0: one run from an empty log is modelled.
- Catch-up liveness: heartbeats are not logged; `EndToEnd.MissingNumberStops` says what a number that never arrives means for a client.
- Waiting: a step that has to wait for a lock is a step that does nothing; fairness of the locks is not modelled.
- Replica loops running at the same time as objects: the interleavings are over values, and the methods of `ReplicaTasks` are proved for uninterrupted turns.
- The wall clock, configuration files, command-line programs, hex serialization, the write request path and the nethammer stub: plumbing.
- LogDurability.LoggedBeforeSent: says exactly when a vote sent by catch-up is durable instead of claiming it always, because the code does not wait for the sync there.
- ReadBounds.ReportedConfirmationIsMedianIff: replaces the claim that rconf is a median, which the code does not meet.
