# Verified model of the aip2p node

This project models the stateful core of the node in Dafny and proves what that core promises: the Team sync protocol,
the two sync queues and their scheduler, the credit proof store, the live room event log, witness selection and exchange,
the signing of messages with agent identities, and the algorithms these rest on. It verifies with
`dafny verify dfyconfig.toml`; nothing here executes the original program.

## How the model reads

- One module per source file or component. Code that computes a value is a function; code that changes state step by step
  is a class or a method with a loop, proved equal to a function or to a predicate about which the lemmas then speak.
- A Go string is a sequence of bytes: every `char` stands for one byte. White space is that of package `unicode`,
  byte by byte. Time is an integer: seconds in Team sync and live rooms, nanoseconds in the credit code.
- Signatures are symbolic terms made of the signing key and the signed content. SHA-256, HMAC, BIP-39 and key derivation are
  arbitrary functions; where two results must differ, the lemma says so in a premise.
- A file that is written reads back equal, or not at all where a line is too long for the scanner that reads it. Network
  results, plugin loading, `ApplyReplicatedSync` and the outcome of one
  sync attempt are arbitrary. Steps of a protocol run are atomic.
- Go's sorts are specified, not modelled: a sorted listing of distinct elements under a strict order is unique.

| module | models |
|---|---|
| `TeamSyncState`, `TeamSyncNetwork`, `TeamSyncHistory`, `TeamSyncProgress` | `team_sync.go`: the tables, compaction, merge and write; several nodes over a lossy network; what their runs remember and that they get somewhere |
| `UrlText`, `SyncRefs`, `SyncRefForms` | `magnet.go` and the ref parser of `sync.go`, down to the bytes of `net/url`: canonical form, and which texts are refs |
| `SyncQueues`, `SyncQueueFiles`, `SyncQueueRuns` | the queue files of `sync.go`: texts, rows, state changes, whole runs |
| `SyncScheduler`, `SyncContent`, `SyncWaiting` | `collectSyncRefs`, `processQueue`, and how long a ref waits |
| `LiveStore`, `LiveDuplicates`, `LiveArchives` | `live/store.go`: append, duplicates, prune, index, read cache, daily archives |
| `CreditProof`, `CreditRefusals`, `CreditStore`, `CreditBalances`, `CreditCache`, `CreditCacheProgress`, `CreditArchiveLimit` | `credit_proof.go` and `credit_store.go`; what their checks refuse |
| `WitnessSelection`, `WitnessExchange` | `credit_witness.go` |
| `HDPaths`, `Delegations`, `Identity`, `IdentitySigning`, `IdentityFamilies`, `IdentityBuilder` | `hd_keys.go`, `delegation.go`, `identity.go` |
| `SigningExactly`, `OriginRefusals` | which identities sign, and which messages are accepted or refused, whoever made them |
| `JsonlTail`, `PluginWorklist` | `team/jsonl_helpers.go`, `extensions/store.go` |
| `Text`, `Sorting`, `Options` | strings, sorted listings, values that may be missing |

## What turned out false

Each of these is a behaviour of the code; the lemma named gives the exact condition or the case.

- A live event whose line exceeds 65536 bytes is written and makes every later read, prune and index of the room fail, with
  Redis on or off: `LiveStore.RunKeepsEveryMessage`, `LiveStore.UnreadableForEver`, `LiveStore.OverlongRun`.
- Archiving a day with a proof that needs 65536 bytes or more on a line makes every load of the credit store fail; such
  proofs pass validation, and balances then read as zero: `CreditStore.ArchiveDayInvisible`,
  `CreditStore.Store.ArchiveProofs`, `CreditArchiveLimit.ValidProofBlocksStore`, `CreditBalances.StoredBalance`.
- One row that cannot be read, in either queue file, stops both queues, and sanitizing does not remove it:
  `SyncWaiting.BoundedWaiting`, `SyncWaiting.UnreadableRowStopsAll`, `SyncWaiting.StrayWordBlocks`.
- A Team sync write that cannot read the file can undo a resolution there: `TeamSyncState.ResolutionIsFinal`.
- With Redis on, the live log loses a message: `LiveStore.AppendKeepsMessageIff`, `LiveStore.ConcreteLosingRun`.
- With Redis on, the index misses an event appended while a reading is cached: `LiveStore.AppendCountsIff`.
- The same message can stand twice in a small room: the first copy is too far from the end of the file to be found when the
  second arrives, and pruning then removes what lay between: `LiveDuplicates.PruningBringsTwinsIntoTheTail`.
- The repository's README.md:756-766 promises to keep the most recent 100 non-heartbeats of a room; the code
  (internal/aip2p/live/store.go:470) keeps every one. The model follows the code.
- A queue file without a final newline keeps that lack through sanitize and migrate, and the next append then runs into the
  last row: `SyncQueues.AppendAddsOneRow`, `SyncQueueRuns.UnterminatedAppendLosesBoth`.
- A signed message does not always validate: `IdentitySigning.SignedMessageValidates` says exactly when it does.
  `IdentityFamilies.TrailingSlashFails` and `IdentityFamilies.NonRootMasterSignsNothing` are two cases.
- The witness handler reads its clock twice, so an accepted request can get a witness that its requester rejects:
  `WitnessExchange.HonestExchange`, `WitnessExchange.SlowAnswerIsRejected`.
- A proof id with white space around it is stored apart from the trimmed one and breaks the bound on credits:
  `CreditBalances.UntrimmedIdCountsTwice`.
- A save that lands inside a cache load stays invisible until the cache expires: `CreditCache.RacedSaveIsMissed`. One that
  lands while its day is being archived reports success and is deleted: `CreditCache.RacedSaveIsLost`.
- An acked or expired Team sync entry can become pending again: `TeamSyncNetwork.SettledEntriesReturn`.

## Model

| member | source | states |
|---|---|---|
| `TeamSyncNetwork.RecordedAcksHappened` | internal/aip2p/team_sync.go:200-246 | in every run over a network that loses, repeats and reorders: an ack recorded at a node from a peer, in memory or on disk, means that the node published the key and the peer applied it; an acked entry means some other node applied it |
| `TeamSyncNetwork.OnePendingPerStateKey` | internal/aip2p/team_sync.go:1514-1553 | in every run, in memory and in the file: at most one pending entry per state key, and it is the key last recorded there; no entry over eight retries, a pending one under eight; at most 128 acks per peer |
| `TeamSyncNetwork.WritesLeaveFreshPending` | internal/aip2p/team_sync.go:1786-1804 | after every persist call a pending entry is at most six hours old by the clock of the last compaction and has retries left, and a file just written equals memory |
| `TeamSyncNetwork.SettledEntriesReturn` | internal/aip2p/team_sync.go:783-795 | an acked or expired entry with retries left becomes pending again when its key is published again, it alone under its state key, if and only if the write does not come over six hours after the stamp |
| `TeamSyncNetwork.RunsKeepInvariant` | internal/aip2p/team_sync.go:817-911 | every state of every run satisfies the invariant: messages in flight, pending tables, acks and accepted acks are all backed by what really happened |
| `TeamSyncNetwork.StepKeeps` | internal/aip2p/team_sync.go:817-911 | each step of any node (send, retry, deliver, accept, record, clear, expire, resolve, prune, restart), whatever parts of its file access fail, keeps that invariant for all nodes |
| `TeamSyncProgress.PersistHappens` | internal/aip2p/team_sync.go:1358-1395 | for every state, update, clock and fate of the file the persist call has an outcome, whatever stamps the acks share |
| `TeamSyncProgress.ExchangeSettles` | internal/aip2p/team_sync.go:817-911 | from every state in which a node is idle and has not seen an item whose ack it would accept there is a run of the protocol that publishes it, applies it at another node, and leaves it acked in memory and file, the ack refused from then on |
| `TeamSyncHistory.MemoryHoldsLastRecorded` | internal/aip2p/team_sync.go:1488-1512 | in every run without a restart of the node: memory holds under every state key exactly the checkpoint last recorded there, whatever is merged, retried, acked, resolved or expired |
| `TeamSyncHistory.WrittenCheckpointsSurvive` | internal/aip2p/team_sync.go:1277-1290 | in every run a checkpoint that has reached the file stays in memory and file, through any number of restarts, until another is recorded under its state key |
| `TeamSyncHistory.RecordedKeysStay` | internal/aip2p/team_sync.go:1488-1512 | a state key with a checkpoint in memory and file never loses it |
| `TeamSyncHistory.RecordedAckIsRefused` | internal/aip2p/team_sync.go:817-844 | an ack whose checkpoint has reached the file is refused ever after, also once it is no longer remembered as seen and after restarts |
| `TeamSyncHistory.HonestAckIsAccepted` | internal/aip2p/team_sync.go:817-911 | the ack of a node that applied an item is accepted exactly by the node that published it, if unseen and newer than its checkpoint |
| `TeamSyncHistory.StrayAckIsRefused` | internal/aip2p/team_sync.go:817-844 | an ack without key or sender, for another node, or from the node itself is refused |
| `TeamSyncHistory.RetriesAreCounted` | internal/aip2p/team_sync.go:1761-1784 | in every run an entry that stays has been retried exactly as often as its counter has grown, through re-publications, acks and expiries, and at most eight times |
| `TeamSyncHistory.StepKeepsCheckpoints` | internal/aip2p/team_sync.go:1488-1640 | no step of any node changes a checkpoint but by recording it, by a restart, or in the file by writing what memory holds |
| `TeamSyncState.TrimmedAcksBounds` | internal/aip2p/team_sync.go:1672-1699 | compaction leaves at most 128 acks per peer, none older than a day, each unchanged, and drops no unexpired ack newer than a kept one |
| `TeamSyncState.CompactIdempotent` | internal/aip2p/team_sync.go:1661-1735 | compacting a compacted state at the same clock changes nothing, whatever order the maps are walked in |
| `TeamSyncState.CompactedPendingIsFresh` | internal/aip2p/team_sync.go:1700-1717 | after compaction a pending entry is unchanged, under eight retries and at most six hours old |
| `TeamSyncState.MergeKeepsNewestAck` | internal/aip2p/team_sync.go:1358-1370 | a merge holds, for every ack either side has, one of the two entries with a stamp as new as both |
| `TeamSyncState.WriteKeepsResolution` | internal/aip2p/team_sync.go:1372-1395 | a conflict resolved on disk is still resolved after a write that keeps its entry if and only if the write read the file or brings a resolution itself; a write that read the file drops it only once a resolved record of it is a day old |
| `TeamSyncState.ResolutionIsFinal` | internal/aip2p/team_sync.go:1786-1804 | over any run of writes by any processes with any clocks in which its entry is never dropped, a resolved conflict stays resolved throughout if and only if every write that could not read the file brought a resolution itself |
| `TeamSyncState.ResolutionReachesMemory` | internal/aip2p/team_sync.go:1309-1327 | the maps of memory are the ones the write merges into: a resolution made in the file is in memory after the next persist call that reads the file, even if the write fails, unless it has aged out |
| `TeamSyncState.PendingOfCommit` | internal/aip2p/team_sync.go:1786-1804 | a persist call leaves the pending table compacted twice, or once if the write fails before it reads, and a written file equal to memory |
| `TeamSyncState.CheckpointsOfCommit` | internal/aip2p/team_sync.go:1389-1395 | every persist call leaves exactly the checkpoints of the update it commits, in memory and in a file it writes: no file merged in puts an older one back |
| `TeamSyncState.MergeTakesFromBoth` | internal/aip2p/team_sync.go:1372-1395 | the merge takes acks and conflicts of both sides and everything else from memory; the file's conflict wins exactly if it is newer, or resolved while that in memory is not |
| `TeamSyncState.MergedAcksAreNewest` | internal/aip2p/team_sync.go:1358-1370 | the merged acks are exactly those of both sides, the newer of two for one peer and key |
| `TeamSyncState.PendingCompactsExactly` | internal/aip2p/team_sync.go:1700-1717 | an entry expires exactly when pending and over six hours old or eight times retried, goes exactly when settled and over two hours old, and is otherwise unchanged |
| `TeamSyncState.ConflictsCompactExactly` | internal/aip2p/team_sync.go:1718-1732 | a conflict goes exactly a day after its resolution |
| `TeamSyncState.DroppedAckWasOutranked` | internal/aip2p/team_sync.go:1672-1699 | an ack over a day old goes; any other goes only if 128 others of its peer are at least as new |
| `TeamSyncState.RecordingPendingIsExact` | internal/aip2p/team_sync.go:1514-1553 | recording a key as pending stamps it with its version and the retries it had, supersedes exactly the pending entries of its state key, and changes nothing else |
| `TeamSyncState.UpdatesAreLocal` | internal/aip2p/team_sync.go:1555-1640 | recording an ack or a conflict changes one entry of one table, as stated |
| `TeamSyncState.PendingUpdatesAreLocal` | internal/aip2p/team_sync.go:1737-1784 | a status and a retry change one pending entry, its stamp, and nothing else |
| `TeamSyncState.RetryRule` | internal/aip2p/team_sync.go:846-877 | an entry is retried exactly while pending, under eight retries, and last touched over 15 seconds and at most six hours ago, or never |
| `TeamSyncState.Compact` | internal/aip2p/team_sync.go:1661-1735 | the compaction loops over acks, pending entries and conflicts produce a compacted state |
| `TeamSyncState.TrimPeer` | internal/aip2p/team_sync.go:1672-1699 | collecting, sorting and cutting the acks of one peer keeps the latest 128 that are unexpired |
| `TeamSyncState.TrimAllPeers` | internal/aip2p/team_sync.go:1672-1699 | every peer is trimmed and peers left without acks disappear |
| `TeamSyncState.CompactPendingTable` | internal/aip2p/team_sync.go:1700-1717 | the loop expires overdue entries and deletes settled ones two hours old, and nothing else |
| `TeamSyncState.CompactConflictTable` | internal/aip2p/team_sync.go:1718-1732 | the loop deletes exactly the resolved conflicts a day old |
| `TeamSyncState.MergeAcksLoop` | internal/aip2p/team_sync.go:1358-1370 | the nested merge loop computes, per peer and key, the entry with the newer stamp |
| `TeamSyncState.MergePeerLoop` | internal/aip2p/team_sync.go:1363-1368 | the inner merge loop for one peer |
| `TeamSyncState.MergeConflictsLoop` | internal/aip2p/team_sync.go:1372-1387 | the conflict merge loop: newer wins, and a resolution wins over none |
| `TeamSyncState.SortPairs` | internal/aip2p/team_sync.go:1677-1683 | the acks of a peer, each once, latest first |
| `TeamSyncState.Runtime.Commit` | internal/aip2p/team_sync.go:1786-1804 | memory becomes the compacted update and then, through the maps it shares with the write, its compacted merge with the file, each at its own clock reading; the file becomes the same when the write succeeds; the checkpoints are those of the update |
| `TeamSyncState.Runtime.PersistCheckpoint` | internal/aip2p/team_sync.go:1488-1512 | commits the checkpoint under its state key, or does nothing without key or version; afterwards memory, and a file that was written, hold it and all the others |
| `TeamSyncState.Runtime.PersistPending` | internal/aip2p/team_sync.go:1514-1553 | commits the key as pending with its retries kept, all other pending entries of the state key superseded |
| `TeamSyncState.Runtime.PersistPeerAck` | internal/aip2p/team_sync.go:1555-1583 | commits the ack of one peer for one key |
| `TeamSyncState.Runtime.SetPendingStatus` | internal/aip2p/team_sync.go:1737-1759 | commits the new status of a known entry and touches nothing for an unknown one |
| `TeamSyncState.Runtime.BumpPendingRetry` | internal/aip2p/team_sync.go:1761-1784 | commits one more retry of a known entry, pending again |
| `TeamSyncState.Runtime.ShouldRetryPending` | internal/aip2p/team_sync.go:846-877 | true exactly for a pending entry that is neither old nor out of retries and was last touched over 15 seconds ago; an overdue one is marked expired |
| `TeamSyncState.Runtime.PruneSeen` | internal/aip2p/team_sync.go:783-795 | forgets exactly the keys not seen since the cutoff |
| `TeamSyncState.Runtime.RememberSeen` | internal/aip2p/team_sync.go:774-781 | stamps a key that is not blank |
| `TeamSyncState.Runtime.AcceptAck` | internal/aip2p/team_sync.go:817-844 | accepts exactly the acks for this node from another one that are unseen and newer than their checkpoint, and remembers them |
| `SyncRefs.CanonicalForm` | internal/aip2p/sync.go:1550-1601 | every accepted magnet, sync URI or bare hash prints as a text that parses to the same infohash and peer hint and prints as itself |
| `SyncRefs.CanonicalDecides` | internal/aip2p/magnet.go:25-44 | two accepted texts print alike exactly when infohash, display name, peer hint and peer addresses agree |
| `SyncRefs.CanonicalIsOneLine` | internal/aip2p/magnet.go:29-44 | the printed form is one trimmed queue line, no comment, and one item of a comma-separated list |
| `SyncRefs.CanonicalParses` | internal/aip2p/sync.go:1555-1575 | parsing the printed text of any normalized parts gives back exactly those parts |
| `SyncRefs.ParsedIsNormal` | internal/aip2p/sync.go:1603-1644 | what parsing yields is normalized: a lower-case 40-digit hash, trimmed non-blank values, and no more query pairs than the URL package reads |
| `SyncRefForms.SyncUriParses` | internal/aip2p/sync.go:1555-1575 | for any scheme case, authority, path, query and fragment: the sync URI is a ref exactly if nothing before the fragment is a control byte, fragment and path decode, the authority is the bundle host and the trimmed decoded path is 40 hex digits; and then that hash and the query's fields |
| `SyncRefForms.BundleAuthority` | internal/aip2p/sync.go:1560-1562 | the host must be "bundle" in any case; only proper userinfo and an @ may stand before it |
| `SyncRefForms.MagnetParsesExactly` | internal/aip2p/sync.go:1576-1592 | for any query and fragment: the magnet is a ref exactly if both are proper and its xt values give an infohash |
| `SyncRefForms.FirstHashDecides` | internal/aip2p/sync.go:1627-1644 | the first xt value that looks like a BitTorrent hash decides, whatever stands before and after it |
| `SyncRefForms.BareHashParses` | internal/aip2p/sync.go:1593-1600 | forty hex digits in any case are a ref with nothing but the lower-cased hash |
| `SyncRefForms.OtherTextsAreRefused` | internal/aip2p/sync.go:1593-1601 | no other text is a ref |
| `SyncRefs.PeerHintFallsBack` | internal/aip2p/sync.go:1293-1302 | the hint is the first "peer" value, or the first "x.hn.peer" value when that is blank or missing |
| `SyncRefs.NormalizeRoundTrip` | internal/aip2p/sync.go:1603-1625 | normalizing the query of a normalized ref changes nothing |
| `SyncRefs.NormalizeSyncRefQuery` | internal/aip2p/sync.go:1603-1625 | the loop over the x.pe values computes the normalized query |
| `UrlText.EscapeRoundTrip` | internal/aip2p/magnet.go:42 | for every byte string, unescaping what the query encoder escapes gives it back (RFC 3986, section 2.1) |
| `UrlText.EncodeRoundTrip` | internal/aip2p/magnet.go:42 | for every list of byte pairs up to the limit of the URL package, parsing the encoded query gives back the pairs in order |
| `UrlText.EscapeIsExact` | internal/aip2p/sync.go:1293-1302 | escaping leaves unreserved bytes alone, makes a space a plus sign and any other byte a percent sign and two upper-case hex digits, as magnets and sync URIs are printed |
| `UrlText.BadEscapeFails` | internal/aip2p/sync.go:1556-1559 | a percent sign without two hex digits after it makes the text undecodable |
| `UrlText.QueryPieces` | internal/aip2p/sync.go:1568-1568 | a query is read piece by piece; a piece that is empty, holds a semicolon or does not decode is passed over |
| `SyncRefs.SanitizeKeepsRef` | internal/aip2p/sync.go:1725-1771 | sanitizing succeeds exactly on refs that parse, keeps infohash, name and hint, leaves exactly the allowed peer addresses, and is idempotent |
| `SyncRefs.KeptIsExact` | internal/aip2p/sync.go:1742-1763 | exactly the allowed addresses stay, each as often as before and in order |
| `SyncRefs.SanitizeQueuedSyncRef` | internal/aip2p/sync.go:1725-1771 | the loop over the peer addresses and the comparison with the queued text compute the sanitized ref |
| `SyncRefs.RewrittenIsOneLine` | internal/aip2p/sync.go:1764-1770 | a rewritten ref is again one trimmed line of bytes and no comment |
| `SyncRefs.MagnetParses` | internal/aip2p/magnet.go:11-23 | a printed magnet parses back to its infohash and display name |
| `SyncRefs.CanonicalizeIdempotent` | internal/aip2p/magnet.go:72-83 | canonicalizing a magnet twice is canonicalizing it once; it parses exactly if the text did, to the same infohash |
| `SyncRefs.LinkIsStable` | internal/aip2p/magnet.go:124-143 | the signed form of a reply link does not change when it is computed again from itself |
| `SyncRefForms.LinkIsExact` | internal/aip2p/magnet.go:124-143 | what is signed of a reply link is its lower-cased infohash, or else that of its magnet, with the magnet in canonical form; nothing if both are blank |
| `SyncRefForms.NamesComeFromMagnets` | internal/aip2p/magnet.go:72-107 | a sync URI or bare hash becomes a magnet without a name |
| `SyncQueues.AppendAddsOneRow` | internal/aip2p/sync.go:1096-1103 | an append adds exactly one row, keeping the others, if and only if the text is empty or ends in a newline; it always leaves a text that ends in one |
| `SyncQueues.RemoveIsRowwise` | internal/aip2p/sync.go:1124-1162 | the bytes written by a removal have exactly the rows that do not hold the ref, less empty rows at the end (one empty row if none is left), and end in a newline |
| `SyncQueues.RemoveKeys` | internal/aip2p/sync.go:1139-1155 | removal takes exactly that infohash out of the file, in order |
| `SyncQueues.RemoveKeepsInert` | internal/aip2p/sync.go:1139-1155 | removal keeps all comments and unreadable rows in order |
| `SyncQueues.EnqueueKeys` | internal/aip2p/sync.go:1073-1107 | enqueueing appends the infohash exactly when the file does not hold it |
| `SyncQueues.EnqueueKeepsInert` | internal/aip2p/sync.go:1073-1107 | enqueueing keeps all comments and unreadable rows |
| `SyncQueues.SameIsKey` | internal/aip2p/sync.go:1089-1094 | on byte rows the two duplicate tests, by infohash and by text, come to equality of infohashes |
| `SyncQueues.ParsedIsQueueable` | internal/aip2p/sync.go:1102 | what parsing returns can be queued: its text is one line, no comment, and parses to its infohash |
| `SyncQueues.SanitizeKeepsQueue` | internal/aip2p/sync.go:1646-1680 | sanitizing a file keeps its infohashes in order, its comments and its final newline, and is idempotent; a row that does not parse leaves the file untouched |
| `SyncQueues.SanitizedRowsArePurged` | internal/aip2p/sync.go:1683-1771 | after sanitizing every ref in the file has the infohash, name and hint it had and exactly the allowed of its peer addresses |
| `SyncQueues.MigrateIsRowwise` | internal/aip2p/sync.go:1682-1723 | migration leaves exactly the rows that do not move |
| `SyncQueues.MigrateConserves` | internal/aip2p/sync.go:1682-1723 | migration loses no infohash of the two files and makes none up; both keep their comments and final newline |
| `SyncQueueFiles.SyncQueue.Enqueue` | internal/aip2p/sync.go:1073-1107 | the scan for a duplicate and the append change the file as specified, creating it if it is missing |
| `SyncQueueFiles.SyncQueue.Remove` | internal/aip2p/sync.go:1124-1162 | the filtering loop rewrites the file as specified and leaves a missing one missing |
| `SyncQueueFiles.SyncQueue.Rotate` | internal/aip2p/sync.go:1168-1177 | remove, then enqueue at the end |
| `SyncQueueFiles.SyncQueue.Sanitize` | internal/aip2p/sync.go:1646-1680 | the loop rewrites the file as specified and fails exactly if some line does not parse |
| `SyncQueueFiles.PromoteToRealtime` | internal/aip2p/sync.go:1113-1118 | removes the ref from the history file and enqueues it in the realtime file |
| `SyncQueueFiles.MigrateManifests` | internal/aip2p/sync.go:1682-1723 | the loop moves the manifest rows into the history file and rewrites the realtime file |
| `SyncQueueRuns.StepConserves` | internal/aip2p/sync.go:507-526 | each operation keeps both files well-terminated, their comments and unreadable rows, and every queued infohash except one that was imported, skipped, or failed with a 404 on a history manifest or a bundle; it brings in only its own ref |
| `SyncQueueRuns.RunConserves` | internal/aip2p/sync.go:507-526 | over every run: for an infohash queued at the start and not at the end, some attempt ended in an import or a skip, or failed with a 404 on a history manifest or a bundle |
| `SyncQueueRuns.AttemptOutcome` | internal/aip2p/sync.go:507-528 | after an attempt on a queued ref its infohash has left the queue after an import or a skip, after a failure if and only if that was a 404 on a history manifest or a bundle; otherwise it stands last; the others stay as they were |
| `SyncQueueRuns.SettledLeaves` | internal/aip2p/sync.go:514-522 | a settled ref is no longer in its queue |
| `SyncQueueRuns.UnterminatedAppendLosesBoth` | internal/aip2p/sync.go:1096-1103 | the failing case: a file that is one infohash without newline loses it, and the new ref too, when a ref is enqueued |
| `SyncScheduler.CollectSyncRefs` | internal/aip2p/sync.go:1473-1541 | reading both files with the shared seen set gives the realtime refs and the history refs, content before manifests, and fails exactly if some row cannot be read |
| `SyncRefForms.LineIsReadable` | internal/aip2p/sync.go:1509-1518 | a row can be read exactly if it is blank, starts with #, ; or //, or parses |
| `SyncScheduler.ReadQueue` | internal/aip2p/sync.go:1503-1530 | the loop keeps the first ref of each unseen infohash |
| `SyncScheduler.CollectPositions` | internal/aip2p/sync.go:1503-1530 | the collected list holds every unseen infohash of the rows once, each at the place its first occurrence gives it |
| `SyncScheduler.CollectedAreFirst` | internal/aip2p/sync.go:1515-1529 | each collected ref is the first of the rows with its infohash |
| `SyncScheduler.PriorityIsSorted` | internal/aip2p/sync.go:1537-1548 | ordering by priority loses and repeats nothing and puts no content ref behind a manifest |
| `SyncScheduler.PriorityIsStable` | internal/aip2p/sync.go:1537-1548 | refs of one kind keep their order |
| `SyncScheduler.BatchIsFull` | internal/aip2p/sync.go:486-501 | a pass attempts three refs or all there are, realtime refs first, then the first history refs by priority |
| `SyncScheduler.BatchIsDistinct` | internal/aip2p/sync.go:486-501 | no infohash is attempted twice in a pass |
| `SyncScheduler.RealtimePosition` | internal/aip2p/sync.go:1531-1533 | the index of a realtime ref is the number of different infohashes ahead of it in the file |
| `SyncWaiting.RealtimePass` | internal/aip2p/sync.go:481-541 | a pass attempts a queued realtime ref exactly if every row can be read and the ref is among the first three; otherwise it leaves it queued, three places further up if every row can be read |
| `SyncWaiting.BoundedWaiting` | internal/aip2p/sync.go:481-541 | a queued realtime ref at place i that no migration moves is attempted by pass i/3 + 1 if and only if every row of both files can be read, otherwise in no pass; whatever the outcomes and whatever is enqueued, promoted or sanitized meanwhile |
| `SyncWaiting.UnreadableRowStopsAll` | internal/aip2p/sync.go:1519-1521 | with a row that cannot be read in either file no pass of any run attempts anything |
| `SyncWaiting.StrayWordBlocks` | internal/aip2p/sync.go:1646-1680 | the failing case: a stray word above a queued infohash; the ref is first in line, collecting fails, and sanitizing leaves the file as it is |
| `SyncWaiting.HistoryPass` | internal/aip2p/sync.go:486-500 | a pass attempts an offered content ref of the history queue exactly if every row can be read and the ref is within the spare slots; otherwise it leaves it queued, that many places further up if every row can be read |
| `SyncWaiting.HistoryWaiting` | internal/aip2p/sync.go:486-500 | a content ref that only the history queue holds and nobody promotes or enqueues into the realtime queue is attempted once the passes have had more spare slots than there were infohashes ahead of it, if and only if every row can be read |
| `SyncWaiting.PassKeepsWaiting` | internal/aip2p/sync.go:1069-1202 | a pass that does not attempt such a ref leaves it queued as content in the history file only, through every enqueue, removal, rotation, migration and sanitizing of the pass |
| `SyncContent.SanitizedIsContent` | internal/aip2p/sync.go:1725-1771 | sanitizing never turns a content ref into a history manifest: the marker lies within one query value, and values only go |
| `SyncContent.OfferedAsContent` | internal/aip2p/sync.go:1541-1548 | a ref queued as content in the history file and not in the realtime file is among the content refs a pass can choose from |
| `SyncWaiting.StepsKeepPlace` | internal/aip2p/sync.go:1113-1177 | no step puts anything ahead of a queued ref, and every attempt takes its ref out of the way |
| `SyncWaiting.PassKeepsGood` | internal/aip2p/sync.go:1519-1521 | passes keep both files well-terminated, and whether they can be read at all |
| `SyncWaiting.ProcessQueue` | internal/aip2p/sync.go:481-541 | the loop over the batch changes the files as the run of its attempts does; unreadable rows stop it before it starts and leave both files alone |
| `SyncWaiting.BareStepsArePass` | internal/aip2p/sync.go:481-541 | what processQueue does, on readable files or not, is a pass as the waiting theorems mean it |
| `LiveStore.RunKeepsEveryMessage` | internal/aip2p/live/store.go:220-254 | with Redis off, after every run of appends and reads: the non-heartbeats of the file are the accepted ones in order; the room can be read, its heartbeats are the latest 20 accepted and the index counts its non-heartbeats, if and only if no accepted line exceeds the scanner's limit; and what heartbeats and count are otherwise |
| `LiveStore.FileIsPrunedHistory` | internal/aip2p/live/store.go:220-254 | with Redis off the file is the pruned history up to the first line that is too long and everything from there on |
| `LiveStore.UnreadableForEver` | internal/aip2p/live/store.go:464-487 | once a line is too long, with Redis on or off, every later append fails and is in the file all the same, nothing is pruned again and the count stands still |
| `LiveStore.OverlongRun` | internal/aip2p/live/store.go:329-343 | the failing run: a first message with a line of 65537 bytes is written, reported as an error and not counted |
| `LiveStore.AppendKeepsMessageIff` | internal/aip2p/live/store.go:314-346 | with Redis on, after every run: an accepted message is kept if and only if no cached reading holds more than 20 heartbeats, otherwise it is lost at once; the append fails exactly if nothing is cached and a line is too long |
| `LiveStore.AppendCountsIff` | internal/aip2p/live/store.go:431-462 | with Redis on, the index counts the file after an append if and only if the event was a heartbeat, nothing was cached, or the cached reading forced a prune; otherwise it misses the new event |
| `LiveStore.LosingRun` | internal/aip2p/live/store.go:464-487 | the losing run from any state with 20 heartbeats: read, heartbeat, read, message |
| `LiveStore.ConcreteLosingRun` | internal/aip2p/live/store.go:464-487 | the losing run with actual events from the empty room |
| `LiveStore.RunsAreCoherent` | internal/aip2p/live/store.go:314-346 | with Redis on, between operations of every run: a cached reading equals the file, a readable file holds at most one heartbeat too many, and reading fails exactly if a line is too long |
| `LiveStore.PrunedContents` | internal/aip2p/live/store.go:464-487 | pruning keeps every non-heartbeat in order and exactly the latest 20 heartbeats |
| `LiveStore.RetainedContents` | internal/aip2p/live/store.go:489-520 | for every pair of limits the latest heartbeats and the latest others, or all of them, are kept in order |
| `LiveStore.PruneAfterAppend` | internal/aip2p/live/store.go:489-520 | pruning before an append loses nothing that pruning after it would keep |
| `LiveStore.DroppedAreHeartbeats` | internal/aip2p/live/store.go:693-705 | with no limit on the others only heartbeats are dropped, so the nested room lock is never reached |
| `LiveStore.RetainSplits` | internal/aip2p/live/store.go:489-520 | every event is either kept or dropped, for every pair of limits |
| `LiveStore.RetainRecent` | internal/aip2p/live/store.go:489-520 | marking from the back and collecting from the front keeps and drops the specified events |
| `LiveStore.MarkKept` | internal/aip2p/live/store.go:494-508 | the backward loop marks exactly the events with fewer than the limit of their sort behind them |
| `LiveStore.FindDuplicate` | internal/aip2p/live/store.go:256-297 | finds exactly an event with the same key such that the lines from it to the end take no more than 262144 bytes |
| `LiveDuplicates.AppendIsIdle` | internal/aip2p/live/store.go:228-232 | an append changes nothing if and only if an event with the same key stands in the file with at most 262144 bytes from its line to the end |
| `LiveDuplicates.AppendingTwice` | internal/aip2p/live/store.go:228-232 | appending an event twice in a row, with no reading cached that forces a prune, is appending it once if and only if it was a duplicate already or its line has at most 262144 bytes |
| `LiveDuplicates.RunsKeepKeysDistinct` | internal/aip2p/live/store.go:256-297 | as long as the file stays within the tail, no two of its events share a key, after any run, with Redis on or off |
| `LiveDuplicates.PruningBringsTwinsIntoTheTail` | internal/aip2p/live/store.go:464-487 | the failing case without that premise: a run that leaves a file of 22 bytes with one message in it twice |
| `LiveDuplicates.DuplicateSucceeds` | internal/aip2p/live/store.go:230-232 | appending a duplicate never fails, not even in a room that cannot be read |
| `LiveStore.LocalRoom.AppendEvent` | internal/aip2p/live/store.go:220-254 | the new room state as specified, with the lock taken once and free again at the end; an error exactly if the room cannot be read afterwards |
| `LiveStore.LocalRoom.ReadEvents` | internal/aip2p/live/store.go:314-346 | returns the cached reading if there is one, else the file, which it caches when Redis is on, or the scanner's error if a line is too long |
| `LiveStore.LocalRoom.PruneEvents` | internal/aip2p/live/store.go:464-487 | writes the pruned reading over the file, exactly when something is dropped; fails exactly if the room cannot be read |
| `LiveStore.LocalRoom.RefreshIndex` | internal/aip2p/live/store.go:431-462 | the index counts the non-heartbeats of the reading; it stays as it is exactly if the room cannot be read |
| `LiveStore.LocalRoom.SavePruned` | internal/aip2p/live/store.go:693-705 | under the lock, has nothing to save when only heartbeats were dropped |
| `LiveStore.LocalRoom.SaveHistory` | internal/aip2p/live/store.go:799-852 | needs the room lock free; keeps an archive that exists |
| `LiveStore.CountIndexed` | internal/aip2p/live/store.go:522-531 | the number of non-heartbeats |
| `LiveArchives.WindowEndIsLatest` | internal/aip2p/live/store.go:940-948 | the window end is the latest 05:30 not after now |
| `LiveArchives.WindowsTile` | internal/aip2p/live/store.go:735-760 | the daily windows are disjoint and cover exactly the time from the first window's start to the latest cutoff |
| `LiveArchives.LastWindow` | internal/aip2p/live/store.go:735-760 | the last window ends at the latest cutoff |
| `LiveArchives.FirstEventIsCovered` | internal/aip2p/live/store.go:728-735 | the first event lies in the first window or opens the second |
| `LiveArchives.FirstWindowIsEarliest` | internal/aip2p/live/store.go:737-748 | no window before the first one ends at or after the first event |
| `LiveArchives.RunsExactly` | internal/aip2p/live/store.go:717-748 | the call archives only if the first visible event has a time and 05:30 has come since, or at that instant |
| `LiveArchives.EachEventIsArchivedOnce` | internal/aip2p/live/store.go:717-764 | starting without archives, every visible event from the first window's start to the latest cutoff stands in exactly one archive afterwards |
| `LiveArchives.CountsSumToTotal` | internal/aip2p/live/store.go:907-926 | the counts of the windows sum to the number of parseable events in the whole span |
| `LiveArchives.FilterByWindow` | internal/aip2p/live/store.go:907-926 | the loop selects the parseable events of a half-open window in order |
| `LiveArchives.RangeIsExact` | internal/aip2p/live/store.go:907-926 | a window holds exactly the events with a time in it, its end excluded |
| `LiveArchives.RangeKeepsOrder` | internal/aip2p/live/store.go:907-926 | in the order of the list, none repeated |
| `LiveStore.DisplayIsExact` | internal/aip2p/live/archive.go:206-217 | archives show exactly the events that are neither heartbeats nor archive notices |
| `LiveArchives.DailyArchives.ArchiveWindow` | internal/aip2p/live/store.go:766-797 | saves the visible events of the window exactly if there are any and the archive does not exist |
| `LiveArchives.DailyArchives.EnsureDaily` | internal/aip2p/live/store.go:717-764 | fails exactly if reading the room failed; otherwise terminates with every window up to the latest cutoff that has visible events archived, old archives untouched, and new ones holding exactly their window |
| `CreditProof.AlignIsFloor` | internal/aip2p/credit_proof.go:101-109 | aligning gives the latest multiple of ten minutes not after the time, and aligning again changes nothing |
| `CreditProof.CleanListing` | internal/aip2p/credit_proof.go:511-530 | cleaning gives the sorted listing, without repeats, of the normalized non-blank values |
| `CreditProof.CleanForgetsOrder` | internal/aip2p/credit_proof.go:511-530 | lists with the same normalized values clean to the same list |
| `CreditProof.CleanIdempotent` | internal/aip2p/credit_proof.go:511-530 | cleaning is idempotent |
| `CreditProof.CleanInfohashes` | internal/aip2p/credit_proof.go:511-530 | the loop with its seen set and the sort compute the clean list |
| `CreditProof.IntersectInfohashes` | internal/aip2p/credit_witness.go:375-390 | the sorted listing of the normalized values both lists have, already clean |
| `CreditProof.CheckRoles` | internal/aip2p/credit_proof.go:392-412 | true exactly if every witness has a known role, is neither the author nor its key, and no role exceeds its quota |
| `CreditProof.WitnessesAreIndependent` | internal/aip2p/credit_proof.go:202-233 | adding witnesses changes neither what the node signed nor what other witnesses signed |
| `CreditProof.NewProofIsSigned` | internal/aip2p/credit_proof.go:145-171 | a proof made and signed for an aligned start carries a node signature that verifies and clean infohashes |
| `CreditRefusals.WitnessSignatureBinds` | internal/aip2p/credit_proof.go:319-339 | two verifying witnesses with one signature agree on key, author, role, challenge, both times, infohashes, and the signed content of their proofs |
| `CreditRefusals.TamperedWitnessIsRefused` | internal/aip2p/credit_proof.go:319-339 | a witness changed in any of these, moved to a proof with other content, or without its signature is refused |
| `CreditRefusals.WitnessStandsForProof` | internal/aip2p/credit_proof.go:341-390 | a verifying witness answered in time, within an hour of the window, and names at least one infohash and only infohashes of the proof |
| `CreditRefusals.NodeSignatureBinds` | internal/aip2p/credit_proof.go:300-317 | two accepted node signatures that are equal sign the same content |
| `CreditRefusals.TamperedProofIsRefused` | internal/aip2p/credit_proof.go:300-317 | a proof changed in anything its node signed, or unsigned, is refused |
| `CreditRefusals.ValidProofIsWitnessed` | internal/aip2p/credit_proof.go:235-298 | a valid proof is signed by its node and has one to five verifying witnesses, at most three DHT neighbors and two random checks, of different authors, none the node itself; its count is the number of its infohashes |
| `CreditRefusals.ValidProofIsFixed` | internal/aip2p/credit_proof.go:235-298 | a valid proof changed in what its node or one of its witnesses signed is not valid |
| `CreditRefusals.ForeignSignatureIsRefused` | internal/aip2p/credit_proof.go:319-339 | a signature made with another key or for other content is refused |
| `CreditStore.LoadDay` | internal/aip2p/credit_store.go:97-134 | a day's reading is the sorted listing of its live and archived proofs by id, live ones winning; it fails exactly if a line of the day's archive is too long for the scanner |
| `CreditStore.MergeProofs` | internal/aip2p/credit_store.go:781-795 | the sorted listing of both lists by id, the right one winning |
| `CreditStore.ListTable` | internal/aip2p/credit_store.go:565-587 | the sorted listing of a table, whatever order it is walked in |
| `CreditStore.LoadAll` | internal/aip2p/credit_store.go:471-486 | the sorted listing of all stored proofs; it fails exactly if some archive cannot be read |
| `CreditStore.TableOfListing` | internal/aip2p/credit_store.go:624-646 | writing a reading down and reading it back as a table loses nothing |
| `CreditStore.ListingIsUnique` | internal/aip2p/credit_store.go:797-804 | a table has one sorted listing |
| `CreditStore.ListingIsByStart` | internal/aip2p/credit_store.go:797-804 | no proof in a listing starts before an earlier one, and proofs of one start stand by id |
| `CreditStore.LiveProofsWin` | internal/aip2p/credit_store.go:97-134 | a day holds the ids of both its places, and a live proof hides an archived one with its id |
| `CreditStore.ArchiveDayInvisible` | internal/aip2p/credit_store.go:507-548 | archiving a day keeps every day's table of proofs, also between writing the archive and deleting the live files, for every overlap; every day reads as before if and only if each live proof of the day fits on a scanner line, otherwise exactly that day cannot be read any more |
| `CreditStore.OverlongProofBlocksStore` | internal/aip2p/credit_store.go:589-622 | the failing case: one proof too long for a line is readable while live; once its day is archived every load of the store fails |
| `CreditArchiveLimit.ValidProofBlocksStore` | internal/aip2p/credit_proof.go:235-298 | such proofs pass validation: any two identities can make one for any window |
| `WitnessExchange.ProofsOfAnySize` | internal/aip2p/credit_proof.go:235-298 | for every length there is a valid, witnessed proof with an infohash of that length |
| `CreditStore.ArchivingKeepsReadings` | internal/aip2p/credit_store.go:507-548 | hence a day that can be read before and after reads as the same sequence |
| `CreditStore.SaveAddsOne` | internal/aip2p/credit_store.go:53-82 | saving puts the proof under its id in its day and changes no other day |
| `CreditStore.SavingAgainAddsNoId` | internal/aip2p/credit_store.go:53-82 | saving a stored proof again, archived or not, adds no id to any day |
| `CreditStore.CachedDayIsListing` | internal/aip2p/credit_store.go:84-95 | the cached proofs of a day are exactly that day's reading from disk |
| `CreditStore.Store.SaveProof` | internal/aip2p/credit_store.go:53-82 | refuses exactly invalid proofs and ids already live that day; otherwise stores the proof and marks the cache dirty |
| `CreditStore.Store.ArchiveDay` | internal/aip2p/credit_store.go:520-543 | no day's table of proofs changes; the day's live proofs are gone if there were any; an archive can be read afterwards exactly if it could before and the live proofs moved into it fit |
| `CreditStore.Store.ArchiveProofs` | internal/aip2p/credit_store.go:507-548 | for every keepDays: the live days before the cutoff are archived in order up to the first whose archive cannot be read, no day's table and no proof is lost, and every day reads as before if and only if each live proof of every archived day fits on a scanner line |
| `CreditStore.Store.EnsureCache` | internal/aip2p/credit_store.go:720-764 | fails, changing nothing, exactly if the cache was not ready and some archive cannot be read; otherwise the cache is a fresh reading of the disk, reloaded only when it was not ready |
| `CreditStore.Store.GetProofsByDate` | internal/aip2p/credit_store.go:84-95 | run sequentially, every read that succeeds equals a fresh read of live and archived proofs; it fails exactly if the cache was not ready and some archive, of whatever day, cannot be read |
| `CreditStore.GroupByDay` | internal/aip2p/credit_store.go:729-749 | the grouping loop gives each day its proofs in order |
| `CreditBalances.GetBalance` | internal/aip2p/credit_store.go:192-234 | credits are the distinct ids of the author, first and last its extreme starts, and the maximum is counted from the first |
| `CreditBalances.StoredBalance` | internal/aip2p/credit_store.go:184-190 | the balance over everything stored, or an empty one exactly when the cache is not ready and some archive cannot be read |
| `CreditBalances.GetAllBalances` | internal/aip2p/credit_store.go:236-295 | lists every author once, sorted, each with the balance that a single lookup computes |
| `CreditBalances.Summarize` | internal/aip2p/credit_store.go:241-269 | the summary loop holds every author's ids and extremes |
| `CreditBalances.BalancesAgree` | internal/aip2p/credit_store.go:192-295 | the balance of an author is determined by the stored proofs, so both ways of computing it agree |
| `CreditBalances.WindowsBegun` | internal/aip2p/credit_store.go:806-816 | the bound counts the windows begun by now, from the one of the first proof; none before it begins |
| `CreditBalances.CreditsSumToProofs` | internal/aip2p/credit_store.go:236-295 | summed over all authors the credits are the number of stored proofs |
| `CreditBalances.CreditsWithinBound` | internal/aip2p/credit_store.go:806-816 | an author whose proofs use one key, have trimmed ids and start by now has at most maxPossible credits |
| `CreditBalances.UntrimmedIdCountsTwice` | internal/aip2p/credit_proof.go:253 | without trimmed ids the bound fails: an admissible twin of a proof counts again in the same window |
| `CreditCache.MissedSaveIsRaced` | internal/aip2p/credit_store.go:720-764 | in every run of saves, loads (day by day, live files before archives), archiving and cleaning: a ready cache misses a finished save of a proof never deleted only if it landed and finished between the beginning and the commit of the load that filled the cache, and only until the TTL after that commit |
| `CreditCache.UnracedReadsAreComplete` | internal/aip2p/credit_store.go:720-764 | a filled cache shows every proof stored before its load began and never deleted, whatever was archived while the load was reading |
| `CreditCache.ViewIsOnDisk` | internal/aip2p/credit_store.go:720-764 | a cache shows only proofs that are live, archived or have been deleted |
| `CreditCacheProgress.LoadAlone` | internal/aip2p/credit_store.go:720-764 | from every state with a cache that is not ready, a load with nothing in between fills it with exactly the proofs on disk, live and archived |
| `CreditCacheProgress.ArchivingAlone` | internal/aip2p/credit_store.go:507-548 | archiving a day with nothing in between moves exactly its live proofs into the archive and deletes none |
| `CreditCache.RacedSaveIsMissed` | internal/aip2p/credit_store.go:80 | the race of a save with a load exists |
| `CreditCache.OnlyRacedSavesAreLost` | internal/aip2p/credit_store.go:520-543 | archiving deletes no proof that landed before it read the live files of the day |
| `CreditCache.RacedSaveIsLost` | internal/aip2p/credit_store.go:525-539 | the failing run: a save that lands between that reading and the deletion reports success and is nowhere |
| `CreditCache.RunsKeepInvariant` | internal/aip2p/credit_store.go:471-486 | every state of every such run tracks, for each load and each archiving in progress, which of the earlier proofs it has found or still will |
| `WitnessSelection.SelectCandidates` | internal/aip2p/credit_witness.go:293-352 | the loops, sorts and cuts choose, from the connected peers, the three nearest to the target by XOR distance of digests and then the best two of the rest |
| `WitnessSelection.ChoiceIsDetermined` | internal/aip2p/credit_witness.go:293-352 | the choice depends only on the set of connected peers, not on their order or repeats |
| `WitnessSelection.ChoiceIsNearest` | internal/aip2p/credit_witness.go:311-327 | picks are distinct connected peers, the first three nearer than every peer not among them, roles as assigned |
| `WitnessSelection.ChoiceIsInOrder` | internal/aip2p/credit_witness.go:330-350 | both kinds of picks stand in order, and any peer not picked scores higher than every check |
| `WitnessSelection.FewAreAllPicked` | internal/aip2p/credit_witness.go:293-352 | with fewer than five connected peers all are picked |
| `WitnessSelection.NearestByXor` | internal/aip2p/credit_witness.go:311-362 | each of the first three picks is strictly nearer by XOR distance than every connected peer with another digest that is not among them |
| `WitnessSelection.SubSelectionWithinQuota` | internal/aip2p/credit_proof.go:392-412 | any sub-selection of the picks stays within the role quotas |
| `WitnessSelection.XorDistanceInjective` | internal/aip2p/credit_witness.go:354-362 | two digests at the same XOR distance from a target are equal |
| `WitnessSelection.ByDigestIsOrder` | internal/aip2p/credit_witness.go:311-318 | with distinct printed ids the comparison orders peers without ties |
| `WitnessSelection.CollectConnected` | internal/aip2p/credit_witness.go:298-310 | the loop drops blank, repeated and unconnected peers and nothing else |
| `WitnessSelection.TakeTagged` | internal/aip2p/credit_witness.go:320-327 | takes the first peers up to the limit with their role |
| `WitnessSelection.Unused` | internal/aip2p/credit_witness.go:329-335 | the peers not used yet, each once |
| `WitnessSelection.CollectWitnesses` | internal/aip2p/credit_witness.go:180-240 | for every order of replies: the smaller of limit and number of successes, the earliest to arrive, in candidate order; an error exactly if none succeeded and one failed loudly |
| `WitnessExchange.HonestExchange` | internal/aip2p/credit_witness.go:119-156 | for every clock and seeding list, the witness of an accepted honest request verifies if and only if the responder's second clock reading, in whole seconds, is within the request's life |
| `WitnessExchange.OneClockReadingSuffices` | internal/aip2p/credit_witness.go:119-156 | with one clock reading every accepted honest request with an overlap yields a witness that verifies |
| `WitnessExchange.SlowAnswerIsRejected` | internal/aip2p/credit_witness.go:119-156 | accepted in its last instant and answered a second later, the witness is refused |
| `WitnessExchange.AnswerContentIsValid` | internal/aip2p/credit_proof.go:341-390 | the signed answer passes every check of the requester but that on the written time, which decides |
| `WitnessExchange.WitnessedProofValidates` | internal/aip2p/credit_proof.go:235-298 | a freshly signed proof with one verifying, eligible witness validates |
| `WitnessExchange.HonestRequestAccepted` | internal/aip2p/credit_witness.go:119-156 | an honest request for a signed proof is accepted exactly while the responder's clock is within two minutes of it, the window is at most an hour over, and the responder seeds something |
| `WitnessExchange.ValidateRequest` | internal/aip2p/credit_witness.go:242-275 | refuses exactly the requests that are stale, early, incomplete, wrongly signed or share nothing with the seeding list |
| `CreditRefusals.AcceptedRequestIsTimely` | internal/aip2p/credit_witness.go:242-275 | a responder accepts only requests within two minutes of its clock, from the window's start to an hour after its end, with a hex challenge, for a proof signed as it stands, and if it seeds something |
| `CreditRefusals.TimelyRequestIsAccepted` | internal/aip2p/credit_witness.go:242-275 | the other way round: it asks nothing else |
| `CreditRefusals.TamperedRequestIsRefused` | internal/aip2p/credit_witness.go:262-264 | a request whose proof was changed in anything its node signed is refused by every responder at every time |
| `WitnessExchange.Respond` | internal/aip2p/credit_witness.go:55-102 | answers exactly the acceptable requests that overlap, with a witness over the shared infohashes |
| `JsonlTail.ReadLastLines` | internal/aip2p/team/jsonl_helpers.go:11-62 | for every file, limit and chunk size the backwards reader terminates with the last non-blank trimmed lines of a forward split, last first |
| `JsonlTail.DrainBuffer` | internal/aip2p/team/jsonl_helpers.go:43-51 | the inner loop takes whole lines off the end of the buffer and loses none, until no newline or no room is left |
| `JsonlTail.CountNonEmptyLines` | internal/aip2p/team/jsonl_helpers.go:64-82 | counts the non-blank lines, and fails exactly when a line exceeds the scanner's limit |
| `JsonlTail.TailLengthMatchesCount` | internal/aip2p/team/jsonl_helpers.go:11-82 | the tail is as long as the smaller of limit and count |
| `JsonlTail.CutLastLine` | internal/aip2p/team/jsonl_helpers.go:43-51 | cutting the last line off a text takes at most that line off its forward reading |
| `JsonlTail.TailOfSuffix` | internal/aip2p/team/jsonl_helpers.go:29-61 | lines collected from the end are the tail once the limit or the start of the file is reached |
| `PluginWorklist.RegisterPending` | internal/extensions/store.go:329-363 | terminates; registers exactly the loadable plugins whose base chain ends in a registered one, each after its base; fails or stalls exactly as stated |
| `PluginWorklist.Pass` | internal/extensions/store.go:334-358 | one pass registers what it can, and without progress every plugin left has an unregistered base |
| `PluginWorklist.VisitPending` | internal/extensions/store.go:340-357 | one id is skipped, fails or is registered, by its base and whether it loads |
| `PluginWorklist.Registry.RegisterPlugin` | internal/apphost/apphost.go:105-119 | a blank or already registered id is refused and changes nothing; otherwise the registry gains the normalized id and nothing else |
| `PluginWorklist.UnresolvedIffDeadEnd` | internal/extensions/store.go:359-362 | with loadable plugins of distinct new names, one stays unresolved if and only if its bases run into a missing one or a cycle |
| `PluginWorklist.OrderedMeansGrounded` | internal/extensions/store.go:340-357 | a plugin registered after its base has a chain of bases that ends in a registered one |
| `PluginWorklist.ClosedUnderBases` | internal/extensions/store.go:359-362 | when nothing more can be registered, every plugin with such a chain is registered |
| `HDPaths.AuthorPathRoundTrip` | internal/aip2p/hd_keys.go:42-139 | every accepted author's printed path parses back to the root index and its child indexes, all hardened and in range |
| `HDPaths.AuthorSplits` | internal/aip2p/hd_keys.go:149-173 | an author is a trimmed root and normalized segments in place; slashes around them are dropped; a blank root is refused |
| `HDPaths.OtherAuthorsAreRefused` | internal/aip2p/hd_keys.go:149-159 | an author without the scheme, or with only slashes behind it, is refused |
| `HDPaths.PathIsSegmentwise` | internal/aip2p/hd_keys.go:42-80 | a path is accepted exactly if its first part is "m" and every other part is a segment, and gives their indexes in order; "m" alone gives none |
| `HDPaths.SegmentParses` | internal/aip2p/hd_keys.go:55-78 | digits, anything that is no digit, and an apostrophe: the index of the number in the hardened range if it stays below it, else refused |
| `HDPaths.OtherSegmentsAreRefused` | internal/aip2p/hd_keys.go:55-78 | a part without a final apostrophe or without a leading digit is refused |
| `HDPaths.PathTextRoundTrip` | internal/aip2p/hd_keys.go:42-116 | every printed list of indexes parses back to itself, hardened |
| `HDPaths.RootHasNoSegments` | internal/aip2p/hd_keys.go:118-173 | the root of an author is its own root and has no segments |
| `HDPaths.ParseDerivationPath` | internal/aip2p/hd_keys.go:42-80 | the loop over the segments computes the parsed path or its error |
| `HDPaths.PathFromURI` | internal/aip2p/hd_keys.go:99-116 | the loop over the author's segments prints its path |
| `HDPaths.ChildIndexes` | internal/aip2p/hd_keys.go:126-139 | every child index is positive and below the hardened range |
| `HDPaths.ChildIndexIsMasked` | internal/aip2p/hd_keys.go:126-139 | the index is the first word of the HMAC without its top bit, else the second, else 1 |
| `HDPaths.SegmentsNormalize` | internal/aip2p/hd_keys.go:141-147 | segments that differ only in case or white space have one index, blank ones that of "default" |
| `Delegations.NormalizeIdempotent` | internal/aip2p/delegation.go:53-81 | normalizing a delegation twice is normalizing it once, scopes included |
| `Delegations.UniqueDelegationScopes` | internal/aip2p/delegation.go:83-104 | the loop with its seen set computes the distinct normalized scopes |
| `Delegations.NormalizedStaysValid` | internal/aip2p/delegation.go:123-164 | a delegation validates exactly if its normalized form does |
| `IdentitySigning.SignedMessageValidates` | internal/aip2p/identity.go:327-410 | for every identity the signer accepts (plain, mnemonic, key file) and every message without reserved text: the signed message passes origin, key, HD and delegation validation if and only if identity and author fit, a condition on the inputs |
| `IdentitySigning.SignatureVerifies` | internal/aip2p/identity.go:351-393 | a signed message validates exactly if the author is not blank, the signing key is genuine and the metadata passes |
| `IdentitySigning.DerivedMetadata` | internal/aip2p/identity.go:665-741 | the metadata that signing writes for a derived author passes exactly if the author lies below the parent, the path is its own and a delegation between the two keys is attached |
| `OriginRefusals.DerivedIsDelegated` | internal/aip2p/identity.go:707-752 | every accepted message, whoever made it, whose parent key is not its signer's or that carries text of a derived author holds a delegation signed by that parent key for exactly the signer's key, and hd.parent_pubkey names the same parent |
| `OriginRefusals.ReplayIsRefused` | internal/aip2p/identity.go:707-752 | the same extensions signed anew with any seed are accepted exactly if the seed is that of the delegated key, or of the parent itself on a message without text of a derived author |
| `OriginRefusals.AcceptedIsSigned` | internal/aip2p/identity.go:351-393 | an accepted message was signed as it stands with the secret half of the key its origin names, for the author it names |
| `OriginRefusals.AcceptedTexts` | internal/aip2p/identity.go:623-705 | an accepted message has both signed keys or neither, all three texts of a derived author or none, and then its author lies below hd.parent with its own hd.path |
| `OriginRefusals.DelegationIsValidExactly` | internal/aip2p/delegation.go:123-164 | a delegation is valid exactly if its texts are the known ones or left out, its times are times, its keys 32 bytes in hex, and its normalized terms signed by the parent key |
| `OriginRefusals.DelegationSignatureBinds` | internal/aip2p/delegation.go:106-164 | one signature fits one delegation |
| `OriginRefusals.TextDelegationCounts` | internal/aip2p/delegation.go:221-261 | a delegation stored as JSON text counts as the delegation itself |
| `OriginRefusals.BareMessageIsAccepted` | internal/aip2p/identity.go:644-663 | a message without any key that signing writes is accepted with just its signature |
| `SigningExactly.PlainSignsExactly` | internal/aip2p/identity.go:276-322 | a plain identity signs exactly if its file is complete, its keys belong together, it names no other author, and holds a valid delegation should it name a parent |
| `SigningExactly.KeyFileSignsExactly` | internal/aip2p/identity.go:412-522 | an HD identity file without a mnemonic signs exactly if it is complete, its keys belong together, it names no other author, and holds a delegation should it name a parent with another key |
| `SigningExactly.MnemonicIsValidExactly` | internal/aip2p/identity.go:412-440 | an identity with a mnemonic is valid exactly if every key it stores is the one its mnemonic gives at its path |
| `SigningExactly.SigningKeyExactly` | internal/aip2p/credit_proof.go:482-509 | the key an identity signs delegations with is the stored one, or else the one of its mnemonic |
| `SigningExactly.SignedDelegation` | internal/aip2p/identity.go:594-615 | a signed message carries a delegation exactly if its signer names a parent with another key, and then the signer's, normalized and valid |
| `SigningExactly.SignedKeysAreWritten` | internal/aip2p/identity.go:582-592 | the two signed keys are written normalized over whatever stood there, blank ones are not, and nothing else changes |
| `IdentitySigning.ChildDelegationFacts` | internal/aip2p/delegation.go:183-200 | a delegation made for a child is valid, already normalized, and names both keys |
| `IdentityFamilies.PlainIdentitySigns` | internal/aip2p/identity.go:56-77 | a plain identity signs for exactly its own author (any, if it names none), and validates for every author that is not blank |
| `IdentityFamilies.MakingIsExact` | internal/aip2p/identity.go:56-122 | a plain identity needs an agent id; a master also an author below agent:// and a mnemonic that gives a seed |
| `IdentityFamilies.MasterSignsByKey` | internal/aip2p/identity.go:79-122 | an HD master of a root author signs for exactly the authors under it, and the message validates exactly if the author is the root or its key differs from the root key |
| `IdentityFamilies.MasterSigns` | internal/aip2p/identity.go:79-122 | unless those two keys collide, that is exactly if the author is the root or has a path segment |
| `IdentityFamilies.SigningIsPossible` | internal/aip2p/identity.go:327-349 | an instance that meets every premise: a master for agent://a signs for agent://a/b and the message validates |
| `IdentityFamilies.NonRootMasterSignsNothing` | internal/aip2p/identity.go:528-535 | an HD master made for an author that is not a root signs no message |
| `IdentityFamilies.TrailingSlashFails` | internal/aip2p/identity.go:547-580 | the failing case: under agent://a, signing for agent://a/ succeeds and does not validate |
| `IdentityFamilies.ChildSigns` | internal/aip2p/identity.go:128-176 | a derived child signs for exactly its author, and the message validates exactly if the author lies below the root and the keys differ |
| `IdentityFamilies.ChildIsMadeExactly` | internal/aip2p/identity.go:128-176 | a child can be derived exactly from a valid HD identity with a mnemonic and a public key, for an author under its own root |
| `IdentityFamilies.RootAndChildSignAlike` | internal/aip2p/identity.go:128-176 | the root file and the child derived from it at the same time sign the child's messages identically, signature and delegation included |
| `IdentityFamilies.MnemonicSignsWhen` | internal/aip2p/identity.go:528-580 | a mnemonic identity with a public key signs exactly for the authors under its root, for its own name only with the key of that path |
| `IdentityFamilies.SignatureBindsContent` | internal/aip2p/identity.go:351-393 | two valid messages with one signature have the same fields, author, signer and extensions |
| `IdentityFamilies.KeysSeparateAuthors` | internal/aip2p/identity.go:528-545 | two authors under one seed share a key exactly if their segment indexes agree, unless two different paths collide |
| `IdentityBuilder.ExtensionMap.ApplySignedKeyMetadata` | internal/aip2p/identity.go:582-592 | writes the two normalized keys that are not blank into the map |
| `IdentityBuilder.ExtensionMap.ApplyDelegationMetadata` | internal/aip2p/identity.go:594-615 | deletes or attaches the delegation, and leaves the map alone when it fails |
| `IdentityBuilder.DeriveSigningIdentity` | internal/aip2p/identity.go:528-580 | filling the copied map step by step gives the specified signer and extensions |
| `IdentityBuilder.ResolveSigningIdentity` | internal/aip2p/identity.go:483-522 | the same for all three kinds of identity |
| `IdentityBuilder.BuildSignedOrigin` | internal/aip2p/identity.go:327-349 | the signed message is the specified one |

## Left out

- Text.Lower: lower-cases ASCII letters only; a letter of another alphabet in an author path segment, a scope or a key keeps its case.
- TeamSyncState.Runtime.Commit: takes one clock reading for the stamp of an update and its first compaction; the source reads the clock twice there, a moment apart.
- TeamSyncNetwork.RecordedAcksHappened: takes each section under a node's mutex together with the file write after it as one step; a write that overtakes another between unlock and write is not modelled.
- TeamSyncState.TrimmedAcksBounds: leaves open which of several acks with the same time stamp are kept, as the source does by ranging over a map.
- PluginWorklist.RegisterPending: takes the ids of a pass in any order; the source sorts them. Whether a plugin directory loads is a flag of the entry; a directory without a base plugin never does (internal/workspace/directoryplugin.go:43-46).
- LiveStore.LocalRoom.AppendEvent: takes the append, the index refresh and the prune as one step under the room lock; room.json, announcements and I/O errors are left out, and the file tail that the duplicate test reads is measured in bytes per event.
- LiveStore.LocalRoom.RefreshIndex: keeps only the event count of the index; its last event time, roster counts and active flag are left out.
- LiveArchives.DailyArchives.EnsureDaily: uses the fixed offset UTC+8 that the source falls back to; zone data for Asia/Shanghai are not modelled.
- CreditBalances.CreditsSumToProofs: assumes that the hash that makes proof ids has no collisions.
- CreditCache.MissedSaveIsRaced: a listing of days and a reading of one day's live files or archive are one event each; archiving and cleaning do not overlap.
- CreditStore.Store.ArchiveProofs: a day is archived in two steps, write then delete; gzip, tar, rename and a crash between the steps are not modelled beyond the tables of proofs staying the same between them.
- CreditRefusals.ValidProofIsWitnessed: leaves out the type and version texts of a proof, and its check against a clock, which the store skips by passing none (internal/aip2p/credit_store.go:54, 559).
- WitnessSelection.SelectCandidates: takes the SHA-256 digest and the random score of a peer as arbitrary functions; a blank target key, for which the source returns nothing, is outside the method.
- SyncQueueFiles.SyncQueue.Enqueue: the Redis mirror of the queues and I/O errors are left out, and each queue operation is atomic.
- SyncWaiting.BoundedWaiting: covers runs without refs on the command line; such refs take the first slots of every pass.
- SyncRefs.SanitizeKeepsRef: which peer addresses are allowed (internal/aip2p/sync.go, host and port splitting and the peer lists) is an arbitrary predicate.
- IdentitySigning.SignedMessageValidates: assumes that the caller's extensions hold no text under hd.parent, hd.parent_pubkey, hd.path and parent_public_key; JSON encoding and its errors are left out, and the signed fields that identity code only copies are one opaque value.
- IdentityFamilies.NewMaster: takes the mnemonic as given; generating one is left out.
- `DeriveCreditOnlineKey`, `LoadAgentIdentity` and the search for delegation files: file access around the functions modelled here.
- `CleanOldProofs`: archives go by whole days and live proofs by window, so it has no single cutoff to state.
- `GetProofsByAuthor` and the online percentage of a balance: filters and a floating-point quotient over the modelled readings.
- `withPeerHints`, `withSourcePeerHint`, `withLibP2PPeerHint`: they only add query values to a ref; a queued ref may carry any such text (`SyncQueues.Queueable`).
- `migrateLegacySyncQueue` and the queue layout: one-time moves built from `enqueueSyncRef`.
- Transport, DHT, mDNS, GossipSub, HTTP and torrent code, JSON, gzip and tar: libraries and I/O.
- Status counters, configuration, the command line, themes, workspace loading and app handlers: plumbing.
- The Team store behind `ApplyReplicatedSync`, task and artifact indexes and agent cards: simple, or not part of this model.
