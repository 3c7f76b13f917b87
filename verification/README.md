# Verification model of the dynamic configuration service

The service moves configuration files from a git branch to applications through a chain of
copies, each labelled with a version:

GitHub head → MySQL tables (`CURRENT`, checkpoint, `REPO_VERSION`) → cache of each config server →
HTTP snapshot endpoint → client SDK (string view and typed view).

Several server instances compete for one lease row; the holder computes the difference between the
head's tree and `CURRENT` and applies it in one transaction. Every later layer compares versions and
reloads only when they differ. The model proves that these shortcuts lose nothing, says under which
conditions, and gives the run or the input where a condition is needed.

## How it is organised

| module | what it holds |
|---|---|
| `ConfigTypes`, `Arithmetic` | identities, trees, views, items; facts on multiples and remainders |
| `PathCodec` | file path ⇄ (namespace, key) |
| `FanOut` | the concurrent download of one commit, as goroutines over channels |
| `Lease` | the lock row, whole-second database time, runs of acquire / renew / release |
| `ConfigTable` | the `CURRENT` table, the two lists of a sync, and the transaction's effect |
| `MySqlStore`, `Syncer` | the store and one instance's sync as classes |
| `LeaderProtocol`, `LateCommit` | N instances interleaved statement by statement; the run that breaks the table |
| `ServerCache` | the server cache, its refresher, the snapshot handler, the client's decoding |
| `CacheChain`, `Convergence`, `ChainAnomalies` | the version-gated chain as two-step reads; convergence; what goes wrong without the two conditions |
| `ChainRefinement` | the caches' code makes exactly the chain's steps |
| `EndToEnd` | leader protocol and chain in one system |
| `HttpStore`, `FailoverRuns` | one request over several endpoints; many goroutines sharing the store |
| `ConfigClient`, `ClientRuns` | the client, its breaker, its typed cache; whole runs of it |

Code that changes state is a class or a method with loops, proved against a specification function
(`Lease.Execute`, `ConfigTable.ApplyLists`, `HttpStore.From`, `ConfigClient.AfterRefresh`, …). The
state machines step with those same functions, so the theorems about runs are about that code.
Times are integers in nanoseconds, instants are parameters, and an iteration over a Go map takes the
keys in an arbitrary order. A failing call is a parameter or a `None` answer. Bytes and texts are
strings of Unicode scalar values.

## What is assumed

- The content hash is a parameter. The table theorems assume only that, on the contents the
  repository has for one identity, it does not collide and is not empty (`LeaderProtocol.RepositoryOk`);
  `ConfigTable.SyncExactlyWhen` says what is needed in general.
- Each SQL statement and each transaction is atomic and MySQL's clock does not go back. A statement
  affects a row only if it changes it, as the DSN (server/config.go:152) leaves the driver's default.
- A commit has one tree. This is a theorem about the download for every listing in which no two
  paths share an identity, and only for those: `FanOut.DownloadIsListing`, `FanOut.OrderIndependentExactly`.
- The root path, the branch and the set of instance names are fixed and the names distinct. Runs begin
  with the tables of `InitMetadata`, nothing synced. This matters: a server's cache starts with the
  label `""` and takes an empty `REPO_VERSION` for its own.
- That skipping a reload is sound needs a condition on the published history: whatever was published
  from any occurrence of the present version on has the present view (`CacheChain.VersionsTell`;
  versions that do not repeat have it). It is exact. For servers and clients on MySQL it is the only
  one. An HTTP client needs in addition that the handler which produced the response it holds still
  served the listed view when it read the label (`CacheChain.HandlerUndisturbed`; no replacement in
  between implies it); over a server at the present publication that is exact too. That no view ever
  mixes two commits needs neither.
- Convergence needs neither condition. What it needs is exact: the copy of the server or client must
  not already be other items under the head's version (`Convergence.Mislabelled`).

- The client's theorems about typed handles distinguish concrete types from interface types, for which
  a type assertion looks at the dynamic type of the cached object.

## What the code does not promise

- The transaction of a sync is not fenced by the lease (server/syncer.go:86). The project's own
  README.md (line 84) says that the lease lets only one instance sync in any time window. The table
  is right for transactions that commit before another instance takes the lease, so certainly for
  those within the ttl of the last acquire or renewal. `LateCommit.LateCommitBreaksTable` is a run
  whose one later commit leaves `CURRENT` equal to no commit's tree, and
  `LeaderProtocol.TableIsAlwaysTreeExactly` says exactly, without any timing, which runs keep the table.
- A renewal in the same second as the acquire changes nothing, is reported as a lost lease and ends
  the renewal loop. It can happen exactly for a ttl between three nanoseconds and three seconds:
  `Lease.FirstTickReportedExactly`.
- When a branch returns to an earlier commit, a server or a client can keep another commit's items
  under the current version; so can a client whose handler was disturbed (`ChainAnomalies`). It keeps
  them until the version changes.
- A sync leaves a live row alone whose path is not under the root, unless the tree holds its identity
  with another hash (`ConfigTable.OutsideRootTouchedExactly`).
- After a success a client asks nobody before its TTL has passed, whatever is published meanwhile
  (`ClientRuns.SuccessIsCurrentForTtl`).
- Two listed paths that differ only in what normalization strips share an identity; which of them the
  tree holds depends on the order in which the downloads finish.
- Three renewal ticks fit into a lease exactly for a ttl of at least three nanoseconds.
- `normalizePath` is not idempotent: stripping slashes can expose whitespace
  (`PathCodec.NormalizeIsNotIdempotent`).
- A second `Init` of a client keeps the error of an earlier refresh, so the client counts as degraded
  although it has just reloaded: `ClientRuns.InitKeepsOldError`.
- With concurrent requests an endpoint can be fetched within the backoff of its failure, after an
  answer of the endpoint in between (`FailoverRuns.AnswerEndsCooldownEarly`); with requests one after
  another it cannot.
- A handle of an interface type can miss although its text decodes, and can hit with an object of
  another registration's type (`ClientRuns.InterfaceHandleMissesNull`,
  `ClientRuns.InterfaceHandleReadsAnotherType`).

## Model

| member | source | states |
|---|---|---|
| PathCodec.SplitFileExact | server/path.go:18-24 | A file name splits into an identity exactly when it is the namespace, a slash and a slash-free key, both non-empty |
| PathCodec.AcceptedExactlyWhenJoined | server/path.go:8-25 | A path is accepted with an identity if and only if the identity is valid and the normalized path is the normalized root joined with it |
| PathCodec.PaddingIsIgnored | server/path.go:8-25 | On raw strings: a root and a file written with any slashes and whitespace around them accept an identity exactly when the file's core is the root's core, a slash (unless that is empty), namespace, slash and key |
| PathCodec.CodecInjective | server/path.go:8-25 | Two accepted paths with one identity are equal once normalized |
| PathCodec.RoundTrip | server/path.go:8-29 | Joining and decoding gives the identity back if and only if it is valid and the joined path is already normalized |
| PathCodec.TrimFacts | server/path.go:27-29 | Trimming leaves no cut character at either end, keeps what is clean and shortens everything else |
| PathCodec.TrimIsMiddle | server/path.go:27-29 | Trimming leaves the stretch between the first and the last character outside the cut set |
| PathCodec.NormalizePathExactly | server/path.go:27-29 | The normal form of a raw value is the one string that the value surrounds by slashes and, outside those, by whitespace, with no slash left at its ends |
| PathCodec.NormalizeIdempotentExactly | server/path.go:27-29 | Normalizing twice equals normalizing once if and only if neither the first nor the last non-slash character of the space-trimmed input is whitespace |
| PathCodec.NormalizeIsNotIdempotent | server/path.go:27-29 | Counterexample: a slash, a space and a letter lose the space only in a second pass |
| PathCodec.CleanPathIsNormalized | server/path.go:27-29 | A path with neither whitespace nor slash at its ends is normalized |
| FanOut.JobsComeFromFiles | server/github_snapshot_reader.go:37-59 | Every started goroutine is for a listed file, under the identity of that file's path |
| FanOut.AcceptedFileIsJob | server/github_snapshot_reader.go:37-59 | Every accepted file of the listing gets its goroutine |
| FanOut.DownloadIsListing | server/github_snapshot_reader.go:19-75 | From the listing to the result, for every completion order: an error exactly when some accepted file cannot be fetched; otherwise, with no two accepted paths sharing an identity, exactly the accepted files' identities, each with its own path and content |
| FanOut.NormalizedFilesGiveDistinctJobs | server/github_snapshot_reader.go:37-43 | Distinct listed paths that are normalized give pairwise distinct identities, so no result overwrites another |
| FanOut.CollectResults | server/github_snapshot_reader.go:67-74 | The receive loop fills the map in arrival order; it fails exactly when some result carries an error, with the first one |
| FanOut.GatherStaysFailed | server/github_snapshot_reader.go:68-71 | Later arrivals cannot change the result once an error arrived |
| FanOut.StepInv | server/github_snapshot_reader.go:31-65 | Every step of a worker, the closer or the collector keeps: tokens equal the slot holders, each worker's result arrives exactly once, the channel closes only when all are done, the collector ends only on an error or a drained closed channel |
| FanOut.BoundedAndNeverBlocked | server/github_snapshot_reader.go:32-60 | In every reachable state of every listing at most eight fetches run, and a worker that has fetched finds room in the result channel, also after the collector has returned |
| FanOut.SlotsCanFill | server/github_snapshot_reader.go:32-47 | All eight slots can be in use: for every m up to eight and the number of files there is a run with m downloads at once |
| FanOut.NoDeadlock | server/github_snapshot_reader.go:36-74 | In every reachable state of every listing, before the collector has returned and the channel is closed, some goroutine can step |
| FanOut.StepsRunOut | server/github_snapshot_reader.go:36-74 | Every step lowers a measure bounded by zero, so every run of the goroutines ends |
| FanOut.AllReceived | server/github_snapshot_reader.go:62-74 | A collector that returns without an error has received every job's result, once |
| FanOut.ResultIndependentOfOrder | server/github_snapshot_reader.go:19-75 | For every listing and completion order an error is returned if and only if some fetch fails; with no two paths sharing an identity the map is the commit's tree |
| FanOut.EveryOrderHappens | server/github_snapshot_reader.go:37-74 | Every order of all jobs is the arrival order of some run of the goroutines |
| FanOut.OrderIndependentExactly | server/github_snapshot_reader.go:67-74 | When every fetch succeeds, all runs return the same map if and only if no two listed paths share an identity |
| FanOut.TreeUnderRoot | server/github_snapshot_reader.go:37-73 | In whatever order results arrive, colliding paths included, every entry of the returned map was accepted under its own identity for the listed root |
| FanOut.LoadSnapshot | server/github_snapshot_reader.go:98-114 | The local-mode snapshot fails exactly when the head request or the download of that head fails; otherwise its label is the head and its view what the download of that very commit gave |
| Lease.LeaseCoversTtl | server/store.go:315-321 | The rounded lease is at least one second, covers the ttl and exceeds it by less than a second |
| Lease.AcquireReportsTaking | server/store.go:106-117 | An acquire reports success exactly when it took the row, although success is read off the number of changed rows |
| Lease.CoveredOwnerStays | server/store.go:106-129 | While each statement comes at most ttl after an earlier grant of the owner, the owner keeps the row and its expiry covers every such grant |
| Lease.LeaseExcludes | server/store.go:106-138 | In every run, after an owner takes or renews at t no acquire succeeds up to and including t + ttl unless the owner releases, despite NOW() dropping the fraction of the second |
| Lease.RenewalChainExcludes | server/syncer.go:143-162 | A chain of renewals none more than ttl apart keeps every acquire out for as long as the chain lasts |
| Lease.DisplacedOwnersChangeNothing | server/store.go:119-138 | Any number of late renewals and releases of displaced owners leaves the row as it is |
| Lease.ReleaseFreesNextSecond | server/store.go:131-138 | After the owner's release any acquire takes the row exactly from the next database second on |
| Lease.ReleasedLeaseIsTaken | server/store.go:106-138 | The same over runs with any statements without effect in between; the row is then the taker's with its own lease |
| Lease.StrayRenewDelaysOneLease | server/syncer.go:66-69 | After a release and a stray renewal of the same owner, whatever statements without effect came in between, failed acquires included, the row is one lease from the stray renewal and an acquire takes it exactly when that lease is over |
| Lease.ThreeTicksFit | server/syncer.go:144-147 | Three renewal ticks fit into the rounded lease if and only if the ttl is at least three nanoseconds |
| Lease.RenewReportsExactly | server/store.go:119-129 | A renewal after a successful acquire or renewal is reported as such if and only if the database second has changed; a second apart is enough |
| Lease.FirstTickReportedExactly | server/syncer.go:143-161 | The first renewal after an acquire is reported for every acquire time if and only if the ttl is at least three seconds (or under three nanoseconds, where the period falls back to a second) |
| Lease.ShortTtlStopsRenewing | server/syncer.go:156-159 | Counterexample: with a ttl of two seconds the first tick falls into the second of the acquire, is not reported and ends the loop |
| ConfigTable.UpsertsPointwise | server/store.go:167-172 | Upserts with distinct identities set exactly their own rows, live, under the commit |
| ConfigTable.DeletesPointwise | server/store.go:173-183 | Deletes with distinct identities turn exactly their own rows into tombstones with empty content and its hash |
| ConfigTable.ApplyDiffPointwise | server/store.go:154-210 | Whatever order the lists have and whatever table they meet, each identity gets its row as defined by tree, reading and table; the lists hold exactly the identities that need them and share none |
| ConfigTable.SyncExactlyWhen | server/syncer.go:89-141 | After the sync the live view is the tree, identity to content, if and only if the hash confuses no content with a live row (or a missing row) and every live row missing in the tree lies under the root |
| ConfigTable.SyncKeepsInvariants | server/syncer.go:99-141 | A sync keeps that live rows' paths decode to their own identities and that rows carry their content's hash |
| ConfigTable.DiffIsMinimal | server/syncer.go:99-141 | With those invariants an identity is in the difference if and only if its live content differs between table and tree |
| ConfigTable.DiffFixpoint | server/syncer.go:99-141 | A second difference computed after the sync is empty in both lists |
| ConfigTable.OldListsExactlyWhen | server/syncer.go:82-86 | Lists computed from any older reading give the tree on the table they meet if and only if that table agrees with the tree on every identity the lists do not touch |
| MySqlStore.MySQLStore.constructor | server/store.go:81-104 | The initial rows: an expired lock without owner, an empty checkpoint, an empty version |
| MySqlStore.MySQLStore.TryAcquireLock | server/store.go:106-117 | The result is true exactly when no error came and the lease was over; then the row is the caller's for its rounded ttl, and otherwise unchanged |
| MySqlStore.MySQLStore.RenewLock | server/store.go:119-129 | The owner's row gets a new lease from now and anybody else's stays; the result tells whether the row changed |
| MySqlStore.MySQLStore.ReleaseLock | server/store.go:131-138 | The owner's lease ends now; anybody else's row, and any row on an error, stays |
| MySqlStore.MySQLStore.ListCurrent | server/store.go:212-237 | The scan returns the record of every row, deleted ones included, for every row order |
| MySqlStore.MySQLStore.ApplyChanges | server/store.go:154-210 | All or nothing: with any failing statement table, checkpoint and version are unchanged; otherwise the table is the result of the lists and both labels are the commit |
| MySqlStore.MySQLStore.LoadSnapshot | server/store.go:255-283 | With any commits between the two queries, the label is the version from before them and the items are the live rows after them |
| MySqlStore.MySQLStore.LoadClientSnapshot | client_sdk/store.go:71-119 | The same for a client that reads MySQL, every item stamped with the time of the scan |
| Syncer.Syncer.RenewLoop | server/syncer.go:143-162 | The loop renews tick by tick, other instances' statements on the row in between, and stops at the first error or unreported renewal |
| Syncer.SlowTicksKeepRenewing | server/syncer.go:150-161 | Ticks at least a second apart are all reported, whatever others try within ttl of the one before, so the loop goes on and the lease counts from the last one |
| Syncer.RenewingKeepsOwner | server/syncer.go:143-162 | No renewal changes who owns the row; only an acquire of another instance in between could |
| Syncer.RenewalStopsExactly | server/syncer.go:150-161 | While every tick is reported the loop goes on; after the first tick that fails or is not reported no further tick renews |
| Syncer.OneTick | server/syncer.go:155-159 | One tick gives the owner's row a new lease from it and leaves any other row; it is reported exactly when that changed the row |
| Syncer.Syncer.CollectUpserts | server/syncer.go:99-113 | The list holds one item for exactly the files that are missing, deleted or different in the table, a missing row read as the zero record |
| Syncer.Syncer.CollectDeleted | server/syncer.go:117-141 | The list holds one item for exactly the live rows under the root that the tree no longer has |
| Syncer.Syncer.SyncHoldingLock | server/syncer.go:69-87 | With any transactions of other instances in between: an error or an unchanged head adds nothing to theirs; otherwise both labels are the head, every row is as tree, listing and met table determine, and the live view is the tree if and only if the met table agrees with it outside the lists |
| Syncer.Syncer.SyncOnce | server/syncer.go:60-87 | The same for the whole call: without the lock nothing changes; with it the lease is given back on every path, and if it still was the instance's another acquire succeeds exactly from the next database second on; with nothing committed between listing and transaction the condition is that of SyncExactlyWhen |
| LeaderProtocol.InTimeHoldsLease | server/syncer.go:60-87 | In the reachable states a commit within ttl of the last acquire or renewal is made while no other instance has the lease |
| LeaderProtocol.CommitMakesTree | server/store.go:154-210 | Committing a fresh difference makes the live rows the head's tree and keeps the table's invariants |
| LeaderProtocol.OthersUndisturbed | server/syncer.go:60-87 | A step of one instance keeps, for every other one, that either it has the lease and its readings are fresh or its ttl has passed |
| LeaderProtocol.StepInv | server/syncer.go:60-87 | Every step of every instance, stray renewals, aborts and failed releases included, keeps the whole invariant |
| LeaderProtocol.LockRunIsLeaseRun | server/store.go:106-138 | The lock row of every run of N instances is that of the lease run of its statements in order of time, so the theorems on leases hold of the protocol |
| LeaderProtocol.LeaseUntilIsLastGrant | server/syncer.go:60-69 | The time by which a syncing instance commits in time is its ttl after its last acquire or renewal that met the row |
| LeaderProtocol.SyncRunsThrough | server/syncer.go:60-87 | From any state with the lease over, an idle instance can sync any other head in one go: its lists applied, both labels the head, the lease given back |
| LeaderProtocol.SkipRunsThrough | server/syncer.go:60-81 | With the checkpoint as head such a sync changes only the lock row |
| LeaderProtocol.TableFollowsVersion | server/syncer.go:60-115 | In every reachable state of N instances whose transactions each commit before another instance takes the lease, checkpoint equals REPO_VERSION and, once that is a commit, the live rows are exactly its tree |
| LeaderProtocol.InTimeRunHoldsLease | server/syncer.go:60-87 | Runs whose transactions commit within ttl of the last acquire or renewal are such runs |
| LeaderProtocol.CommitExactly | server/syncer.go:82-86 | In any run, early or late and with any hash, a commit leaves the head's tree if and only if the table it meets agrees with the tree on every identity its lists do not touch |
| LeaderProtocol.TableIsAlwaysTreeExactly | server/syncer.go:60-87 | A run keeps the live rows at the published commit's tree in all its states if and only if every commit in it meets such a table |
| LeaderProtocol.SkipIsSound | server/syncer.go:79-81 | An instance that skips while it has the lease leaves a table that is the head's tree |
| LeaderProtocol.SkipFollowsTree | server/syncer.go:71-81 | With or without the lease, a skipped head was the table's tree when the checkpoint was read |
| LeaderProtocol.CommitSettles | server/syncer.go:79-86 | After a commit nobody who has the lease can commit without reading checkpoint and head again |
| LeaderProtocol.SkipSettles | server/syncer.go:79-81 | A skip made while holding the lease leaves the tables settled at the head as well |
| LeaderProtocol.SettledStays | server/syncer.go:71-86 | While GitHub answers with the committed head no transaction commits and tables and version stay |
| LateCommit.LateCommitBreaksTable | server/syncer.go:82-86 | Counterexample: a run in which only the last commit comes after another instance took the lease; it publishes its head while the table also serves another commit's file |
| ServerCache.ConfigCache.Get | server/cache.go:47-55 | A hit is exactly a live entry's text |
| ServerCache.ConfigCache.Snapshot | server/cache.go:58-66 | The copy holds every entry, deleted ones included |
| ServerCache.ConfigCache.Replace | server/cache.go:70-81 | Items, label and load time are replaced together |
| ServerCache.CacheRefresher.Refresh | server/cache_refresher.go:58-74 | An error or an equal version leaves the cache unchanged; otherwise label and items become the loaded ones |
| ServerCache.ListItems | server/handler.go:74-85 | The list names exactly the live entries, each once, in some order |
| ServerCache.ServeSnapshot | server/handler.go:72-90 | The items are those before, the label that after whatever is replaced between the handler's two reads |
| ServerCache.RebuildItems | client_sdk/http_store.go:61-84 | The decoding loop writes the listed items in order into the client's map |
| ServerCache.TransportPreservesView | client_sdk/http_store.go:61-84 | For every cache map and every listing order the client's rebuilt map has the server's view, so lookups agree on every key |
| ChainRefinement.RefreshServer | server/cache_refresher.go:58-74 | A refresh over the store, with any commits between its three queries and any of them failing, changes the cache exactly as the chain's reader steps do |
| ChainRefinement.RefreshClient | client_sdk/client.go:251-281 | Any refresh over one or two servers, due or not, failing or not, with any replacements in between, changes the client exactly as the chain's client steps do |
| ChainRefinement.InitClient | client_sdk/client.go:149-172 | A client's first load over a server, failing or not, is the chain's step of a load without a version check |
| ChainRefinement.RefreshMySqlClient | client_sdk/store.go:71-104 | A refresh of a client on MySQL, with any commits between its queries and any of them failing, is exactly a server's refresh steps |
| ChainRefinement.InitMySqlClient | client_sdk/store.go:71-91 | Its first load is the chain's load at start |
| CacheChain.StepInv | server/store.go:255-283 | Every step of every layer, unconditionally, keeps each server's and MySQL client's copy a pair (version i, items j) with i not above j, and each HTTP client's items those of one publication |
| CacheChain.LabelDecidesItems | server/cache_refresher.go:58-74 | If whatever was published from any occurrence of the present version on has the present view, a pair labelled with that version has the present items |
| CacheChain.ReaderSkipIsSound | server/cache_refresher.go:58-74 | In every state of every run, whatever happens to any handler, a server's or MySQL client's copy is such a pair and, under the condition on the history, serves exactly the live table if its label is REPO_VERSION |
| CacheChain.ClientSkipIsSound | client_sdk/client.go:264-278 | An HTTP client's items are always those of one publication; if the handler of the response it holds was undisturbed its copy is such a pair and, under the condition on the history, current when its label is |
| CacheChain.NonRepeatingVersionsTell | server/store.go:199-206 | Versions that do not repeat meet the condition on the history |
| CacheChain.NoReplaceUndisturbed | server/handler.go:73-87 | If the server installs nothing between the handler's two reads, the handler is undisturbed |
| CacheChain.ResponseCoherentExactly | server/handler.go:73-87 | Over a server at the present publication, the response is a coherent pair, and its label sound, if and only if the handler was undisturbed |
| ChainAnomalies.SoundExactlyWhenVersionsTell | server/cache_refresher.go:58-74 | A published history lets every run end with sound labels (of servers, MySQL clients, and clients that hold an undisturbed handler's response) if and only if it meets the condition; for any other one there is a run that ends with wrong items under the present version |
| Convergence.ReaderStepCloser | server/cache_refresher.go:58-74 | A successful step of a refresher that is not mislabelled lowers its rank, or keeps it showing the publication, and does not mislabel it |
| Convergence.ClientStepCloser | client_sdk/client.go:251-281 | The same for a client over servers that show it |
| Convergence.EveryStepConverges | server/cache_refresher.go:58-74 | While the database stays and no reader is mislabelled, successful steps never raise the readers' rank nor mislabel one, and a step of a stale layer lowers the pair of ranks lexicographically |
| Convergence.ReadersAtZero | server/cache_refresher.go:58-74 | The readers' rank is zero exactly when all of them show the publication |
| Convergence.ToldReadersAreSane | server/cache_refresher.go:58-74 | Under the condition on the history no reader is mislabelled |
| Convergence.ReaderRefreshExactly | server/cache_refresher.go:58-74 | A refresh begun after the publication that does not fail leaves the server showing it if and only if its copy was not mislabelled when it began; a mislabelled copy stays |
| Convergence.SettledReaderStays | server/cache_refresher.go:58-74 | A server that shows the publication goes on showing it whatever else refreshes or fails |
| Convergence.ClientRefreshExactly | client_sdk/client.go:251-281 | Once all servers show it, a client refresh begun afterwards that does not fail leaves the client showing it if and only if its own copy was not mislabelled; a mislabelled copy stays |
| Convergence.SettledClientStays | client_sdk/client.go:251-281 | Every later refresh, successful or not, keeps it |
| ChainAnomalies.RepeatedVersionHidesStaleItems | server/store.go:255-283 | Counterexample: a branch pushed back to an old commit leaves a server with another commit's items under the current version |
| ChainAnomalies.DisturbedHandlerMislabels | server/handler.go:73-87 | Counterexample: a replacement between the handler's two reads gives the client old items under the new label |
| ChainAnomalies.MislabelledReaderIsStuck | server/cache_refresher.go:63-66 | While the database stays at the version of a mislabelled server, no refresh of it changes its copy |
| ChainAnomalies.MislabelledClientIsStuck | client_sdk/client.go:264-272 | While the servers stay at that version, no refresh of such a client changes its copy |
| EndToEnd.StepInv | server/syncer.go:60-87 | In the combined system every step, a transaction committing before another instance takes the lease, keeps that the database is the head of the published history and that every publication is its commit's tree; nothing is asked of handlers |
| EndToEnd.InTimeRunIsGood | server/syncer.go:60-87 | Runs of the combined system whose transactions commit within ttl are covered |
| EndToEnd.EveryViewIsATree | client_sdk/client.go:397-420 | Whatever happens to handlers, no server and no client ever shows a mixture: each view is empty or the whole tree of one published commit |
| EndToEnd.ServerCopyIsATree | server/cache_refresher.go:58-74 | A server's tree was published no earlier than its label; under the condition on the history a copy labelled with REPO_VERSION is that commit's tree |
| EndToEnd.ClientCopyIsATree | client_sdk/client.go:251-281 | The same for a client that holds the response of an undisturbed handler |
| EndToEnd.TablesStayAtHead | server/syncer.go:79-86 | From a successful sync to the head on, committed or skipped, while the head stays, the tables hold its tree and no sync changes them |
| EndToEnd.ChainIsCalm | server/syncer.go:79-86 | From that sync on the chain sees no publication, so its convergence theorems apply |
| EndToEnd.ServerShowsHeadExactly | server/cache_refresher.go:58-74 | A server whose refresh began after the sync and did not fail shows the head's tree from then on if and only if its copy was not mislabelled when it began; a mislabelled copy stays |
| EndToEnd.HeadReachesClientExactly | client_sdk/client.go:251-281 | After a successful sync, committed or skipped, such a refresh on every server and then one client refresh, the client's view is the head's tree under the head's label from then on, whatever is done to handlers, if and only if its copy was not mislabelled |
| EndToEnd.ToldCopiesAreClean | server/store.go:255-283 | Under the condition on the history no server is mislabelled, and no client that holds the response of an undisturbed handler |
| EndToEnd.HeadReachesClient | client_sdk/client.go:251-281 | So under that condition such a client always ends with the head's tree and keeps it |
| HttpStore.HTTPStore.constructor | client_sdk/http_store.go:34-47 | The cursor starts at the first endpoint, nothing cools, and a backoff that is not positive becomes thirty seconds |
| HttpStore.HTTPStore.Mark | client_sdk/http_store.go:173-185 | A failure sets the endpoint's cooldown from its own time, a success clears it |
| HttpStore.HTTPStore.DoRequest | client_sdk/http_store.go:106-149 | The loop, with arbitrary changes by other goroutines while the lock is free, ends with the guarded fields, visits and outcome of the recursive specification |
| HttpStore.FailoverIsComplete | client_sdk/http_store.go:119-148 | Whatever others do, no index is visited twice, at most n fetches are made, and an error means every index was visited and each was cooling then or failed in this request |
| HttpStore.CursorStaysInRange | client_sdk/http_store.go:127-128 | One request keeps the cursor a valid index, whatever it meets, if the others do |
| FailoverRuns.LoopSkipsToFirstOpen | client_sdk/http_store.go:119-128 | The loop goes over cooling endpoints without changing anything |
| FailoverRuns.LoopGivesUpWithSteps | client_sdk/http_store.go:143-148 | The loop gives up exactly where its goroutine's steps do, with the same fields |
| FailoverRuns.LoopAnswersWithSteps | client_sdk/http_store.go:119-142 | After an admitted fetch and its answer, whatever others did meanwhile, loop and steps have the same fields and are both done or both at the next visit |
| FailoverRuns.RunKeepsCursorInRange | client_sdk/http_store.go:115-142 | In every reachable state of any number of concurrent requests the cursor is the index of an endpoint |
| FailoverRuns.NoFetchDuringCooldown | client_sdk/http_store.go:116-142 | In every interleaving, an endpoint that failed at t is fetched before t + backoff only after an answer of that endpoint in between |
| FailoverRuns.CoolingExactly | client_sdk/http_store.go:123-125 | In every reachable state, an endpoint is passed over at t if and only if its last mark is a refusal less than the backoff before t |
| FailoverRuns.NeverAdmittedWhileCooling | client_sdk/http_store.go:123-128 | In every run, no endpoint is admitted within the backoff of a refusal that is its last mark |
| FailoverRuns.AnswerEndsCooldownEarly | client_sdk/http_store.go:131-142 | Counterexample: of two requests one fails, the other is answered, and the endpoint is fetched within the backoff of the failure |
| FailoverRuns.SequentialRespectsCooldown | client_sdk/http_store.go:116-142 | With requests one after another no endpoint is fetched during its cooldown, although the loop reuses an older time |
| FailoverRuns.RotationIsFair | client_sdk/http_store.go:127-129 | In a rotation each index gets m/n picks of any m, rounded down or up |
| FailoverRuns.HealthyRotationIsFair | client_sdk/http_store.go:107-129 | From any state without a running cooldown on, after failures and with concurrent requests too, while answers are good every window of consecutive picks is shared that evenly |
| ConfigClient.Client.constructor | client_sdk/client.go:103-112 | A new client has empty caches, no version, no error and a closed breaker |
| ConfigClient.Client.Register | client_sdk/client.go:121-147 | Registration parses the cached text at once; a text that does not parse leaves the typed cache alone |
| ConfigClient.Client.GetConfigOK | client_sdk/client.go:214-223 | A hit is exactly an entry of the live view |
| ConfigClient.Client.GetTyped | client_sdk/client.go:423-450 | A typed hit is the cached object, if its dynamic type can be asserted to the handle's type |
| ConfigClient.Client.ApplySnapshot | client_sdk/client.go:397-420 | Both caches are rebuilt from the snapshot together, typed entries being exactly the registered live non-empty texts that parse |
| ConfigClient.Client.RecordRefreshFailure | client_sdk/client.go:343-386 | Counts the failure in server mode and opens the breaker at the threshold |
| ConfigClient.Client.RecordRefreshSuccess | client_sdk/client.go:388-395 | Clears the error and, in server mode, the breaker |
| ConfigClient.Client.Refresh | client_sdk/client.go:251-281 | Outcome and new state of a refresh by TTL gate, breaker, version check and reload, with Register calls between its critical sections, which act as made before or after it |
| ConfigClient.Client.ApplyMetaConfig | client_sdk/client.go:240-249 | The service's interval and TTL replace the client's exactly where they are positive |
| ConfigClient.Client.Init | client_sdk/client.go:149-172 | A failing meta request keeps interval and TTL, a failing snapshot fails Init and leaves everything else; otherwise both caches are rebuilt from the snapshot |
| ConfigClient.Client.IsDegraded | client_sdk/client.go:284-288 | Degraded means initialized with an error on record |
| ClientRuns.OpeningNeedsFailures | client_sdk/client.go:343-395 | In every run the breaker has an opening time exactly when the failures reached the threshold |
| ClientRuns.BreakerSpacing | client_sdk/client.go:251-281 | While nothing succeeds each request beyond the free ones has waited for one opening duration |
| ClientRuns.BreakerBoundsRequests | client_sdk/client.go:337-395 | In any stretch of failing refreshes in server mode at most threshold + T / openDuration requests reach the store |
| ClientRuns.BreakerOpensAtThreshold | client_sdk/client.go:351-366 | From a closed breaker a stretch of failures opens it with exactly the threshold-th request |
| ClientRuns.FailureExactly | client_sdk/client.go:343-386 | A failing refresh changes only the error on record and, in server mode, the count and from the threshold on the opening time, one opening duration after the time read after the failing answer |
| ClientRuns.BreakerOpenExactlyForDuration | client_sdk/client.go:251-281 | After a failure that reaches the threshold due refreshes stay away from the store for exactly one opening duration; from then on a due refresh reaches it, and if it answers the client is current and the breaker closed |
| ClientRuns.DegradedMeansLastDueFailed | client_sdk/client.go:283-288 | From any state without an error a client is degraded exactly when it is initialized and the last refresh past the TTL gate failed |
| ClientRuns.InitExactly | client_sdk/client.go:149-172 | Interval and TTL each come from their own setting where that is positive; a failed Init changes nothing else; a successful one leaves the snapshot's view and label, keeps error and breaker, and no refresh is due before its TTL has passed |
| ClientRuns.InitDecodesExactly | client_sdk/client.go:397-420 | After a successful Init the typed entry of every identity is the decoding, as its registered type, of the snapshot's live non-empty text, and there is none otherwise |
| ClientRuns.OutageFreezesClient | client_sdk/client.go:251-281 | However many refreshes fail or are skipped, caches, version and check time stay and an error stays set |
| ClientRuns.OnceDueStaysDue | client_sdk/client.go:252-256 | During an outage a refresh that was due stays due |
| ClientRuns.TypedHitIsParse | client_sdk/client.go:397-450 | Across any interleaving of Register, Init, refresh and applySnapshot a typed hit is the decoding, as a type registered for the identity, of the live non-empty text the string view has; with concrete types, as the handle's own type |
| ClientRuns.HitsAreOwnExactly | client_sdk/client.go:121-147 | For an identity registered with given types, after every sequence of operations every hit of a handle is its own decoding of the present text if and only if, wherever an object decoded as one of the types can be asserted to the handle's, its own decoding gives the same |
| ClientRuns.TypedHitExactly | client_sdk/client.go:121-147 | If each identity has one type, a registered handle hits exactly when that decoding succeeds with an object its type can be asserted of; for a concrete type, whenever it succeeds |
| ClientRuns.RegisterExactly | client_sdk/client.go:121-147 | A registration concerns its own identity only, and one whose text does not decode keeps the entry there was |
| ClientRuns.InterfaceHandleMissesNull | client_sdk/client.go:439-450 | Counterexample: a handle of type any misses on the text null, which decodes |
| ClientRuns.InterfaceHandleReadsAnotherType | client_sdk/client.go:133-141 | Counterexample: after a second registration as int, the handle of type any hits with the int object, not with the decoding as its own type |

## Left out

- HTTP, the GitHub REST calls, the MySQL driver, JSON, base64 and SHA-256: a tree per commit, atomic statements, identity transport of list items, and a hash parameter stand for them.
- Partially decoded JSON that stays in a shared result value after a failed attempt (client_sdk/http_store.go:170).
- Bytes that are not valid UTF-8, case- or accent-insensitive MySQL key collations, column lengths.
- The lock name and the repository key of the checkpoint: one lock row and one checkpoint row.
- Syncer.Syncer.SyncOnce: its renewal ticks, with the other instances' lock statements between them, are run before the sync's queries, which read nothing they write; every interleaving of both is LeaderProtocol's, whose steps use the same lists, statements and transaction.
- LeaderProtocol.TableFollowsVersion: for transactions that commit before another instance takes the lease; LateCommit.LateCommitBreaksTable shows that the code needs it, and CommitExactly covers all others. It does not model two instances with one name.
- LeaderProtocol.SettledStays: says nothing about an instance that stalled before the sync and has lost the lease; if it commits, that is a late commit.
- CacheChain.ResponseCoherentExactly: over a server that is behind, an undisturbed handler is enough for a coherent response but not necessary, since old items may equal a later publication's.
- ConfigClient.Client.Refresh: one refresh at a time, as the client's single loop makes them, and no Init inside one. A type is its name and an object a text with its dynamic type.
- HttpStore.HTTPStore.DoRequest: fetches, clocks and the work of other goroutines are a script; a cancelled context counts as a failed fetch, as in the code.
- Fairness of the scheduler: Convergence has a measure and theorems on refreshes that end, not a proof that tickers fire.
- Monotonicity of a client's version over several servers, which the code does not promise: check and load may go to different endpoints.
- Reading configuration from local files (client_sdk/local.go), defaults and validation of settings, applyConfigMeta, the tickers, the health and meta endpoints, durationString, logging, the programs under cmd/ and the Docker files: input and output or one-branch facts.
