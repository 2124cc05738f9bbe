# Verified model of the Fula device services

This project models the parts of the device software whose promises range over every input or
every run, and proves those promises:

- **Pin synchronisation** (`PinningClient`, `PinSync`, `PinSyncCycle`, `PinSyncRuns`,
  `PinSyncRegistry`, `PinSyncForcedFull`, `PinSyncReached`, `PinSyncReset`, `PinSyncTimes`): the
  paged listing of the remote pinning service, the daemon's full and incremental cycles, restarts,
  priority pins, the persisted sync time and the registry CID that is published last.
- **Canonical JSON** (`KeySort`, `JsonText`, `CanonicalJson`, `JsonParser`, `CanonicalJsonProofs`,
  `CanonicalJsonShortest`): the text heartbeats are signed over, with a parser after the grammar of
  RFC 8259 (strings: section 7) and the key order of section 3.2.3 of RFC 8785 as its partners.
- **BLE framing** (`BleFraming`, `BleHandler`, `BleJson`): cutting a JSON text into JSON frames that fit an
  MTU, and a receiver that puts the text together again.
- **Kubo configuration** (`JsonTree`, `Doubles`, `KuboConfig`, `KuboPipeline`): the laws of path access, the
  merge, the relay override, StorageMax, and the watchdog's drift check.
- **Chunked bodies** (`Utf8`, `Utf8Proofs`, `ChunkedBody`, `ChunkedEncoding`, `ChunkedSizes`,
  `ChunkedGrammar`): the gateway's decoder against the encoder of section 7.1 of RFC 9112, and
  against the form of all bodies and size lines it accepts.
- **Watchdog state** (`EventLog`, `EventLogWrites`, `WireGuard`, `WireGuardRules`, `EnvFile`,
  `EnvFileRules`): log rotation under faults, the tunnel bounce backoff, and the `.env` repair.
- **Reboot budget** (`RebootBudget`), **plugin commands** (`PluginRegistry`, `PluginRules`) and **multipart
  uploads** (`Multipart`).

Components that the source changes step by step are classes and methods with loops here; each
method is proved equal to a function of the old state, and the properties are lemmas about those
functions over arbitrary runs. What such a function computes is also stated without it: by an inverse,
by a reader or writer of its own, or in terms of the inputs' fields. Clocks, services, file operations
and cancellation enter as data of each step, so "every run" includes every combination of their
failures.

Where a promise is false of the code, the model keeps the code, gives a run or an input on which it
fails, and proves when it holds:

- Blocks are meant to be pinned before the registry CID is published, but a failed `PinAdd` does not
  stop the publication (`PublishedUnpinned`, `PublishedIsPinnedIff`).
- "Every tenth cycle" does not by itself pin a missed pin: the forced cycles can be just the ones
  that abort, in runs of any length (`AbortedForcedCyclesStarve`). Ten completed cycles in a
  row without a restart do (`TenCyclesPin`); `PinnedByRunIff` says for every run in
  which page breaks are clean and nobody else pins or unpins it whether a CID ends up in kubo.
- A reset kubo node is noticed only by a start at which kubo lists its pins and has none: a cancelled
  first cycle hides the reset from the next start (`PartialRepinHidesReset`), a failing PinLs hides it
  from this one (`PinLsFailureHidesReset`). `FirstFetchesAllIff` and `FirstCycleRepinsIff` say exactly
  when the first completed cycle re-pins everything.
- Paging loses pins exactly when a page break splits pins with equal Created stamps (`PagedIsComplete`,
  `PageBreakLosesPin`).
- The cut into BLE frames can run for ever: at an MTU of 49 the JSON text of a string of 998 letters does
  it (`HangsAtMtu49`); `CutEndsIff`, `CuttableByCharacter`, `ChunkCount` and `RoomyTexts` say when it ends.
  The header can be too large for an MTU that fits the data, and always is below 54
  (`HeaderTooLargeIff`, `NoHeaderBelow54`).
- Python's key order is not that of RFC 8785 for keys that first differ between a character from
  U+E000 to U+FFFF and one above U+FFFF (`OrdersAgreeIff`, `KeysOutOfOrder`).
- The config script ends the drift that started it only if every multiaddr is a string and it does not
  die on a Datastore that is no object (`DriftEndsIff`, `DriftStays`), and a template whose relays differ
  from the live ones makes every run report changes although the file stays the same
  (`QuietIffTemplateAgrees`).
- A restart of the watchdog forgets the time of the last tunnel bounce, though not the counter
  (`RestartSkipsCooldown`), so a gap between bounces in which it was restarted counts for nothing. The
  other gaps count in full (`BounceSpacing`), and nothing more can be promised (`SpacingIsAttained`).
- A sentinel that cannot be created lets one boot spend the whole reboot budget
  (`WithoutSentinelTwoPerBoot`); `ScheduledIff` says exactly when a reboot is scheduled.
- A `.env` repair whose sudo fallback fails is reported although nothing changed, and one whose service
  restart raises is not reported (`ReportIsRightIff`).
- A chunked body that breaks off behind a chunk's data, or the line break after it, passes as complete;
  cut anywhere else before its size zero line it is rejected (`TruncatedBody`). And a body that was
  never encoded is altered if it happens to have the form (`DecodedIffForm`, `PlainTextIsAltered`).
- An uploaded part can be acknowledged and not recorded (`AcknowledgedIsRecordedIff`,
  `AcknowledgedPartIsLost`), and a refused completion or abort destroys the upload (`RefusalLosesUpload`).
- "80%" of a disk is a GiB more on some disks of several pebibytes (`LargeDiskRoundsUp`), on exactly
  those whose product of doubles rounds up (`ShareIsFourFifthsIff`), none of a pebibyte or less.

## Model

| member | source | states |
|---|---|---|
| PinningClient.ListPinsPaginated | docker/fula-pinning/pinning_client.go:53-74 | the loop succeeds exactly when the service answers until the first short page; it returns all pages, or the pages before the failing query |
| PinningClient.PagedIsComplete | docker/fula-pinning/pinning_client.go:63-70 | against a newest-first listing the pages add up to the whole selection exactly when no page break splits equal stamps |
| PinningClient.PageBreakLosesPin | docker/fula-pinning/pinning_client.go:66-70 | one pin more than a page holds, all of one stamp: the last is never listed, for any page limit |
| PinningClient.PagingReturnsAll | docker/fula-pinning/pinning_client.go:43-74 | with distinct stamps every pin later than `after` comes back once and in order, for any page limit |
| PinningClient.CleanListingIsFetched | docker/fula-pinning/pinning_client.go:43-74 | clean page breaks of the listing are enough for a complete fetch from any instant on |
| PinSync.Daemon.SyncPins | docker/fula-pinning/daemon.go:86-219 | one cycle turns the old state into exactly the state and outcome of the cycle function, for all failures and cancellations |
| PinSync.Daemon.FetchRemotePins | docker/fula-pinning/daemon.go:96-119 | the fetch is incremental from the last sync less a minute, or full when forced, first, or fallen back |
| PinSync.FindRegistry | docker/fula-pinning/daemon.go:122-132 | the scan returns the registry pin that the specification chooses |
| PinSync.Daemon.PinMissing | docker/fula-pinning/daemon.go:166-206 | the loop leaves cache, kubo and counts as pinning the pins one by one up to the cancellation does |
| PinSyncRuns.CacheIsPinned | docker/fula-pinning/daemon.go:144-206 | in every run, with any failures, aborted cycles and restarts, the cache never claims a pin kubo lacks, as long as kubo loses none |
| PinSyncRuns.PriorityPinHolds | docker/fula-pinning/daemon.go:255-273 | in every such run a priority CID is in kubo afterwards exactly if it was before or its PinAdd succeeds, and no other pin changes |
| PinSync.Daemon.QueuePriority | docker/fula-pinning/daemon.go:303-314 | with the loop draining the queue meanwhile, what it receives and what is left is the old queue followed by the accepted CIDs, and their number is returned |
| PinSync.AcceptedInOrder | docker/fula-pinning/daemon.go:303-314 | the accepted CIDs keep their order; they are a prefix while nothing is drained, and all of them if the loop keeps pace |
| PinSyncReset.FirstFetchesAllIff | docker/fula-pinning/daemon.go:54-65 | after a start the first cycle fetches everything exactly if no sync time is known, kubo lists its pins and has none, or the incremental query fails |
| PinSyncReset.FirstCycleRepinsIff | docker/fula-pinning/daemon.go:54-119 | after a start and any aborted cycles the first completed cycle leaves every listed pin in kubo exactly then, in a forced cycle, or when each missing CID is listed after the overlap instant |
| PinSyncReset.PinLsFailureHidesReset | docker/fula-pinning/daemon.go:57-65 | a start at which PinLs fails misses the reset |
| PinSyncReset.PartialRepinHidesReset | docker/fula-pinning/daemon.go:54-65 | a cancelled cycle after a reset makes the next start incremental while a pin is missing |
| PinSync.Daemon.constructor | docker/fula-pinning/daemon.go:26-38 | a new daemon has an empty cache and queue and the sync time of the file |
| PinSyncCycle.CycleTallies | docker/fula-pinning/daemon.go:166-206 | in a completed cycle processed = pinned + skipped + failed = number of fetched pins with a CID |
| PinSyncCycle.PinnedByFirst | docker/fula-pinning/daemon.go:166-206 | exactly which CIDs the loop leaves pinned; the cache mirrors kubo |
| PinSyncCycle.CutShortPublishesNothing | docker/fula-pinning/daemon.go:116-119 | a cycle that returns early moves neither the registry file nor a sync time and removes no pin |
| PinSyncCycle.FailureFreePublish | docker/fula-pinning/daemon.go:208-211 | with failed = 0 every fetched CID and the registry's are pinned when the registry file is written |
| PinSyncCycle.PublishedIsPinnedIff | docker/fula-pinning/daemon.go:149-211 | the published CID is pinned exactly when kubo had it or one of its PinAdds succeeded |
| PinSyncCycle.PublishedUnpinned | docker/fula-pinning/daemon.go:190-211 | a completed cycle that publishes a CID its node does not have |
| PinSyncReached.CyclePinsIff | docker/fula-pinning/daemon.go:96-206 | one cycle, completed or not, brings a CID in exactly if it asks for a listed pin of it, comes to it and its PinAdd succeeds |
| PinSyncReached.PinnedByRunIff | docker/fula-pinning/daemon.go:86-273 | over any run a CID is in kubo exactly if some cycle brought it in that way or a priority pin did; pins come and go, cycles abort, PinAdds fail and processes restart in between |
| PinSyncCycle.PinnedIffFetched | docker/fula-pinning/daemon.go:166-206 | without failures a completed cycle adds exactly the CIDs it fetched |
| PinSyncRuns.RunIsSynced | docker/fula-pinning/daemon.go:86-253 | over every faithful run kubo covers every listing a completed cycle saw, and both sync times stem from completed cycles |
| PinSyncRuns.IncrementalRefinesFull | docker/fula-pinning/daemon.go:86-219 | after every completed cycle of such a run each pin visible at its fetch is in kubo |
| PinSyncRegistry.LatestIsFirstGreatest | docker/fula-pinning/daemon.go:122-132 | the scan settles on the greatest Created stamp, on the first among equals |
| PinSyncRegistry.FetchFindsLatest | docker/fula-pinning/daemon.go:104-132 | a fetch that holds any registry pin chooses what a scan of the whole listing would |
| PinSyncRegistry.RegistryIsFullScan | docker/fula-pinning/daemon.go:104-132 | on an append-only listing the registry file holds the full scan's choice after every completed cycle |
| PinSyncRegistry.LatestNeverMovesBack | docker/fula-pinning/daemon.go:122-132 | an append-only listing never moves the choice to an older pin |
| PinSyncRegistry.KuboAsAfterFullCycle | docker/fula-pinning/daemon.go:96-119 | a cycle of a faithful run leaves the same pins in kubo as a full scan in its place |
| PinSyncRegistry.RegistryAsAfterFullCycle | docker/fula-pinning/daemon.go:208-216 | and the same registry file, when the listing only grows |
| PinSyncForcedFull.TenCyclesPin | docker/fula-pinning/daemon.go:96-98 | ten completed cycles in a row without a restart pin every listed pin whose PinAdd succeeds |
| PinSyncForcedFull.AbortedForcedCyclesStarve | docker/fula-pinning/daemon.go:96-119 | for every n a run of n cycles, one a minute, n - n/10 of them completed, that leaves a listed and pinnable pin unpinned |
| PinSyncTimes.FileHoldsLastSave | docker/fula-pinning/daemon.go:213-253 | over every run the file holds, to the second, the start of the last completed cycle whose write succeeded |
| PinSyncTimes.MemoryHoldsLastStart | docker/fula-pinning/daemon.go:88-215 | within a process the sync time is the start of its last completed cycle |
| PinSyncTimes.IncrementalSees | docker/fula-pinning/daemon.go:104-107 | an incremental cycle sees exactly what is stamped after the second of the sync time less a minute |
| PinSyncTimes.RestartGoesOnFromLastSave | docker/fula-pinning/daemon.go:54-107 | a process that starts without noticing a reset goes on from the second of the last saved cycle less a minute |
| PinSyncTimes.CompletesIff | docker/fula-pinning/daemon.go:96-172 | which queries are asked, and that a cycle completes exactly if one is answered, kubo lists its pins and no cancellation comes in time |
| PinSyncTimes.CacheIsKubo | docker/fula-pinning/daemon.go:144-199 | from a completed cycle on the cache is exactly what kubo has, while only the daemon pins |
| PinSyncTimes.CyclesAreCounted | docker/fula-pinning/daemon.go:87 | the cycle number is the number of cycles the process has begun, completed or not |
| PinSyncTimes.PinnedIsGained | docker/fula-pinning/daemon.go:166-206 | the count of pinned CIDs is what kubo has gained, but for an early registry pin |
| JsonText.QuotedReadsBack | docker/fxsupport/linux/readiness-check.py:934-935 | a quoted string followed by anything is read back, and reading stops behind it |
| JsonText.DecimalReadsBack | docker/fxsupport/linux/readiness-check.py:934-935 | decimal digits read back to the number, without leading zeros |
| KeySort.SortOrders | docker/fxsupport/linux/readiness-check.py:939-942 | sorting by key orders the members |
| KeySort.OrderedByElements | docker/fxsupport/linux/readiness-check.py:939-942 | a strictly ordered sequence is determined by its elements |
| CanonicalJson.CanonicalPrintsNormalized | docker/fxsupport/linux/readiness-check.py:925-943 | the canonical text is the plain print of the value with every dict sorted |
| CanonicalJson.NormalizeTwice | docker/fxsupport/linux/readiness-check.py:939-942 | sorting throughout is idempotent |
| JsonParser.PrintReadsBack | docker/fxsupport/linux/readiness-check.py:925-943 | whatever delimiter follows, the parser recovers exactly the printed value and stops behind it |
| CanonicalJsonProofs.ParseUndoesCanonical | docker/fxsupport/linux/readiness-check.py:925-943 | parsing the canonical text gives the value with its members in key order |
| CanonicalJsonProofs.CanonicalIffSameValue | docker/fxsupport/linux/readiness-check.py:925-943 | two values have one canonical text exactly when they are equal as values, whatever the insertion order |
| CanonicalJsonProofs.UniquelyDecodable | docker/fxsupport/linux/readiness-check.py:925-943 | value and remainder are determined by a text followed by a delimiter |
| CanonicalJsonProofs.CanonicalTexts | docker/fxsupport/linux/readiness-check.py:925-943 | a text is canonical exactly when parsing leaves nothing over and re-printing gives it back |
| CanonicalJsonShortest.CanonicalIsShortest | docker/fxsupport/linux/readiness-check.py:925-943 | no JSON text of an equal value is shorter than the canonical one |
| CanonicalJsonShortest.PlainString | docker/fxsupport/linux/readiness-check.py:929-935 | a string without quotes, backslashes and control characters stands as it is between quotes |
| CanonicalJsonShortest.StringsConcatenate | docker/fxsupport/linux/readiness-check.py:934-935 | the text of a string is that of its parts, one after the other |
| CanonicalJsonShortest.ShortEscapes | docker/fxsupport/linux/readiness-check.py:934-935 | the seven short escapes, literally |
| CanonicalJsonShortest.ControlEscapes | docker/fxsupport/linux/readiness-check.py:934-935 | every other control character is escaped with four hexadecimal digits in lower case |
| CanonicalJsonProofs.OrdersAgreeIff | docker/fxsupport/linux/readiness-check.py:926-932 | code point order and UTF-16 order agree on two keys exactly when their first difference does not straddle the surrogates |
| CanonicalJsonProofs.KeysOutOfOrder | docker/fxsupport/linux/readiness-check.py:926-932 | two keys that the two orders put the other way round |
| BleFraming.EscapedLength | docker/fxsupport/linux/bluetooth.py:144-148 | escaping a printable text keeps its length or more, and at most doubles it |
| BleFraming.FrameLength | docker/fxsupport/linux/bluetooth.py:158-163 | a frame's text is 44 characters, the index digits and the escaped data |
| BleFraming.HeaderLength | docker/fxsupport/linux/bluetooth.py:174-180 | the header's text is 52 characters and the digits of both numbers |
| BleFraming.OneRetryIsEnough | docker/fxsupport/linux/bluetooth.py:156-170 | with room for one escaped character a chunk is shrunk at most once |
| BleFraming.NoRetryUpTo999 | docker/fxsupport/linux/bluetooth.py:149-170 | up to index 999 the initial size always fits |
| BleFraming.CutEndsIff | docker/fxsupport/linux/bluetooth.py:154-172 | the two loops, turn by turn, reach the end of the text exactly when every chunk has room for its first escaped character |
| BleFraming.RoomIsEnough | docker/fxsupport/linux/bluetooth.py:154-172 | the MTU and the digits of the length are enough to see that they do |
| BleFraming.CuttableByCharacter | docker/fxsupport/linux/bluetooth.py:154-172 | where one character makes a chunk, as at an MTU of 49 or 50, the cut ends exactly if every character fits under its own index |
| BleFraming.HangsAtMtu49 | docker/fxsupport/linux/bluetooth.py:156-172 | the JSON text of a string of 998 letters, on which no number of turns reaches the end |
| BleFraming.PiecesAreACut | docker/fxsupport/linux/bluetooth.py:154-167 | the pieces are non-empty, fit under their indices 1, 2, ... and add up to the text |
| BleFraming.PieceCount | docker/fxsupport/linux/bluetooth.py:149-167 | below 1000 chunks the cut ends and the number of pieces is the quotient rounded up |
| BleHandler.BLEResponseHandler.PrepareResponse | docker/fxsupport/linux/bluetooth.py:137-186 | for every printable text: header and numbered chunks are queued, each fits the MTU, and the receiver recovers the text; or exactly which error is raised; or exactly when the source never returns |
| BleHandler.BLEResponseHandler.CutText | docker/fxsupport/linux/bluetooth.py:152-172 | the outer loop makes exactly the frames of the specified pieces, finds no size to try, or comes to a chunk that never fits |
| BleHandler.BLEResponseHandler.FitChunk | docker/fxsupport/linux/bluetooth.py:155-170 | the inner loop settles on the specified size, exactly if the first character fits |
| BleHandler.CallsInOrder | docker/fxsupport/linux/bluetooth.py:188-194 | any number of calls gives the chunks in order, each once, and then none |
| BleHandler.DeliveryReadsBack | docker/fxsupport/linux/bluetooth.py:157-186 | the receiver puts header and frames of any cut together to the text |
| BleHandler.PiecesDelivered | docker/fxsupport/linux/bluetooth.py:154-184 | every frame fits the MTU and the text comes back |
| BleJson.FrameIsJson | docker/fxsupport/linux/bluetooth.py:158-163 | a frame is, to an ordinary JSON parser, the dict of type, index and data |
| BleJson.HeaderIsJson | docker/fxsupport/linux/bluetooth.py:175-180 | and the header the dict of type, total length and number of chunks |
| BleJson.RetrySize | docker/fxsupport/linux/bluetooth.py:155-170 | the size a chunk settles on: the first one tried, or that less what the frame exceeds the MTU by, at least one |
| BleHandler.ChunkCount | docker/fxsupport/linux/bluetooth.py:149-167 | a text that needs at most 999 chunks is cut into exactly ceil(length / ((mtu - 47) / 2)) |
| BleHandler.RoomyTexts | docker/fxsupport/linux/bluetooth.py:149-172 | with (mtu - 47) / 2 >= 1 and 46 + digits(length) <= mtu preparing a response terminates |
| BleHandler.HeaderTooLargeIff | docker/fxsupport/linux/bluetooth.py:174-182 | the header of any text that can be cut is rejected exactly if 52 and the digits of its length and of the number of chunks exceed the MTU, with exact and general bounds on that number |
| BleHandler.NoHeaderBelow54 | docker/fxsupport/linux/bluetooth.py:174-182 | an MTU below 54 has room for no header |
| JsonTree.GetPut | docker/fxsupport/linux/update_kubo_config.py:105-126 | reading where one has written gives what was written |
| JsonTree.PutGet | docker/fxsupport/linux/update_kubo_config.py:105-126 | writing what is there changes nothing |
| JsonTree.PutPut | docker/fxsupport/linux/update_kubo_config.py:117-126 | the second write to a path wins |
| JsonTree.PutElsewhere | docker/fxsupport/linux/update_kubo_config.py:117-126 | a write leaves paths that part from its own as they were, absent ones included |
| JsonTree.PutCommutes | docker/fxsupport/linux/update_kubo_config.py:117-126 | writes to paths that part ways commute, even where intermediate nodes are replaced |
| JsonTree.BatchIsIdempotent | docker/fxsupport/linux/update_kubo_config.py:143-166 | repeating a batch of writes to pairwise apart or equal paths changes nothing |
| KuboConfig.PrefixAsText | docker/fxsupport/linux/update_kubo_config.py:129-134 | the comparison of dotted names is the prefix order on key paths |
| KuboConfig.GetNested | docker/fxsupport/linux/update_kubo_config.py:105-114 | the walk down finds exactly the value at the path |
| KuboConfig.ConfigFile.SetNested | docker/fxsupport/linux/update_kubo_config.py:117-126 | the walk that clears the way in place writes the value at the path and nothing else; it raises exactly if the root is no object |
| Doubles.ShareIsFourFifths | docker/fxsupport/linux/update_kubo_config.py:245-248 | up to a pebibyte the rounded quotient, the rounded product and its truncation give four fifths of the disk in whole GiB |
| Doubles.ShareIsFourFifthsIff | docker/fxsupport/linux/update_kubo_config.py:245-248 | below eight pebibytes the share is four fifths in whole GiB exactly unless the product rounds up, and then one GiB more |
| Doubles.LargeDiskRoundsUp | docker/fxsupport/linux/update_kubo_config.py:245-248 | a larger disk on which the product rounds up to the next GiB |
| KuboPipeline.MergeConfigs | docker/fxsupport/linux/update_kubo_config.py:137-168 | the loop writes the managed fields and reports exactly those that differed, in order, as added or updated; it raises exactly if there is one to write and the config is no object |
| KuboPipeline.MergeReports | docker/fxsupport/linux/update_kubo_config.py:153-165 | a field is reported as added exactly if managed, in the template and absent before; as updated exactly if both have it and differ |
| KuboPipeline.MergeTakesTemplate | docker/fxsupport/linux/update_kubo_config.py:143-166 | every managed field the template defines gets the template's value |
| KuboPipeline.MergeFrame | docker/fxsupport/linux/update_kubo_config.py:137-168 | every path incomparable with all managed fields resolves as before, found flag included |
| KuboPipeline.MergePreserves | docker/fxsupport/linux/update_kubo_config.py:62-69 | preserved fields and everything under them come through the merge |
| KuboPipeline.ApplyRelays | docker/fxsupport/linux/update_kubo_config.py:217-238 | both relay fields are set to the live relays, and reported exactly when they differed; it raises exactly if the config is no object |
| KuboPipeline.ComputeStorageMax | docker/fxsupport/linux/update_kubo_config.py:241-260 | StorageMax is set to the share the doubles give, at least 800 GB, reported exactly when changed; when the lookup raises |
| KuboPipeline.StorageMaxReads | docker/fxsupport/linux/update_kubo_config.py:245-248 | the text reads as a number of GB, at least 800, and up to a pebibyte as four fifths in whole GiB |
| KuboPipeline.UpdateConfig | docker/fxsupport/linux/update_kubo_config.py:291-330 | when the script dies, and what file it leaves; it is silent exactly when every field stood, and then need not write |
| KuboPipeline.PipelineIsIdempotent | docker/fxsupport/linux/update_kubo_config.py:291-330 | a second run with the same template, relays and disk leaves the file as it is, also when the script dies |
| KuboPipeline.DatastoreFrame | docker/fxsupport/linux/update_kubo_config.py:241-260 | in the file nothing under Datastore but StorageMax changes |
| KuboPipeline.PipelineSetsRelays | docker/fxsupport/linux/update_kubo_config.py:295-330 | with live relays both relay fields of the file end up live exactly unless the script dies and they were not so before |
| KuboPipeline.PeersAreTheRelays | docker/fxsupport/linux/update_kubo_config.py:224-234 | Peering.Peers lists, in order, entries of exactly ID and Addrs with each relay's peer ID and address; StaticRelays the multiaddrs |
| KuboPipeline.NoDriftIffStrings | docker/fxsupport/linux/readiness-check.py:851-891 | after a run the drift check is content exactly when every multiaddr is a string; if the script dies, exactly when it was content before |
| KuboPipeline.DriftEndsIff | docker/fxsupport/linux/readiness-check.py:888-915 | a run triggered by drift ends it exactly when every multiaddr is a string and, where the drive can be read, Datastore is an object or missing |
| KuboPipeline.DriftStays | docker/fxsupport/linux/update_kubo_config.py:250 | a config whose Datastore is a string: the script dies and the drift stays |
| KuboPipeline.LookupIs | docker/fxsupport/linux/readiness-check.py:851-863 | the addresses read, the fallback, and when reading crashes, in terms of the paths of the config |
| KuboPipeline.DriftIs | docker/fxsupport/linux/readiness-check.py:888-891 | drift is found exactly if some address is read and not wanted, or wanted and not read |
| KuboPipeline.QuietIffTemplateAgrees | docker/fxsupport/linux/update_kubo_config.py:291-312 | a script that did not die is silent on the file it left exactly when the template's relay fields, where present, are the live ones |
| ChunkedBody.DecodeChunkedBody | docker/fula-gateway/fula-local-gateway/src/handlers/object.rs:339-369 | the index loop stays in bounds, ends, gives the specified outcome, and fewer bytes than it read |
| ChunkedBody.DataIsShorter | docker/fula-gateway/fula-local-gateway/src/handlers/object.rs:339-369 | any data decoded is at least three bytes shorter than the body |
| ChunkedEncoding.PayloadIsStoredIff | docker/fula-gateway/fula-local-gateway/src/handlers/object.rs:296-337 | the handlers store the payload of an encoded body exactly with one of the headers or a first size line of at most 100 bytes, and the framed body exactly otherwise |
| ChunkedBody.OverflowsIff | docker/fula-gateway/fula-local-gateway/src/handlers/object.rs:356-357 | the index arithmetic overflows exactly if the loop comes to a size line whose data would end beyond usize |
| ChunkedEncoding.SizeNearMaxOverflows | docker/fula-gateway/fula-local-gateway/src/handlers/object.rs:350-357 | a first size that can be read but ends beyond usize makes the decoder panic |
| ChunkedEncoding.SixteenFsOverflow | docker/fula-gateway/fula-local-gateway/src/handlers/object.rs:352-357 | sixteen digits F are such a size |
| ChunkedEncoding.SizeLineIsRead | docker/fula-gateway/fula-local-gateway/src/handlers/object.rs:350-352 | any spelling of a size with any CRLF-free UTF-8 extension is read as that size |
| ChunkedSizes.SpellsIff | docker/fula-gateway/fula-local-gateway/src/handlers/object.rs:352 | the decoder reads digits as n exactly if, but for upper case, they are zeros and n written in base sixteen |
| ChunkedSizes.SizeIsReadIff | docker/fula-gateway/fula-local-gateway/src/handlers/object.rs:350-352 | a line states a size exactly if it is UTF-8 for blanks, perhaps a plus sign, such digits, blanks, and extensions after a semicolon |
| ChunkedSizes.StandardBodyIsDecoded | docker/fula-gateway/fula-local-gateway/src/handlers/object.rs:339-369 | bodies whose sizes are written in base sixteen, in either case and with leading zeros, are decoded to their data |
| ChunkedSizes.LooksChunkedIff | docker/fula-gateway/fula-local-gateway/src/handlers/object.rs:318-337 | a body looks chunked exactly if it begins with a line of at most 100 bytes that states a size and at least that much follows |
| Utf8Proofs.DecodeIff | docker/fula-gateway/fula-local-gateway/src/handlers/object.rs:350 | strict UTF-8 decoding succeeds exactly on encoded text, and gives that text |
| Utf8Proofs.IllFormedIsLeftOut | docker/fxsupport/linux/readiness-check.py:3582 | lenient decoding leaves out only bytes in which no character begins |
| ChunkedEncoding.DecoderUndoesEncoder | docker/fula-gateway/fula-local-gateway/src/handlers/object.rs:339-369 | decoding an encoded body gives the concatenation of its chunks, with any extensions and trailer |
| ChunkedEncoding.RecognisedIffShortLine | docker/fula-gateway/fula-local-gateway/src/handlers/object.rs:318-337 | without headers an encoded body is recognised exactly when its first size line has at most 100 bytes |
| ChunkedGrammar.DecodedIffForm | docker/fula-gateway/fula-local-gateway/src/handlers/object.rs:339-369 | a body is decoded to some data exactly if it consists of size lines with data of that size and line breaks, up to its end or a line of size zero |
| ChunkedGrammar.StoredAsItIsIff | docker/fula-gateway/fula-local-gateway/src/handlers/object.rs:296-369 | a body is stored as it came exactly if decoding is not tried, or it has no such form with data and no size beyond usize |
| ChunkedGrammar.PlainTextIsAltered | docker/fula-gateway/fula-local-gateway/src/handlers/object.rs:318-337 | a plain text of four bytes that is stored as one, without any header |
| ChunkedEncoding.TruncatedBody | docker/fula-gateway/fula-local-gateway/src/handlers/object.rs:339-369 | what the decoder makes of an encoded body cut after any number of bytes: the first k chunks exactly behind the k-th chunk's data or its line break, everything with the size zero line, rejection exactly elsewhere |
| EventLog.Log.AppendEvent | docker/fxsupport/linux/readiness-check.py:156-194 | files and success of one append as specified, for every fault |
| EventLog.Log.RotateIfOversized | docker/fxsupport/linux/readiness-check.py:177-190 | the renames leave the specified files at every point of interruption |
| EventLog.ShiftKeeps | docker/fxsupport/linux/readiness-check.py:182-187 | wherever the renames are interrupted the log reads the same |
| EventLog.RotateDropsOldest | docker/fxsupport/linux/readiness-check.py:177-190 | a rotation loses nothing, or exactly the oldest backup |
| EventLog.LogIsSuffix | docker/fxsupport/linux/readiness-check.py:156-194 | in every run with any faults the files read back as a suffix of the events written |
| EventLog.DroppedOnlyWhenFull | docker/fxsupport/linux/readiness-check.py:177-190 | without faults events are missing only while more than five times the limit of newer log is kept |
| EventLogWrites.WrittenIff | docker/fxsupport/linux/readiness-check.py:177-194 | a call writes its event exactly if the append does not fail and no operation it comes to stops the process, and it is then read last |
| EventLogWrites.EveryEventIsWritten | docker/fxsupport/linux/readiness-check.py:186-192 | failing rotations lose no event: without failing appends and stops all calls' events are written |
| EventLogWrites.FaultFreeLog | docker/fxsupport/linux/readiness-check.py:177-192 | without faults the log is the end of all calls' events, complete unless more than five times the limit is kept |
| EventLogWrites.LogIsBounded | docker/fxsupport/linux/readiness-check.py:177-192 | without faults no file exceeds the limit by more than one event, and there are at most five backups |
| WireGuard.Watchdog.CheckHandshakeAge | docker/fxsupport/linux/readiness-check.py:557-775 | one check changes counter, time stamp and state file as specified, bounces exactly when stale, online and past the cooldown, and returns health as specified for every branch |
| WireGuardRules.BouncesIff | docker/fxsupport/linux/readiness-check.py:615-672 | a bounce happens exactly if the tunnel is up, its handshake older than three minutes and three keepalives, the internet not down, and the cooldown over |
| WireGuardRules.HealthIs | docker/fxsupport/linux/readiness-check.py:600-653 | what a check that does not bounce reports |
| WireGuardRules.CounterCounts | docker/fxsupport/linux/readiness-check.py:640-750 | over every orderly run the counter is the number of bounces since the tunnel last worked |
| WireGuard.CounterIsPersisted | docker/fxsupport/linux/readiness-check.py:557-763 | in every run, with any failed writes and restarts, the file holds the counter as the last check that was saved left it |
| WireGuard.RestartResumesIff | docker/fxsupport/linux/readiness-check.py:567-581 | a restart resumes the counter of the last saved check, and with it the cooldown, exactly when it is at most 100 |
| WireGuard.RunIsSpaced | docker/fxsupport/linux/readiness-check.py:655-763 | in every orderly run the bounces since the last reset are as many as the counter, each at least its cooldown after the one before unless a restart came in between |
| WireGuard.BounceSpacing | docker/fxsupport/linux/readiness-check.py:655-763 | the k-th bounce comes at least the cooldowns of all gaps without a restart after the first; without restarts that is 600 + 1800 (k - 3) seconds |
| WireGuard.SpacingIsAttained | docker/fxsupport/linux/readiness-check.py:655-763 | for every choice of gaps cut by restarts, and any time these are to take, however short, a run from the initial state with exactly these gaps |
| WireGuard.RestartForgetsLastBounce | docker/fxsupport/linux/readiness-check.py:664-672 | after a restart the next check bounces exactly if it is stale and online |
| WireGuard.RestartSkipsCooldown | docker/fxsupport/linux/readiness-check.py:664-672 | a run from the initial state in which one restart brings the fourth bounce 605 seconds after the first |
| EnvFile.SalvageEnvTag | docker/fxsupport/linux/readiness-check.py:3567-3594 | the first usable tag, always well formed |
| EnvFileRules.SalvagedIs | docker/fxsupport/linux/readiness-check.py:3579-3594 | the tag after the last colon of the first line that assigns an image with a well-formed one, else `release` |
| EnvFile.BuildEnvText | docker/fxsupport/linux/readiness-check.py:3597-3609 | the written text is one line for each default entry |
| EnvFileRules.WrittenLines | docker/fxsupport/linux/readiness-check.py:3433-3442 | the seven lines of the written file, five of them tagged |
| EnvFileRules.RepairedWith | docker/fxsupport/linux/readiness-check.py:3486-3558 | a repair writes the salvaged tag, a missing file gets `release` |
| EnvFile.Inspect | docker/fxsupport/linux/readiness-check.py:3499-3560 | the four checks in order give the specified verdict |
| EnvFileRules.HealthyIff | docker/fxsupport/linux/readiness-check.py:3499-3560 | a file is healthy exactly if a strict reader finds only blanks, comments and assignments in it, both image keys among them |
| EnvFileRules.SplitIs | docker/fxsupport/linux/readiness-check.py:3524 | the lines with their ends are the text, and none contains a break |
| EnvFileRules.StripIs | docker/fxsupport/linux/readiness-check.py:3525 | stripping takes off all blanks at both ends and nothing else |
| EnvFile.EnvStore.WriteEnvFile | docker/fxsupport/linux/readiness-check.py:3597-3620 | the file holds the bytes for the tag exactly if a write, direct or through sudo, succeeds |
| EnvFile.EnvStore.CheckAndFix | docker/fxsupport/linux/readiness-check.py:3466-3564 | a missing or unhealthy file is rewritten with the salvaged tag, a healthy one is left alone, and when a repair is reported |
| EnvFile.FirstTagIsWellFormed | docker/fxsupport/linux/readiness-check.py:3583-3594 | every salvaged tag is well formed |
| EnvFile.WrittenFileIsHealthy | docker/fxsupport/linux/readiness-check.py:3499-3609 | the file written for a well-formed tag passes all four checks |
| EnvFile.SalvageSurvivesNulls | docker/fxsupport/linux/readiness-check.py:3580-3594 | salvaging a written file with null bytes scattered over it returns its tag |
| EnvFile.NullInsertion | docker/fxsupport/linux/readiness-check.py:3581 | inserting a null byte anywhere keeps a file within that reach |
| EnvFile.OneCheckIsEnough | docker/fxsupport/linux/readiness-check.py:3466-3564 | after one check the file is healthy exactly if it was or the write succeeded, and the next check leaves it alone |
| EnvFile.ReportIsRightIff | docker/fxsupport/linux/readiness-check.py:3485-3564 | the report for an unhealthy file is right except for a failed sudo fallback and for a repair whose service restart raises |
| EnvFile.RepairRestoresWrittenFile | docker/fxsupport/linux/readiness-check.py:3499-3508 | nulls in a written file are repaired to that very file |
| RebootBudget.TrimOld | docker/fxsupport/linux/readiness-check-recover.py:146-160 | exactly the parsable entries inside the window are kept, in order |
| RebootBudget.ScheduledIff | docker/fxsupport/linux/readiness-check-recover.py:195-287 | after any persisted run an invocation schedules a reboot exactly if the device is up long enough, no reboot of this boot created its sentinel, fewer than two lie in the last day, and the scheduling is accepted |
| RebootBudget.ReasonIs | docker/fxsupport/linux/readiness-check-recover.py:195-206 | the reason given, after any persisted run: uptime, then sentinel, then two reboots at different places of the last day |
| RebootBudget.FileAfterwards | docker/fxsupport/linux/readiness-check-recover.py:217-293 | the file after an invocation: untouched if nothing is written or the scheduling raises, else the entries of the last day and the new reboot exactly if scheduled |
| RebootBudget.RecoveryDriver.Drive | docker/fxsupport/linux/readiness-check-recover.py:209-293 | one invocation changes state file and sentinel as specified, for every failure |
| RebootBudget.RefusalCostsNothing | docker/fxsupport/linux/readiness-check-recover.py:254-287 | a failed scheduling leaves sentinel and every later count of reboots unchanged |
| RebootBudget.ThirdRebootWaitsADay | docker/fxsupport/linux/readiness-check-recover.py:195-287 | of any three scheduled reboots the third is decided more than 86400 s after the first's timestamp |
| RebootBudget.SentinelStandsIff | docker/fxsupport/linux/readiness-check-recover.py:185-192 | in every run the sentinel stands exactly if the boot began with it or a reboot scheduled since created it |
| RebootBudget.OneRebootPerBoot | docker/fxsupport/linux/readiness-check-recover.py:201-270 | a boot schedules a further reboot only after reboots none of which created its sentinel |
| RebootBudget.WithoutSentinelTwoPerBoot | docker/fxsupport/linux/readiness-check-recover.py:185-192 | a sentinel that cannot be created lets one boot schedule two |
| PluginRegistry.LocalCommandServer.ReloadPlugins | docker/fxsupport/linux/local_command_server.py:181-290 | after any history the registry is what a fresh server builds from the same manifests, also when loading raises half way |
| PluginRegistry.LocalCommandServer.RemovePluginCommands | docker/fxsupport/linux/local_command_server.py:190-194 | every plugin command goes, every built-in stays |
| PluginRegistry.LocalCommandServer.AddCommands | docker/fxsupport/linux/local_command_server.py:213-288 | the entries of a manifest are registered as specified up to the first that raises |
| PluginRegistry.ConsistentRegistry | docker/fxsupport/linux/local_command_server.py:19-50 | built-ins intact, no name in both tables, plugin commands exactly the other names |
| PluginRegistry.FirstClaimWins | docker/fxsupport/linux/local_command_server.py:264-276 | a name goes to its first valid claim in sorted order unless it is a built-in's |
| PluginRules.ServerIs | docker/fxsupport/linux/local_command_server.py:196-290 | exactly which names are registered, each for the first entry with that name, a known type and a URL of this host, with its URL, time-out and plugin; and when loading raises |
| PluginRegistry.ListingOrderIsIrrelevant | docker/fxsupport/linux/local_command_server.py:196 | the order in which manifests are found does not matter |
| Multipart.InsertsCommute | docker/fula-gateway/fula-local-gateway/src/multipart_manager.rs:37-39 | uploads of distinct part numbers commute |
| Multipart.TotalAfterInsert | docker/fula-gateway/fula-local-gateway/src/multipart_manager.rs:45-47 | a part adds its size to the total, less the size of the part it replaces |
| Multipart.LastWritesStand | docker/fula-gateway/fula-local-gateway/src/multipart_manager.rs:37-43 | parts come out in ascending number, each number with its last write |
| Multipart.OnlyLastWritesMatter | docker/fula-gateway/fula-local-gateway/src/multipart_manager.rs:37-43 | histories with the same last writes give the same parts |
| Multipart.MultipartManager.CreateUpload | docker/fula-gateway/fula-local-gateway/src/multipart_manager.rs:88-102 | a new upload without parts is added, nothing else changes |
| Multipart.MultipartManager.AddPart | docker/fula-gateway/fula-local-gateway/src/multipart_manager.rs:108-117 | a part goes to its upload, or is refused and changes nothing |
| Multipart.MultipartManager.TakeUpload | docker/fula-gateway/fula-local-gateway/src/multipart_manager.rs:119-126 | complete and abort hand the upload out and remove it |
| Multipart.MultipartManager.CleanupExpired | docker/fula-gateway/fula-local-gateway/src/multipart_manager.rs:142-154 | exactly the uploads created before the threshold go, and are counted |
| Multipart.MultipartManager.CheckUploadPart | docker/fula-gateway/fula-local-gateway/src/handlers/multipart.rs:85-94 | a part is accepted exactly for a number from 1 to 10000 and a matching open upload |
| Multipart.MultipartManager.CompleteMultipartUpload | docker/fula-gateway/fula-local-gateway/src/handlers/multipart.rs:126-165 | links, size, ETag input and count of the parts in order, or exactly which error, and the upload is gone either way |
| Multipart.UploadCollectsItsParts | docker/fula-gateway/fula-local-gateway/src/multipart_manager.rs:108-154 | whatever happens to other uploads, an open upload holds exactly its own parts |
| Multipart.CompletionReportsHistory | docker/fula-gateway/fula-local-gateway/src/handlers/multipart.rs:126-165 | completion reports the last writes of the upload's whole history in ascending number |
| Multipart.CompletesIff | docker/fula-gateway/fula-local-gateway/src/handlers/multipart.rs:126-140 | a completion succeeds exactly for its bucket and key and a part whose CID parses; an abort exactly for its bucket and key |
| Multipart.LastPart | docker/fula-gateway/fula-local-gateway/src/handlers/multipart.rs:133-165 | the part with the greatest number comes last in links and ETag input, and adds its size |
| Multipart.ExpiresIff | docker/fula-gateway/fula-local-gateway/src/multipart_manager.rs:142-154 | an expiry run takes out exactly the uploads older than the expiry time |
| Multipart.GoneStaysGone | docker/fula-gateway/fula-local-gateway/src/multipart_manager.rs:108-126 | after complete, abort or expiry an upload refuses every part |
| Multipart.AcknowledgedIsRecordedIff | docker/fula-gateway/fula-local-gateway/src/handlers/multipart.rs:89-111 | an acknowledged part is recorded exactly when nothing took the upload out while its data was stored |
| Multipart.AcknowledgedPartIsLost | docker/fula-gateway/fula-local-gateway/src/handlers/multipart.rs:89-111 | an upload completed or aborted while the data is stored: the part is gone |
| Multipart.OthersUnchanged | docker/fula-gateway/fula-local-gateway/src/multipart_manager.rs:108-154 | any sequence of operations on other uploads, expiry included, leaves an upload as it was |
| Multipart.MultipartManager.AbortMultipartUpload | docker/fula-gateway/fula-local-gateway/src/handlers/multipart.rs:213-230 | the upload is gone, or there was none, and exactly which error |
| Multipart.RefusalLosesUpload | docker/fula-gateway/fula-local-gateway/src/handlers/multipart.rs:126-140 | a refused completion or abort, for whatever reason, changes nothing exactly if there was no such upload; otherwise it can never be completed or aborted again |

## Left out

- Processes, HTTP, systemd, docker, D-Bus and the file system: their results are inputs of each step. Log lines, LEDs, sleeps and the `.syncing` marker of the daemon are not modelled.
- PinningClient.ListPinsPaginated: the listing does not change while one fetch turns its pages, the `before` and `after` comparisons are strict, and Created stamps are non-empty and of one fixed format, so that they compare as instants.
- PinSync.Daemon.SyncPins: kubo changes from outside only between cycles, priority pins run between cycles as the select loop has it, and a process does not die between the registry write and the sync time write. Go's locks around single fields are not modelled.
- PinSync.Daemon.Restart: a sync time file that does not parse counts as missing; a configuration without a registry or sync time path is a write that always fails.
- PinSyncRuns.IncrementalRefinesFull: for runs in which no PinAdd of a completed cycle fails, kubo keeps its pins, page breaks are clean, pins that a completed cycle could not see are stamped after its start less a minute, and the first completed cycle is full and not earlier than a left-over sync time; every other failure, restart and priority pin is allowed.
- PinSyncForcedFull.TenCyclesPin: a sufficient condition, ten completed cycles without a restart; PinSyncReached.PinnedByRunIff is the exact one.
- PinSyncReached.PinnedByRunIff: for runs in which fetches that are used see clean page breaks and nothing outside the daemon pins or unpins the CID.
- CanonicalJson.CanonicalPrintsNormalized: floating-point numbers, non-string keys and lone surrogates; a value is null, a boolean, an integer, a string, a list or a dict.
- BleHandler.BLEResponseHandler.PrepareResponse: json.dumps of the response itself is an input, of which only its being printable ASCII is used; a loop that never ends is the outcome Endless.
- KuboConfig.ConfigFile.SetNested: trees are values, so nested dicts are changed by reassigning the root; sharing between the template and the result, which deepcopy rules out, is not visible.
- KuboPipeline.MergeConfigs: Python's identification of 1, 1.0 and True when values are compared.
- Doubles.ShareIsFourFifthsIff: below eight pebibytes; beyond, where the size itself is rounded, the model still computes what the doubles give, but the share is not compared with four fifths.
- KuboPipeline.UpdateConfig: dry runs, backups, and a file that cannot be written.
- ChunkedBody.DecodeChunkedBody: a data end beyond usize is the outcome Overflow, the panic of a checked build; a build without overflow checks, which wraps around, is not modelled.
- ChunkedEncoding.DecoderUndoesEncoder: chunk signatures of aws-chunked are extensions that nobody verifies, as in the source.
- EventLog.LogIsSuffix: each file operation happens or does not; a line written in part and several writing processes are not modelled. One event is one line.
- WireGuard.Watchdog.CheckHandshakeAge: ages and keepalives are integers or missing; other JSON types, and the diagnostic fields of the state file, are not modelled.
- WireGuard.BounceSpacing: gaps with a restart count for nothing, because the time of the last attempt is not saved; WireGuard.SpacingIsAttained shows that no more can be promised. After a failed write, or beyond a counter of 100, a restart loses the count itself.
- EnvFile.EnvStore.WriteEnvFile: a write that breaks off in the middle, and a file that cannot be read.
- RebootBudget.RecoveryDriver.Drive: timestamps are UTC seconds; the list of recovery attempts and the record of the last decision do not influence reboots and are not kept. A call that raises before the decision is no invocation.
- PluginRegistry.LocalCommandServer.ReloadPlugins: URLs and time-outs are classified on entry rather than parsed, handlers are compared as values instead of by identity, and manifests do not change while they are read.
- Multipart.MultipartManager.CompleteMultipartUpload: hashes, the IPLD node, bucket and registry writes (which can still fail after the upload is gone), content type, metadata and the u64 width of the size.
- Multipart.AcknowledgedIsRecordedIff: no upload with the same random identifier is created while a part is stored; other uploads may be.
- Everything else in the repository: the log-pattern fixers, disk repair and WiFi handling of the watchdog, the remaining gateway handlers, the installer, the Electron interface and the plugin manager are long sequences of outside effects or would only add easy members.
