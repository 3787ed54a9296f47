# qbrdt core, modelled in Dafny

qbrdt sits between a qBittorrent client (Sonarr, Radarr, …) and Real-Debrid.
The client adds and watches torrents through a qBittorrent-compatible Web
API. qbrdt hands the torrents to Real-Debrid and keeps a row for each in its
database. A periodic tick copies Real-Debrid's state into those rows. Once
Real-Debrid has a torrent, qbrdt resolves its links and gives each file to a
chunked HTTP downloader. That downloader fetches byte ranges in parallel
into `.part<i>` files and concatenates them. A completion hook marks the
download row done, and then the torrent once all its rows are done.

The model covers these pieces:

- **Partition** (`partition.dfy`): the chunk range arithmetic and the
  `Range: bytes=first-last` header.
- **Chunk worker** (`worker.dfy`): the read loop of one chunk worker.
- **Merge** (`merge.dfy`): the merge of the part files.
- **Engine** (`engine.dfy`): the `Downloader`, with its slot counter, its
  progress fold and its hooks.
- **Standalone** (`standalone.dfy`): the HEAD-gated command-line downloader.
- **Store** (`store.dfy`): the torrent and download tables and their
  repository operations.
- **Service** (`service.dfy`): startup recovery and the completion hook.
- **Updater** (`updater.dfy`): the reconciliation tick.
- **TickSchedule** (`tick_schedule.dfy`): how the goroutines of one tick
  interleave around the slots of `downloadLock` and `torrents.Mutex`.
- **QbitTorrent** (`qbit_torrent.dfy`): the qBittorrent torrent handlers:
  parameter parsing, state derivation, info, categories, files, properties
  and delete.
- **QbitLogin** (`qbit_login.dfy`): the login handler.
- **Shared modules:** `text.dfy` holds the Go string functions used, and
  `files.dfy` models the disk as a map from path to contents. `http.dfy`
  models a request as its query or body, and `wrappers.dfy` holds `Option`.

The external world is passed in as values:

- **HTTP bodies:** a finite sequence of reads, each with the bytes it
  delivered, its error, and the speed measured right after it.
- **HEAD replies:** a value.
- **Real-Debrid:** its answers, as maps.
- **Remote calls and engine submissions:** logged into sequences.

Goroutines run sequentially, in chunk and row order, except in
`TickSchedule`, which models their interleavings within one tick.

## Model

| member | source | states |
|---|---|---|
| Partition.GoQuo | pkg/downloader/downloader.go:85 | Go's integer `/` truncates toward zero, for negative dividends too |
| Partition.Ranges | pkg/downloader/downloader.go:148-154 | there is one range per chunk |
| Partition.RangesTile | pkg/downloader/downloader.go:150-154 | chunk 0 starts at byte 0; each chunk starts right after the previous one ends; the last ends at `totalSize-1` |
| Partition.LengthsSumToTotal | pkg/downloader/downloader.go:132-154 | the lengths `end-start+1` of the ranges add up to `totalSize` |
| Partition.ChunkLengths | pkg/downloader/downloader.go:132-154 | every non-last chunk is `totalSize/chunk` long; the last also takes the remainder; with `totalSize < chunk` every non-last range is empty (`end = start-1`) |
| Partition.OwnerContains | pkg/downloader/downloader.go:150-154 | every byte of the file lies in the range of a computed owner chunk |
| Partition.ExactlyOneOwner | pkg/downloader/downloader.go:150-154 | every byte of `[0, totalSize-1]` lies in exactly one range: no gap, no overlap |
| Partition.OrderedRanges | pkg/downloader/downloader.go:150-154 | an earlier range ends before a later one starts |
| Partition.RangeHeaderRoundTrip | pkg/downloader/downloader.go:185 | the `bytes=%d-%d` header carries the range exactly: reading it back gives the range |
| Partition.AllRangesNonEmptyIff | cmd/downloader/downloader.go:110-121 | every chunk's header names a satisfiable range (`first <= last`) exactly when the file has at least as many bytes as there are chunks |
| Files.PartName | pkg/downloader/downloader.go:157 | the part file name `path.part<i>` extends `path` |
| Files.PartNameInjective | pkg/downloader/downloader.go:103-157 | two chunks never share a part file |
| Files.RemoveAll | internal/api/qbittorrent/torrent.go:617 | `os.RemoveAll(dir)` removes exactly the files whose resolved path is `dir` or lies below it, and leaves every other file unchanged; `""` removes nothing |
| Files.DoubledSeparator | internal/api/qbittorrent/torrent.go:617 | a doubled separator resolves like a single one, so `a//b` and `a/b` name the same directory |
| Files.TrailingSeparator | internal/api/qbittorrent/torrent.go:617 | a trailing separator is ignored, so `dir/` names `dir` |
| Text.Split | internal/api/qbittorrent/torrent.go:598-608 | `strings.Split` gives at least one piece and no piece holds the separator |
| Text.JoinSplit | internal/api/qbittorrent/login.go:75-76 | splitting loses nothing: joining the pieces back gives the string |
| Text.SplitJoin | internal/api/qbittorrent/login.go:75-76 | splitting undoes joining pieces that hold no separator |
| Text.ReplaceFirst | internal/api/qbittorrent/torrent.go:606 | `strings.Replace(s, p, "", 1)` replaces the first occurrence of `p`, or returns `s` when `p` does not occur |
| Text.ToUpper | internal/api/qbittorrent/torrent.go:384 | `strings.ToUpper` maps each character to its upper case and keeps the length |
| Text.ToUpperIdempotent | internal/api/qbittorrent/torrent.go:610 | upper-casing twice is upper-casing once |
| ChunkWorker.StopIndex | pkg/downloader/downloader.go:206-246 | the loop stops at the first read with an error, or when the body runs out |
| ChunkWorker.DownloadChunk | pkg/downloader/downloader.go:177-249 | the header is `bytes=start-end`; a failed request touches no file; otherwise the part file holds the concatenation of the buffers read, `downloadedSize` is their total, there is one event and one possible sleep per non-empty read, and the result is the stopping read's error unless that is EOF |
| ChunkWorker.Step | pkg/downloader/downloader.go:209-235 | a read extends the file and the count by its bytes; an empty read adds no event and no sleep; a non-empty one adds the event `{downloaded, end-start+1, percent}` |
| ChunkWorker.PayloadLength | pkg/downloader/downloader.go:211-214 | the part file holds as many bytes as the worker counted |
| ChunkWorker.EventsIncrease | pkg/downloader/downloader.go:222-228 | event counts are positive and strictly increasing, the last equals `downloadedSize`, and every total is `end-start+1` |
| ChunkWorker.OneEventPerNonEmptyRead | pkg/downloader/downloader.go:209-234 | events and sleeps each number exactly the reads that delivered bytes |
| ChunkWorker.NoLimitNoSleep | pkg/downloader/downloader.go:231-234 | with a speed limit of 0 or less the worker never sleeps |
| ChunkWorker.WorkerResult | pkg/downloader/downloader.go:237-245 | the worker returns nil exactly when the loop ended at EOF; any other error is returned at the read that raised it |
| ChunkWorker.CleanBodyWhole | pkg/downloader/downloader.go:206-246 | a body whose reads all succeed up to EOF is consumed whole, with no error |
| Merge.FirstMissing | pkg/downloader/downloader.go:103-108 | the merge stops at the first part not on disk, or after the last part |
| Merge.MergeChunks | pkg/downloader/downloader.go:96-124 | the destination holds parts `0..k-1` in index order and those parts are removed, where `k` is the first missing part; the error names part `k` |
| Merge.MergedContents | pkg/downloader/downloader.go:103-121 | after merging up to `k`, the destination is the concatenation; parts below `k` are gone; later parts and every other file are unchanged |
| Merge.CompleteMerge | pkg/downloader/downloader.go:103-123 | with every part on disk the merge succeeds |
| Merge.AbortedMerge | pkg/downloader/downloader.go:104-108 | with part `k` missing and all parts before it present, the merge reports part `k` |
| Engine.RunWorkers | pkg/downloader/downloader.go:148-168 | worker `i` fetches chunk range `i` into `path.part<i>`; the disk and the events are those of the workers in chunk order |
| Engine.Downloader.constructor | pkg/downloader/downloader.go:45-56 | a new Downloader holds no slot and has made no hook call |
| Engine.Downloader.TakeSlot | pkg/downloader/downloader.go:65 | a slot is granted exactly when fewer than `maxDownloads` are held |
| Engine.Downloader.ReleaseSlot | pkg/downloader/downloader.go:66-69 | giving the slot back frees one |
| Engine.Downloader.DownloadFile | pkg/downloader/downloader.go:127-175 | the destination is `SavePath/FileName`; the workers run over the chunk ranges of `FileSize`, then the merge; the error is the merge's |
| Engine.Downloader.AddDownload | pkg/downloader/downloader.go:58-93 | no slot means the call waits and nothing runs; otherwise the record is the fold of every event, OnUpdate is called once per event and then OnFinish once, whether or not the download failed; the slot count is restored |
| Engine.Downloader.Report | pkg/downloader/downloader.go:80-92 | the record returned is every event folded into the caller's record in order, and OnUpdate receives each intermediate record |
| Engine.FetchedParts | pkg/downloader/downloader.go:157-160 | a worker that got a body leaves that body's bytes in its part; a failed one leaves the part as it was |
| Engine.SlicesJoin | pkg/downloader/downloader.go:148-154 | contiguous ranges starting at byte 0 cut out the file's leading bytes |
| Engine.ExactReconstruction | pkg/downloader/downloader.go:127-175 | when every chunk request is answered with exactly its bytes, the merge succeeds and the destination holds the whole file |
| Engine.RangesCutWhole | pkg/downloader/downloader.go:148-154 | the slices of all ranges, laid end to end, are the whole file |
| Engine.FoldOverCounts | pkg/downloader/downloader.go:86 | folding adds each event's cumulative count to `Downloaded`, so a chunk that reports twice is counted more than once |
| Engine.LastEventWins | pkg/downloader/downloader.go:85-87 | `Progress` is the last event's percent divided by `chunk`; `Remaining` is its remaining time times `chunk`; the URL and the caller's object are kept |
| Standalone.DownloadFile | cmd/downloader/downloader.go:97-142 | a failed HEAD or a status other than 200 returns an error and touches no file; a 200 runs the workers over the ranges of its Content-Length, then the merge |
| Store.Empty | internal/database/torrents.go:42-58 | a fresh database is valid and empty |
| Store.InsertTorrent | internal/database/torrents.go:73-75 | a create gives the row the next id; an `RDId` already present is refused (`unique`) and nothing changes |
| Store.SaveTorrent | internal/database/torrents.go:95-97 | a row with an id replaces that row unless another row holds its `RDId`; download rows are untouched; validity is kept |
| Store.RemoveTorrent | internal/database/torrents.go:99-101 | exactly the row with that id disappears |
| Store.RemoveByRDId | internal/database/torrents.go:103-108 | exactly the rows with that `RDId` disappear; the others are unchanged |
| Store.ResetDownloading | internal/database/torrents.go:128-132 | every `downloading` row becomes `waiting_for_download` and no other row changes |
| Store.MarkTorrentDownloaded | internal/database/torrents.go:146-151 | the row's status and internal status both become `downloaded` and no other row changes |
| Store.NewDownload | internal/database/download.go:19-31 | the record carries the given user, torrent, file name, size, file path, URL and completion flag, with `Progress` and `Downloaded` at 0 |
| Store.InsertDownload | internal/database/download.go:44-46 | exactly one row is added under the next id |
| Store.SaveDownload | internal/database/download.go:58-60 | the row with the record's id becomes the record and the torrents are untouched |
| Store.PurgeIncomplete | internal/database/download.go:54-56 | exactly the incomplete download rows disappear |
| Store.Rows | internal/database/torrents.go:83-120 | a filtered read returns exactly the stored rows that satisfy the filter |
| Store.FindAllNotDownloadedExact | internal/database/torrents.go:83-87 | the rows returned are exactly the stored rows whose internal status is not `downloaded` |
| Store.FindByStatusExact | internal/database/torrents.go:110-114 | the rows returned are exactly the stored rows with that status |
| Store.FindByCategoryExact | internal/database/torrents.go:116-120 | the rows returned are exactly the stored rows of that category |
| Store.DownloadsOfExact | internal/database/torrents.go:153-157 | the rows returned are exactly the download rows of that torrent; `DownloadRepository.FindAllByRdId` (internal/database/download.go, lines 48-52) applies the same `torrent_id` filter |
| Store.HasDownloadIff | internal/database/torrents.go:140-144 | true exactly when some download row belongs to the torrent |
| Store.AllDownloadsAreDownloadedIff | internal/database/torrents.go:134-138 | true exactly when no download row of the torrent is incomplete, so also for a torrent without rows |
| Store.FindByRDIdExact | internal/database/torrents.go:89-93 | "not found" exactly when no row has that `RDId`; otherwise the row that has it |
| Store.ResetDownloadingIdempotent | internal/database/torrents.go:128-132 | resetting twice is resetting once |
| Store.ResetDownloadingEffect | internal/database/torrents.go:128-132 | no row is `downloading` afterwards; other rows and columns are unchanged |
| Store.CleanAllDownloadsIdempotent | internal/database/download.go:54-56 | cleaning twice is cleaning once, and afterwards every row is complete |
| Store.CreateDownloadAddsOne | internal/database/download.go:44-46 | a create adds exactly one row and keeps every earlier row |
| Store.DeleteByRDIdAtMostOne | internal/database/torrents.go:103-108 | because `RDId` is unique, a delete by `RDId` removes at most one row |
| Store.Database.constructor | internal/database/torrents.go:65-71 | the tables start empty |
| Store.Database.CreateTorrent | internal/database/torrents.go:73-75 | the tables become `InsertTorrent` of the old ones |
| Store.Database.UpdateTorrent | internal/database/torrents.go:95-97 | the tables become `SaveTorrent` of the old ones |
| Store.Database.DeleteTorrent | internal/database/torrents.go:99-101 | the tables become `RemoveTorrent` of the old ones |
| Store.Database.DeleteByRDId | internal/database/torrents.go:103-108 | the tables become `RemoveByRDId` of the old ones |
| Store.Database.UpdateTorrentsStatusToWaitingForDownload | internal/database/torrents.go:128-132 | the tables become `ResetDownloading` of the old ones |
| Store.Database.UpdateTorrentStatusToDownloaded | internal/database/torrents.go:146-151 | the tables become `MarkTorrentDownloaded` of the old ones |
| Store.Database.CreateDownload | internal/database/download.go:44-46 | the tables become `InsertDownload` of the old ones; the new row's id is returned |
| Store.Database.UpdateDownload | internal/database/download.go:58-60 | the tables become `SaveDownload` of the old ones |
| Store.Database.CleanAllDownloads | internal/database/download.go:54-56 | the tables become `PurgeIncomplete` of the old ones |
| Service.Startup | internal/qbrdt/qbrdt.go:67-69 | startup purges incomplete downloads, then resets `downloading` torrents |
| Service.RecoverClean | internal/qbrdt/qbrdt.go:67-69 | after startup no download row is incomplete and no torrent is `downloading` |
| Service.RecoverKeeps | internal/qbrdt/qbrdt.go:67-69 | recovery keeps every complete download row and every torrent, and changes only the internal status of `downloading` ones |
| Service.RecoverIdempotent | internal/qbrdt/qbrdt.go:67-69 | recovering twice is recovering once |
| Service.RecoverOrderIrrelevant | internal/qbrdt/qbrdt.go:68-69 | the two startup steps touch different tables, so their order does not matter |
| Service.OnFinish | internal/qbrdt/qbrdt.go:49-55 | the finish hook saves the row as complete, then marks the torrent downloaded if all its rows are complete |
| Service.Hook | internal/qbrdt/qbrdt.go:47-55 | the update hook changes nothing; the finish hook is `Finish` |
| Service.UpdatesChangeNothing | internal/qbrdt/qbrdt.go:47-48 | running the hooks over the update calls of a download leaves the tables as they were |
| Service.DownloadHooks | internal/qbrdt/qbrdt.go:47-55 | the hook calls one `AddDownload` logs, an update per event and then the finish, amount to one `Finish` of the row the download carries |
| Service.FinishMarksRow | internal/qbrdt/qbrdt.go:50-51 | the hook's row becomes complete and no other download row changes |
| Service.FinishMarksTorrent | internal/qbrdt/qbrdt.go:53-55 | the torrent becomes `downloaded` exactly when every other row of it is already complete; otherwise no torrent changes |
| Service.FinishIdempotent | internal/qbrdt/qbrdt.go:49-55 | delivering the same finish twice is delivering it once |
| Updater.UpdateInternalStatus | internal/jobs/updater.go:47-61 | never yields `downloaded` or unset; a remote status other than `downloaded` alone decides (`dead` gives error, anything else waiting); with `downloaded` the status is kept exactly when it is waiting-for-download, error or downloading, and otherwise becomes waiting-for-download |
| Updater.NextStatus | internal/jobs/updater.go:96-120 | the row becomes `downloading` exactly when the remote is `downloading`, or `downloaded` with a download running, or `waiting_files_selection` on a `downloading` row; `downloaded` without a running download gives `pausedUP`, `dead` gives `error`, `queue` gives `queuedUP`, `uploading` gives `checkingUP`, `waiting_files_selection` keeps the status, and any other remote status gives `unknown` |
| Updater.NewRowIsNewDownload | internal/jobs/updater.go:146-154 | the record `saveDownload` builds inline is `NewDownload` for user 0, an unset file path and an incomplete row, with the save path `savePath/category/RDName` |
| Updater.TorrentUpdater.constructor | internal/jobs/updater.go:63-75 | the updater starts with no remote call and no submission |
| Updater.TorrentUpdater.SaveDownload | internal/jobs/updater.go:138-173 | the world becomes `SaveDownloads` of the old one: one row and one engine submission per link the remote side resolves |
| Updater.TorrentUpdater.Visit | internal/jobs/updater.go:75-134 | the world becomes `Tick` of the old one for that snapshot row |
| Updater.TorrentUpdater.RefreshRow | internal/jobs/updater.go:94-131 | for a row the remote side answers for, the world becomes `Refresh` of the old one: status update, downloads started when newly finished, the remote progress, seeders and speed copied, the row saved |
| Updater.TorrentUpdater.Run | internal/jobs/updater.go:63-136 | the world becomes the tick over the not-downloaded rows as they stood at the start |
| Updater.UpdateInternalStatusIdempotent | internal/jobs/updater.go:47-61 | applying the update twice is applying it once |
| Updater.SaveDownloadsEffect | internal/jobs/updater.go:138-173 | each resolvable link adds one incomplete row for this torrent, saved under `savePath/category/RDName`, plus one submission with that path; earlier rows, submissions, torrents and remote calls are kept |
| Updater.TickSettlesComplete | internal/jobs/updater.go:81-85 | a row whose downloads are all complete becomes `downloaded` without a remote call |
| Updater.TickDropsUnknown | internal/jobs/updater.go:87-92 | a row the remote side does not know is deleted there and here, and nothing else changes |
| Updater.TickDeadMarksError | internal/jobs/updater.go:53-122 | a row reported `dead` is kept with status and internal status `error` and the remote progress |
| Updater.TickStartsDownloads | internal/jobs/updater.go:47-104 | a finished remote copy whose row is new or `waiting_for_download` (as every `downloading` row is after a restart), and whose downloads are not all complete, yields one submission per resolvable link, and the row becomes `downloading` |
| Updater.RestartSettlesPartial | internal/jobs/updater.go:80-85 | a torrent that had a complete and an incomplete download row before a restart loses the incomplete row in the startup recovery, and the next tick marks it `downloaded` without submitting anything: the lost file is never fetched |
| Updater.EmptyRDIdFallsThrough | internal/jobs/updater.go:76-85 | a row without `RDId` is deleted, but the tick carries on with it, so a complete one is saved back |
| Updater.TickTouchesOnlyItsRow | internal/jobs/updater.go:75-134 | a tick changes no torrent row but its own |
| Updater.SaveDownloadsSameRow | internal/jobs/updater.go:146-154 | saveDownload reads only the torrent's id, category and name |
| Updater.SaveDownloadsTorrents | internal/jobs/updater.go:138-173 | saveDownload leaves the torrents table alone |
| Updater.RunTouchesOnlyVisited | internal/jobs/updater.go:70-75 | a run changes no torrent row outside its snapshot |
| Updater.RunKeepsDownloaded | internal/jobs/updater.go:70 | a `downloaded` row comes out of a run unchanged |
| Http.QueryParam | internal/api/qbittorrent/login.go:53-54 | a missing query parameter reads as `""` |
| QbitTorrent.FormValue | internal/api/qbittorrent/torrent.go:261-271 | a POST value is never empty and holds no `=` |
| QbitTorrent.FormValueRoundTrip | internal/api/qbittorrent/torrent.go:227-237 | a body `key=value` (no further `=`, value non-empty) yields the value |
| QbitTorrent.FormValueShape | internal/api/qbittorrent/torrent.go:365-375 | conversely, a body that yields a value is a `=`-free key, one `=`, and that value |
| QbitTorrent.InfoCategory | internal/api/qbittorrent/torrent.go:255-274 | a GET always gives a category; an empty category can only come from a GET |
| QbitTorrent.HashParam | internal/api/qbittorrent/torrent.go:359-384 | a hash is never empty and is upper-cased; a GET fails exactly when `hash` is empty |
| QbitTorrent.QbitState | internal/api/qbittorrent/torrent.go:291-302 | `downloading` for status downloading, or downloaded with a download running; `pausedUP` for downloaded/downloaded; `error` for error; `paused` otherwise; never `stalledDL` |
| QbitTorrent.TorrentsInfo | internal/api/qbittorrent/torrent.go:253-355 | fails exactly when the POST body has no value; otherwise one record per torrent of the category, in table order |
| QbitTorrent.InfosExact | internal/api/qbittorrent/torrent.go:276-335 | every record names the category and `savePath/category`, and every stored torrent of the category has its record |
| QbitTorrent.Categories | internal/api/qbittorrent/torrent.go:204-219 | one entry per distinct name, each with `save_path = savePath/name` |
| QbitTorrent.TorrentsFiles | internal/api/qbittorrent/torrent.go:357-406 | the answer is `FilesReply`: one `/RDName/FileName` per download row of the torrent |
| QbitTorrent.FilesExact | internal/api/qbittorrent/torrent.go:384-403 | fails exactly when the hash is missing or no row has it as `RDId`; otherwise the names are exactly those of the torrent's download rows |
| QbitTorrent.PropertiesReply | internal/api/qbittorrent/torrent.go:408-480 | Ok exactly when the hash names a stored torrent; seeds and peers are its seeder count |
| QbitTorrent.SavePathsDiffer | internal/api/qbittorrent/torrent.go:461 | the properties' save path is `savePath//category`, one separator longer than the info record's |
| QbitTorrent.HashCaseIgnored | internal/api/qbittorrent/torrent.go:384-440 | hashes differing only in letter case get the same files and properties answers |
| QbitTorrent.SegmentHashesRoundTrip | internal/api/qbittorrent/torrent.go:605-608 | a segment `hashes=h1\|h2\|…` names exactly `h1, h2, …` |
| QbitTorrent.TorrentDir | internal/api/qbittorrent/torrent.go:617 | the directory removed is the one `saveDownload` saved the torrent's files under |
| QbitTorrent.EmptyNameRemovesCategory | internal/api/qbittorrent/torrent.go:617 | for a torrent with an empty `RDName` the path removed resolves to its category's directory, so every file of that category goes |
| QbitTorrent.NoCategoryIsTopLevel | internal/api/qbittorrent/torrent.go:617 | for a torrent with an empty category, `savePath//name` resolves to `savePath/name`, the directory of a category called `name` |
| QbitTorrent.DeleteHashesAppend | internal/api/qbittorrent/torrent.go:604-626 | deleting `a` and then, on success, `b` is deleting `a + b` |
| QbitTorrent.DeleteEach | internal/api/qbittorrent/torrent.go:608-624 | the tables, disk and result become `DeleteHashes` of the segment's hashes |
| QbitTorrent.DeleteTorrent | internal/api/qbittorrent/torrent.go:591-630 | the tables, disk and result become `DeleteHashes` of all the hashes the body names, in order |
| QbitTorrent.DeleteHashesEffect | internal/api/qbittorrent/torrent.go:609-624 | only named torrents leave the table, and on success none remains; only files under a deleted torrent's resolved directory leave the disk, and every deleted torrent's directory is gone; download rows are untouched |
| QbitTorrent.DeleteHashesStops | internal/api/qbittorrent/torrent.go:611-615 | a failure stops at the first unknown hash; earlier deletions remain and nothing after it runs |
| QbitTorrent.DuplicateHashFails | internal/api/qbittorrent/torrent.go:609-615 | naming a known torrent twice deletes it and then fails |
| QbitLogin.ParseLoginBody | internal/api/qbittorrent/login.go:66-92 | the loop's result is `ParsedBody` |
| QbitLogin.ParsedNoneExtends | internal/api/qbittorrent/login.go:77-78 | one malformed segment makes the whole body nil |
| QbitLogin.ParsedExact | internal/api/qbittorrent/login.go:73-88 | a body parses exactly when every `&` segment is one `key=value` pair; the credentials are then the last `username` and `password` given, `""` when absent, and other keys are ignored |
| QbitLogin.LoginBodyRoundTrip | internal/api/qbittorrent/login.go:75-86 | `username=u&password=p` yields `u` and `p` |
| QbitLogin.EmptyBodyIsNil | internal/api/qbittorrent/login.go:75-78 | an empty body yields the nil result |
| QbitLogin.LoginResult | internal/api/qbittorrent/login.go:36-64 | authenticated means Ok whatever is supplied; otherwise Ok and the flag set exactly when both supplied credentials match; a crash exactly for a POST body that parses to nil |
| QbitLogin.Replay | internal/api/qbittorrent/login.go:36-64 | a sequence of logins gives one outcome per request |
| QbitLogin.OkIsForever | internal/api/qbittorrent/login.go:38-61 | after the first Ok, every later login answers Ok |
| QbitLogin.AuthenticatedReplay | internal/api/qbittorrent/login.go:38-40 | an authenticated handler answers Ok to every login |
| QbitLogin.AuthApi.constructor | internal/api/qbittorrent/login.go:22-34 | the handler starts unauthenticated with the configured credentials |
| QbitLogin.AuthApi.Login | internal/api/qbittorrent/login.go:36-64 | the outcome and the new flag are `LoginResult` of the old flag |
| TickSchedule.AsWrittenDeadlocks | pkg/downloader/downloader.go:58-93 | with the slot held through `OnFinish`, one slot and two downloads whose hooks lock `torrents.Mutex`, the schedule call, take, close, return, call reaches a state that is not over and from which no step is possible |
| TickSchedule.StepInv | internal/jobs/updater.go:63-136 | every step keeps the tick's invariant: the downloads the caller has left have closed their channels, those after it are not started, and `Run` releases the mutex only after starting every download |
| TickSchedule.ExecInv | internal/jobs/updater.go:63-136 | every schedule of steps from a state meeting the invariant ends in a state meeting it |
| TickSchedule.Progress | pkg/downloader/downloader.go:58-93 | with the slot given back before `OnFinish` and at least one slot, a state meeting the invariant that is not over has a step that can happen |
| TickSchedule.ReleasedNeverStuck | pkg/downloader/downloader.go:58-93 | with the slot given back before `OnFinish` and at least one slot, no schedule of the tick reaches a stuck state, whatever hooks lock the mutex |

## Left out

- Network and disk failures outside the modelled paths are left out: `http.NewRequest`, `os.Create`, `os.MkdirAll`, `os.Stat`, `io.Copy`, `io.ReadAll` and write errors. Bodies, HEAD replies and Real-Debrid answers are given as values, and the disk is a map that never fails.
- Outside `TickSchedule`, goroutines, channels, the `WaitGroup` and mutexes are not modelled. Workers run in chunk order, events are delivered chunk by chunk, and `AddDownload` runs to the end. Interleavings, and the blocking wait for a slot, are not captured: a call with no free slot is the outcome `WaitingForSlot`. `TickSchedule` models the interleavings of one tick, at the level of slots and the mutex only.
- Floating point and the clock are abstracted. Speed is given per read, the percentage is an integer, and the remaining time is in whole seconds. The sleep is a duration in milliseconds. `CalculateRemainingTime` and the float fields of the JSON records are left out.
- Engine.Downloader.constructor: requires a chunk count of at least 1. A chunk count of 0 panics in Go's integer division; that panic path is not modelled. A negative chunk count is excluded too, although the source accepts it (the configured value is not checked): the division of the size is then defined, the worker loop and the merge loop do not run, `mergeChunks` creates an empty destination and returns nil, and the finish hook marks the row complete, so the source reports an empty file as a finished download. A negative `maxDownloads` is accepted here and grants no slot, where `make(chan struct{}, n)` panics in the source.
- ChunkWorker.Percent: gives 0 when the range length is 0 or less. In the source the float division then yields an infinity or NaN, and converting that to `int` is implementation-defined. This is reachable: with `totalSize < chunk` the non-last ranges are empty, and a server may still answer them with bytes.
- Store: gorm's soft delete, timestamps and auto fields are left out, and ids come from a counter. Create and Update errors other than the `RDId` uniqueness refusal are left out. Under soft delete a deleted row keeps its `RDId` reserved by the `unique` index, so the source refuses a create that Store.InsertTorrent accepts once the earlier row is deleted.
- Store: the source filters and writes both `downloaded` and `is_downloaded`, and assigns booleans to the int64 `Downloaded` column. The model keeps one boolean completion flag, `isDownloaded`.
- Updater.TorrentUpdater.SaveDownload: a failed `Create` still leads to a submission in the source. Creates cannot fail here, so that case is not shown.
- Updater.TorrentUpdater.SaveDownload: in the source `AddDownload` does not return until its download's progress channel is closed. So each download runs to its end inside the tick, while `Run` holds `torrents.Mutex`. Its finish hook may already have saved the row complete by the time `saveDownload` moves on. The model hands the downloads to an outbox instead and runs the finish hook later. So the rows Updater.SaveDownloadsEffect describes as incomplete may already be complete in the source. Each finish hook that completes a torrent blocks on that mutex while holding its slot; the deadlock this causes is under Findings and in `TickSchedule`, and the sequential model follows the corrected order.
- The preferences and categories repositories are not part of this model. The save path and the distinct category names are parameters.
- QbitTorrent: `RDHash`, `RDSize`, the timestamps, and the constant or float fields of the info and properties records are not modelled. `PiecesHave`/`PiecesNum` (the unloaded `Downloads` association) are not modelled either.
- QbitTorrent: `addTorrent`, `addTorrentFromFile`, `saveCatergories`' category creation and directory creation rest on the Real-Debrid client, multipart parsing and the categories repository, and are not modelled. Only the `=` parsing they share is.
- QbitTorrent.DeleteEach: `os.RemoveAll` and `DeleteByRDId` cannot fail here. Only a failed lookup ends the deletion.
- Files.RemoveAll: paths are resolved by dropping doubled and trailing separators only; `.` and `..` pieces and symbolic links are not resolved. The disk map keys files by their path as written, so two spellings of one file are two entries; only the removal resolves paths.
- Text.ToUpper: only ASCII letters are upper-cased; Unicode case mapping is not modelled.
- Standalone.DownloadFile: the source's error message for a non-200 HEAD status is in French. The model keeps its structure, a fixed prefix followed by the status line, with an English prefix.
- Configuration, `main`, route registration and JSON response structs are not modelled.

## Findings

| source | as written | input that shows it | evidently intended | confidence | as-written member | corrected member |
|---|---|---|---|---|---|---|
| pkg/downloader/downloader.go:64-77 | the slot of `downloadLock` is given back by a deferred receive, after `OnFinish` returns; the finish hook (internal/qbrdt/qbrdt.go, lines 53-54) locks `torrents.Mutex`, which `Run` (internal/jobs/updater.go, lines 66-68) holds for the whole tick while `AddDownload` waits for each channel to close | `maxDownloads = 1`; two torrents become ready in one tick, each with one resolvable link, so each hook completes its torrent: the first hook waits for the mutex holding the only slot, the second goroutine waits for the slot, `Run` waits for the second channel | a download occupies a slot only while it downloads, so the hooks wait for the tick without blocking the downloads it is waiting for | high (not executed) | TickSchedule.AsWrittenDeadlocks | TickSchedule.ReleasedNeverStuck |
