# Download-write-hash pipeline of a Qt downloader, in Dafny

The repository is a Qt desktop downloader:
- The user pastes a file URL, or the URL of a web page whose links are harvested.
- Each URL becomes one row of a table.
- "Start all" fetches every row over HTTP(S).
- `MainWindow` relays the received chunks to a file-writer worker thread.
- When a reply finishes, `MainWindow` closes the file and asks a hasher thread for a SHA-256.
- A separate `DBManager` keeps a durable SQLite ledger of the downloads.

This project models the three parts of that core:

* **FileWriter** (`filewriter.dfy`) — the `FileWriterWorker` object, its table of open handles (row → file), the disk it writes to and the signals it emits. The pure step functions `OpenStep`, `AppendStep` and `CloseStep` are its specification. The class `FileWriter.FileWriterWorker` updates its fields in place and is proved equal to them. Run lemmas show what a sequence of commands leaves on disk. The identical inline copy of the worker in `mainwindow.h` is covered by the same module.
* **Ledger** (`ledger.dfy`) — `DBManager` over a table of rows keyed by (`url`, `file_path`). It covers insert-or-ignore, the three `UPDATE … WHERE url AND file_path` statements, `fetchRecent`'s newest-first listing with `LIMIT`, and `clearAll`. The class `Ledger.DBManager` holds `isOpen` and the rows. Its methods are proved against pure table functions, which keep the key unique. The clock reading `now` is taken as it comes.
* **Coordinator** (`base.dfy`, `helpers.dfy`, `window.dfy`, `mainwindow.dfy`). The pure helpers of `mainwindow.cpp` are functions with lemmas: `fileNameFromUrl`, `looksLikeWebPage`, `hasAllowedExtension`, `allowedByFilter`, the percent formula and the status texts.
  - **`WindowModel`** models the window's state (table rows, folder, the two reply→row/path hashes, the tracked page reply, the requests emitted to the workers). Each slot becomes a handler function on that state. The invariant `WindowModel.Valid` says:
    - every routed reply points at an existing row whose file was opened on the routed path;
    - every append, close or hash request refers to a row opened earlier;
    - every hash request comes right after the close of the same row;
    - the table lists each trimmed URL once.

    Every handler keeps that invariant, so every run of events from the initial window keeps it too.
  - **`Coordinator.MainWindow`** is the class itself. Its fields are the table's rows and the members `downloadDir`, `replyToRow`, `replyToPath`, `pageReply` and `pageBaseUrl` (as `pageBase`) of `mainwindow.h`. Two fields exist only in the model: `nextReply` numbers the replies, and `requests` records the signals sent to the workers. Its methods follow the slots statement by statement, including the loops:
    - `urlExistsInTable`;
    - the seen set of `extractLinksFromHtml`;
    - the `added` counter of `onPageFetched`;
    - the row loop of `onStartAllClicked`.

    Each method is proved to leave the object in the state the matching `WindowModel` function computes.

QUrl parsing and `QUrl::resolved` are outside the model: the window receives them as function values (`parse`, `resolve`). The fields of the resulting `Url` (validity, scheme, host, path, text, decoded form) are what the code reads. Network replies are numbered handles. The outcome of a reply, the bytes read, the folder the dialog returns and the regex captures of a page are all parameters.

In two places the model follows the code as written:

- **Hash gating.** `handleFinished` emits `requestCloseFile` and then `requestHash` straight away. It does not wait for the writer's `fileClosed`. The model proves only what the code guarantees, in `WindowModel.HashFollowsClose` and `WindowModel.FinishedClosesBeforeHash`: in the request trace each hash request comes right after the close of its row. Whether the writer thread has finished closing by the time the hasher reads the file is not decided by the window.
- **Status values.** The statuses are the code's texts. `Status` is a tagged variant and `Render` produces the strings the table shows. The "Start all" test is written on the text, as in the code, and is proved equal to a test on the variant (`WindowModel.RestartableIsTextTest`).

## Model

| member | source | states |
|---|---|---|
| Base.TrimSlice | mainwindow.cpp:135 | trimming keeps one contiguous middle part of the text and removes only whitespace before and after it |
| Base.TrimEnds | mainwindow.cpp:143 | a trimmed text is empty or starts and ends with a non-space character |
| Base.TrimBlank | mainwindow.cpp:143 | a text trims to empty exactly when every character is whitespace |
| Base.LowerSpec | mainwindow.cpp:188 | lower-casing keeps the length and maps each character on its own (ASCII letters only) |
| WindowHelpers.FileNameOfSpec | mainwindow.cpp:101 | the file name of a path contains no '/', is a suffix of the path, is preceded by '/', and is empty exactly when the path is empty or ends in '/' |
| WindowHelpers.FileNameFromPathSpec | mainwindow.cpp:98-104 | fileNameFromUrl is never empty and has no '/'; it is "download.bin" when the path has no file part, else the path's last segment |
| WindowHelpers.SuffixOfSpec | mainwindow.cpp:180 | the suffix has no '.', ends the name, follows the last '.', and is non-empty exactly when the name has a '.' that is not its final character |
| WindowHelpers.WebPageIffNoSuffixOrHtml | mainwindow.cpp:170-184 | looksLikeWebPage holds exactly when the file name has no suffix or the lowered path ends in ".html" or ".htm" |
| WindowHelpers.HasAllowedExtension | mainwindow.cpp:186-202 | the loop over the 20 extensions answers true exactly when the lowered path ends in one of them |
| WindowHelpers.CheckFilter | mainwindow.cpp:235-246 | a link with a non-empty host different from the page's host is refused; otherwise the extension test decides |
| WindowHelpers.AllowedExtensionsShape | mainwindow.cpp:191-196 | every listed extension is '.' followed by at least one character that is neither '.' nor '/', and none is an HTML ending |
| WindowHelpers.ShapedEndGivesSuffix | mainwindow.cpp:175-181 | a path whose lowered form ends in such an extension has a file name with a non-empty suffix |
| WindowHelpers.AllowedIsNotWebPage | mainwindow.cpp:170-202 | no path with an allowed extension looks like a web page, so a harvested file link is never taken for another page |
| WindowHelpers.TruncDivSpec | mainwindow.cpp:398 | integer division truncating toward zero: the floor bounds for non-negative dividends, and symmetric in the sign of the dividend |
| WindowHelpers.PercentSpec | mainwindow.cpp:398 | the percent is 0 without a positive total; otherwise percent·total ≤ received·100 < (percent+1)·total |
| WindowHelpers.PercentBounds | mainwindow.cpp:398 | for 0 ≤ received ≤ total the percent lies in 0..100 and is 100 exactly when everything has been received |
| WindowHelpers.PercentMonotone | mainwindow.cpp:398 | more bytes received never lowers the percent |
| WindowHelpers.Left | mainwindow.cpp:445 | QString::left(12) is a prefix of at most 12 characters, exactly 12 when the digest is long enough |
| WindowHelpers.SkipRule | mainwindow.cpp:341-349 | the "Downloading"/"Done…"/"Error…" text test skips exactly the Downloading, Error, hashed and hash-error statuses |
| WindowModel.InTableIff | mainwindow.cpp:131-139 | urlExistsInTable is true exactly when some row's trimmed URL equals the trimmed argument |
| WindowModel.AddedUrl | mainwindow.cpp:141-153 | a blank or already listed URL leaves the table alone; any other gets one new row (the URL, its file name, 0%, Queued) appended |
| WindowModel.AddedUrlDistinct | mainwindow.cpp:141-153 | adding keeps every trimmed URL listed once, and afterwards a non-blank URL is listed |
| WindowModel.ChooseFolder | mainwindow.cpp:156-168 | an empty folder answer changes nothing; otherwise only the download folder changes |
| WindowModel.AddUrlKeepsValid | mainwindow.cpp:141-153 | adding a URL keeps the window invariant |
| WindowModel.AddClicked | mainwindow.cpp:248-282 | blank or invalid/schemeless input changes nothing; a web page starts one page fetch unless one is in flight; anything else goes to addUrlToTable |
| WindowModel.AddClickedKeepsValid | mainwindow.cpp:248-282 | onAddClicked keeps the window invariant |
| WindowModel.JoinPathSpec | mainwindow.cpp:366 | a folder not ending in '/' gives folder + "/" + name; a folder ending in one '/' gives folder + name, the root "/" gives "/" + name; an empty folder stands for "." and gives "./" + name (never reached: onStartAllClicked refuses an empty folder, mainwindow.cpp:330) |
| WindowModel.JoinPathShape | mainwindow.cpp:366 | for any non-empty folder, including one ending in several '/', the path starts with the folder's first character and ends in "/" and the name |
| WindowModel.StartRow | mainwindow.cpp:355-375 | an invalid or schemeless URL marks only this row "Error: invalid URL"; otherwise the file is opened, then the reply is fetched and routed to its row and path, and the row shows Downloading at 0% |
| WindowModel.StartRowKeepsValid | mainwindow.cpp:355-375 | startDownloadForRow keeps the window invariant |
| WindowModel.RestartableIsTextTest | mainwindow.cpp:341-349 | a row is started exactly when its status text is not skipped |
| WindowModel.StartFrom | mainwindow.cpp:341-349 | the row loop keeps the table size, folder and page reply, keeps routing in range, and never reuses a reply number |
| WindowModel.StartFromKeepsValid | mainwindow.cpp:341-349 | the row loop keeps the window invariant |
| WindowModel.StartAll | mainwindow.cpp:328-352 | without a folder or without rows nothing happens |
| WindowModel.StartFromRows | mainwindow.cpp:341-349 | rows before the start are untouched and each later row is restarted by its own status |
| WindowModel.StartFromRequests | mainwindow.cpp:341-349 | the loop only appends to the request trace, and only open and fetch requests |
| WindowModel.StartFromKeepsRoutes | mainwindow.cpp:341-349 | routes already in flight keep their row and path, and reply numbers stay fresh |
| WindowModel.StartFromAddsRoute | mainwindow.cpp:341-349 | every restartable row with a usable URL gets a new reply routed to it and to its target path |
| WindowModel.StartAllRestartsQueuedAndHashing | mainwindow.cpp:328-352 | Start all moves Queued and "Downloaded (hashing...)" rows to Downloading or "Error: invalid URL" and leaves every other row as it was |
| WindowModel.ReadyRead | mainwindow.cpp:377-384 | a routed reply with a non-empty chunk appends it to its row's file; anything else changes nothing |
| WindowModel.ReadyReadKeepsValid | mainwindow.cpp:377-384 | readyRead keeps the window invariant |
| WindowModel.Progress | mainwindow.cpp:393-400 | a routed reply sets only its row's progress to the truncated percent; an unrouted one changes nothing |
| WindowModel.ProgressKeepsValid | mainwindow.cpp:393-400 | handleProgress keeps the window invariant |
| WindowModel.Finished | mainwindow.cpp:402-435 | the reply leaves both routing hashes; for a routed reply the tail chunk is appended, then the file is closed, and either the error is shown or 100% and "Downloaded (hashing...)" are shown and the hash is requested |
| WindowModel.FinishedKeepsValid | mainwindow.cpp:402-435 | handleFinished keeps the window invariant |
| WindowModel.FinishedClosesBeforeHash | mainwindow.cpp:427-432 | after a successful reply the last two requests are the row's close and then the hash of its routed path |
| WindowModel.FailedFinishHasNoHash | mainwindow.cpp:419-425 | a failed reply only appends to the trace, never a hash, and ends with the row's close |
| WindowModel.SetStatus | mainwindow.cpp:438-451 | a worker callback changes only the status of its row |
| WindowModel.SetStatusKeepsValid | mainwindow.cpp:438-451 | worker callbacks keep the window invariant |
| WindowModel.Candidate | mainwindow.cpp:216-226 | a capture yields a link only when its trimmed text is non-empty and resolves to a valid http or https URL |
| WindowModel.Candidates | mainwindow.cpp:215-226 | one candidate per capture, in capture order |
| WindowModel.LinksSound | mainwindow.cpp:204-233 | every harvested link is a valid http(s) resolution of some capture; no two share a decoded form; every capture's link is represented |
| WindowModel.LinksKeepFirst | mainwindow.cpp:227-231 | the first capture with a given decoded form is the one kept |
| WindowModel.LinksInCaptureOrder | mainwindow.cpp:215-231 | the links are the candidates at strictly increasing capture positions, each the first capture of its decoded form, so links come out in page order |
| WindowModel.HarvestKeepsTable | mainwindow.cpp:305-320 | onPageFetched only appends rows to the table |
| WindowModel.HarvestBounded | mainwindow.cpp:305-309 | at most MAX_FILES (200) rows are added by one page |
| WindowModel.HarvestNewRows | mainwindow.cpp:305-320 | every added row is Queued at 0% for a link that passed allowedByFilter |
| WindowModel.HarvestDistinct | mainwindow.cpp:305-320 | harvesting keeps every URL listed once |
| WindowModel.HarvestComplete | mainwindow.cpp:305-320 | while fewer than MAX_FILES links have passed the filter before it, every non-blank link that passes allowedByFilter is listed afterwards, already or as a new row |
| WindowModel.HarvestInLinkOrder | mainwindow.cpp:305-320 | of two added rows the earlier comes from an earlier link, so rows are added in link order |
| WindowModel.PageFetched | mainwindow.cpp:284-326 | the page reply is cleared; a failed fetch adds nothing; a successful one adds the harvested links |
| WindowModel.PageFetchedKeepsValid | mainwindow.cpp:284-326 | onPageFetched keeps the window invariant |
| WindowModel.StepKeepsValid | mainwindow.cpp:156-451 | every slot keeps the window invariant |
| WindowModel.ReachableValid | mainwindow.h:139-157 | every state reached from the initial window by any sequence of events satisfies the invariant |
| WindowModel.HashFollowsClose | mainwindow.cpp:427-432 | in any run, each hash request comes right after the close of its row and after an open of that path; each append or close follows an open of its row |
| Coordinator.MainWindow.constructor | mainwindow.h:139-157 | the window starts with an empty table, no folder, no routes, no page fetch and no requests |
| Coordinator.MainWindow.UrlExistsInTable | mainwindow.cpp:131-139 | the scan answers true exactly when some row's trimmed URL equals the trimmed argument |
| Coordinator.MainWindow.AddUrlToTable | mainwindow.cpp:141-153 | the table becomes AddedUrl of the old table and nothing else changes |
| Coordinator.MainWindow.OnChooseFolder | mainwindow.cpp:156-168 | the object takes the ChooseFolder state and keeps the invariant |
| Coordinator.MainWindow.OnAddClicked | mainwindow.cpp:248-282 | the object takes the AddClicked state and keeps the invariant |
| Coordinator.MainWindow.ExtractLinksFromHtml | mainwindow.cpp:204-233 | the loop with its seen set returns exactly Links of the captures |
| Coordinator.MainWindow.OnPageFetched | mainwindow.cpp:284-326 | the object takes the PageFetched state and keeps the invariant |
| Coordinator.MainWindow.AddHarvestedLinks | mainwindow.cpp:305-320 | the loop with its added counter leaves the table as Harvest of the old table and changes nothing else |
| Coordinator.MainWindow.StartDownloadForRow | mainwindow.cpp:355-375 | the object takes the StartRow state and keeps the invariant |
| Coordinator.MainWindow.OnStartAllClicked | mainwindow.cpp:328-352 | the row loop with the text test leaves the object in the StartAll state and keeps the invariant |
| Coordinator.MainWindow.OnReadyRead | mainwindow.cpp:377-384 | the object takes the ReadyRead state and keeps the invariant |
| Coordinator.MainWindow.HandleProgress | mainwindow.cpp:393-400 | the object takes the Progress state and keeps the invariant |
| Coordinator.MainWindow.HandleFinished | mainwindow.cpp:402-435 | the object takes the Finished state and keeps the invariant |
| Coordinator.MainWindow.OnWriterError | mainwindow.cpp:438-441 | the row shows "Error: " and the message; the invariant is kept |
| Coordinator.MainWindow.OnHashReady | mainwindow.cpp:443-446 | the row shows "Done (SHA256: " and the first 12 digest characters; the invariant is kept |
| Coordinator.MainWindow.OnHashError | mainwindow.cpp:448-451 | the row shows "Done (hash error: " and the message; the invariant is kept |
| FileWriter.OpenStep | filewriter.cpp:5-21 | a held handle is replaced; on success the row holds a fresh empty file at the path and fileOpened is emitted, otherwise the row holds nothing and "Cannot open file for writing" is emitted; other rows and files are untouched |
| FileWriter.AppendStep | filewriter.cpp:24-32 | an unopened row is ignored; otherwise the chunk is appended to that row's file, or "Write failed" is emitted and the disk is unchanged; other files are untouched |
| FileWriter.CloseStep | filewriter.cpp:34-44 | a held handle is dropped and fileClosed is emitted; an unopened row is ignored; the disk is unchanged |
| FileWriter.ReopenReplacesHandle | filewriter.cpp:6-12 | opening a row twice leaves it on the second path, with that file empty |
| FileWriter.AppendsAfterCloseAreNoOps | filewriter.cpp:24-26 | appends to a closed row change nothing |
| FileWriter.ExclusiveFileAccumulatesChunks | filewriter.cpp:24-32 | while a row alone holds a path, the file grows by exactly the chunks appended to that row, in order |
| FileWriter.FileIsChunksSinceOpen | filewriter.cpp:5-32 | after a successful open of a path for a row, while no other row holds or opens that path and the row is neither reopened nor closed, the row keeps the path and the file is exactly the chunks appended for it since, in order |
| FileWriter.SignalsAccumulate | filewriter.h:21-23 | each command emits at most one signal and earlier signals are kept |
| FileWriter.FileWriterWorker.constructor | filewriter.h:26 | the worker starts with no open handles and no signals |
| FileWriter.FileWriterWorker.OpenFile | filewriter.cpp:5-21 | the worker takes the OpenStep state; the row is open exactly when opening succeeded |
| FileWriter.FileWriterWorker.AppendChunk | filewriter.cpp:24-32 | the worker takes the AppendStep state; the handle table is unchanged |
| FileWriter.FileWriterWorker.CloseFile | filewriter.cpp:34-44 | the worker takes the CloseStep state; the row holds no handle and the disk is unchanged |
| Ledger.DefaultRecord | dbmanager.h:7-15 | a default DownloadRecord has empty texts and progress 0 |
| Ledger.ToRecord | dbmanager.cpp:155-163 | each column is copied into the record, with a NULL sha256 read as empty |
| Ledger.InsertOrIgnore | dbmanager.cpp:83-97 | an existing (url, file_path) key leaves the table alone; otherwise one Queued row at 0% with no hash, created and updated now, is appended; the key is present afterwards and stays unique |
| Ledger.Changed | dbmanager.cpp:99-134 | an update changes only its column(s) and stamps updated_at; done sets the hash, "Done" and 100 |
| Ledger.UpdateWhere | dbmanager.cpp:99-134 | exactly the rows matching url and file_path are changed, all others are kept |
| Ledger.UpdateKeepsTable | dbmanager.cpp:99-134 | updates keep keys unique, never change a key and change at most one row; an absent key changes nothing |
| Ledger.UpdateKeepsTimely | dbmanager.cpp:99-134 | while the clock reads no earlier than every stored updated_at, updates keep created_at ≤ updated_at ≤ now |
| Ledger.InsertByTimeKeepsOrder | dbmanager.cpp:146 | inserting a row by updated_at keeps the newest-first order |
| Ledger.SortByTime | dbmanager.cpp:146 | ORDER BY updated_at DESC: a newest-first permutation of the table |
| Ledger.LimitCount | dbmanager.cpp:147-149 | LIMIT n keeps at most n rows; a negative limit keeps all of them |
| Ledger.RecentIsNewest | dbmanager.cpp:136-167 | fetchRecent returns the limited number of rows, newest first, drawn from the table, and every row left out is no newer than every row returned |
| Ledger.DBManager.constructor | dbmanager.cpp:21-24 | a new manager is closed and empty |
| Ledger.DBManager.OpenAtPath | dbmanager.cpp:36-48 | an open manager stays open as it was; a closed one opens exactly when the database opens, on its stored rows |
| Ledger.DBManager.Close | dbmanager.cpp:50-57 | afterwards the manager is closed |
| Ledger.DBManager.AddOrIgnoreQueued | dbmanager.cpp:83-97 | fails when closed; otherwise the table becomes InsertOrIgnore of the old one |
| Ledger.DBManager.UpdateProgress | dbmanager.cpp:99-108 | fails when closed; otherwise only matching rows get the new progress and stamp |
| Ledger.DBManager.UpdateStatus | dbmanager.cpp:110-119 | fails when closed; otherwise only matching rows get the new status and stamp |
| Ledger.DBManager.SetHashAndDone | dbmanager.cpp:121-134 | fails when closed; otherwise only matching rows become Done at 100 with the hash |
| Ledger.DBManager.FetchRecent | dbmanager.cpp:136-167 | empty when closed; otherwise the records of Recent(rows, limit), at most limit of them (200 when no limit is given, as in dbmanager.h:35), newest first |
| Ledger.DBManager.ClearAll | dbmanager.cpp:169-175 | succeeds exactly when open, and the table is empty afterwards |

## Left out

- Threads are left out: the writer and hasher threads, queued signal delivery, and the hand-over between threads. The window's requests are a trace; the worker is modelled on its own. The model does not interleave the two.
- No network code is modelled: QNetworkAccessManager, redirects and HTTP status. A reply's outcome, its chunks and its progress numbers are parameters.
- The hasher (`HasherWorker::hashFile`, SHA-256) is not part of this model. Its results arrive as the `HashDone` and `HashFailedEvent` events.
- QUrl parsing, `QUrl::resolved`, `QUrl::toString` and the page regex are outside the model; they are the `parse` and `resolve` parameters and the list of captures.
- Widgets, dialogs, labels, button enabling and status-bar messages are not modelled. `ChooseFolder` models only the state update.
- The window constructor's thread and signal wiring and the destructor are not modelled.
- SQLite is not modelled: the pragmas, the default database path, schema creation failure, SQL errors other than a closed database, and the AUTOINCREMENT id.
- The wall clock is a `now` parameter, accepted whatever it reads, as in the source. Timestamps are whole numbers rather than ISO texts read through `datetime()`.
- Ledger.Timely: created_at ≤ updated_at is not part of the table invariant, because a clock set back breaks it; `UpdateKeepsTimely` proves it only while the clock never runs behind a stored stamp.
- InsertOrIgnore: one `now` stands for both `nowIso()` calls of addOrIgnoreQueued (dbmanager.cpp:94-95), so created_at equals updated_at; the source can read two different seconds.
- OpenAtPath: the stored table is the `existing` parameter and Close forgets the rows, so the database file's persistence across a close and a reopen is not modelled.
- SQLite's order among rows with equal `updated_at` is unspecified; the model uses a stable sort.
- Percent: the 64-bit product `received * 100` is computed on unbounded integers, so 64-bit overflow and the truncating `int(...)` cast are not modelled.
- Trim and Lower drop only ASCII whitespace and lower only ASCII letters; QString's Unicode tables are not modelled.
- JoinPath: models `QDir::filePath` for a relative file name only; QDir's cleaning of ".", ".." and repeated '/' in the folder is not modelled.
- SetStatus: a callback for a row outside the table changes nothing in the model. In the source, ensureRowCells' setItem does nothing past rowCount, and item(row, COL_STATUS) then returns null and setText is called on it (mainwindow.cpp:106-129). The window only sends rows that exist.
- AppendStep: each row's handle is modelled as writing at the end of its path's contents. In the source every QFile open truncates the file and each handle writes at its own position, so two rows open on one path overwrite each other's bytes. Open(0, p), Open(1, p), Append(0, [1,2,3]), Append(1, [9]) leaves [9,2,3] there and [1,2,3,9] in the model. The file-contents lemmas therefore assume that one row alone holds the path (`HoldsExclusively`, `KeepsOpen`). In the window that fails when two listed URLs end in the same file name, such as `a/x.png` and `b/x.png`.
- AppendStep: a short write (fewer bytes than the chunk written without error) is silent in the source (filewriter.cpp:29); the model writes a chunk entirely or not at all.
- UrlExistsInTable: every URL cell is assumed present; the source's null check on the cell item is always true for rows made by addUrlToTable.
- Links: only the captures are modelled; the regex that produces them is not.
