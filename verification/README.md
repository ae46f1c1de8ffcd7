# Temp Cleaner — a Dafny model of its core

Temp Cleaner is a Windows desktop utility. "Check" collects the deletable files and
directories under eight temporary-file locations. "Clear" deletes them one by one and
then empties the recycle bin. At start-up the program asks GitHub for the latest
release. It compares that release's version with its own. When an update exists, it
downloads the installer in a progress window.

This project models the logic behind those features as pure functions and small
loops:

- `version.dfy` (`VersionCompare`): `GitHubUpdater.CompareVersions` and
  `ParseVersionParts`. It covers the leading `v`/`V` trimming and the four-slot
  segment buffer. Digits accumulate in a C# `int`, with 32-bit wrap-around written out
  explicitly. The comparison is left to right over zero-padded segments.
- `release.dfy` (`Release`): `ParseReleaseInfo` over an already-parsed JSON document,
  and the anonymous-then-token retry rule of `GetLatestReleaseVersionAsync`.
- `filesystem.dfy` (`FileSystem`): the file system as a map from path to file or
  directory, with single-file and recursive-directory removal.
- `dirfinder.dfy` (`DirFinder`): `HasReadWritePermission` and `DirandFile`. Probe
  outcomes come from an access oracle. What each enumeration returns is a parameter.
- `cleaner.dfy` (`Cleaner`): `Check_Click` (the eight roots, the concatenated
  inventory, the log, the Clear button) and the `Clear_Click` purge loop. Which deletes
  throw is a parameter.
- `download.dfy` (`Download`): the read/write loop of `StartDownloadAsync` as a fold
  over (chunk size, timestamp) events. It covers the 256 KiB / 200 ms update throttle,
  the final update, the integer speed formula and the percentage. It also covers the
  window's completion flag, the Cancel button and `OnClosing`'s partial-file cleanup.
- `text.dfy` (`Text`) and `wrappers.dfy` (`Wrappers`): .NET string helpers (`Split`,
  `TrimStart`, `Trim`, `char.IsWhiteSpace`, ASCII case folding) and `Option`.

Clocks, the network, the user's answers and exceptions thrown by the file system are
parameters of the operations that meet them.

Details of the code that the model follows:

- `Clear_Click` deletes path by path. It does no batching and counts no freed bytes.
- A transport exception on the first update request ends the check with null. Only an
  unsuccessful response can trigger the authenticated retry.
- The 30-minute client timeout of the download surfaces as a cancellation
  (`OperationCanceledException`), not as a transport failure. The window then shows
  "Cancelled".
- `GetInformations` is built with three arguments (tag, URL, file name) at
  `GitHubUpdater.cs:106`, while `Custom.cs:18` declares a two-argument constructor. The
  release record follows the call site.

## Model

| member | source | states |
|---|---|---|
| VersionCompare.Wrap32 | GitHubUpdater.cs:150 | unchecked `int` arithmetic: the result lies in [-2^31, 2^31), agrees with the input modulo 2^32, and is the input itself when that is in range |
| VersionCompare.SegmentValueWraps | GitHubUpdater.cs:148-151 | a segment's accumulated value is the decimal number its digits spell, non-digits skipped, wrapped into 32 bits |
| VersionCompare.SegmentValueExact | GitHubUpdater.cs:148-151 | a segment whose digits spell a number below 2^31 is read exactly |
| VersionCompare.ParseVersionParts | GitHubUpdater.cs:135-158 | fills a four-slot buffer; the count is between 1 and 4; the first `count` slots hold the values of the first (at most four) '.'-separated pieces, and the remaining slots stay 0 |
| VersionCompare.PartsOfEmpty | GitHubUpdater.cs:137-157 | the empty string parses to the single segment 0 |
| VersionCompare.PartsDropAfterFourthDot | GitHubUpdater.cs:142-147 | text after a fourth dot does not change the parsed segments |
| VersionCompare.NonDigitIgnored | GitHubUpdater.cs:148-151 | appending a character that is neither '.' nor a digit does not change the parsed segments |
| VersionCompare.CompareBuffers | GitHubUpdater.cs:121-131 | the loop over the two buffers returns the lexicographic comparison of the zero-padded vectors |
| VersionCompare.CompareVersions | GitHubUpdater.cs:110-132 | the method returns the reference comparison: lexicographic order of the zero-padded segment vectors after trimming leading v/V |
| VersionCompare.Compare | GitHubUpdater.cs:127-131 | the result is always -1, 0 or 1 |
| VersionCompare.LexFirstDifference | GitHubUpdater.cs:121-131 | the comparison is decided at the first differing segment, and is 0 when no segment differs |
| VersionCompare.CompareReflexive | GitHubUpdater.cs:110-132 | every version compares equal to itself |
| VersionCompare.CompareAntisymmetric | GitHubUpdater.cs:110-132 | swapping the arguments negates the result |
| VersionCompare.CompareTransitive | GitHubUpdater.cs:110-132 | "not newer than" is transitive |
| VersionCompare.CompareZeroIffSameKey | GitHubUpdater.cs:110-132 | two versions compare equal exactly when their padded segment vectors are equal |
| VersionCompare.LeadingVIgnored | GitHubUpdater.cs:112-113 | any run of leading 'v'/'V' characters, not just one, is ignored on either side |
| VersionCompare.TrailingZeroIgnored | GitHubUpdater.cs:121-125 | a version with fewer than four segments equals itself with ".0" appended, since missing segments count as 0 |
| Text.Trim | GitHubUpdater.cs:40-43 | `Trim` removes .NET whitespace from both ends; its result is empty exactly when the input is blank, which is the `IsNullOrWhiteSpace` test |
| Text.TrimBothSlice | GitHubUpdater.cs:40-43 | trimming characters of a set from both ends returns a slice of the input, and everything cut off before and after it belongs to the set |
| Text.TrimSlice | GitHubUpdater.cs:40-43 | the trimmed token is a slice of the token with nothing but white space cut off before and after it |
| Release.Inspect | GitHubUpdater.cs:84-95 | one asset: taken exactly when its name is a string ending in ".msi" (ASCII case-insensitive) and it has the mode's URL property holding a string or null; skipped only when it does not qualify; a non-object throws |
| Release.FirstStop | GitHubUpdater.cs:82-96 | the loop leaves at the first asset that is not skipped, and every asset before it is skipped |
| Release.ParseReleaseInfo | GitHubUpdater.cs:67-107 | null exactly when the document has no "tag_name"; a non-object document throws; an answer carries the raw tag as version, a non-empty URL and a file name ending in ".msi" |
| Release.FallbackFound | GitHubUpdater.cs:99-104 | the fallback answer has a non-empty URL and an installer file name |
| Release.TakenNameIsInstaller | GitHubUpdater.cs:84-94 | the name the asset loop stops at ends in ".msi" |
| Release.FirstInstallerChosen | GitHubUpdater.cs:80-106 | the first qualifying asset with a non-empty URL, preceded only by skipped assets, decides the answer: its URL, its own name and the raw tag |
| Release.EmptyUrlFallsBack | GitHubUpdater.cs:80-104 | a first qualifying asset whose URL is null or empty still ends the loop, so the answer is the fallback built from owner, repository and tag, whatever URLs later assets carry |
| Release.FallbackWithoutInstaller | GitHubUpdater.cs:80-104 | when no asset qualifies, the answer is `Temp_Cleaner-{tag without v/V}.msi` under `https://github.com/{owner}/{repo}/releases/download/{raw tag}/` |
| Release.NoStopWithoutInstaller | GitHubUpdater.cs:82-96 | the loop runs through a list of assets that all fail to qualify |
| Release.GetLatestRelease | GitHubUpdater.cs:25-64 | the anonymous request is always sent first; a second, authenticated request is sent exactly when the first response is unsuccessful and the token is not blank, and it carries the trimmed token; the answer is non-null exactly when the final response succeeded and its document yields a release, and it is that release |
| Release.NoRetryAfterException | GitHubUpdater.cs:27-63 | an exception from the first request ends the check with null and no retry |
| DirFinder.HasReadWritePermission | DirFinder.cs:7-28 | the probe runs its planned operations in order until one throws; the answer is true exactly when every operation it ran succeeded; every operation before the last one it ran succeeded, and it stops early only at a failure |
| DirFinder.GrantedCases | DirFinder.cs:12-27 | a path that does not exist passes; a file passes exactly when it opens for reading; a directory exactly when a probe file can be created and deleted in it |
| DirFinder.Kept | DirFinder.cs:39-45 | a path is kept exactly when it was enumerated and passes the probe, and no more paths come out than went in |
| DirFinder.KeptAppend | DirFinder.cs:39-45 | filtering commutes with concatenation, so kept paths stay in enumeration order |
| DirFinder.AddGranted | DirFinder.cs:39-45 | one phase's loop appends exactly the kept paths, in order, to what is already there |
| DirFinder.DirandFile | DirFinder.cs:31-64 | the result is the kept files followed by the kept directories; a phase whose enumeration throws contributes nothing and does not affect the other |
| DirFinder.DirandFileExact | DirFinder.cs:33-63 | a path is returned exactly when it passes the probe and a phase that did not throw enumerated it |
| Cleaner.AccountName | MainWindow.xaml.cs:66-78 | `name[1]` exists exactly when the identity holds a backslash, and it never holds one itself |
| Cleaner.AccountAfterDomain | MainWindow.xaml.cs:67-78 | for `DOMAIN\rest` the account is the text after the first backslash up to the next |
| Cleaner.Roots | MainWindow.xaml.cs:73-83 | there are eight roots, scanned in their listed order |
| Cleaner.ScanRoots | MainWindow.xaml.cs:88-95 | the background task produces the concatenation of the eight `DirandFile` results in root order |
| Cleaner.InventoryMembers | MainWindow.xaml.cs:88-95 | a path is in the inventory exactly when some root's `DirandFile` returned it |
| Cleaner.InventorySound | MainWindow.xaml.cs:88-95 | every inventoried path passed the permission probe and was enumerated under one of the roots |
| Cleaner.FoundLines | MainWindow.xaml.cs:106-107 | the scan logs one line per item, naming it, in order |
| Cleaner.ShowItems | MainWindow.xaml.cs:101-120 | every item joins the inventory and the log in order; progress advances one step per item; Clear is enabled exactly when something was found |
| Cleaner.CheckClick | MainWindow.xaml.cs:62-123 | a check starts from an empty inventory and rebuilds it from the eight roots; an identity without a backslash makes it throw with the window cleared and Clear disabled; otherwise Clear ends enabled exactly when the inventory is non-empty |
| Cleaner.Visit | MainWindow.xaml.cs:136-194 | an existing file is deleted as a file, tested first; otherwise an existing directory is deleted with its contents; otherwise nothing happens; a delete that throws changes nothing |
| Cleaner.Purge | MainWindow.xaml.cs:134-198 | the purge yields exactly one outcome per inventoried path |
| Cleaner.PurgeVisitsInOrder | MainWindow.xaml.cs:134-198 | step `i` classifies path `i` against the tree the earlier steps left, so earlier failures never stop later steps |
| Cleaner.PurgeOnlyRemoves | MainWindow.xaml.cs:134-198 | the purge never creates a path |
| Cleaner.DeletedStayGone | MainWindow.xaml.cs:136-186 | a path reported deleted is absent at the end |
| Cleaner.Count | MainWindow.xaml.cs:134-198 | each outcome is counted as exactly one of deleted, failed or missing |
| Cleaner.CountBuckets | MainWindow.xaml.cs:134-198 | the deleted count is the number of file and directory deletions, the failed count the number of failed deletes of either kind, and the missing count the number of paths found neither as file nor as directory |
| Cleaner.PurgeTally | MainWindow.xaml.cs:134-198 | over a whole purge, attempted = deleted + failed + missing, each count being the number of steps with an outcome of its kind |
| Cleaner.PurgeLines | MainWindow.xaml.cs:144-186 | the purge logs one line per deleted or failed path and none for a missing one |
| Cleaner.PurgeLinesSnoc | MainWindow.xaml.cs:144-186 | each step appends its own line at the end of the log: deleted file, failed file, deleted directory or failed directory with its path, and nothing for a missing path |
| Cleaner.PurgeLinesAppend | MainWindow.xaml.cs:134-198 | the lines of two runs of steps, one after the other, are the lines of the first followed by those of the second |
| Cleaner.PurgeLinesAt | MainWindow.xaml.cs:134-198 | the line of step `i` stands after the lines of all earlier steps and before those of all later ones |
| Cleaner.Visits | MainWindow.xaml.cs:134-198 | the visits follow the inventory one to one, in order |
| Cleaner.ClearClick | MainWindow.xaml.cs:124-210 | every inventoried path is visited once, in order; progress advances one step per path; the recycle bin is emptied exactly once, after the last visit; the log is rebuilt and ends with the completion line; Clear ends disabled |
| Download.Percent | DownloadProgressWindow.xaml.cs:130 | the percentage is 0 when the total size is unknown, and otherwise the downloaded share of the total times 100 |
| Download.Speed | DownloadProgressWindow.xaml.cs:142-147 | the speed is shown exactly when more than half a second has elapsed, and it is the integer quotient of bytes times frequency by elapsed ticks |
| Download.Advance | DownloadProgressWindow.xaml.cs:89-99 | one pass adds the chunk to the total and issues an update exactly when 256 KiB have arrived since the last report or freq/5 ticks have passed; an update carries the running total and the pass's timestamp, and both markers move to them; otherwise updates and markers stay; fewer than 256 KiB stay unreported |
| Download.Throttle | DownloadProgressWindow.xaml.cs:81-99 | over any run of chunks the total is the sum of the chunk sizes, fewer than 256 KiB are ever unreported, and reported totals increase by less than 256 KiB plus one buffer each |
| Download.ReportWhenDue | DownloadProgressWindow.xaml.cs:89-99 | pass `i` of a run reports exactly when the throttle is due for the running total and that pass's timestamp against the markers the earlier passes left; the update is appended with those values, and otherwise the updates stay as they were |
| Download.LastReport | DownloadProgressWindow.xaml.cs:79-99 | after any run the markers are those of its last report: that pass's total and timestamp, with no later pass reporting, or 0 and the loop's start time when no pass reported |
| Download.ReadLoop | DownloadProgressWindow.xaml.cs:81-103 | the loop counts every byte read and issues the throttled updates; a stream that runs out adds one unconditional final update, and an interrupted loop adds none |
| Download.FinalUpdateCarriesTotal | DownloadProgressWindow.xaml.cs:103 | the final update shows the full total, less than 256 KiB past the last in-loop report |
| Download.StartDownload | DownloadProgressWindow.xaml.cs:45-125 | the download is completed, and shows "complete", exactly when the response succeeded and the stream ran out; it shows "Cancelled" exactly on a cancellation before or during the transfer; every other outcome shows the failure, shows the error box and closes the window, and nothing else closes it; the total size is the Content-Length or 0; the file exists afterwards exactly when it was created and the transfer did not fail, and it is released on every path |
| Download.LoopEnded | DownloadProgressWindow.xaml.cs:100-124 | only a loop that ran out sets the completion flag and shows "complete"; a cancellation shows "Cancelled" and keeps the window, its error state and the file as they were; a failure shows the error box and closes the window; the file is released in every case |
| Download.OnClosing | DownloadProgressWindow.xaml.cs:247-257 | closing cancels, and deletes the file of an unfinished download unless the download still holds it open |
| Download.CancelClick | DownloadProgressWindow.xaml.cs:179-198 | after completion Cancel only closes; before it, only a confirmed "Yes" cancels and closes, and "No" changes nothing |
| Download.CancelLeavesPartialFile | DownloadProgressWindow.xaml.cs:247-256 | as written, confirming Cancel during the transfer leaves the partial file on disk |
| Download.LoopEndedCorrected | DownloadProgressWindow.xaml.cs:110-114 | the cancellation handler deletes an unfinished download's file once the loop has released it |
| Download.CancelRemovesPartialFile | DownloadProgressWindow.xaml.cs:193-196 | with the corrected handler, a confirmed cancel of an unfinished download leaves no file |
| Download.ClosedUnfinishedLeavesNoFile | DownloadProgressWindow.xaml.cs:253-256 | with the corrected handler, a closed window of an unfinished download leaves no file, whatever ended the loop |

## Left out

- `char.IsDigit` is modelled as ASCII '0'..'9'. .NET also accepts the other Unicode
  decimal digits. For those, `c - '0'` adds a value far above 9.
- `EndsWith(".msi", StringComparison.OrdinalIgnoreCase)` is modelled with ASCII case
  folding only. Ordinal case-insensitive comparison also folds non-ASCII letters.
- JSON text parsing, duplicate keys and number formats: the model starts from a parsed
  document. A body that does not parse, or cannot be read, counts as no document.
- HTTP, TLS, headers and the shared `HttpClient`: each request is reduced to its
  outcome.
- The probe file's random name, and a probe file left behind when its delete fails.
- Partial recursive deletes: a `Directory.Delete` that throws leaves the tree as it
  was in the model.
- What the enumerations return, and in what order, is a parameter. `Directory.GetFiles`
  and `GetDirectories` themselves are not modelled.
- Floating point: the 396.0 progress-bar steps, the rounded percentages in the main
  window, and `FormatSize` / `FormatSpeed` text.
- Download.Percent: computed in exact rationals, not in `double`.
- Download.Speed: `long` overflow of `bytes * Stopwatch.Frequency` is not modelled.
  With a 10 MHz clock it needs about 900 GB.
- Download.StartDownload: cancellation is a parameter. It stands for the loop ending
  with an `OperationCanceledException` between two passes, from the user or from the
  timeout.
- `InstallButton_Click`, `Process.Start`, msiexec and explorer: starting another
  process is outside the model.
- The `SHEmptyRecycleBin` flags, `GC.Collect`, `Task.Run`, `Task.Delay` and
  `Dispatcher.Invoke` are not modelled. Of these, only the recycle-bin call is kept, as
  an effect that happens once.
- Message boxes, dialog construction, colours and the update dialog.
- A null token is treated as a string. Whitespace tokens are handled as in the code.

## Findings

| source | as written | input that shows it | evidently intended | confidence | as-written member | corrected member |
|---|---|---|---|---|---|---|
| DownloadProgressWindow.xaml.cs:193-196 | confirming Cancel calls `Close()` while the read loop still holds the file, opened with `FileShare.None` (line 77). `OnClosing`'s `File.Delete` (line 255) then fails, and the empty `catch` swallows it. The loop stops on the cancellation and releases the file, but nothing deletes it afterwards. | a download in progress, then Cancel and "Yes" | an unfinished download leaves no partial file behind; the corrected handler deletes the file once the loop has released it, and `Download.CancelRemovesPartialFile` proves the property | medium, not executed | Download.CancelLeavesPartialFile | Download.LoopEndedCorrected |
