# homebox-export in Dafny

A model of the export pipeline of `homebox-export`, a command-line tool
that downloads every item of a Homebox inventory server, with its
attachments, into one directory per item. Four parts are modelled:

- **The path namer**, `FileManager` (internal/filemanager/file_manager.go).
  It covers `sanitizeFilename`, `GenerateDirectory`, `getFileExtension` and
  `GenerateFilename`, the string functions that turn untrusted server
  strings into file names. `sanitizeFilename` and `GenerateFilename` are
  loops in the source, so they are methods proved equal to the functions
  `Sanitize` and `FileNameFor`, and the properties are lemmas about those
  functions.
- **The orchestrator**, `Downloader` (internal/downloader/downloader.go).
  - `New`, `DownloadAll`, `processItems` and `processItem` are methods of a
    class `Downloader`.
  - The server and the disk are an oracle fixed for one run, described in
    module `Client`. It holds the pages of the listing, a map from item
    identifier to the `Get` answer, the server URLs that do not parse, the
    accepted logins, and the sets of failing directories, downloads and
    files.
  - Every call the downloader makes is appended to a trace of events. Each
    event records whether the call succeeded.
  - The functions `Startup`, `RunFrom`, `ItemsRun` and `ItemRun` say what
    the trace and the returned error are. Each method is proved to produce
    exactly them.
  - Module `DownloaderProperties` proves what the pipeline promises about
    those functions: pagination, which failures end the run, and where
    each attachment is written.
- **Configuration validation**, `Config` (internal/config/config.go).
  `Validate` is a method of class `Config` that writes the page size in
  place. It is specified by the function `Validated`.
- **Command dispatch**, `Cli` (cmd/cli/root.go). `Execute` is a function
  from the arguments to an `Action`. It includes Go's `%q` quoting of the
  unknown command, with its inverse.

The downloader asks its file manager for two names: the directory of an
item, and the file of an attachment. The model makes this a value that the
downloader holds, of type `Downloader.Namer`. `New` installs
`FileManagerNamer`, which is made of `GenerateDirectory` and `FileNameFor`.
The run properties are proved for any namer. `FileManagerTarget` and
`FileManagerNamesNonEmpty` specialise them to the file manager.

`filepath.Join` cleans the path it builds. The model's `Join` only joins,
and module `Paths` models the clean-up `filepath.Clean` on its own: the path
Go writes to is `Clean` of the model's target path. The clean-up resolves
`..`, and the title is not sanitized, so a title can take the file out of
its item directory (see "## Findings").

Strings are `seq<char>`. Go's byte length and byte slicing are modelled as
sequence length and sequence prefix.

## Model

| member | source | states |
|---|---|---|
| FileManager.ReplaceAll | internal/filemanager/file_manager.go:53 | Same length; each occurrence of the character is replaced, every other character is kept in place |
| FileManager.ReplaceInvalid | internal/filemanager/file_manager.go:50-54 | The replace loop over the nine invalid characters as a function, with no contract of its own: `SanitizeFilename` proves the loop computes it, and `ReplaceInvalidIdentity` that it keeps a name without invalid characters |
| FileManager.TrimLeftShape | internal/filemanager/file_manager.go:56 | What is dropped in front is white space, and the rest starts with a non-space or is empty |
| FileManager.TrimRightShape | internal/filemanager/file_manager.go:56 | What is dropped at the back is white space, and the rest ends with a non-space or is empty |
| FileManager.TrimSpace | internal/filemanager/file_manager.go:56 | `strings.TrimSpace` as a function, with no contract of its own: `TrimSpaceWindow` proves that it cuts only white space, at both ends, and leaves neither end white space |
| FileManager.TrimSpaceWindow | internal/filemanager/file_manager.go:56 | The result is a piece of the input with only white space around it, and neither of its ends is white space |
| FileManager.Truncate | internal/filemanager/file_manager.go:57-59 | The result is the input when it is at most n long, otherwise its first n characters |
| FileManager.SanitizeFilename | internal/filemanager/file_manager.go:48-59 | The replace-all loop over the nine invalid characters, then the trim and the truncation, compute `Sanitize` |
| FileManager.Sanitize | internal/filemanager/file_manager.go:48-59 | `sanitizeFilename` as a function, with no contract of its own: `SanitizeSafe`, `SanitizeIsWindow` and `SanitizeFixedPoint` prove that it gives at most 50 valid characters cut from the replaced name, and which names it keeps |
| FileManager.SanitizeSafe | internal/filemanager/file_manager.go:48-59 | The sanitized name is at most 50 long and contains none of `/ \ : * ? " < > \|` |
| FileManager.SanitizeIsWindow | internal/filemanager/file_manager.go:49-59 | The sanitized name is a piece of the replaced name: white space is cut in front, and white space or the part after 50 characters is cut at the back |
| FileManager.TrimTruncateWindow | internal/filemanager/file_manager.go:56-59 | Trimming, then cutting at 50, leaves a piece of the input with white space in front and only white space or the cut-off part behind |
| FileManager.SanitizeFixedPoint | internal/filemanager/file_manager.go:48-59 | Sanitizing leaves a name unchanged exactly when it has no invalid character, no white space at either end and is at most 50 long |
| FileManager.ReplaceInvalidIdentity | internal/filemanager/file_manager.go:50-54 | A name free of invalid characters passes the replacement unchanged |
| FileManager.SanitizeAfterReplace | internal/filemanager/file_manager.go:49-54 | Sanitizing an already replaced name is the same as sanitizing the original, because `_` is not invalid |
| FileManager.SanitizeCutMayEndInSpace | internal/filemanager/file_manager.go:56-59 | Trimming comes before truncation, so a cut that lands after a space leaves a trailing space, and sanitizing again changes the name |
| FileManager.SanitizeExampleTestItem | internal/filemanager/file_manager_test.go:24-29 | `Test Item` sanitizes to itself |
| FileManager.SanitizeExampleSpecialChars | internal/filemanager/file_manager_test.go:31-37 | `Item/With:Special*Chars?` sanitizes to `Item_With_Special_Chars_` |
| FileManager.ShortId | internal/filemanager/file_manager.go:24 | The short identifier is a prefix of the ID without `-`, and it is followed by `-` unless it is the whole ID |
| FileManager.ShortIdUnique | internal/filemanager/file_manager.go:24 | These three facts single the short identifier out: any such prefix is the short identifier |
| FileManager.ShortIdCases | internal/filemanager/file_manager.go:24 | The short identifier is the whole ID when the ID has no `-`, and empty when the ID starts with `-` |
| FileManager.GenerateDirectory | internal/filemanager/file_manager.go:21-29 | `GenerateDirectory` as a function, with no contract of its own: `GenerateDirectoryShape`, `DirectoryNameSafeIff` and `DirectoryNamesSeparateIds` prove its shape, when it is free of invalid characters and when two items share it |
| FileManager.GenerateDirectoryShape | internal/filemanager/file_manager.go:21-29 | The directory name is the sanitized name, `_` and the short ID: its head is the sanitized name, at most 50 long and free of invalid characters; it is never empty |
| FileManager.DirectoryNameSafeIff | internal/filemanager/file_manager.go:21-29 | The directory name is free of invalid characters exactly when the short ID is |
| FileManager.DirectoryNamesSeparateIds | internal/filemanager/file_manager.go:21-29 | Two items whose names sanitize alike share a directory exactly when their short IDs are equal |
| FileManager.GenerateDirectoryExampleSimple | internal/filemanager/file_manager_test.go:24-29 | `Test Item` with ID `abc123-456def` gives `Test Item_abc123` |
| FileManager.GenerateDirectoryExampleSpecial | internal/filemanager/file_manager_test.go:31-37 | `Item/With:Special*Chars?` with ID `xyz789-456def` gives `Item_With_Special_Chars__xyz789` |
| FileManager.Ext | internal/filemanager/file_manager.go:65 | `filepath.Ext` as a function, with no contract of its own: `ExtShape` and `ExtOfSplit` prove that it is the last `.` of the last path element and what follows, or empty |
| FileManager.ExtShape | internal/filemanager/file_manager.go:65 | The extension is empty or a suffix of the path that starts with `.` and contains no other `.` and no `/`; it is empty only when every `.` of the path lies before a `/` |
| FileManager.ExtOfSplit | internal/filemanager/file_manager.go:65 | A `.` followed by a tail with no `.` or `/` starts the extension |
| FileManager.ExtNoDot | internal/filemanager/file_manager.go:65 | A path without `.` has no extension |
| FileManager.NoExtensionMeansNoDot | internal/filemanager/file_manager.go:65 | A path without an extension has a `/` after each of its dots |
| FileManager.FileExtension | internal/filemanager/file_manager.go:64-70 | `getFileExtension` as a function, with no contract of its own: `FileExtensionShape` proves that it is exactly `Ext(title)` when the title has an extension, `.bin` otherwise, and never empty |
| FileManager.FileExtensionShape | internal/filemanager/file_manager.go:64-70 | The extension is never empty and starts with `.`; when the title has an extension it is exactly `Ext(title)`, the title's suffix from its last `.`, and otherwise it is `.bin` |
| FileManager.TrimSuffix | internal/filemanager/file_manager.go:38 | With the suffix present, the result followed by the suffix is the input; without it, the input is returned unchanged |
| FileManager.GenerateFilename | internal/filemanager/file_manager.go:33-45 | The search loop with an early return computes `FileNameFor` |
| FileManager.FileNameFor | internal/filemanager/file_manager.go:33-45 | `GenerateFilename` as a function, with no contract of its own: `FileNameEndsWithExtension`, `FileNameFromTitle` and `FileNameFromId` prove which of the title or the attachment ID names the file |
| FileManager.FileNameEndsWithExtension | internal/filemanager/file_manager.go:33-45 | In every branch the file name ends with the extension, so it is never empty |
| FileManager.DefaultExtensionNotStripped | internal/filemanager/file_manager.go:38 | A title with no extension does not end in `.bin`, so stripping `.bin` leaves it whole |
| FileManager.EmptyStemIff | internal/filemanager/file_manager.go:38-39 | The stem is empty exactly when the title is empty or is only its extension |
| FileManager.FileNameFromTitle | internal/filemanager/file_manager.go:35-41 | When the attachment is one of the item's and the stem is non-empty, the file is the title verbatim, with `.bin` added only when the title has no extension |
| FileManager.FileNameFromId | internal/filemanager/file_manager.go:44-45 | Otherwise the file is the attachment ID followed by the extension |
| FileManager.TitleSeparatorKept | internal/filemanager/file_manager.go:37-40 | The title is not sanitized: `sub/report.pdf` stays as it is and contains a separator |
| FileManager.GenerateFilenameExampleClimb | internal/filemanager/file_manager.go:37-40 | The title `../../x.pdf` is kept verbatim as the file name |
| FileManager.GenerateDirectoryExampleClimb | internal/filemanager/file_manager.go:21-29 | `Test Item` with ID `abc123-456def` gives `Test Item_abc123`, whatever the attachments |
| FileManager.ExtExamplePdf | internal/filemanager/file_manager.go:65 | `document.pdf` has the extension `.pdf` |
| FileManager.ExtExampleNone | internal/filemanager/file_manager.go:65 | `document` has no extension |
| FileManager.GenerateFilenameExampleTitle | internal/filemanager/file_manager_test.go:61-72 | `document.pdf` names the file `document.pdf` |
| FileManager.GenerateFilenameExampleNoExtension | internal/filemanager/file_manager_test.go:73-83 | `document` names the file `document.bin` |
| FileManager.GenerateFilenameExampleEmptyTitle | internal/filemanager/file_manager_test.go:84-94 | An empty title names the file `att123.bin` |
| FileManager.GenerateFilenameExampleOnlyExtension | internal/filemanager/file_manager.go:37-44 | The title `.pdf` has an empty stem, so the file is `att123.pdf` |
| Config.Validated | internal/config/config.go:13-30 | Validation succeeds exactly when all four required fields are present; a success changes only the page size, which is then non-zero |
| Config.FirstMissingFieldDecides | internal/config/config.go:14-25 | Field i's error is returned exactly when field i is empty and every earlier field in the order ServerURL, Username, Password, DownloadPath is present |
| Config.PageSizeDefault | internal/config/config.go:26-28 | On success a zero page size becomes 100, and every other page size, negative ones included, is kept |
| Config.ValidateIdempotent | internal/config/config.go:13-30 | Validating validated settings succeeds again and changes nothing |
| Config.MessagesDistinct | internal/config/config.go:15-24 | No two errors have the same message |
| Config.ConfigError.Message | internal/config/config.go:15-24 | The four error texts, with no contract of its own: `MessagesDistinct` proves no two are equal |
| Config.Config.Validate | internal/config/config.go:13-30 | Returns the decision of `Validated`; on an error no field changes, on success the fields become the validated settings, and the four required fields never change |
| Config.ValidateTwice | internal/config/config.go:13-30 | After a successful `Validate`, a second call returns nil and leaves the configuration as the first left it |
| Downloader.Join | internal/downloader/downloader.go:100-105 | `filepath.Join` before its clean-up, with no contract of its own: `TargetInItemDirectory` proves the target path is the item directory, `/` and the file name, and `Paths.CleanAppendName` what the clean-up makes of it |
| Downloader.ItemDirectory | internal/downloader/downloader.go:100 | The `filepath.Join` of the download path and the item's directory name, with no contract of its own: `TargetInItemDirectory` proves the target path begins with it and `/` |
| Downloader.TargetPath | internal/downloader/downloader.go:105 | The `filepath.Join` of the download path, the directory name and the file name, with no contract of its own: `TargetInItemDirectory` proves it is the item directory, `/` and the file name |
| Downloader.AttachmentsRun | internal/downloader/downloader.go:97-112 | The attachment loop of `processItem` as a function, with no contract of its own: `AttachmentsRunLayout` and `AttachmentsRunStops` prove the order of its calls and where it stops |
| Downloader.AttachmentRun | internal/downloader/downloader.go:99-109 | One pass of the attachment loop as a function, with no contract of its own: `AttachmentsRunLayout` and `AttachmentsRunStops` prove it makes a `MkdirAll` and then a download, and stops at the first failure |
| Downloader.ItemRun | internal/downloader/downloader.go:86-115 | `processItem` as a function, with no contract of its own: `ItemRunLayout`, `ItemRunStopsAtFailure` and `DownloadAfterMkdir` prove its calls and its error |
| Downloader.ItemsRun | internal/downloader/downloader.go:70-84 | `processItems` as a function, with no contract of its own: `ItemsRunFatal`, `ItemsRunSucceedsIff` and `ItemsRunFetchesInOrder` prove its fetches and its error |
| Downloader.RunFrom | internal/downloader/downloader.go:46-68 | The loop of `DownloadAll` from a given page as a function, with no contract of its own: `RunFromListsConsecutivePages`, `RunFromUpToFirstEmptyPage` and `RunFromStopsAtFatal` prove its listing and its error |
| Downloader.Run | internal/downloader/downloader.go:46-68 | `DownloadAll` from page 1 as a function, with no contract of its own: `RunListsConsecutivePages` and `RunStopsAtFatal` prove it lists pages 1, 2, 3 and so on and fails only at a listing or fetch error |
| Downloader.Startup | internal/downloader/downloader.go:21-44 | `New` as a function, with no contract of its own: `StartupSucceedsIff` and `StartupRejectsInvalidConfigFirst` prove when it succeeds and in which order it calls |
| Downloader.Downloader.ListPage | internal/downloader/downloader.go:51 | `List` answers with the oracle's page and appends one `List` call with the page, the page size and whether it succeeded |
| Downloader.Downloader.GetItem | internal/downloader/downloader.go:74 | `Get` answers with the oracle's item and appends one `Get` call with the identifier and whether it succeeded |
| Downloader.Downloader.MkdirAll | internal/downloader/downloader.go:100 | `os.MkdirAll` succeeds as the oracle says and appends one `Mkdir` call with the path and the outcome |
| Downloader.Downloader.DownloadAttachment | internal/downloader/downloader.go:107 | `DownloadAttachment` succeeds as the oracle says and appends one `Download` call with the item, the attachment, the path and the outcome |
| Downloader.Downloader.ProcessAttachment | internal/downloader/downloader.go:99-109 | One pass of the loop makes the calls and returns the error of `AttachmentRun` for the item directory and the target path |
| Downloader.Downloader.ProcessItem | internal/downloader/downloader.go:86-115 | `processItem` appends exactly the calls of `ItemRun` to the trace and returns its error |
| Downloader.Downloader.ProcessItems | internal/downloader/downloader.go:70-84 | `processItems` appends exactly the calls of `ItemsRun` to the trace and returns its error |
| Downloader.Downloader.DownloadAll | internal/downloader/downloader.go:46-68 | `DownloadAll` appends exactly the calls of `Run` to the trace and returns its error |
| Downloader.New | internal/downloader/downloader.go:21-44 | `New` makes the calls and returns the error of `Startup`; it returns a downloader exactly when there is no error, holding the validated configuration and the file manager |
| DownloaderProperties.AttachmentsRunLayout | internal/downloader/downloader.go:97-109 | For each attachment in order, a `MkdirAll` of the item directory and then the download of that attachment to its destination, possibly ending early |
| DownloaderProperties.AttachmentsRunStops | internal/downloader/downloader.go:100-109 | Every call but the last succeeded; the item fails exactly when its last call failed, and otherwise every attachment was downloaded; the error names the failed directory or attachment |
| DownloaderProperties.ItemRunLayout | internal/downloader/downloader.go:97-109 | `processItem` handles the attachments in order under the item's own ID; an item without attachments makes no call |
| DownloaderProperties.ItemRunStopsAtFailure | internal/downloader/downloader.go:100-109 | A failed directory or download skips the item's remaining attachments, and the item succeeds exactly when all attachments were downloaded |
| DownloaderProperties.DownloadAfterMkdir | internal/downloader/downloader.go:99-107 | Each download comes right after a successful `MkdirAll` of the item directory |
| DownloaderProperties.FileManagerNamesNonEmpty | internal/filemanager/file_manager.go:21-45 | The file manager never gives an empty directory or file name |
| DownloaderProperties.TargetInItemDirectory | internal/downloader/downloader.go:100-105 | With non-empty names, the target path is the item directory, `/` and the file name, so as text it begins with the item directory and `/` |
| DownloaderProperties.FileManagerTarget | internal/downloader/downloader.go:99-105 | With the file manager, an attachment goes to the download path joined with `GenerateDirectory(item)` and `GenerateFilename(item, attachment)`; as text the path begins with the item directory and `/` |
| Paths.Clean | internal/downloader/downloader.go:105 | `filepath.Clean` on Unix, with no contract of its own: `CleanAppendName`, `CleanClimbsOut` and `CleanKeepsNames` prove what it makes of the paths the downloader builds |
| Paths.SplitNoSeparator | internal/downloader/downloader.go:105 | A name without a separator is a single segment |
| Paths.SplitAppend | internal/downloader/downloader.go:105 | A separator splits a path into the segments of its two sides |
| Paths.CleanAppendName | internal/downloader/downloader.go:105 | A plain name, not `.` or `..` and without `/`, joined to a directory ends up directly inside the cleaned directory |
| Paths.CleanClimbsOut | internal/downloader/downloader.go:105 | `a/b/../../f` cleans to `f` for plain names `a`, `b` and `f` |
| Paths.CleanKeepsNames | internal/downloader/downloader.go:100 | `a/b` cleans to itself for plain names `a` and `b` |
| DownloaderProperties.TitleClimbsOut | internal/downloader/downloader.go:100-105 | A file name `../../f` under a one-segment root: the uncleaned target begins with the item directory, but the cleaned one is `f`, outside the item directory and the root |
| DownloaderProperties.TitleClimbsOutExample | internal/filemanager/file_manager.go:37-40 | The title `../../x.pdf` of an attachment of `Test Item` under `export` is written to `x.pdf` |
| DownloaderProperties.ExportClimbsOut | internal/downloader/downloader.go:100-105 | The directory `Test Item_abc123` and the file name `../../x.pdf` under `export` give `x.pdf` once cleaned |
| Paths.PlainFileName | internal/filemanager/file_manager.go:49-54 | Corrected naming: invalid characters become `_` as in `sanitizeFilename`, and `.` or `..` gets a leading `_`, so the result is one plain path element |
| Paths.PlainFileNameKeepsValidNames | internal/filemanager/file_manager.go:49-54 | A plain name without invalid characters is unchanged by the correction |
| DownloaderProperties.SafeFileNameFor | internal/filemanager/file_manager.go:33-45 | Corrected `GenerateFilename`: the same name made plain, so it is never empty and never leaves its directory |
| DownloaderProperties.SafeFileNameKeepsValidNames | internal/filemanager/file_manager.go:33-45 | The corrected name equals `GenerateFilename` whenever that name was already plain and valid, as in every example of file_manager_test.go |
| DownloaderProperties.SafeFileManagerNamesNonEmpty | internal/filemanager/file_manager.go:21-45 | The corrected namer never gives an empty name, so every property proved for namers with non-empty names holds for it |
| DownloaderProperties.SafeTargetInItemDirectory | internal/downloader/downloader.go:104-105 | With the corrected names the cleaned target path is the file name directly inside the cleaned item directory |
| DownloaderProperties.ItemRunClean | internal/downloader/downloader.go:97-112 | An item makes no `List` or `Get` call and no fatal failure |
| DownloaderProperties.ItemsRunNoListing | internal/downloader/downloader.go:70-84 | A page makes no `List` call |
| DownloaderProperties.ItemsRunFatal | internal/downloader/downloader.go:74-81 | Only a failed `Get` ends a page: it is the page's last call and gives its error, and no earlier call is a fatal failure |
| DownloaderProperties.ItemsRunSucceedsIff | internal/downloader/downloader.go:73-83 | A page succeeds exactly when every one of its items can be fetched; failed items are only logged |
| DownloaderProperties.ItemsRunGetIdsStep | internal/downloader/downloader.go:73-77 | A page's `Get` calls begin with its first item's, and continue with the rest of the page only when that fetch succeeded |
| DownloaderProperties.ItemsRunFetchesInOrder | internal/downloader/downloader.go:73-82 | The items are fetched in order, one `Get` each. A successful page fetches all of them. A failed page stops at the first item whose `Get` fails and returns its error |
| DownloaderProperties.ItemDownloadPlanned | internal/downloader/downloader.go:74-107 | A download of an item is of an attachment of the full item `Get` returned, to that attachment's target path, which as text begins with the directory created just before and `/` |
| DownloaderProperties.ItemsRunDownloads | internal/downloader/downloader.go:73-107 | Every download of a page is of an attachment of the full item fetched for one of the page's items, not of the listed summary, to its target path, right after a successful `MkdirAll` of a directory that the path begins with, as text, followed by `/` |
| DownloaderProperties.RunFromListCallsStep | internal/downloader/downloader.go:50-65 | A run lists the current page, and lists the following pages only when the current page has items that can all be fetched |
| DownloaderProperties.RunFromListsConsecutivePages | internal/downloader/downloader.go:47-65 | Pages are listed one after the other from the start page, always with the configured page size, at least one of them and never past the end of the listing plus one |
| DownloaderProperties.RunListsConsecutivePages | internal/downloader/downloader.go:47-64 | `DownloadAll` lists pages 1, 2, 3, and so on with the configured page size, at most one page more than the listing has |
| DownloaderProperties.RunFromSuccessEndsAtEmptyPage | internal/downloader/downloader.go:56-64 | A run that does not fail ends at an empty page, and every page listed before it had items |
| DownloaderProperties.RunFromUpToFirstEmptyPage | internal/downloader/downloader.go:50-65 | When nothing fails before the first empty page n, a run from page p succeeds and lists exactly the pages p to n |
| DownloaderProperties.ListsExactlyUpToFirstEmptyPage | internal/downloader/downloader.go:56-58 | If page N is the first empty page and every earlier item can be fetched, `DownloadAll` returns nil after exactly N `List` calls, for pages 1 to N; any run that returns nil has made exactly N `List` calls |
| DownloaderProperties.FailedPageEndsAtFatal | internal/downloader/downloader.go:60-62 | A page that fails on `Get` ends the run with that failure as its last call |
| DownloaderProperties.CleanPageKeepsEndsAtFatal | internal/downloader/downloader.go:60-64 | A page without fatal failure in front of the rest of the run does not change where the run fails |
| DownloaderProperties.RunFromStopsAtFatal | internal/downloader/downloader.go:51-77 | A failed `List` or `Get` is the last call of the run and gives its error, and no earlier call is one; nothing else makes the run fail |
| DownloaderProperties.RunStopsAtFatal | internal/downloader/downloader.go:51-77 | `DownloadAll` fails only with a listing or fetch error, and that failure is its last call |
| DownloaderProperties.ItemsRunIgnoresFileFailures | internal/downloader/downloader.go:78-81 | A page's error and `Get` calls do not depend on which directories, downloads or files fail |
| DownloaderProperties.RunFromIgnoresFileFailures | internal/downloader/downloader.go:78-109 | The error of `DownloadAll` and the pages it lists do not depend on which directories, downloads or files fail |
| DownloaderProperties.StartupRejectsInvalidConfigFirst | internal/downloader/downloader.go:22-24 | An invalid configuration is rejected with its validation error before any login or directory creation |
| DownloaderProperties.StartupSucceedsIff | internal/downloader/downloader.go:21-44 | `New` succeeds exactly when the configuration is valid, the URL parses, the login is accepted and the root can be created; it logs in first and creates the root only after a successful login |
| Cli.Execute | cmd/cli/root.go:21-39 | Help exactly for no argument or `help`/`-h`/`--help`; version exactly for `version`/`-v`/`--version`; export exactly for `export`, with the arguments after it; otherwise an error quoting the first argument |
| Cli.UnknownCommandMessage | cmd/cli/root.go:37 | The unknown-command error text, with no contract of its own: `UnknownCommandsDistinct` and `QuotedNameRecoverable` prove different commands give different texts and the command can be read back |
| Cli.NoArgumentsMeansHelp | cmd/cli/root.go:22-30 | No arguments behaves as `help` |
| Cli.FirstArgumentDecides | cmd/cli/root.go:27-37 | Only the first argument decides the action; only the export command receives the rest |
| Cli.UnknownCommandsDistinct | cmd/cli/root.go:37 | Different unknown commands give different errors |
| Cli.QuotedNameRecoverable | cmd/cli/root.go:37 | The command name can be read back out of the error message |
| Cli.EscapeChar | cmd/cli/root.go:37 | A character with a one-letter escape becomes a backslash and that letter, which maps back to the character; any other character is kept, and is neither `"` nor `\` |
| Cli.Quote | cmd/cli/root.go:37 | `%q` quoting with its one-letter escapes only, with no contract of its own: `QuoteRoundTrip` proves `Unquote` recovers the string from it |
| Cli.Unquote | cmd/cli/root.go:37 | Reading a quoted string back, with no contract of its own: `QuoteRoundTrip` proves it inverts `Quote` |
| Cli.UnescapeEscape | cmd/cli/root.go:37 | Unescaping the escaped string gives the string back |
| Cli.QuoteRoundTrip | cmd/cli/root.go:37 | `%q` quoting loses nothing: unquoting the quoted string gives it back |

## Left out

- The HTTP client and its services (homebox_client/) are not part of this model. `NewClient`, `Login`, `List`, `Get` and `DownloadAttachment` are answers of the oracle in module `Client`. Requests, JSON, tokens and status codes are not modelled.
- The bytes of an attachment and the copy to disk are not modelled. A download that fails is modelled as writing nothing. The source may leave a partial file behind when the copy fails after the file was created.
- Logging is left out: the JSON dump of the item and the log lines in `processItem` and `processItems`. The logger package is left out too.
- cmd/cli/export.go, version.go and cmd/homebox-export/main.go are not part of this model. They parse flags and environment variables and format build metadata. The help and version texts are not modelled either; `Execute` only says which one is printed.
- The listing is a finite sequence of pages, and every page after it is empty. A server that never returns an empty page, where `DownloadAll` never ends, is not modelled.
- `filepath.Join` is modelled as joining the non-empty parts with `/`, and its clean-up as the separate function `Paths.Clean`. The paths in the trace are uncleaned; the path Go uses is `Clean` of them. `TitleSeparatorKept` shows that a title may carry `/` into the path, and `GenerateFilenameExampleClimb` that it may carry `..`.
- DownloaderProperties.TargetInItemDirectory: states that the uncleaned target begins, as text, with the item directory and `/`; it does not promise that the cleaned path lies inside the item directory, which is false for a title with `..` (`TitleClimbsOut`).
- DownloaderProperties.FileManagerTarget: the same textual prefix only, for the file manager's names.
- DownloaderProperties.ItemDownloadPlanned: the download path begins with the created directory as text only; the cleaned path may lie elsewhere.
- DownloaderProperties.ItemsRunDownloads: the same textual prefix only, for every download of a page.
- The error values `ExportError` and `ItemError` are abstract. They say which step failed and on what, not Go's message text. `ListFailed` carries the page and `GetFailed` the item identifier, although Go's `failed to list items` error does not name the page and the error of `Get` is returned unwrapped.
- `filepath.Ext` and the paths use `/` as the only separator, as on Unix.
- `strings.TrimSpace` removes only the six ASCII white-space characters. Unicode white space is not removed. Truncation cuts the sequence of characters, so cutting inside a multi-byte UTF-8 character is not modelled.
- Cli.EscapeChar: models only the one-letter escapes of `%q`. Other control characters and non-printable runes, which Go writes as `\x..` or `\u....`, are kept as they are.
- Downloader.Downloader.ProcessAttachment: calls the namer the downloader holds, not the `GenerateFilename` method. That method is proved separately to compute `FileNameFor`, which is the namer `New` installs.
- The expectations in internal/downloader/downloader_test.go are not modelled. That test targets options `New` does not have, and it expects a failed download to make `DownloadAll` fail. The model follows downloader.go, where the failure is logged and the run goes on.
- Only `ID`, `Name`, `Attachments`, the attachment `ID` and the document `Title` of the records in homebox_client/models.go are modelled. The other fields are not read by the pipeline.

## Findings

| source | as written | input that shows it | evidently intended | confidence | as-written member | corrected member |
|---|---|---|---|---|---|---|
| internal/filemanager/file_manager.go:37-40 | The title goes into the file name unsanitized, and `filepath.Join` at internal/downloader/downloader.go:105 resolves its `..` segments | Item `Test Item` with ID `abc123-456def`, download path `export`, an attachment titled `../../x.pdf`: the file is written to `x.pdf`, outside `export` | Each attachment is written inside its item's directory, whose name is sanitized for the same reason | medium, not executed | DownloaderProperties.TitleClimbsOut | DownloaderProperties.SafeTargetInItemDirectory |

The corrected namer is `SafeFileManagerNamer`. Every run property is stated
for any namer with non-empty names, and `SafeFileManagerNamesNonEmpty`
makes them hold for the corrected namer. `New` installs the namer as
written, because that is what downloader.go does. The correction concerns
the file name only: the item identifier is not sanitized either
(`DirectoryNameSafeIff`), so an identifier containing `/..` could move the
item directory itself.
