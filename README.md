# Telegram video inbox: a verified model of its core

The bot stores videos that whitelisted users send it in one shared
directory. It lists them page by page with inline keyboards and lets users
download or delete them. This project models, in Dafny, the deterministic
layer between the chat transport and the disk:

- the filename sanitiser and the path-containment checks (`Security`);
- the file catalog (`FileCatalog.FileManager`). It covers the listing with
  its newest-first sort, its id-to-name cache and its pagination, plus
  lookup, deletion, collision-free naming, the MIME-type table and the
  folder statistics;
- the per-user live-message table (`SessionState.UserState`);
- the inline keyboards and the callbacks they carry (`InlineKeyboards`);
- the sequential part of the download coordinator
  (`Downloads.DownloadManager`). This is the in-flight counter and the
  protocol that stages a `.part` file, moves it, and cleans up on failure;
- the structured log record (`Logging`), the whitelist rule (`Whitelist`),
  and the configuration bounds and user-id parser (`BotConfig`).

Supporting modules:

- `Common` holds `Option` and `Result`.
- `Text` holds Python's `split`, `join`, `replace`, `strip`, `str(int)` and
  `int()` on decimal text, with their round-trip lemmas.
- `Disk` is the two-directory filesystem: a shared directory and a
  temporary directory. Each is a map from a name to an entry with a size,
  a modification time and a kind: regular file, directory, or anything
  else (a FIFO, a socket, a link).

A path is the sequence of its components below the root. Joining follows
pathlib's `/` operator. Resolving is lexical: empty and `.` components
vanish, and `..` removes the previous component.

`list_files` slices with Python semantics. Every page past the end and
page -1 are empty (`PageOfNonNegative`, `PageMinusOneEmpty`). But page -2
of 15 files in pages of 10 is `all_files[-20:-10]`, the five newest files
(`PageMinusTwoWraps`).

## Model

| member | source | states |
|---|---|---|
| Security.SanitizeFilename | bot/utils/security.py:8-36 | the sanitised name is never empty |
| Security.SanitizeIsSafe | bot/utils/security.py:19-36 | every result is one safe component: non-empty; no '/', '\\' or NUL; no two dots in a row; no dot or space at either end |
| Security.FallbackIsSafe | bot/utils/security.py:33-34 | the fallback `unnamed_file` is itself a safe component |
| Security.ReplaceDotDotRemoves | bot/utils/security.py:25-27 | leftmost replacement of ".." leaves no two dots in a row, and its result starts with a dot only if the input starts with a lone dot |
| Security.ReplaceDangerous | bot/utils/security.py:24-27 | the replacement loop leaves no '/', '\\', NUL or ".." in any text |
| Security.ReplaceCharNoDotDot | bot/utils/security.py:24-27 | replacing a character other than '.' by "_" keeps the length and creates no two dots in a row, so the NUL step cannot undo the ".." step |
| Security.StrippedIsSafe | bot/utils/security.py:30-34 | stripping dots and spaces from such a text leaves either nothing or a safe component |
| Security.SanitizeKeepsSafe | bot/utils/security.py:19-36 | a name that is already a safe component comes back unchanged |
| Security.SanitizeIdempotent | bot/utils/security.py:19-36 | sanitising twice equals sanitising once |
| Security.Basename | bot/utils/security.py:19 | the result is the longest suffix of the input without '/': it has no '/', and the character before it, if any, is '/' |
| Security.BasenameWithoutSlash | bot/utils/security.py:19 | a text without '/' is its own basename |
| Security.Resolve | bot/utils/security.py:54-60 | lexical resolution yields only child components and never lengthens the path |
| Security.IsSafePath | bot/utils/security.py:66-81 | true exactly when the resolved target is the resolved base followed by some further components |
| Security.SecureJoin | bot/utils/security.py:39-63 | a returned path is resolved and lies under the resolved base |
| Security.SecureJoinAccepts | bot/utils/security.py:51-60 | under lexical resolution it never rejects: it returns the resolved base plus the sanitised name as one component |
| Security.JoinChild | bot/utils/security.py:51-54 | joining a child name without '/' appends exactly that component, before and after resolution |
| Security.ChildIsSafe | bot/utils/security.py:77-81 | any such child of a base passes `is_safe_path` |
| Security.ResolveChild | bot/utils/security.py:54-60 | resolving a path with one more plain child component appends that component to the resolved path |
| Security.ParentIsNotSafe | bot/utils/security.py:77-81 | `base / ".."` fails `is_safe_path` whenever the base is below the root |
| FileCatalog.InfoOf | bot/services/file_manager.py:13-25 | a file's record carries its name and the id of that name |
| FileCatalog.Scan | bot/services/file_manager.py:60-64 | the scan yields one record per regular file, read from its entry, each name once |
| FileCatalog.ScanStep | bot/services/file_manager.py:61-64 | visiting one more entry keeps the scan invariant: regular files appended, other entries skipped |
| FileCatalog.SortNewestFirst | bot/services/file_manager.py:67 | the sort yields non-increasing mtimes and a permutation of its input |
| FileCatalog.InsertNewestFirst | bot/services/file_manager.py:67 | insertion adds one element: the new one is present and every old one is kept |
| FileCatalog.InsertionPoint | bot/services/file_manager.py:67 | the insertion point is behind every element at least as new and before the first strictly older one |
| FileCatalog.InsertNewestFirstPosition | bot/services/file_manager.py:67 | the new element goes in at its insertion point and the others keep their order, which makes the sort stable |
| FileCatalog.InsertNewestFirstSorted | bot/services/file_manager.py:67 | inserting into a newest-first list keeps it newest first |
| FileCatalog.InsertNewestFirstAdds | bot/services/file_manager.py:67 | insertion adds exactly that element to the multiset |
| FileCatalog.SortedScanIsListing | bot/services/file_manager.py:60-67 | a sorted scan lists every regular file once, newest first |
| FileCatalog.TotalPages | bot/services/file_manager.py:75-76 | at least one page; with files, (pages-1)*size < files <= pages*size, i.e. the ceiling; one page when empty |
| FileCatalog.ClampIndex | bot/services/file_manager.py:81 | a slice bound as Python reads it: a non-negative bound capped at the length, a negative one counted from the end, and 0 below minus the length |
| FileCatalog.PySlice | bot/services/file_manager.py:81 | `s[start:stop]` has at most `len(s)` elements; it is empty when `stop <= start` and both bounds have the same sign; with non-negative bounds it is the clamped slice |
| FileCatalog.PageOf | bot/services/file_manager.py:79-81 | a page holds at most `page_size` entries, all from the listing |
| FileCatalog.PageOfNonNegative | bot/services/file_manager.py:79-81 | a non-negative page is the clamped slice from page*size, and is empty at or past `total_pages` |
| FileCatalog.PageMinusOneEmpty | bot/services/file_manager.py:79-81 | page -1 is empty |
| FileCatalog.PageMinusTwoWraps | bot/services/file_manager.py:79-81 | page -2 of 15 files in pages of 10 is the five newest files |
| FileCatalog.FirstPagesPrefix | bot/services/file_manager.py:79-81 | the first k pages together are the first k*size entries |
| FileCatalog.PagesCoverListing | bot/services/file_manager.py:75-81 | pages 0 to total_pages-1 together are the whole listing, so their lengths add up to the file count |
| FileCatalog.TwelveFilesInPagesOfTen | bot/services/file_manager.py:75-81 | 12 files in pages of 10 give 2 pages, of 10 and 2 entries |
| FileCatalog.CachedName | bot/services/file_manager.py:95-96 | a cache hit is a non-empty cached name; an empty name counts as a miss |
| FileCatalog.CacheCoversAppend | bot/services/file_manager.py:70-72 | entering one more listed file keeps the cache mapping exactly the ids seen so far to files with those ids |
| FileCatalog.ListingIds | bot/services/file_manager.py:70-72 | the ids of a listing are exactly the ids of the regular files |
| FileCatalog.FileManager.ListFiles | bot/services/file_manager.py:49-83 | returns a listing of the regular files, its count, `TotalPages` and the Python slice for the page; the cache is rebuilt to map exactly the current ids to their files |
| FileCatalog.FileManager.GetFileById | bot/services/file_manager.py:85-106 | a hit leaves the cache alone, a miss rebuilds it once; a record comes back exactly when the cached name exists and passes `is_safe_path`, and it describes that file with the asked id |
| FileCatalog.FileManager.DeleteFile | bot/services/file_manager.py:108-132 | the name is looked up in the cache, which is rebuilt from the listing on a miss; deletion succeeds exactly when there is no I/O error, the looked-up name exists, passes `is_safe_path` and is not a directory; on success exactly that name, whose id is the one asked for, leaves the shared directory and the id leaves the cache; on failure no file changes; the temporary directory never changes |
| FileCatalog.ExtensionFromMime | bot/services/file_manager.py:180-194 | the result is an extension of the table; a missing, empty or unknown type gives "mp4" |
| FileCatalog.ExtensionTable | bot/services/file_manager.py:182-194 | each of the six listed types maps to its extension |
| FileCatalog.LastIndexOf | bot/services/file_manager.py:155-157 | the index found holds the character and none follows it; no index means the character is absent |
| FileCatalog.SplitExtension | bot/services/file_manager.py:155-157 | stem, dot and extension rebuild the name, and the extension holds no dot (split at the last dot) |
| FileCatalog.Prefix8 | bot/services/file_manager.py:164 | `s[:8]` is the first eight characters, or all of a shorter text |
| FileCatalog.NameParts | bot/services/file_manager.py:152-166 | with a named original whose sanitised form has a dot, stem "." extension rebuilds that form and the extension has no dot; without a dot the sanitised form is the stem and the extension comes from the MIME type; without a name the stem is the timestamp, '_' and the first eight characters of the unique id |
| FileCatalog.FirstCandidateKeepsName | bot/services/file_manager.py:152-157 | a sanitised name with a dot is the first name tried |
| FileCatalog.NamePartsArePlain | bot/services/file_manager.py:152-166 | the chosen stem is non-empty, does not start with a dot, and neither stem nor extension has '/' (in the timestamp branch when the timestamp and id have none) |
| FileCatalog.CandidatesDistinct | bot/services/file_manager.py:169-178 | different counters give different names |
| FileCatalog.CandidateIsChild | bot/services/file_manager.py:169-178 | every name tried from a plain stem is a plain child name |
| FileCatalog.CandidateSetSize | bot/services/file_manager.py:169-178 | the first n names tried are n distinct names |
| FileCatalog.CandidatesFillDirectory | bot/services/file_manager.py:169-178 | if the first n names all exist, the directory holds at least n entries, which bounds the loop |
| FileCatalog.FileManager.GenerateFilename | bot/services/file_manager.py:134-178 | the result is the first free name among `base.ext`, `base (1).ext`, ...: absent from the shared directory, every earlier candidate present, counter at most the number of entries |
| FileCatalog.FileManager.FirstFreeCandidate | bot/services/file_manager.py:169-178 | the collision loop returns the first candidate not in the directory, after at most as many tries as there are entries |
| FileCatalog.SizeOfRemove | bot/services/file_manager.py:203-215 | the size total does not depend on the order of summation |
| FileCatalog.TallyStep | bot/services/file_manager.py:207-211 | visiting one entry adds one file and its size exactly when it is a regular file |
| FileCatalog.FileManager.GetFolderStats | bot/services/file_manager.py:196-215 | returns the number of regular files and the sum of their sizes |
| SessionState.WithEntry | bot/utils/state.py:25-34 | the user gets the new pair and every other user keeps theirs |
| SessionState.WithPage | bot/utils/state.py:36-46 | the same users keep entries; the user's message id is kept with the new page; nothing else changes |
| SessionState.Without | bot/utils/state.py:48-55 | the user has no entry and every other user keeps theirs |
| SessionState.UserState.GetLiveMessage | bot/utils/state.py:13-23 | None exactly for a user without an entry, otherwise the stored pair |
| SessionState.UserState.SetLiveMessage | bot/utils/state.py:25-34 | the table becomes `WithEntry` of the old one, and a later get returns (message id, page) |
| SessionState.UserState.UpdatePage | bot/utils/state.py:36-46 | the table becomes `WithPage` of the old one |
| SessionState.UserState.ClearUser | bot/utils/state.py:48-55 | the table becomes `Without` of the old one, and a later get returns None |
| InlineKeyboards.PaginationRow | bot/keyboards/inline.py:39-59 | the pagination row has one to three buttons |
| InlineKeyboards.FileListKeyboard | bot/keyboards/inline.py:10-66 | one row per file in order with `file:<id>`; the pagination row is present exactly when there is more than one page; the last row is refresh; `page:current` is offered exactly when there is more than one page |
| InlineKeyboards.CurrentOfferedIff | bot/keyboards/inline.py:39-66 | in a file-list keyboard, `page:current` is offered exactly when the pagination row is there |
| InlineKeyboards.PrevOfferedIff | bot/keyboards/inline.py:42-45 | `page:<page-1>` is offered exactly when page > 0 |
| InlineKeyboards.NextOfferedIff | bot/keyboards/inline.py:54-57 | `page:<page+1>` is offered exactly when page < total_pages - 1 |
| InlineKeyboards.IndicatorAlwaysOffered | bot/keyboards/inline.py:47-52 | the `page+1/total` indicator with `page:current` is always in the row |
| InlineKeyboards.CurrentIsNoPage | bot/keyboards/inline.py:42-57 | no page-number callback equals `page:current` |
| InlineKeyboards.FileButtonIsNoPage | bot/keyboards/inline.py:29-36 | a file button never carries `page:current` |
| InlineKeyboards.ActionsKeyboard | bot/keyboards/inline.py:69-85 | three single-button rows: `download:<id>`, `delete_ask:<id>`, `list:back` |
| InlineKeyboards.DeleteConfirmationKeyboard | bot/keyboards/inline.py:88-105 | one row: `delete_confirm:<id>` then `file:<id>` |
| InlineKeyboards.EmptyListKeyboard | bot/keyboards/inline.py:108-119 | only the refresh row |
| InlineKeyboards.FileIdOfCallback | bot/handlers/callbacks.py:66 | an id is read exactly when the data has a ':'; it is the text from the first ':' to the next ':' or the end, and holds no ':' |
| InlineKeyboards.PageOfCallback | bot/handlers/callbacks.py:31-35 | `page:current` gives no page; any other data gives the number in the same field a file id is read from |
| InlineKeyboards.PageCallbackRoundTrip | bot/handlers/callbacks.py:31-35 | a page callback the keyboard builds reads back as the page it names |
| InlineKeyboards.FileCallbackRoundTrip | bot/handlers/callbacks.py:66 | a file id without ':' reads back from every action callback built from it |
| Downloads.DownloadManager.GetActiveCount | bot/services/download_manager.py:92-94 | returns the counter of downloads in progress |
| Downloads.DownloadManager.DownloadVideo | bot/services/download_manager.py:21-51 | the counter is one higher during the call and back to its old value after it, whatever the outcome; the directories change as `Effect` says, with the name `generate_filename` picks |
| Downloads.DownloadManager.DownloadImpl | bot/services/download_manager.py:53-90 | a failing `get_file` touches nothing; on success the file is in the shared directory under its fresh name and its path is returned; any other failure leaves the shared directory as it was, removes the `.part` file and reports the failing step |
| Downloads.DownloadManager.StageAndMove | bot/services/download_manager.py:68-90 | the `.part` file is gone afterwards in every case; the shared directory gains the file exactly when the transfer and the move succeed |
| Downloads.StageThenRemove | bot/services/download_manager.py:78-90 | staging and then removing `.part` is the same as removing it |
| Downloads.DownloadPathsContained | bot/services/download_manager.py:68-74 | the staging path is a direct child of the temporary directory, and the returned path is a direct child of the shared directory that passes `is_safe_path` |
| Downloads.SuccessAddsOneFile | bot/services/download_manager.py:78-84 | a successful download adds exactly one entry to the shared directory, the written file under its final name, keeps every other entry, and leaves no `.part` file |
| Logging.LogEvent | bot/utils/logger.py:56-101 | exactly one record is appended: the joined parts, at error level exactly when there is an error text |
| Logging.Render | bot/utils/logger.py:85-94 | one `key=value` part per field, in order |
| Logging.LevelFor | bot/utils/logger.py:98-101 | error level exactly when the error text is non-empty |
| Logging.Fields | bot/utils/logger.py:85-94 | the first field is always the event, and the fields come in the fixed order event, user_id, filename, file_id, error |
| Logging.FieldPresence | bot/utils/logger.py:87-94 | user_id is present exactly when it is not None, so 0 too; filename, file_id and error exactly when non-empty |
| Logging.PartsPresence | bot/utils/logger.py:85-94 | after the event field, a key occurs exactly when its optional part is there |
| Logging.UserIdField | bot/utils/logger.py:87-88 | a user id is written in decimal and reads back as the same id |
| Logging.Message | bot/utils/logger.py:85-96 | the message always begins with `EVENT=<event>` |
| Logging.BareEvent | bot/utils/logger.py:85-101 | with no optional value the message is exactly `EVENT=<event>`, at info level |
| Whitelist.Allowed | bot/middleware/whitelist.py:22-37 | allowed exactly when there is a sender whose id is in the list |
| Whitelist.Filter | bot/middleware/whitelist.py:22-37 | the answer is `Allowed`; one refusal record is logged exactly when a known sender is refused; nothing otherwise |
| Whitelist.RefusalText | bot/middleware/whitelist.py:30-35 | a refusal is an info record `EVENT=unauthorized_access \| user_id=<id>` |
| Whitelist.RefusalsDistinguishUsers | bot/middleware/whitelist.py:30-35 | refusals of two different users are different records |
| BotConfig.CheckSettings | bot/config.py:38-48 | accepted exactly when 1 <= page_size <= 50, 1 <= max_concurrent_downloads <= 5 and send_as is "document" or "video"; otherwise each broken constraint is reported, and only those |
| BotConfig.DefaultsValid | bot/config.py:38-48 | the defaults 10, 2 and "document" are valid |
| BotConfig.NonBlank | bot/config.py:62 | every kept text is the non-empty strip of some piece, and the strip of every piece that is not blank is kept |
| BotConfig.NonBlankInOrder | bot/config.py:62 | the kept texts are exactly the non-blank strips of the pieces at increasing positions, and every piece left out strips to nothing |
| BotConfig.StripAll | bot/config.py:62 | one strip per piece, position by position |
| BotConfig.DropBlank | bot/config.py:62 | only non-empty texts are kept, never more than there were |
| BotConfig.DropBlankMembers | bot/config.py:62 | every kept text is one of the texts, and every non-empty text is kept |
| BotConfig.DropBlankInOrder | bot/config.py:62 | the kept texts are the non-empty ones at increasing positions, and every text left out is empty |
| BotConfig.KeptIncreasing | bot/config.py:62 | the kept positions are valid and strictly increasing |
| BotConfig.ParseAll | bot/config.py:62 | success parses every piece in order; a failure names a piece that is not a number |
| BotConfig.ParseUserIds | bot/config.py:61-63 | a list passes unchanged; accepted text gives one id per non-blank piece, each the number of that piece, in order; a rejected text names a non-blank piece that is not a number |
| BotConfig.ParseUserIdsRoundTrip | bot/config.py:61-62 | ids written as comma-separated decimals parse back to the same list |
| BotConfig.EmptyTextGivesNoIds | bot/config.py:61-62 | an empty text gives no ids |
| BotConfig.TrailingCommaIgnored | bot/config.py:61-62 | a trailing comma changes nothing, since blank pieces are skipped |
| Text.JoinSplit | bot/config.py:62 | joining the pieces of a split with the separator gives back the text |
| Text.SplitJoin | bot/config.py:62 | splitting a join of pieces without the separator gives back the pieces |
| Text.ParseIntToString | bot/config.py:62 | `int(str(i)) == i` |
| Text.StripIsTrimmedSlice | bot/utils/security.py:30 | a stripped text is a slice of the input with no stripped character at either end, and everything cut off on either side is a stripped character |
| Text.StripLeftDrops | bot/utils/security.py:30 | everything `lstrip` removes is one of the stripped characters |
| Text.StripRightDrops | bot/utils/security.py:30 | everything `rstrip` removes is one of the stripped characters |
| Text.SplitSeveral | bot/handlers/callbacks.py:66 | `split` gives a second piece exactly when the separator occurs |
| Text.SplitFirstTwo | bot/handlers/callbacks.py:66 | the first two pieces of a split are the text before the first separator and the text from there to the next one or the end |

## Left out

- The `asyncio.Semaphore` that limits concurrent downloads. Concurrency is not modelled: `DownloadVideo` is one sequential call, and the counter bracket is stated per call.
- `bot.get_file`, `download_to_drive` and `shutil.move` are foreign network and filesystem calls. Their outcomes are parameters (`getFileOk`, `Transfer`, `moveOk`). A move that fails is taken to leave the shared directory unchanged; a cross-device move that fails half-way is not modelled. The re-raised exception becomes a `Failure` value that names the failing step.
- The md5 of a file name is the opaque function `idOf`. `FileManager.Valid` requires only that it yields 8-character ids.
- Symbolic links: `Path.resolve` is modelled lexically.
- `datetime.now()` and `strftime`: the timestamp is a parameter of `GenerateFilename`.
- `FileInfo.size_human`, `mtime_human` and the status service do floating-point and locale formatting. The size text in a file button is the parameter `sizeText`. Disk-space queries, `bot/utils/video_metadata.py`, the handlers' chat calls, `bot/main.py`, `setup_logger`, `bot/keyboards/reply.py`, pydantic's environment loading and `ensure_directories` are not part of this model. Of `bot/handlers/callbacks.py` only the two callback parsers are modelled; where Python's `split(":")[1]` would raise `IndexError` (no ':'), they return `None`.
- `Text.ParseInt` accepts an optional '-' or '+' followed by ASCII digits. Python's `int()` also takes underscores between digits, non-ASCII digits and surrounding whitespace; those inputs are not modelled. `Text.Whitespace` is the ASCII whitespace set, not Unicode's.
- `Security.Basename` follows POSIX `os.path.basename`: only '/' separates.
- `Path.exists()` on a candidate name is membership in the directory map. The shared directory always exists in the model; a missing directory behaves like an empty one, as the `exists()` guards of `list_files` and `get_folder_stats` make it.
- `FileCatalog.SortNewestFirst`: equal modification times keep scan order, and the scan order of `iterdir` is unspecified (`:|` choice). So the order among files with equal times is not stated.
- `FileCatalog.FileManager.DeleteFile`: the `OSError` of `unlink` is the parameter `ioError` for failures the model does not see (permissions, a busy file); the model itself refuses only a directory, which is what `unlink` raises on. The cache the method looked the name up in and the name it removed are ghost out-values.
- `BotConfig.CheckSettings`: pydantic's error object is reduced to the list of broken constraints.
- `Downloads.DownloadManager.DownloadVideo`: the counter value during the call is returned as a ghost value, because no other task can observe it in a sequential model.
