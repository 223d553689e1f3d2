# A verified model of the document back end of a retrieval chat service

The service answers questions about a corpus of bank manuals. Three pieces of
its engine decide what the corpus is and what the chat remembers:

- **The Google Drive mirror** (`GoogleDriveDownloader`). It lists a Drive folder
  page by page and flattens the folder tree into items that carry their relative
  path. It then decides which files are missing or stale locally and plans the
  downloads with their byte total. Finally it creates the local directories,
  writes the files and advances one progress bar by each chunk's increment.
- **The MySQL chat store** (`MySQLChatStore`). It keeps a conversation in rows
  that each pair a user question with the assistant's reply. It reads the rows
  back as a flat message list, and it rewrites, extends and trims that list.
- **The catalogue document** (`create_single_document_with_filenames` and
  `month_full_name`). It walks the mirrored folders and buckets file names by
  the `YYYY-MM` date in their folder's path. It then writes a Portuguese
  description of the corpus: one paragraph per year and month, one for undated
  files and a closing list of every file, sorted by code point.

Modules:

| file | module | contents |
|---|---|---|
| `wrappers.dfy` | `Wrappers` | `Option`, `Last` |
| `drive_tree.dfy` | `DriveTree` | listing pages, remote tree, depth-first flattening |
| `drive_sync.dfy` | `DriveSync` | metadata defaults, the download decision, planning, effect on the local file system |
| `drive_progress.dfy` | `DriveProgress` | the progress bar's increments during one download |
| `chat_store.dfy` | `ChatStore` | the table as rows in id order, every store operation, history-level lemmas |
| `text.dfy` | `Text` | `join`, substring occurrence, decimal numerals, Python string order, `sorted(set(...))` |
| `months.dfy` | `Months` | `month_full_name` and its table |
| `catalogue.dfy` | `Catalogue` | the date search, the year/month buckets, the paragraph structure of the document |
| `catalogue_text.dfy` | `CatalogueText` | the Portuguese wording of each paragraph and the final document |

Modelling choices:

- A Drive path is the sequence of the names it joins, so `os.path.join` is
  concatenation. The local copy of an item sits at `root + path + [name]`.
- The Drive service is a set of parameters. The listing is the sequence of
  responses in call order. Metadata is a total function from file id to the raw
  fields. The remote tree is a `Node` whose children are the folder's listing.
- The local file system is a set of directories and a map from path to
  `LocalFile(size, digest)`. A download writes the remote size and MD5.
- The chat table is its rows in id order plus the auto-increment counter.
  Messages are `Message(role, content)`, and an absent content is `None`.
- A Python `dict` that keeps insertion order becomes an association list. The
  catalogue's paragraphs are first built as a `Line` datatype and then spelled
  out, so the structure and the wording can be reasoned about separately.

## Model

| member | source | states |
|---|---|---|
| DriveTree.ListFolder | app/engine/drive_downloader.py:121-138 | The listing finishes exactly when some response has an absent or empty next-page token. It stops at the first such response, and its items are the files of every response read, in order, with absent `files` read as empty. |
| DriveTree.FlattenAll | app/engine/drive_downloader.py:155-181 | One item per visited node, including folders. Every item's path extends the parent path it was called with. |
| DriveTree.FlattenNode | app/engine/drive_downloader.py:163-180 | A child's own item comes first, so every folder precedes its descendants. The descendants' paths extend the folder's path, and a file yields exactly one item at its parent's path. |
| DriveTree.FlattenSound | app/engine/drive_downloader.py:155-181 | Every emitted item is an entry reachable through folders. A folder's path ends with its own name, and a file's path is its parent folder's path. |
| DriveTree.FlattenComplete | app/engine/drive_downloader.py:155-181 | Every entry reachable through folders is emitted, at the path derived from its ancestors' names. |
| DriveSync.GetFileMetadata | app/engine/drive_downloader.py:140-153 | A missing size reads as 0 and a missing checksum or modification time reads as the empty string. Present fields are passed through. |
| DriveSync.MetadataDefaults | app/engine/drive_downloader.py:150-152 | An absent field is indistinguishable from a present default value, and metadata Drive sends in full comes back unchanged. |
| DriveSync.Check | app/engine/drive_downloader.py:183-210 | Each verdict holds exactly in its own case: missing locally, size differs, or sizes agree but the remote MD5 is known and differs. Otherwise the file is up to date. |
| DriveSync.NeedsDownload | app/engine/drive_downloader.py:183-210 | A file needs no download exactly when its local copy exists, has the remote size, and has the remote digest whenever the remote MD5 is non-empty. |
| DriveSync.DigestIgnoredUnlessCompared | app/engine/drive_downloader.py:200-210 | When the sizes differ or the remote MD5 is empty, the local contents' digest cannot change the verdict, and no hash mismatch is reported. |
| DriveSync.MakePlan | app/engine/drive_downloader.py:255-265 | The plan keeps the listing order. It holds exactly the non-folder items that need a download, each as many times as the listing has it, and its byte total is the sum of their remote sizes. |
| DriveSync.MakeDirs | app/engine/drive_downloader.py:218-222 | `makedirs(exist_ok=True)` keeps every existing directory and makes sure the target and each of its ancestors exist. Each directory it adds is a non-empty prefix of the target. |
| DriveSync.DownloadAll | app/engine/drive_downloader.py:289-295 | The download loop keeps every directory, and its files are the old ones plus exactly the local paths of the planned files. What each path holds is stated by `DownloadAllWrites`, `DownloadAllFrame` and `DownloadAllEffect`. |
| DriveSync.DownloadAllEffect | app/engine/drive_downloader.py:289-295 | Every planned file's local path holds the download of a planned file with that path, and every path no planned file maps to is unchanged. |
| DriveSync.DownloadAllMakesDirs | app/engine/drive_downloader.py:218-222 | After the downloads, the directory of every planned file exists. |
| DriveSync.DownloadAllWrites | app/engine/drive_downloader.py:224-225 | Every planned file's local path exists after the downloads. It holds the remote size and digest of a planned item with that local path. |
| DriveSync.DownloadAllFrame | app/engine/drive_downloader.py:289-295 | A local path no planned file maps to is left exactly as it was. |
| DriveSync.Sync | app/engine/drive_downloader.py:238-300 | It reports "already synchronised" exactly when the plan is empty, and then leaves the file system alone. Otherwise it reports the plan's files and byte total and creates the local root. Every planned path then holds the remote size and digest of a planned file that maps to it, and every other path is left as it was. |
| DriveSync.DownloadedFilesAreCurrent | app/engine/drive_downloader.py:183-210 | After the planned downloads, no file of the listing needs a download any more, provided local paths are distinct. |
| DriveSync.PlanEmptyWhenAllCurrent | app/engine/drive_downloader.py:259-269 | If no listed file needs a download, the plan is empty. |
| DriveSync.SyncIsIdempotent | app/engine/drive_downloader.py:238-300 | A second synchronisation right after a first one reports "already synchronised", provided local paths are distinct. |
| DriveSync.LaterDownloadWins | app/engine/drive_downloader.py:218-225 | When two planned files share a local path, the file left there is the later download; the earlier one is overwritten. |
| DriveSync.PlanOfTwoFiles | app/engine/drive_downloader.py:259-265 | A listing of two files plans each one that needs a download, in listing order. |
| DriveSync.SharedLocalPathRedownloads | app/engine/drive_downloader.py:238-300 | Two Drive files named `r.pdf` (10 and 20 bytes) in one folder share one local path. A first run over an empty folder downloads both, and the next run plans the 10-byte file again. |
| DriveSync.SameNameNeverSettles | app/engine/drive_downloader.py:238-300 | For that folder, whichever copy a run finds locally, the run downloads exactly one file and leaves the other copy, so the local file changes on every run. |
| DriveSync.SyncOfOne | app/engine/drive_downloader.py:255-295 | A run whose plan is a single file reports that file and its size. It writes its download to the file's local path and changes no other file. |
| DriveProgress.DeltasTelescope | app/engine/drive_downloader.py:228-236 | The increments sent to the progress bar add up to the last reported progress, or 0 when none was reported. |
| DriveProgress.DeltasAreDifferences | app/engine/drive_downloader.py:232-236 | Each increment is the reported progress minus the previous report, with 0 before the first. |
| DriveProgress.ReportedStep | app/engine/drive_downloader.py:231-236 | A chunk without a status adds no increment. A chunk with a status adds its progress minus the previous one, and it becomes the previous progress. |
| DriveProgress.TrackProgress | app/engine/drive_downloader.py:227-236 | The loop stops at the first chunk flagged done, or at the end of the chunks. The increments it emits are the differences of the reports read so far, and they sum to the last report. |
| ChatStore.GetMessages | app/engine/mysqlchatstore.py:79-98 | Every message read back has role user or assistant and non-null content. |
| ChatStore.GetKeys | app/engine/mysqlchatstore.py:69-77 | Each key is listed once, and a key is listed exactly when some row has it. |
| ChatStore.SetMessages | app/engine/mysqlchatstore.py:100-144 | The auto-increment counter never goes back. What the key reads back is stated by `SetThenGet`, the other keys by `SetMessagesFrame`, and the row order by `SetMessagesWf`. |
| ChatStore.SetThenGet | app/engine/mysqlchatstore.py:100-144 | When every message that was set has content, reading the key right after `set_messages` gives back those messages, with every non-user role read as the assistant. |
| ChatStore.SetMessagesFrame | app/engine/mysqlchatstore.py:109-113 | `set_messages` leaves every other key's rows and history unchanged. |
| ChatStore.SetMessagesWf | app/engine/mysqlchatstore.py:115-142 | Row ids stay strictly increasing and below the auto-increment counter. |
| ChatStore.NormalizeCanonical | app/engine/mysqlchatstore.py:93-97 | A history as `get_messages` returns it is unchanged by role normalisation, so it can be stored again as is. |
| ChatStore.PendingIndex | app/engine/mysqlchatstore.py:166-174 | It finds the latest row of the key with a question and no reply. No later row of the key is pending, and `None` means no row of the key is pending. |
| ChatStore.AddMessage | app/engine/mysqlchatstore.py:146-201 | A question with content appends itself to its key's history, and one without content appends nothing. A reply with nothing pending appends itself as an assistant message when it has content, and nothing otherwise. In both cases other keys' histories are untouched. |
| ChatStore.AddReplyToPending | app/engine/mysqlchatstore.py:163-188 | A reply fills the pending row in place, so it lands right after that question in the history, not at its end. |
| ChatStore.AddReplyToPendingFrame | app/engine/mysqlchatstore.py:176-188 | Filling a pending row leaves every other key's history unchanged. |
| ChatStore.AddMessageWf | app/engine/mysqlchatstore.py:146-201 | Row ids stay strictly increasing and below the counter. |
| ChatStore.DeleteMessages | app/engine/mysqlchatstore.py:205-213 | The key's history becomes empty and every other key's history is unchanged. |
| ChatStore.DeleteMessagesWf | app/engine/mysqlchatstore.py:205-213 | Deleting a key's rows keeps row ids strictly increasing and below the counter. |
| ChatStore.LastIndex | app/engine/mysqlchatstore.py:222-232 | It finds the key's last row in id order, and `None` exactly when the key has no row. |
| ChatStore.DeleteLastMessageHistory | app/engine/mysqlchatstore.py:215-260 | With null tests, removing the last message returns the history's last message and drops exactly it. `None` comes back only when the history is unchanged. |
| ChatStore.DeleteLastMessageFrame | app/engine/mysqlchatstore.py:238-253 | Removing the last message of a key, in both the null-test version and the truthiness version as written, leaves every other key's history unchanged. |
| ChatStore.DeleteLastMessageAsWritten | app/engine/mysqlchatstore.py:215-260 | The version as written changes nothing and returns `None` when the key has no row. It keeps the counter, and it never returns a message whose content is empty or absent. How it agrees with and differs from the null tests is stated by `AsWrittenAgreesWithoutEmptyText` and `AsWrittenDropsEmptyQuestion`. |
| ChatStore.DeleteLastMessageWf | app/engine/mysqlchatstore.py:238-253 | Both versions keep row ids strictly increasing and below the counter. |
| ChatStore.AsWrittenAgreesWithoutEmptyText | app/engine/mysqlchatstore.py:238-260 | When the last row holds no empty string, the truthiness tests written in the source behave like the null tests. |
| ChatStore.AsWrittenDropsEmptyQuestion | app/engine/mysqlchatstore.py:238-260 | A row with an empty question and a reply reads back as two messages. The code as written deletes both but returns only the reply. |
| ChatStore.DeleteMessage | app/engine/mysqlchatstore.py:262-278 | An index outside the history changes nothing and returns `None`. Otherwise it returns the message at that index. |
| ChatStore.DeleteMessageHistory | app/engine/mysqlchatstore.py:262-278 | Afterwards the key's history is the old one without the message at the index, and every other key's history is unchanged. |
| ChatStore.DeleteMessageWf | app/engine/mysqlchatstore.py:262-278 | Row ids stay strictly increasing and below the counter. |
| Months.MonthFullName | app/engine/document_creator.py:121-132 | A name other than the argument comes back exactly when the argument is a two-digit month numeral from 01 to 12. Anything else is returned unchanged. |
| Months.MonthFullNameFollowsTable | app/engine/document_creator.py:126-132 | Each of the twelve numerals maps to its Portuguese month name. |
| Months.NumeralsAreKeys | app/engine/document_creator.py:126-131 | Every two-digit month numeral is the key at its own position in the table. |
| Catalogue.SearchYearMonth | app/engine/document_creator.py:26-29 | There is no match exactly when no position holds four digits, a dash and two digits. Otherwise the match is the leftmost such position, split into year and month. |
| Catalogue.Collect | app/engine/document_creator.py:22-43 | Every undated file is also among all the files met, at least as many times as the undated list holds it. The buckets and lists themselves are stated by `CollectBuckets`, `CollectUndated` and `CollectAll`. |
| Catalogue.CollectBuckets | app/engine/document_creator.py:25-38 | A year/month bucket exists exactly when some walked folder is dated so. It holds those folders' files in walk order, duplicates kept. |
| Catalogue.CollectUndated | app/engine/document_creator.py:39-43 | The undated list is the files of the folders without a date, in walk order. |
| Catalogue.CollectAll | app/engine/document_creator.py:22-43 | The set of all files holds exactly the files of every walked folder. |
| Catalogue.CollectWellFormed | app/engine/document_creator.py:25-34 | Year keys are distinct four-digit numerals. Every year has at least one month, and its month keys are distinct two-digit numerals. |
| Catalogue.YearLinesNameFiles | app/engine/document_creator.py:49-85 | Every file of a year/month bucket is named in that year's paragraphs. It appears either in the single-file sentence or in its month's list. |
| Catalogue.DatedFileDescribed | app/engine/document_creator.py:25-85 | Every file in a dated folder is named in the document, in the sentence for its year and month. |
| Catalogue.UndatedLine | app/engine/document_creator.py:87-97 | Undated files add exactly one paragraph, and none when there are none. It lists each undated file exactly once. |
| Catalogue.UndatedFileDescribed | app/engine/document_creator.py:87-97 | Every file in an undated folder is named in the undated paragraph. |
| Catalogue.ClosingLineListsAllFiles | app/engine/document_creator.py:99-104 | The document ends with the list of all files, in strictly ascending order, holding exactly the walked files. |
| Catalogue.YearsChronological | app/engine/document_creator.py:49 | Years are described in strictly increasing numeric order. |
| Catalogue.MonthsChronological | app/engine/document_creator.py:50 | Within a year, months are described in strictly increasing numeric order. |
| CatalogueText.SpellNamesFiles | app/engine/document_creator.py:60-103 | Every file a paragraph names occurs verbatim in that paragraph's Portuguese text. |
| CatalogueText.SpellMonthFilesNumber | app/engine/document_creator.py:75-85 | A month with one file gets the singular sentence. Any other month gets the plural sentence, whose stated count reads back as the number of files. |
| CatalogueText.SpellUndatedNumber | app/engine/document_creator.py:88-97 | The undated sentence opens in the singular for exactly one distinct name and in the plural otherwise. |
| CatalogueText.SpellYearHeaderMonths | app/engine/document_creator.py:69-72 | The year's opening sentence mentions every month as "full name (mês MM)". |
| CatalogueText.CreateSingleDocument | app/engine/document_creator.py:6-119 | Every file met anywhere in the walk is named in the document text, dated or not. Where each name appears is stated by `NamedInText`, `DatedFileDescribed`, `UndatedFileDescribed` and `ClosingLineListsAllFiles`. |
| CatalogueText.NamedInText | app/engine/document_creator.py:106-111 | Every file any paragraph names occurs verbatim in the returned document's text. |
| Text.SortDistinct | app/engine/document_creator.py:49-50 | `sorted` over distinct keys gives a strictly ascending list with exactly the same elements. |
| Text.SortedUnique | app/engine/document_creator.py:100 | Two strictly ascending lists with the same elements are equal, so the sorted listing does not depend on how the set was built. |
| Text.LessOnNumerals | app/engine/document_creator.py:49-50 | On digit strings of equal length, Python's string order is numeric order. |
| Text.Dedupe | app/engine/document_creator.py:89 | `list(set(...))` has no repeats and the same elements as its input. |
| Text.JoinContains | app/engine/document_creator.py:107 | Each part of a joined string occurs in it. |
| Text.NatToStringRoundTrip | app/engine/document_creator.py:84 | The decimal numeral written for a file count reads back as that count. |

## Left out

- Authentication is not modelled: OAuth credentials, token files, environment variables and `authenticate` (drive_downloader.py:38-119). It is I/O against Google's services.
- The Drive and Google API calls themselves are parameters: the listing responses, the metadata function, and the chunks of a download.
- File contents and MD5 hashing are left out. A local file is its size and digest, and a download writes the remote size and MD5.
- `os.chdir` is left out, along with the current directory it changes. Local paths are made explicit as `root + path + [name]`.
- The `tqdm` bar itself is left out. The model keeps only the increments it is advanced by.
- All printing to the console is left out.
- `modifiedTime` is fetched but never compared. The model only proves that it is passed through.
- DriveTree.ListFolder: a listing whose responses never end is modelled as `None` after the given responses, because the service cannot be queried without bound.
- DriveTree.FlattenAll: each folder's children are its already-listed children. The per-folder listing calls are `ListFolder` and are not threaded through the recursion.
- Python's `os.path.join` special cases are not modelled: an absolute component resets the path, and empty components are dropped.
- The SQL engine, sessions, commits and table creation (mysqlchatstore.py:24-67) are not modelled. A table is its rows in id order, and `DELETE`/`UPDATE`/`INSERT` are functions on them.
- Row timestamps are not modelled, since no operation reads them.
- ChatStore.GetKeys: `SELECT DISTINCT` has no `ORDER BY`. The contract states which keys appear and that they are distinct, not their order.
- ChatStore.SetThenGet: the round trip is stated only for messages that all have content. A message without content is stored as a null column, and `get_messages` skips it, so it drops out of the history read back.
- ChatStore.AddMessage: its contract covers a question and a reply with nothing pending. The reply that fills a pending row is stated by `AddReplyToPending` and `AddReplyToPendingFrame`.
- Chat message roles other than user and assistant are folded into assistant, as the table stores them.
- `ChatMessage` fields beyond role and content are not modelled.
- `os.walk` is a parameter: the sequence of visited folders, each as its path string and its file names. The visiting order is whatever the caller supplies.
- The folder names that `os.walk` also yields are not modelled, since the catalogue never reads them.
- DriveSync.Sync: an exception aborts `download_from_folder`, for example `os.makedirs` raising `FileExistsError` when a file sits where a directory is needed, or a failed download. The model has no failure outcome. It keeps directories and files as independent sets, so one path can be both.
- DriveSync.Check: a directory at a file's local path reads as missing here. `os.path.exists` is true for a directory, so the source would go on to compare the directory's size.
- ChatStore.GetKeys: keys are compared by exact string equality. MySQL's default collation compares case- and accent-insensitively, so keys differing only in case or accents are one key there. The contracts hold under a binary collation.
- ChatStore.SetMessagesFrame: "every other key" means every key that differs as a string. Under MySQL's default collation, a key that differs only in case or accents shares the rows.
- ChatStore.AddMessage: "every other key" means every key that differs as a string. Under MySQL's default collation, a key that differs only in case or accents shares the rows.
- ChatStore.AddReplyToPendingFrame: "every other key" means every key that differs as a string. Under MySQL's default collation, a key that differs only in case or accents shares the rows.
- ChatStore.DeleteMessages: "every other key" means every key that differs as a string. Under MySQL's default collation, a key that differs only in case or accents shares the rows.
- ChatStore.DeleteLastMessageFrame: "every other key" means every key that differs as a string. Under MySQL's default collation, a key that differs only in case or accents shares the rows.
- ChatStore.DeleteMessageHistory: "every other key" means every key that differs as a string. Under MySQL's default collation, a key that differs only in case or accents shares the rows.
- Catalogue.SearchYearMonth: `\d` is read as an ASCII digit. Python's `re` also accepts other Unicode decimal digits.
- Catalogue.UndatedLine: `list(set(...))` has no defined order. The model picks first-occurrence order, and the contract states only the distinct names and their set, not their order.
- CatalogueText.CreateSingleDocument: of the `Document` object, only `text` and `metadata` are modelled. The metadata is the four constant entries.

## Findings

| source | as written | input that shows it | evidently intended | confidence | as-written member | corrected member |
|---|---|---|---|---|---|---|
| app/engine/mysqlchatstore.py:238-260 | `delete_last_message` tests the columns by truthiness, so an empty string counts as absent. `get_messages` tests `is not None`. | The key's only row has question `""` and reply `"x"`. `get_messages` returns both messages; `delete_last_message` deletes the whole row and returns only the reply. | Remove only the last message (the reply) and keep the question, as the null tests of `get_messages` would. | medium, not executed | ChatStore.AsWrittenDropsEmptyQuestion | ChatStore.DeleteLastMessageHistory |
| app/engine/drive_downloader.py:195-225 | The local path is `local_folder/path/name`. Drive allows two files with the same name in one folder, and they map to one local path, so the later download overwrites the earlier one. | A folder holds `r.pdf` of 10 bytes and `r.pdf` of 20 bytes. A run over an empty local folder downloads both and leaves the 20-byte file. Each later run downloads one of the two copies again, alternating between the 10-byte and the 20-byte file, so no run ever reports everything synchronised. | A run followed by another run reports everything synchronised. This holds when local paths are distinct. | medium, not executed | DriveSync.SharedLocalPathRedownloads, DriveSync.SameNameNeverSettles | DriveSync.SyncIsIdempotent |
