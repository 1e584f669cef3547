# brkraw backup cache handler, modelled in Dafny

This project models `BackupCacheHandler` from `brkraw/app/backup/handler.py`.
The handler keeps a persistent cache of two kinds of record:

- raw dataset directories, with the flags `removed`, `backup` and `garbage`;
- archive files in a backup directory, with the flags `issued`, `crashed` and `garbage`.

The model covers these parts of the handler:

- opening the cache file (`_load_pickle`);
- the reconciliation pass `_parse_info`: listing, registration, marking vanished raw datasets, and reviewing every archive record;
- `is_same_as_raw`;
- the read-only views (`get_issued`, `get_garbage`, `get_crashed`, `get_completed`, `get_incompleted`, `get_list_for_backup`, `get_duplicated`);
- `backup`: choosing candidates, clearing stale files, naming zip entries, and writing through a temporary file;
- `clean`: the deletion passes and their prompts;
- the fixed-width report text of `_gen_header`, `_get_backup_status` and `print_completed`.

Values and state:

- The cache contents are a value `Store` of two record lists.
- Each directory is a `Folder`, a map from names to nodes.
- The handler itself is the class `Handler.BackupCacheHandler`. Its methods update the cache's lists (class `Cache.BackupCache`) and the backup directory (class `Handler.Disk`) in place, loop by loop.
- Each method is proved to end in the state that a specification function gives (`Reconcile`, `Duplicated`, `BackupAll`, `Clean`). The properties of those functions are proved as lemmas.

Code that is not part of this model becomes a parameter:

- `zipfile.is_zipfile` and `StudyToNifti` become `Records.Inspector`.
- The cache's own `set_raw`/`set_arc` classification becomes `Reconciliation.Registrar`.
- Directory and file sizes are given as already formatted strings.
- Interactive answers are `yes: nat -> bool`, indexed by prompt number.
- Locked files and failing writes or renames are `Archiver.Faults`.
- The clock reading and the user name are string parameters.

Files:

- `wrappers.dfy`: Option and Result.
- `pystr.dfy`: the Python string operations used (`in`, `endswith`, `sorted` order, `ljust`, `rjust`, `center`).
- `records.dfy`: the records, the store and the directories.
- `views.dfy`: the views.
- `cache.dfy`: the cache class and cache loading.
- `reconcile.dfy`: `_parse_info` as functions, with lemmas.
- `archiver.dfy`: `backup` as functions, with lemmas.
- `cleaner.dfy`: `clean` as functions, with lemmas.
- `report.dfy`: the report text.
- `handler.dfy`: the handler class and its imperative methods.

Three behaviours of the code that a reader might not expect, each modelled as written:

- `_parse_info` is not idempotent.
  - An archive that was crashed and has since been rewritten loses its issue in one pass. Its raw record gets `backup` only in the next pass.
  - `Reconciliation.ReconcileNotIdempotent` shows this on a concrete cache.
  - `Reconciliation.ReconcileSettles` proves that the cache stops changing after two finished passes.
- `garbage` is cleared only while the archive is still issued (handler.py:121-124), not once `issued` has become false. `Reconciliation.Revised` states this rule.
- Loading the cache catches only `EOFError` (handler.py:43). A missing file gives an empty store, and other unreadable content raises. `Cache.Load` models this.

## Model

| member | source | states |
|---|---|---|
| PyStr.StrLeTotal | brkraw/app/backup/handler.py:84-88 | the order `sorted` uses on names is total |
| PyStr.StrLeAntisymmetric | brkraw/app/backup/handler.py:84-88 | two names each no greater than the other are equal |
| PyStr.StrLeTransitive | brkraw/app/backup/handler.py:84-88 | the order `sorted` uses is transitive |
| PyStr.Least | brkraw/app/backup/handler.py:84-88 | the result belongs to the set and is no greater than any member |
| PyStr.SortedSet | brkraw/app/backup/handler.py:84-88 | `sorted` of distinct names: same members, same count, strictly increasing |
| PyStr.LJust | brkraw/app/backup/handler.py:215 | `ljust`: the text first, then blanks up to the width; the text is never shortened |
| PyStr.RJust | brkraw/app/backup/handler.py:183 | `rjust`: blanks, then the text at the right edge; the text is never shortened |
| PyStr.Center | brkraw/app/backup/handler.py:188 | `center`: the text at CPython's left margin, blanks on both sides, margins differing by at most one |
| PyStr.Abbreviate | brkraw/app/backup/handler.py:205-208 | a name that fits is kept unchanged; a longer one keeps its first `limit-4` characters and gets "... ", exactly filling the column |
| Records.RemoveArc | brkraw/app/backup/handler.py:358 | `arc_data.remove`: one record fewer when the name is known, nothing changes otherwise, no record appears; with unique names, exactly the named record goes |
| Records.Unlink | brkraw/app/backup/handler.py:355 | `os.remove` succeeds exactly on an unlocked existing file, removes that name only, and leaves every other entry as it was |
| Views.Filter | brkraw/app/backup/handler.py:162-178 | a list comprehension keeps exactly the members that satisfy the condition |
| Views.FilterConcat | brkraw/app/backup/handler.py:162-178 | filtering keeps list order: it distributes over concatenation |
| Views.Issued | brkraw/app/backup/handler.py:165-166 | `get_issued`: exactly the issued archive records |
| Views.Crashed | brkraw/app/backup/handler.py:168-169 | `get_crashed`: exactly the crashed archive records |
| Views.Garbage | brkraw/app/backup/handler.py:177-178 | `get_garbage`: exactly the archive records marked garbage |
| Views.Completed | brkraw/app/backup/handler.py:174-175 | `get_completed`: exactly the archived raw records |
| Views.Incompleted | brkraw/app/backup/handler.py:171-172 | `get_incompleted`: exactly the raw records not yet archived |
| Views.ListForBackup | brkraw/app/backup/handler.py:162-163 | `get_list_for_backup`: exactly the raw records neither archived nor garbage |
| Views.CompletedIncompletedPartition | brkraw/app/backup/handler.py:171-175 | `get_completed` and `get_incompleted` split the raw records as a multiset, by the `backup` flag |
| Views.ListForBackupIsPending | brkraw/app/backup/handler.py:162-163 | `get_list_for_backup` is, in cache order, the raw records that are neither backed up nor garbage |
| Views.AddToGroupSpec | brkraw/app/backup/handler.py:154-157 | appending to a key's list or starting a new one keeps keys unique and adds the path under that key only |
| Views.MembersAt | brkraw/app/backup/handler.py:154 | with unique keys, looking up the key of an entry gives that entry's list |
| Views.DuplicatedSpec | brkraw/app/backup/handler.py:149-160 | `get_duplicated`: keys are unique and are the keys of duplicated archives; each key's list holds exactly the duplicated archives with that key, in cache order |
| Views.HasKeyStep | brkraw/app/backup/handler.py:151-157 | one loop step keeps the key set equal to the keys of the duplicated archives visited |
| Views.MembersStep | brkraw/app/backup/handler.py:151-157 | one loop step keeps each key's list equal to the visited duplicated archives with that key |
| Views.DuplicatedGroups | brkraw/app/backup/handler.py:149-160 | every group has at least two archives; an archive is in a group exactly when it is duplicated and the group's key is its raw name |
| Views.GroupHasTwo | brkraw/app/backup/handler.py:149-160 | every group of `get_duplicated` lists at least two archives |
| Views.GroupMembership | brkraw/app/backup/handler.py:149-160 | an archive's name is in a group exactly when the archive is duplicated and the group's key is its raw name |
| Cache.Load | brkraw/app/backup/handler.py:38-48 | a missing or truncated file gives an empty store, a readable one its store; only other unreadable content fails |
| Cache.BackupCache.constructor | brkraw/app/backup/handler.py:45-48 | the cache holds the loaded store, and the file holds it too |
| Cache.BackupCache.Save | brkraw/app/backup/handler.py:50-52 | after `_save_pickle` the file holds the current contents, and loading it gives them back |
| Cache.BackupCache.SetRaw | brkraw/app/backup/handler.py:92-93 | `set_raw` appends a record only for a raw name not yet known; afterwards the name is known, and names stay unique |
| Cache.BackupCache.SetArc | brkraw/app/backup/handler.py:97-98 | `set_arc` appends a record only for an archive name not yet known; afterwards the name is known, and names stay unique |
| Reconciliation.RawListing | brkraw/app/backup/handler.py:84-85 | the sorted sub-directories of the raw root whose name does not contain "import" |
| Reconciliation.ArcListing | brkraw/app/backup/handler.py:86-88 | the sorted files of the backup root ending in "zip" or "PvDatasets" |
| Reconciliation.RegisterRaws | brkraw/app/backup/handler.py:92-93 | old records kept in place, every listed name known afterwards, new records only for new names, names stay unique, and no change when every name was known |
| Reconciliation.RegisterArcs | brkraw/app/backup/handler.py:97-98 | the same guarantees for archive records |
| Reconciliation.RegisterRawsSnoc | brkraw/app/backup/handler.py:92-93 | registering one more raw name appends a record exactly when that name is new |
| Reconciliation.RegisterArcsSnoc | brkraw/app/backup/handler.py:97-98 | registering one more archive name appends a record exactly when that name is new |
| Reconciliation.MarkRemoved | brkraw/app/backup/handler.py:103-107 | no record dropped and no name, `backup` or `garbage` changed; `removed` is true afterwards exactly when it already was or the record is named and its directory is absent, so it is never cleared |
| Reconciliation.SameAsRaw | brkraw/app/backup/handler.py:137-147 | indeterminate unless the archive names an existing raw dataset; otherwise whether the two reconstruction counts are equal |
| Reconciliation.Revised | brkraw/app/backup/handler.py:116-127 | the flag transition: no flag raised; a non-issued archive unchanged; a crashed non-zip unchanged; otherwise `crashed` cleared and `issued` kept exactly when the comparison did not say equal; `garbage` unchanged unless the archive was issued and crashed, and for an issued crashed zip it stays set exactly when it was set and the archive is not both still issued and a dataset |
| Reconciliation.ReviewArc | brkraw/app/backup/handler.py:111-134 | one review step: a missing file drops the record; an existing one is revised; a credited archive raises its raw record's `backup` flag, or fails when the lookup does not resolve |
| Reconciliation.Review | brkraw/app/backup/handler.py:110-135 | the review loop keeps the number of raw records and never adds an archive record |
| Reconciliation.ReviewStops | brkraw/app/backup/handler.py:128-134 | a review that stops early stops at an archive whose file exists, that it credits, and whose association does not resolve |
| Reconciliation.Revise | brkraw/app/backup/handler.py:111-127 | the records a finished review keeps: exactly the revised records of existing files |
| Reconciliation.ReviseDistinct | brkraw/app/backup/handler.py:111-127 | revising keeps archive names unique |
| Reconciliation.CreditStep | brkraw/app/backup/handler.py:128-134 | crediting one archive and then the rest equals crediting the whole list |
| Reconciliation.NoCreditStep | brkraw/app/backup/handler.py:128-134 | an archive that is not credited adds no raw record to credit |
| Reconciliation.ReviewDone | brkraw/app/backup/handler.py:111-135 | the review finishes exactly when every credited archive resolves; it then keeps the existing archives, revised, and raises `backup` on exactly the credited raw records |
| Reconciliation.AllResolveCons | brkraw/app/backup/handler.py:129-132 | only the number of raw records matters to whether the lookups resolve |
| Reconciliation.ReviewDoneOutcome | brkraw/app/backup/handler.py:111-135 | the review finishes exactly when every credited archive resolves |
| Reconciliation.ReviewDoneArcs | brkraw/app/backup/handler.py:111-127 | a finished review leaves the revised records of existing files |
| Reconciliation.ReviewDoneRaws | brkraw/app/backup/handler.py:128-134 | a finished review raises `backup` on exactly the credited raw records |
| Reconciliation.ReviewKeepsRaws | brkraw/app/backup/handler.py:111-134 | whatever its outcome, the review keeps every raw record and its name, `removed` and `garbage`, and never lowers `backup` |
| Reconciliation.RevisedIdempotent | brkraw/app/backup/handler.py:116-127 | revising an archive's flags twice is the same as revising them once |
| Reconciliation.ReviseIdempotent | brkraw/app/backup/handler.py:111-127 | reviewing the archive list twice gives the same list as reviewing it once |
| Reconciliation.ReconcileRaws | brkraw/app/backup/handler.py:82-135 | raw records are never dropped; old ones keep name and `garbage` and never lower `backup`; `removed` is true afterwards exactly when it already was or the named directory is absent, so a set flag is never cleared; added records are new, not removed, named after listed directories; every listed directory has a record |
| Reconciliation.MarkedRaws | brkraw/app/backup/handler.py:92-108 | the raw records after the first three phases, compared with the old ones |
| Reconciliation.ReviseKnown | brkraw/app/backup/handler.py:111-127 | an archive name with a record and an existing file keeps a record |
| Reconciliation.ReconcileArcs | brkraw/app/backup/handler.py:82-135 | after a finished pass, every record names an existing file; every old record with an existing file stays, revised; every listed file has a record; names stay unique |
| Reconciliation.DoneSettles | brkraw/app/backup/handler.py:82-108 | after a finished pass, registering and marking again changes nothing |
| Reconciliation.CreditTwice | brkraw/app/backup/handler.py:128-134 | raising the same `backup` flags twice is the same as raising them once |
| Reconciliation.AllResolveByLength | brkraw/app/backup/handler.py:129-132 | lookups that resolve against one raw list resolve against any list of the same length |
| Reconciliation.ReconcileSettles | brkraw/app/backup/handler.py:82-135 | once two passes in a row have finished, a third leaves the cache exactly as it is |
| Reconciliation.ExampleFirstPass | brkraw/app/backup/handler.py:116-125 | a repaired crashed archive is cleared of its issue and crash, and its raw record is not yet credited |
| Reconciliation.ExampleSecondStep | brkraw/app/backup/handler.py:131-134 | reviewing the repaired archive again credits its raw record |
| Reconciliation.ExampleSecondReview | brkraw/app/backup/handler.py:111-135 | the second review finishes, with the raw record credited |
| Reconciliation.ExampleSecondPass | brkraw/app/backup/handler.py:82-135 | the second pass over the repaired cache credits the raw record |
| Reconciliation.ReconcileNotIdempotent | brkraw/app/backup/handler.py:116-134 | two finished passes over the same directories can leave different caches |
| Archiver.NamesDistinct | brkraw/app/backup/handler.py:412-413 | a dataset's ".zip" and ".part" names never coincide, and each determines its dataset |
| Archiver.EntryNames | brkraw/app/backup/handler.py:447-456 | one entry per walked file, each rooted at the dataset's directory name |
| Archiver.Entries | brkraw/app/backup/handler.py:447-456 | a raw directory gives one entry per walked file, a plain file none; every entry starts with the dataset name |
| Archiver.FirstIndex | brkraw/app/backup/handler.py:453 | `list.index`: the first position holding the component |
| Archiver.EntryNamesAsWrittenAgree | brkraw/app/backup/handler.py:451-456 | when no component of the raw root has the dataset's name, the entries as written are the intended ones |
| Archiver.FirstIndexAppended | brkraw/app/backup/handler.py:453 | a component appended after a list without it is found at the end |
| Archiver.CutAt | brkraw/app/backup/handler.py:451-456 | cutting the walked paths at the dataset's own component gives the intended entries |
| Archiver.EntryNamesAsWrittenMisroot | brkraw/app/backup/handler.py:451-456 | a raw root inside a directory of the dataset's name gives entries rooted one level too high |
| Archiver.BackupStep | brkraw/app/backup/handler.py:409-477 | one candidate: skipped without a raw dataset; only its two names change; on success no temporary file is left and the final name holds the kept archive or a complete new one; after an exception the final name holds nothing new |
| Archiver.Compress | brkraw/app/backup/handler.py:440-477 | writing and renaming change only the two names; no error exactly when no fault occurs, and then the archive holds the entries and the temporary file is gone; after an error the final name is as before and only the temporary name holds a partial or complete archive |
| Archiver.BackupStepAbort | brkraw/app/backup/handler.py:409-477 | which exception one candidate ends with: an unremovable stale temporary file first; a kept archive means none; then an unremovable old archive; then a failed write, a missing temporary file, a failed rename, in that order; with none of these the candidate completes |
| Archiver.BackupStepNoFaults | brkraw/app/backup/handler.py:409-477 | with no fault and only files under its two names, a candidate completes |
| Archiver.BackupAllFrame | brkraw/app/backup/handler.py:401-477 | whatever happens, including an exception part-way, a name the run deletes is the temporary or final archive name of a candidate with a raw dataset; nothing else is removed |
| Archiver.BackupAllSafe | brkraw/app/backup/handler.py:401-477 | whatever happens, each changed final archive name holds a complete archive of its dataset; a partial file only ever sits under a temporary name |
| Archiver.BackupAllClean | brkraw/app/backup/handler.py:401-477 | a run that finishes leaves each candidate with a final archive and no temporary file |
| Archiver.BackupAllKeeps | brkraw/app/backup/handler.py:401-477 | a run over other names leaves a dataset's two names as they were |
| Archiver.CandidatesAsWritten | brkraw/app/backup/handler.py:396-413 | as written, every issued archive's own file name is visited as a raw dataset name |
| Archiver.LinkedNames | brkraw/app/backup/handler.py:397 | the raw names that resolvable archive links point to, and only those |
| Archiver.Candidates | brkraw/app/backup/handler.py:396-413 | every pending raw record and every issued archive's raw dataset is visited; every candidate is a raw record's name |
| Archiver.MismatchCandidates | brkraw/app/backup/handler.py:396-413 | for one issued archive, the written loop visits "B.zip" and the intended loop visits "B" |
| Archiver.MismatchRewrite | brkraw/app/backup/handler.py:418-456 | a mismatching archive is removed and rewritten from the raw dataset |
| Archiver.CandidatesAsWrittenMiss | brkraw/app/backup/handler.py:396-413 | as written, the mismatching archive is left alone; as intended it is rewritten |
| Cleaner.Offered | brkraw/app/backup/handler.py:381-392 | a pass offers exactly the names of the records its skip rule lets through |
| Cleaner.IssuedPassOffers | brkraw/app/backup/handler.py:383-387 | the issued pass offers exactly the issued archives that are neither garbage nor crashed |
| Cleaner.GarbagePassOffers | brkraw/app/backup/handler.py:388-392 | the garbage pass offers exactly the garbage archives that are not crashed |
| Cleaner.GroupPaths | brkraw/app/backup/handler.py:333-350 | the duplicated pass walks exactly the names in the groups |
| Cleaner.KeyIndex | brkraw/app/backup/handler.py:333 | a present key has an entry |
| Cleaner.DuplicatedPassOffers | brkraw/app/backup/handler.py:330-350 | the duplicated pass offers exactly the duplicated archives |
| Cleaner.CrashedOfferedOnlyAsDuplicate | brkraw/app/backup/handler.py:325-392 | a crashed archive is offered exactly when it is duplicated |
| Cleaner.OfferAll | brkraw/app/backup/handler.py:350-353 | one answer is read per offered name |
| Cleaner.OfferAllConcat | brkraw/app/backup/handler.py:329-392 | offering two lists in a row is offering their concatenation |
| Cleaner.OfferTracks | brkraw/app/backup/handler.py:352-358 | one prompt keeps the record bookkeeping and deletes at most the offered file; it deletes nothing unless answered yes, and a confirmed prompt on an unlocked file deletes it |
| Cleaner.OfferAllTracks | brkraw/app/backup/handler.py:350-358 | a run of prompts deletes only offered files and keeps the record bookkeeping |
| Cleaner.OfferAllConfirmed | brkraw/app/backup/handler.py:350-358 | a file deleted by a run of prompts was offered under a prompt answered yes |
| Cleaner.OfferAllDeletes | brkraw/app/backup/handler.py:350-358 | every offered unlocked file whose prompt was answered yes is gone after the run |
| Cleaner.OfferAllShrinks | brkraw/app/backup/handler.py:350-358 | prompts only delete files; the files that remain are unchanged |
| Cleaner.CleanRemovesExactly | brkraw/app/backup/handler.py:318-393 | after `clean`, an archive keeps its record exactly when its file was not deleted; no record added; names unique; only offered files deleted; no other file changes |
| Cleaner.CleanConfirmed | brkraw/app/backup/handler.py:318-358 | a refused opening prompt leaves records and files as they were; a file is deleted only after a yes to the opening prompt and to its own prompt; every offered unlocked file confirmed so is deleted |
| Cleaner.CleanAsWrittenIssuedTypo | brkraw/app/backup/handler.py:384 | as written, an issued archive ends `clean` with AttributeError before any prompt; as intended it is deleted with its record |
| Cleaner.CleanAsWrittenRaisesAfterDelete | brkraw/app/backup/handler.py:371-380 | as written, a confirmed deletion removes the file and then raises, so the cache is not saved; as intended the record goes with the file |
| Cleaner.GroupLabel | brkraw/app/backup/handler.py:341-345 | the label fits its 60-character column; a name that fits is unchanged, a longer one is cut to 56 and marked |
| Cleaner.GroupHeading | brkraw/app/backup/handler.py:346 | the heading is 76 characters, with the label at a fixed column |
| Cleaner.GroupLabelAsWrittenInverted | brkraw/app/backup/handler.py:341-342 | as written, a short name gets a needless marker and a long name overflows the column |
| Report.GenHeader | brkraw/app/backup/handler.py:181-192 | seven lines: blanks, 80-character '=' rules, the centred title, the right-aligned "Generated by" line |
| Report.PendingRow | brkraw/app/backup/handler.py:205-215 | the abbreviated path in 70 columns, then the size at the right edge |
| Report.Condition | brkraw/app/backup/handler.py:235-242 | "Issued" exactly when not crashed; "Crashed" or "Failed" as the raw record is named or not; fails exactly on an unresolved crashed archive; the condition is always one of those three words |
| Report.IssueRow | brkraw/app/backup/handler.py:229-249 | the abbreviated path in 60 columns, the condition centred in the next 10, then the size |
| Report.DuplicateRows | brkraw/app/backup/handler.py:261-274 | one 80-character row per archive; the raw label beside the first; ":-" on the first row and " -" after it |
| Report.DuplicateRow | brkraw/app/backup/handler.py:264-274 | one 80-character row with the archive name at column 41 |
| Report.CompletedRow | brkraw/app/backup/handler.py:298-307 | an 80-character row: the path, then the two flags centred in 10 columns each |
| Report.PendingRows | brkraw/app/backup/handler.py:204-215 | the rows exactly when every record has a name; then row i is the pending row of record i, in order |
| Report.IssueRows | brkraw/app/backup/handler.py:228-249 | the rows exactly when every condition can be computed; then row i is the issued row of archive i with its condition, in order |
| Report.MapRows | brkraw/app/backup/handler.py:204-215 | one row per element, in order, exactly when every element's row can be formatted; otherwise the error of one of the elements |
| Report.GroupRows | brkraw/app/backup/handler.py:261-274 | one 80-character row per archive over all groups; non-empty groups give rows |
| Report.GroupRowsPlacement | brkraw/app/backup/handler.py:261-274 | the block is the rows of the groups before group k, then group k's `DuplicateRows` unchanged, then the rows of the groups after it; so each group's rows appear whole and in group order |
| Report.GroupRowsAppend | brkraw/app/backup/handler.py:261-274 | the rows of two runs of groups are the rows of the first run followed by those of the second |
| Report.Section | brkraw/app/backup/handler.py:199-217 | a shown block is the title, the note, a rule and the column heads, then the rows unchanged, then a rule and a blank line; a hidden one is empty |
| Report.UpToDate | brkraw/app/backup/handler.py:278-282 | the "up-to-date" notice is four lines |
| Report.Sections | brkraw/app/backup/handler.py:199-282 | the body is the "up-to-date" notice alone exactly when nothing is pending, issued or duplicated |
| Report.StatusReport | brkraw/app/backup/handler.py:194-196 | a status report that could be produced opens with the header titled with the clock reading, and has at least eleven lines |
| Report.StatusReportFails | brkraw/app/backup/handler.py:194-283 | the status report fails exactly when a pending raw record has no name or a crashed issued archive is unresolved |
| Report.PendingRowsFail | brkraw/app/backup/handler.py:204-208 | the pending block fails exactly on a pending record without a name |
| Report.IssueRowsFail | brkraw/app/backup/handler.py:228-240 | the issued block fails exactly on an unresolved crashed issued archive |
| Report.StatusReportUpToDate | brkraw/app/backup/handler.py:278-283 | a successful report is the header plus the notice exactly when nothing is pending, issued or duplicated |
| Report.CompletedReport | brkraw/app/backup/handler.py:289-316 | fails exactly on a completed record without a name; otherwise the header with one row per completed record, or the "No archived data" notice |
| Report.CompletedReportHeader | brkraw/app/backup/handler.py:289-291 | a completed list that could be produced opens with the header titled with the clock reading |
| Report.CompletedReportLines | brkraw/app/backup/handler.py:292-307 | from the tenth line on, the completed list holds the row of each archived raw record, in cache order |
| Report.CompletedRows | brkraw/app/backup/handler.py:298-307 | the rows exactly when every record has a name; then row i is the completed row of record i, in order |
| Handler.Disk.constructor | brkraw/app/backup/handler.py:32-33 | the handler's two directories |
| Handler.EntryNamesSnoc | brkraw/app/backup/handler.py:447-456 | the entry list grows by one walk step at a time |
| Handler.EntryNamesPrefix | brkraw/app/backup/handler.py:447-456 | the entries of the first i+1 walk steps extend those of the first i |
| Handler.RootZipEntries | brkraw/app/backup/handler.py:454-456 | the loop over a walk step's files writes exactly that step's entries, in order |
| Handler.ZipEntries | brkraw/app/backup/handler.py:447-456 | the walk loop writes exactly the intended entries, in walk order |
| Handler.KeyPos | brkraw/app/backup/handler.py:154 | `rpath in duplicated.keys()`: the position of a present key, and None exactly when it is absent |
| Handler.AddToGroupAt | brkraw/app/backup/handler.py:154-157 | appending at a key's position, or adding a new entry at the end, is the dictionary update |
| Handler.ReviewAt | brkraw/app/backup/handler.py:111-134 | one unfolding of the review loop at position i |
| Handler.ResumesStep | brkraw/app/backup/handler.py:111-134 | reviewing the record at the current position keeps the loop invariant, or ends in the state of a stopped review |
| Handler.BackupCacheHandler.constructor | brkraw/app/backup/handler.py:23-35 | the handler over a cache and the two directories |
| Handler.BackupCacheHandler.Open | brkraw/app/backup/handler.py:23-48 | opening fails exactly when loading fails; otherwise a new cache holds the loaded store, and the file is written back |
| Handler.BackupCacheHandler.GetDuplicated | brkraw/app/backup/handler.py:149-160 | the loop builds exactly the dictionary that `Views.DuplicatedSpec` characterises |
| Handler.BackupCacheHandler.ParseInfo | brkraw/app/backup/handler.py:82-135 | the cache ends as `Reconcile` of the old cache; the file holds the final cache when the pass finishes, else the third checkpoint |
| Handler.BackupCacheHandler.Scan | brkraw/app/backup/handler.py:84-108 | the first three phases leave the registered and marked cache, and save it |
| Handler.BackupCacheHandler.RegisterRawNames | brkraw/app/backup/handler.py:92-93 | the raw registration loop gives `RegisterRaws` of the old records |
| Handler.BackupCacheHandler.RegisterArcNames | brkraw/app/backup/handler.py:97-98 | the archive registration loop gives `RegisterArcs` of the old records |
| Handler.BackupCacheHandler.MarkVanished | brkraw/app/backup/handler.py:103-107 | the in-place marking loop gives `MarkRemoved` of the old records |
| Handler.BackupCacheHandler.ReviewOne | brkraw/app/backup/handler.py:112-134 | one review step in place: the record at its position is dropped or replaced as `ReviewArc` says, and the raw records follow it |
| Handler.BackupCacheHandler.ReviewNext | brkraw/app/backup/handler.py:111-134 | one loop iteration keeps the review invariant, or stops in the final state of the review |
| Handler.BackupCacheHandler.ReviewAll | brkraw/app/backup/handler.py:110-134 | the loop over the copied archive list ends in the state and outcome of `Review` |
| Handler.BackupCacheHandler.UnlinkArc | brkraw/app/backup/handler.py:417 | `os.unlink` in the backup directory, as `Unlink` |
| Handler.BackupCacheHandler.ClearStaleTemp | brkraw/app/backup/handler.py:415-417 | a leftover temporary file is removed first |
| Handler.BackupCacheHandler.ClearStaleArchive | brkraw/app/backup/handler.py:418-435 | the existing archive is kept exactly when it is a zip holding a dataset with as many reconstructions as the raw dataset; otherwise it is removed |
| Handler.BackupCacheHandler.WriteArchive | brkraw/app/backup/handler.py:436-477 | compression, the existence check and the rename end as `Compress` |
| Handler.BackupCacheHandler.BackupOne | brkraw/app/backup/handler.py:409-477 | the loop body ends as `BackupStep` |
| Handler.BackupCacheHandler.Backup | brkraw/app/backup/handler.py:395-477 | the two loops end as `BackupAll` over the intended candidates |
| Handler.BackupCacheHandler.OfferOne | brkraw/app/backup/handler.py:352-358 | one prompt, as `Offer` |
| Handler.BackupCacheHandler.OfferPass | brkraw/app/backup/handler.py:366-392 | one pass over a copied list, as `OfferAll` of the names it offers |
| Handler.BackupCacheHandler.OfferGroups | brkraw/app/backup/handler.py:330-358 | the duplicated pass, group by group, as `OfferAll` of the group names |
| Handler.BackupCacheHandler.Clean | brkraw/app/backup/handler.py:318-393 | the archive records and the backup directory end as `Cleaner.Clean`; raw records unchanged; the cache saved |

## Left out

- Logging (`self.logging`), `print`, `tqdm` progress bars and `TimeCounter` timings: output only; they change no state.
- `datetime.now()` and `getpass.getuser()`: the clock reading and the user name are parameters.
- The report is a list of lines. It is not joined with newlines or written to a stream.
- Directory and file sizes (`get_dirsize`, `get_filesize`) and their float formatting: given as already formatted strings.
- `zipfile.is_zipfile` and `StudyToNifti` (archive inspection, reconstruction counts, `is_pvdataset`): given as `Records.Inspector`. Their code is not part of this model.
- `Records.Inspector.isZip` is left unconstrained on directory nodes, although `zipfile.is_zipfile` returns False for a directory. No proved property depends on this, since each holds for every inspector.
- Archiver.Compress: a failed write always leaves a partial file under the temporary name, although `ZipFile(tmp_path, 'w')` can fail before it creates the file. No proved property depends on this choice.
- `BackupCache.set_raw`/`set_arc` classification of new records and `get_rpath_obj`'s link: given as `Reconciliation.Registrar` and the record field `rawId`. The cache's own source is not part of this model.
- The pickle format and the cache's event log: the file is modelled as holding a `Store` or being truncated or unreadable.
- Concurrency, and files changing on disk while the handler runs: not modelled.
- Views.IsDuplicated: the cache's `is_duplicated` (handler.py:59-60 only forwards to it) is not part of this model. It is taken to hold of an archive whose association resolves to a raw record that another archive record, under a different file name, also resolves to. Three results rest on this reading: every group of `get_duplicated` has at least two archives (`Views.GroupHasTwo`, `Views.DuplicatedGroups`); `get_duplicated` never reads `.path` of an unresolved association, so it never raises at handler.py:153; and the "exactly" of `Report.StatusReportFails` counts no failure from the duplicated block. An `is_duplicated` that admitted unresolved associations would make `get_duplicated`, and so the status report, raise `AttributeError`.
- Records.RemoveArc: `list.remove` removes by equality. The model removes the first record with the given file name; with unique file names this is the same record.
- The `crashed` list that `clean` builds: it is collected and then ignored (no pass acts on it), so it offers nothing.
- `clean`'s printed group heading, size column and prompt texts: only the label and its column are modelled (`Cleaner.GroupHeading`).
- `backup`: it never sets `backup=True` on a record and never saves the cache. The model's `Backup` likewise leaves the cache unchanged.
- `Archiver.Entries`: a raw dataset that is a plain file gives an empty walk and so an empty archive, as `os.walk` does.
- Handler.BackupCacheHandler.Backup: models the corrected candidate list (`Archiver.Candidates`), not the as-written one (see Findings).
- Handler.BackupCacheHandler.Clean: models `clean` as evidently intended (`Cleaner.Clean`), not the as-written raises (see Findings).
- Handler.ZipEntries: models the entries rooted at the dataset's own directory (`Archiver.EntryNames`); the as-written root index differs only when the raw root has a component of the dataset's name (see Findings).
- Reconciliation.ReconcileArcs: states its guarantees only for a pass that finishes. A stopped pass leaves the records after the stop untouched, as `Reconciliation.Review` defines.

## Findings

| source | as written | input that shows it | evidently intended | confidence | as-written member | corrected member |
|---|---|---|---|---|---|---|
| brkraw/app/backup/handler.py:341-342 | `len(raw_dname) < 60` truncates names shorter than 60 characters and prints longer ones whole | raw name "B" gives "B..."; a 70-character name overflows the 60-character column | truncate only names longer than 60 | high, not executed | Cleaner.GroupLabelAsWritten, Cleaner.GroupLabelAsWrittenInverted | Cleaner.GroupLabel |
| brkraw/app/backup/handler.py:384 | `a.garbages` is not an attribute of an archive record | any issued archive: `clean` raises AttributeError before the first prompt | `a.garbage` | high, not executed | Cleaner.CleanAsWritten, Cleaner.CleanAsWrittenIssuedTypo | Cleaner.Clean |
| brkraw/app/backup/handler.py:371-380 | `else: raise NotImplementedError` runs after a successful removal (also at 359-364); `error.message` does not exist in Python 3 | one garbage archive, answer yes: the file is deleted, then `clean` raises and the cache is not saved | continue with the next item; log the failure | high, not executed | Cleaner.CleanAsWritten, Cleaner.CleanAsWrittenRaisesAfterDelete | Cleaner.Clean |
| brkraw/app/backup/handler.py:397-413 | step 2 iterates archive records and uses the archive file name as a raw dataset name | issued "B.zip" linked to raw "B": the loop looks for raw "B.zip", finds none, and leaves the mismatching archive | re-archive the raw dataset behind each issued archive | high, not executed | Archiver.CandidatesAsWritten, Archiver.CandidatesAsWrittenMiss | Archiver.Candidates |
| brkraw/app/backup/handler.py:451-455 | `splitted_root.index(r.path)` finds the first component equal to the dataset name, which may lie inside the raw root | raw root "/data/B", dataset "B": entries start "B/B/f" | entries rooted at the dataset's own directory ("B/f") | medium, not executed | Archiver.EntryNamesAsWritten, Archiver.EntryNamesAsWrittenMisroot | Archiver.EntryNames |
