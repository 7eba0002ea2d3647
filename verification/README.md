# SyncRepo in Dafny

SyncRepo keeps one Markdown snapshot of a source tree up to date: a `tree`
listing followed by every source file of interest, each in a fenced block
under a `----- FILE: <relative path> -----` marker. There are two scripts:

- `SRC.py` keeps an in-memory `RepositoryCache` of relative path to content.
  It fills the cache once by walking the directory, patches it on each
  watchdog event (`ChangeHandler`), and rewrites the document once the
  `Debouncer`'s timer runs out.
- `SyncRepo.py` is the older variant. It has no cache: every event outside a
  5-second window re-walks the tree and rewrites everything.

This project models both. I/O is replaced by plain values:

- the directory is a `Tree` of file reads;
- the disk seen by single-file calls is a map from path to read;
- `re.search` is a function parameter;
- times are integers.

## Layout

| file | module | models |
|---|---|---|
| strings.dfy | `Strings` | `str.endswith`, `any(...)`, the code-point order `sorted` uses on `str` |
| sorted.dfy | `Sorted` | `sorted(keys)` of a set of strings, and where a new key lands |
| paths.dfy | `Paths` | paths as component lists; `basename`, `join`, `relpath`, `commonpath` |
| filetree.dfy | `FileTree` | the `os.walk` loop both scripts run (pruning, sorting, walk order) |
| filter.dfy | `PathFilter` | `_should_include` and `_is_relevant_file`, plus the corrected relevance rule |
| cache.dfy | `RepositoryCache` | every method of `RepositoryCache` but `_should_include` (in filter.dfy) |
| markdown.dfy | `Markdown` | `generate_markdown_output` and the placeholder step of `update_code_base` |
| debouncer.dfy | `Debouncing` | `Debouncer.trigger` / `cancel` and the timer's expiry, over integer time |
| handler.dfy | `Events` | the `ChangeHandler` event methods as written, and the corrected handler |
| service.dfy | `Watching` | start-up and the running watcher: events and timer expiries composed |
| syncrepo.dfy | `SyncRepo` | the filter, walk, block format, headers and throttle of `SyncRepo.py` |

Points where the code does something a reader might not expect; the model
follows the code:

- A failed re-read in `_read_and_store_file` (SRC.py:70-77) only logs, so an
  older entry for that path stays in the cache. `ReadAndStore` keeps it.
- `on_moved` (SRC.py:210-222) triggers only when the destination is relevant.
  `on_deleted` shows that a removal is meant to reach the document: it
  triggers after `remove_file` with the comment "Schedule an update (which
  will remove the file from final MD output)" (SRC.py:207). A move out of
  scope removes the entry the same way but schedules nothing. See Findings.
- `_is_relevant_file` (SRC.py:248-251) matches excluded directory names only
  directly below the watched root, while the initial scan prunes a
  directory with an excluded name at any depth (SRC.py:24). See Findings.

## Model

| member | source | states |
|---|---|---|
| Strings.AnyEndsWithMeansSome | SRC.py:58-61 | `any(name.endswith(s) for s in suffixes)` holds exactly when some listed suffix ends the name |
| Strings.LessIsStrictTotalOrder | SRC.py:46-48 | the code-point comparison `sorted` applies to keys is irreflexive, transitive, total and asymmetric, so a sorted key list is well defined |
| Sorted.SortedKeys | SRC.py:46-48 | the sorted listing is strictly ascending and holds each element of the set exactly once |
| Sorted.AscendingUnique | SRC.py:46-48 | two strictly ascending lists with the same elements are equal, so the listing is determined by the key set alone |
| Sorted.SortedKeysInsert | SRC.py:46-48 | adding a new key puts it at one position, after every smaller key and before every larger one, and leaves the rest of the listing as it was |
| Paths.SplitJoin | SRC.py:29-30 | the relative-path string of a path of plain names splits back into the same names |
| Paths.JoinSplit | SRC.py:29-30 | joining the parts of any split string gives the string back |
| Paths.JoinInjective | SRC.py:29-30 | different files get different relative-path keys |
| Paths.CommonPrefixLen | SRC.py:250 | the common prefix length on which `commonpath` rests: both paths agree up to it and differ right after it |
| Paths.CommonPathIsAncestor | SRC.py:248-251 | `commonpath([path, dir]) == dir` holds exactly when `dir` is a component-wise ancestor of `path` |
| Paths.CommonPath | SRC.py:250 | `commonpath` is a common prefix of both paths, and the longest one: right after it the paths differ or one of them ends |
| Paths.RelPath | SRC.py:30 | `relpath` of the start directory itself is `.`, and a path outside the start directory climbs out with `..` |
| Paths.RelPathBelow | SRC.py:30 | below the watched directory, `relpath` is the join of the components under it |
| FileTree.LookupPlain | SRC.py:23-29 | a file found in a well-formed tree has a non-empty path of plain names |
| FileTree.VisitMembers | SRC.py:23-28 | the walk reaches a (path, read) exactly when the tree holds that file, its name passes the filter, and no directory on its way, at any depth, has an excluded name |
| FileTree.VisitOrdered | SRC.py:23-27 | the walk yields files in `os.walk` order: each directory's files by name, then each subdirectory by name; this is not string order |
| PathFilter.ShouldInclude | SRC.py:53-68 | false for every sensitive name; otherwise true exactly when some extension ends the name, no exclude suffix does and no regex matches |
| PathFilter.SpecTsExcluded | SRC.py:58-61 | with `.ts` allowed and `.spec.ts` excluded, `c.spec.ts` is rejected and `c.ts` accepted |
| PathFilter.InExcludedDirMeansAncestor | SRC.py:248-251 | the loop over `exclude_dirs` finds a match exactly when `root/ed` is an ancestor of the path for some listed `ed` |
| PathFilter.IsRelevantFile | SRC.py:236-256 | relevant exactly when the name passes the `_should_include` tests and no `root/ed` is an ancestor of the path |
| PathFilter.ExcludedDirIsComponentNotSubstring | SRC.py:248-251 | `root/mytest-data/x.js` stays relevant under `test`, while `root/test/x.js` does not |
| PathFilter.NestedExcludedDirIsRelevant | SRC.py:248-251 | as written, `root/src/test/a.js` is relevant under `test`, although the scan prunes `src/test` and the corrected rule rejects it |
| PathFilter.IsRelevantIntended | SRC.py:24 | corrected rule: the path lies below the root, its name is in scope, and no directory between the root and the file has an excluded name |
| PathFilter.IntendedRelevanceMatchesScan | SRC.py:23-28 | below the root, the corrected rule accepts exactly the names and directories the initial scan accepts |
| RepositoryCache.RemoveFile | SRC.py:41-44 | the key is gone afterwards; an absent key leaves the cache as it was; every other entry is kept unchanged |
| RepositoryCache.RemoveFileIdempotent | SRC.py:41-44 | removing twice is removing once |
| RepositoryCache.ReadAndStore | SRC.py:70-77 | a good read sets exactly that key, overwriting any old value; a failed read leaves the whole cache as it was, stale entry included |
| RepositoryCache.UpdateFile | SRC.py:33-39 | a path that no longer exists is `remove_file`; otherwise the read is stored as above; other keys are untouched |
| RepositoryCache.GetAllFilesSorted | SRC.py:46-48 | strictly ascending, with exactly the cache's keys |
| RepositoryCache.GetFileContent | SRC.py:50-51 | the stored content, or `""` for an absent key |
| RepositoryCache.StoreReadsFrame | SRC.py:27-31 | a key that no read of the scan mentions keeps its presence and its value |
| RepositoryCache.StoreReadsSound | SRC.py:27-31 | after a series of reads, every value is an old one or the text of a successful read of its own key |
| RepositoryCache.StoreReadsComplete | SRC.py:27-31 | a successful read that no other item contradicts ends up stored under its key |
| RepositoryCache.LoadInitial | SRC.py:20-31 | every key of the loaded cache is the relative path of a file that exists, passes `_should_include` and lies under no excluded directory at any depth, and its value is that file's read |
| RepositoryCache.LoadInitialComplete | SRC.py:20-31 | conversely, every such file is in the loaded cache under its relative path, with its content |
| RepositoryCache.LoadInitialForgetsOldCache | SRC.py:22 | the loaded cache does not depend on what the cache held before |
| Markdown.EffectiveTree | SRC.py:136-137 | an empty listing becomes exactly `Could not generate tree structure.`, and any other listing is kept |
| Markdown.GenerateMarkdown | SRC.py:92-108 | the document starts with the tree header, the listing and the code header; an empty cache gives nothing after them |
| Markdown.CachedFileShown | SRC.py:96-100 | every cached file appears in the document as its own marker and fenced block holding its current content |
| Markdown.UpdateCodeBaseDocument | SRC.py:133-138 | the document written on rebuild starts with the tree header, the effective listing and the code header, the placeholder when the listing is empty |
| Markdown.RenderAfterNewFile | SRC.py:96-100 | storing a new file adds exactly its own block to the document, between the blocks of smaller and larger paths, which stay as they were |
| Markdown.RenderTwoFiles | SRC.py:92-108 | the exact document for two files with a failed tree listing: headers, placeholder, then both blocks in sorted order and in the exact marker and fence format |
| Markdown.EmbeddedMarkerReadsAsTwoFiles | SRC.py:99-100 | a content that embeds a closing fence and another marker renders exactly like two separate blocks |
| Markdown.FencesAreNotEscaped | SRC.py:92-108 | so two different caches can produce the same document |
| Debouncing.Trigger | SRC.py:155-161 | `trigger` always leaves one pending timer, due no earlier than now |
| Debouncing.TriggerReplacesPrior | SRC.py:155-161 | the new deadline is `now + wait_time`, whatever was pending before |
| Debouncing.Cancel | SRC.py:163-168 | `cancel` leaves nothing pending |
| Debouncing.CancelIsSafe | SRC.py:163-168 | cancelling an idle debouncer is a no-op, cancelling twice is cancelling once, and a later `trigger` works as if no cancel had happened |
| Debouncing.Tick | SRC.py:160-161 | the timer runs the callback exactly when one is pending and its deadline has passed, and it is then spent |
| Debouncing.FiresAtMostTriggers | SRC.py:155-161 | over any run, the callback runs no more often than `trigger` was called, plus one for a timer pending at the start |
| Debouncing.BurstCoalesces | SRC.py:155-161 | events less than `wait_time` apart run nothing while they last and leave one callback due `wait_time` after the last event |
| Debouncing.SettledBurstFiresOnce | SRC.py:155-161 | after such a burst, a later check runs the callback exactly when `wait_time` has passed since the last event, and never a second time |
| Debouncing.RunConcat | SRC.py:155-168 | running two stretches of input in a row is running their concatenation |
| Events.HandleChange | SRC.py:224-229 | always triggers once; a file absent at the first existence check leaves the cache unchanged; a good read stores the content under the relative path; a failed read changes nothing |
| Events.OnCreatedOrModified | SRC.py:192-200 | directory events and irrelevant files are ignored; otherwise the event is `_handle_change` |
| Events.OnDeleted | SRC.py:202-208 | for a relevant file the cache is the old one minus exactly its relative path, with one trigger; otherwise nothing changes and nothing triggers; the disk is not consulted |
| Events.OnMoved | SRC.py:210-222 | triggers once exactly when the destination is relevant; a relevant source's key is gone afterwards unless the destination has the same key; a readable relevant destination is stored with its new content; with a relevant destination the result is `_handle_change` applied to the cache without the old entry; with neither side relevant nothing changes |
| Events.MoveChangesOnlyItsEntries | SRC.py:210-222 | a move adds no key but the destination's, and every entry other than the source's and the destination's keeps its value |
| Events.Dispatch | SRC.py:192-222 | every event triggers at most once, and a directory event never triggers |
| Events.DirectoryEventsAreInert | SRC.py:192-222 | an event about a directory changes nothing and triggers nothing |
| Events.DispatchShape | SRC.py:192-229 | for every event the trigger count is at most one, and a key that was not in the cache can only appear as the relative path of a relevant file on disk |
| Events.MovedOutOfScopeIsSilent | SRC.py:210-222 | as written, moving cached `a.js` to `a.txt` removes its entry and triggers nothing |
| Events.OnMovedIntended | SRC.py:210-222 | corrected move: triggers once exactly when either side is relevant, so any change to the cache schedules a rebuild |
| Events.DispatchIntended | SRC.py:192-229 | with both corrections, every event that changes the cache triggers exactly once |
| Events.MovedOutOfScopeTriggersWhenCorrected | SRC.py:210-222 | the corrected handler removes the moved-away entry and schedules a rebuild |
| Events.LoadInitialInScope | SRC.py:20-31 | after the initial scan every key is the relative path of a file whose name and directories the scan accepts |
| Events.DispatchIntendedKeepsScope | SRC.py:192-229 | the corrected handler preserves that invariant: it never stores a file the scan would not load |
| Watching.Start | SRC.py:288-292 | start-up's cache is the initial scan of the tree, and exactly one document, for that cache, is written, with no rebuild pending |
| Watching.OnEvent | SRC.py:189-229 | an event applies the handler to the cache and, when it triggered, arms the timer for `now + wait_time`; the documents are untouched |
| Watching.OnEventIntended | SRC.py:189-229 | with the corrected handler, a change to the cache always leaves a rebuild pending |
| Watching.OnTick | SRC.py:231-234 | when the timer runs out, the document for the cache as it is at that instant is written, and the timer is spent |
| Watching.StartIsFresh | SRC.py:288-292 | after start-up the written document matches the cache, and the cache is in scope |
| Watching.IntendedStepsKeepFresh | SRC.py:231-234 | with the corrected handler, the last document always matches the cache unless a rebuild is pending |
| Watching.StaleAfterMoveOutOfScope | SRC.py:210-222 | as written, after a move out of scope the last document no longer matches the cache and no rebuild is pending |
| SyncRepo.SyncKeep | SyncRepo.py:36-40 | a name is taken when it is not sensitive, some extension ends it and no exclude suffix does |
| SyncRepo.SyncKeepIsShouldIncludeWithoutRegex | SyncRepo.py:36-40 | the old filter is `_should_include` with no regex patterns |
| SyncRepo.OneBlockPerItem | SyncRepo.py:43-49 | each walk item contributes its own block in its own place, whatever surrounds it |
| SyncRepo.FailedReadDropsOnlyItsBlock | SyncRepo.py:43-49 | a file whose read fails contributes nothing, and the other blocks are exactly as without it |
| SyncRepo.SyncFilesMembers | SyncRepo.py:31-40 | a file is taken up by the walk exactly when it exists, passes the inline filter, and no directory on its way, at any depth, has an excluded name; its block is emitted only when its read also succeeds (FileShownInSync, FailedReadDropsOnlyItsBlock) |
| SyncRepo.SyncFilesWalkOrdered | SyncRepo.py:31-35 | blocks come in `os.walk` order |
| SyncRepo.TopFileBeforeSubdirectory | SyncRepo.py:31-35 | a top-level `z.js` is emitted before `a/b.js`, although `a/b.js` sorts first as a string |
| SyncRepo.OrderedPositions | SyncRepo.py:31-35 | in a walk-ordered list, an item that walks before another sits at a smaller index |
| SyncRepo.BlockFormatsDiffer | SyncRepo.py:46-47 | this script's block has the same marker line and fenced content as `SRC.py`'s, with the blank line before the opening fence instead of after the closing one |
| SyncRepo.FileShownInSync | SyncRepo.py:29-50 | every file the walk takes up and reads successfully appears in `read_files_in_directory`'s output as its own block with its relative path and content |
| SyncRepo.SyncUpdateCodeBase | SyncRepo.py:52-64 | the document starts with the tree header, the effective listing and the code header, and what follows is exactly `read_files_in_directory`'s output |
| SyncRepo.SameLayoutAsCached | SyncRepo.py:52-64 | for any tree, filter and cache, this script and `SRC.py` write the same head, up to the code header, and differ only in the code section; with no listing that head is the exact text with the placeholder |
| SyncRepo.OnAnyEvent | SyncRepo.py:99-103 | an update runs exactly when at least `debounce_time` has passed since the last one, and only then does `last_update` move to now |
| SyncRepo.ThrottleSpacing | SyncRepo.py:96-105 | over any series of events, updates run at event instants at least `debounce_time` apart, the first one at least that long after construction |
| SyncRepo.DroppedEventLeavesNoTrace | SyncRepo.py:99-102 | an event inside the window is dropped, not deferred: the state and the updates are the same as without it |
| SyncRepo.FirstEventWithinWindowIsDropped | SyncRepo.py:96-102 | since `last_update` starts at construction, an event within `debounce_time` of start-up updates nothing |

## Left out

- Threads and locks: `threading.Timer`, the debouncer's lock, and the race
  between the timer thread and the event thread. Each lock-protected method
  is one atomic transition, and the timer's expiry is an explicit `Tick`.
- The watchdog `Observer`, its scheduling, and the `isinstance(event,
  FileSystemMovedEvent)` test. Every `Moved` event carries both paths.
- `get_tree_structure`, which runs the external `tree` command. Its output
  is an input string, and an empty string stands for failure.
- `write_markdown_output`: writing the file, tiktoken token counts, float
  usage percentages, `print` and `time.strftime`. The model keeps the list
  of documents written. The same goes for the stats half of SyncRepo.py's
  `update_code_base`.
- `main` in both scripts: interactive input, URL unquoting, output
  directory creation and the `KeyboardInterrupt` loop.
- The regex engine: `re.search` is the uninterpreted `Search` parameter.
- Real `os.walk`, `open` and `os.path.exists`. The tree is a finite value,
  so there are no symbolic links, no `onerror` and no changes mid-walk.
  Decoding failures are the `ReadError` case.
- Paths are taken as normalised component lists. Not modelled: `.` and `..`
  components, entries of `exclude_dirs` that contain a separator, and the
  `ValueError` `commonpath` raises for mixed absolute and relative paths.
- Events.HandleChange: each event sees one disk snapshot, so both
  `os.path.exists` checks (SRC.py:227 and SRC.py:35) agree. A file deleted
  between them, which the program drops from the cache through
  `remove_file` (SRC.py:37), is not modelled; through the handler the
  removal branch of `UpdateFile` is never taken.
- Watching.OnTick: the tree listing is a parameter of each rebuild, so
  `Fresh` assumes the listing is the same at every rebuild.
- Debouncing.Trigger: `wait_time` and times are integers, not float seconds.
- Python file names can hold lone surrogates (from `surrogateescape`), which
  `sorted` orders by code point. A Dafny `char` cannot hold them, so such
  names are not modelled.
- SyncRepo.OnAnyEvent: `time.time()` is an integer parameter, so the
  handler's clock is not required to be monotonic. `on_any_event` reacts to
  every event kind, directories included, so events carry no payload here.

## Findings

| source | as written | input that shows it | evidently intended | confidence | as-written member | corrected member |
|---|---|---|---|---|---|---|
| SRC.py:248-251 | excluded directory names match only directly below the watched root (`join(directory, ed)`) | `exclude_dirs = ["test"]`: an event for `root/src/test/a.js` is relevant, although the scan (SRC.py:24) prunes `src/test` and never loads it | an excluded name at any depth below the root rejects the path, as in the initial scan | not executed | PathFilter.NestedExcludedDirIsRelevant | PathFilter.IsRelevantIntended |
| SRC.py:210-222 | the removal of a moved file's old entry is followed by a trigger only if the destination is relevant | cached `a.js` moved to `a.txt` with extensions `[".js"]`: the entry is removed and nothing is scheduled, so the document keeps showing `a.js` (Watching.StaleAfterMoveOutOfScope) | a move that changes the cache schedules one rebuild | not executed | Events.MovedOutOfScopeIsSilent | Events.OnMovedIntended |

`Dispatch` and `OnEvent` model the handler as written. `DispatchIntended`
and `OnEventIntended` use both corrections. The invariants
`DispatchIntendedKeepsScope` and `IntendedStepsKeepFresh` are proved for the
corrected handler.
