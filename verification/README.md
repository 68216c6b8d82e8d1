# Verified models of edx-platform's derived state and small languages

Several places in the platform keep a derived copy in step with a source of truth, or read
and write a small language. This project models them in Dafny and proves what they promise.
`dafny verify dfyconfig.toml` checks everything.

| files | what is modelled |
|---|---|
| `CoursewareTree`, `CoursewareWalk`, `CoursewareGroups`, `CoursewareResults`, `CoursewareIndex` | the courseware search indexer: the walk over a published course tree, its documents, and full and incremental runs |
| `GroupUsage` | content-group usage and its inversion, which starts an indexing run |
| `ConfigModels`, `ConfigRaces` | append-only configuration rows behind an expiring cache, with atomic and with interleaved steps |
| `InstanceCache` | model instances cached by primary key |
| `AcceptLanguage`, `AcceptLanguageResults`, `DarkLang`, `RequestLanguage` | the Accept-Language parser, the released-languages filter and printer, and the choice of a request's language |
| `ByteRanges` | the Range header parser and partial replies |
| `ProctoredExams`, `CourseCreators`, `CourseRerun`, `CourseUpdates` | exam registration, course creation rights, the rerun task, course updates |
| `Common`, `Decimal` | options, dictionaries' `get`, decimal numerals |

Code that updates state in place is a class or a method with loops, proved equal to a
function of its inputs or its old state (`VisitItem`, `Step`, `Parse`, `Rerun`, ...). The
results below are about those functions, over every input and every run.

## What the results say

**Indexer.** The walk threads one groups map that split tests overwrite as it goes.
`WalkIsLocal` shows that the outcome does not depend on the order: with distinct locations,
any run writes exactly the documents of the nodes without a stale walked ancestor, and each
reads its groups from the starting map and the two walked items above it only. From that
follow `IncrementalRefinesFull` (an if and only if: an incremental run leaves the same store
as a full one, content groups apart, exactly when every out-of-date document has only
walked ancestors edited recently enough), `IncrementalGroups` (which groups an incremental run loses, exactly) and
`RestrictionIsDownwardClosed`. "Walked ancestors" excludes the course itself, whose edit
time the walk never asks for. Renaming a chapter makes the stored documents of all its
descendants out of date, because their `location` holds the chapter's name; a descendant
under an ancestor whose subtree was not edited recently is then not refreshed by an
incremental run, and this is the case that the condition shuts out (`RenamingIsMissed`).

**Configuration cache.** With atomic operations the cached `current` is the newest row.
With interleaved steps a hit may be older than the timeout, but only by the filling reader's
own delay (`HitIsRecent`), and a completed save is seen by all later calls exactly when no
caller is still holding an older value that it read before (`SaveIsSeen`). Both hold for
`current` and for the key list, whose entry a save deletes last (`ListLagsBehind`).
`OlderReaderPoisonsCache` gives the run in which such a caller makes others see the old row.
Cache keys join key values with commas, so two keys can share an entry: a key is always
answered with its latest row exactly when none of its parts has a comma, or it has only one
part (`SeparableIsCoherent`), whatever other keys are in use. `SharedEntryRun` gives the run
in which another key's row is returned.

**Instance cache.** An entry that cannot be rebuilt is replaced, but one that was written
before a column was added can be: the column then has its default
(`MissingColumnIsDefaulted`). `CacheAgreesWithStore` says exactly when lookups are right.

**Accept-Language.** The pattern's point after a leading one is unescaped, so it stands for
any character. `StandardHeaders` shows the exact effect on headers that follow the grammar
of section 14.4 of RFC 2616 (with the trailing comma the pattern allows): they are parsed
into the stable sort of their entries if and only if the header does not end in a bare
`q=1,` (or that and a newline), where the comma is taken for the point and `float` raises or
the header is dropped (`BareOneRaises`). `CleanedHeaderRoundTrips` gives the exact condition for printing and
parsing again: no kept q-value above one. Such values come from numbers like `19`, which
the pattern accepts and which are printed as `19.0`, which it does not accept
(`OversizedNumberIsLost`).

**Byte ranges.** A last byte before the first gives 416, where section 14.35.1 of RFC 2616
would have the header ignored; the model follows the code (`ReversedIsUnsatisfiable`).

**Rerun.** A destination that was there before the task began is deleted if reading the
fields or cloning fails with anything but a duplicate, the failure is recorded, and deleting
works (`ExistingCourseSurvives`). A task that is delivered again after it succeeded turns
its row to failed, or leaves it succeeded if recording the failure fails; and the course
that was made is kept exactly as any existing one is (`RedeliveredTask`). One that cannot
read its fields deletes it (`RedeliveryDeletes`).

**Course creators.** A denied user was last told so, and a user last told of a grant has
it. A granted user was last told so too, except that users who are added as granted hear
nothing until their standing changes (`LastMessageIsTrue`, `AddedAsGrantedIsSilent`).

## Model

| member | source | states |
|---|---|---|
| CoursewareTree.DocumentFields | cms/djangoapps/contentstore/courseware_index.py:231-240 | Field by field what a document holds: its own id, the index dictionary over the course's location, a start date if any, groups or null, and the names of at most three items below the course, outermost first. |
| CoursewareTree.NodesAreChains | cms/djangoapps/contentstore/courseware_index.py:181-224 | The visited nodes are exactly the ends of chains of items from the top, each below the first published, none without both an index dictionary and children. |
| CoursewareWalk.SweepKeeps | cms/djangoapps/contentstore/courseware_index.py:149-153 | The ids to keep are those of the visited nodes, whatever the trigger time, the reindex age and the groups. |
| CoursewareWalk.LastPickIsLast | cms/djangoapps/contentstore/courseware_index.py:193-199 | A child gets the last of the groups that the split test maps to it, and none if none does. |
| CoursewareGroups.LabelIsPick | cms/djangoapps/contentstore/courseware_index.py:189-203 | Among siblings with distinct locations, a split test writes at a child or its component exactly the group it picks for that child. |
| CoursewareGroups.LabelReach | cms/djangoapps/contentstore/courseware_index.py:197-203 | A split test writes nothing below its grandchildren. |
| CoursewareGroups.VisitFrame | cms/djangoapps/contentstore/courseware_index.py:197-203 | Visiting an item leaves the groups map as it was at every location outside its subtree. |
| CoursewareGroups.AboveIsLocal | cms/djangoapps/contentstore/courseware_index.py:189-207 | The entry an item finds is the group its parent picks for it, else the group its grandparent picks for its parent, else its starting entry. |
| CoursewareGroups.WalkIsLocal | cms/djangoapps/contentstore/courseware_index.py:166-243 | With distinct locations any run, full or incremental, writes in order the documents of the writable nodes without a stale walked ancestor, with groups that depend on the starting map and two levels above only. |
| CoursewareGroups.VisitIsLocal | cms/djangoapps/contentstore/courseware_index.py:205-243 | The same for one subtree, and what it reports upwards: nothing if the item, or a published child, reports nothing. |
| CoursewareGroups.SweepErrors | cms/djangoapps/contentstore/courseware_index.py:244-247 | The errors collected are, in order, the locations of the unskipped indexable nodes whose document cannot be built. |
| CoursewareResults.RestrictionIsDownwardClosed | cms/djangoapps/contentstore/courseware_index.py:205-243 | In the local reading of a run, an item written with content groups has every published item below it written, with content groups. |
| CoursewareResults.StoredRestrictionIsClosed | cms/djangoapps/contentstore/courseware_index.py:205-261 | In the store after any run, full or incremental: when the document written for a node has content groups, the same run wrote documents with content groups for all published items below it. |
| CoursewareResults.IncrementalReports | cms/djangoapps/contentstore/courseware_index.py:213-229 | An incremental run reports the full run's groups for an unskipped item, or none exactly when a stale item with published children lies at or below it. |
| CoursewareResults.NodeOutcome | cms/djangoapps/contentstore/courseware_index.py:258-261 | After a run the store holds a node's own document if the run writes it, else the document it held before. |
| CoursewareResults.OtherOutcome | cms/djangoapps/contentstore/courseware_index.py:103-114 | An id that belongs to no node keeps its document exactly when that document is not one of this course. |
| CoursewareResults.StoreIsPruned | cms/djangoapps/contentstore/courseware_index.py:260-274 | Every document of the course that survives belongs to a visited node and other structures' documents are unchanged, for any tree; with distinct locations and ids the count is the number of distinct ids written. |
| CoursewareResults.RefreshedByAge | cms/djangoapps/contentstore/courseware_index.py:208-229 | A run triggered at time t builds a node's document anew if every walked ancestor has t minus its edit time at most the reindex age, and keeps the stored one if some has more; a run without a trigger time builds all. |
| CoursewareResults.UnindexableIsKept | cms/djangoapps/contentstore/courseware_index.py:228-247 | A node with nothing to index, or whose document cannot be built, keeps what the store had. |
| CoursewareResults.IncrementalRefinesFull | cms/djangoapps/contentstore/courseware_index.py:116-134 | Incremental and full runs leave the same store apart from content groups if and only if every writable node with an out-of-date document has only walked ancestors edited at most the reindex age before the trigger. |
| CoursewareResults.RenamedIsOutOfDate | cms/djangoapps/contentstore/courseware_index.py:415-427 | A stored document whose path shows another name for one of its three topmost items is out of date. |
| CoursewareResults.BuiltBeforeRenaming | cms/djangoapps/contentstore/courseware_index.py:231-240 | A document built when one of those items had another name is such a document. |
| CoursewareResults.RenamingIsMissed | cms/djangoapps/contentstore/courseware_index.py:208-229 | After a renaming, an incremental run leaves another store than a full one if some renamed node has a walked ancestor edited longer ago than the reindex age. |
| CoursewareResults.IncrementalGroups | cms/djangoapps/contentstore/courseware_index.py:213-243 | A document written by an incremental run is the full run's, with null groups exactly when a stale item with published children lies at or below. |
| CoursewareIndex.SearchEngine.Index | cms/djangoapps/contentstore/courseware_index.py:260 | Stores each document under its id, later ones over earlier ones. |
| CoursewareIndex.SearchEngine.Search | cms/djangoapps/contentstore/courseware_index.py:108-113 | Returns every document with the given field values whose id is not excluded, and no other. |
| CoursewareIndex.Indexer.SupplementalFields | cms/djangoapps/contentstore/courseware_index.py:406-427 | The loop up the parents yields the course name and the top of the name path. |
| CoursewareIndex.Indexer.AssignSplitGroups | cms/djangoapps/contentstore/courseware_index.py:189-203 | The nested loops leave the map in which the last matching group of each child wins. |
| CoursewareIndex.Indexer.PrepareItemIndex | cms/djangoapps/contentstore/courseware_index.py:166-247 | The recursive visit extends the keep set, the batch, the count and the errors, and rewrites the groups, as the walk function says, and returns its result. |
| CoursewareIndex.RemoveDeletedItems | cms/djangoapps/contentstore/courseware_index.py:103-114 | Removes exactly the documents of the structure that are not to remain. |
| CoursewareIndex.IndexCourse | cms/djangoapps/contentstore/courseware_index.py:136-274 | A run leaves the store of `StoreAfter` and returns the number of documents written, or raises with the items that could not be indexed. |
| CoursewareIndex.Reindex | cms/djangoapps/contentstore/courseware_index.py:249-274 | The groups of the run are the usage of the course's items, and its documents keep restrictions closed downwards; unreadable usage raises the general error and changes nothing. |
| GroupUsage.UsageInfo | cms/djangoapps/contentstore/course_group_config.py:216-283 | For each group and location, as many entries as the group has occurrences in items with that parent (or at that location); every mentioned group has an entry; unreadable access settings raise. |
| GroupUsage.Invert | cms/djangoapps/contentstore/courseware_index.py:388-395 | Each location lists a group as often as the group lists the location, and no list is empty. |
| GroupUsage.FetchGroupUsage | cms/djangoapps/contentstore/courseware_index.py:378-396 | Group g is listed for location k exactly as often as it occurs in items whose parent is k plus items at k. |
| ConfigModels.CacheKeysDiffer | common/djangoapps/config_models/models.py:102-142 | No other key of the model has the cache key of a separable key, and it is not the key of the key list. |
| ConfigModels.SeparableIsUnshared | common/djangoapps/config_models/models.py:102-111 | A key has a cache key of its own if and only if none of its parts has a comma, or it has one part at most. |
| ConfigModels.SeparableIsCoherent | common/djangoapps/config_models/models.py:109-131 | `current` of a key gives its uncached latest row in every run if and only if the key is separable. |
| ConfigModels.SharedEntryRun | common/djangoapps/config_models/models.py:109-131 | Of two keys with one cache key, saving and asking for one makes `current` of the other return the first one's row, though it has none. |
| ConfigModels.ActiveIsCurrent | common/djangoapps/config_models/models.py:19-58 | When ids and dates grow together, the rows with the highest id per key are one for each distinct key, and are those `current` returns. |
| ConfigModels.StepKeepsCoherence | common/djangoapps/config_models/models.py:92-176 | Every save, revert, eviction, passing of time and query, on any keys, keeps the cached values of separable keys and the cached key list equal to the uncached ones. |
| ConfigModels.CacheIsCoherent | common/djangoapps/config_models/models.py:114-176 | After any run on any keys, `current` of a separable key is its uncached latest row or the default, the key list is the table's distinct keys, and exactly the listed keys have a saved current row. |
| ConfigModels.SecondAskHits | common/djangoapps/config_models/models.py:120-176 | Asking again straight away gives the same answer from the cache and changes nothing. |
| ConfigModels.SavedIsCurrent | common/djangoapps/config_models/models.py:92-131 | In any state that a run reaches a save appends exactly its row, `current` of the key then returns it, and the latest rows of other keys stay. |
| ConfigModels.CurrentIsLastSaving | common/djangoapps/config_models/models.py:92-131 | In every run `current` of a separable key holds what the last save or revert of the key put there, read from the operations alone, or the default if there was none. |
| ConfigModels.EntryLivesForTimeout | common/djangoapps/config_models/models.py:130 | A cached value answers exactly for less than the timeout. |
| ConfigModels.RevertAppends | common/djangoapps/config_models/admin.py:64-81 | Reverting with one row of the table selected appends an equal-valued row, which becomes current and active; older rows are as before. |
| ConfigModels.RevertNeedsOneRow | common/djangoapps/config_models/admin.py:70-72 | When no row of the table is the only one selected, nothing is reverted. |
| ConfigModels.ConfigurationModel.Save | common/djangoapps/config_models/models.py:92-99 | Appends the row and clears its cache entry and that of the key list. |
| ConfigModels.ConfigurationModel.RevertTo | common/djangoapps/config_models/admin.py:66-81 | Acts only when the selection holds exactly one row of the table, and saves a copy of it under a new id. |
| ConfigModels.ConfigurationModel.CurrentEntry | common/djangoapps/config_models/models.py:114-131 | Answers from a live cache entry, else from the table, which it then caches; a wrong number of arguments raises and changes nothing. |
| ConfigModels.ConfigurationModel.KeyValues | common/djangoapps/config_models/models.py:145-176 | Answers with the cached key list while it lives, else with the distinct keys, which it then caches. |
| ConfigRaces.HeldWasRead | common/djangoapps/config_models/models.py:124-130 | A value held by a reader was what the table answered at the step where that reader read it, for the row of a key or for the key list. |
| ConfigRaces.CachedWasFilled | common/djangoapps/config_models/models.py:130 | A cached value was put there by a reader holding it, and expires the timeout later. |
| ConfigRaces.HitIsRecent | common/djangoapps/config_models/models.py:114-176 | In every interleaving a hit, on the entry of a key or on the key list, returns what the table answered less than the timeout plus the filling reader's read-to-fill delay ago. |
| ConfigRaces.DeleteMakesSafe | common/djangoapps/config_models/models.py:96-99 | After either delete of a save, every later answer from that entry is the row or a newer one, or a list with its key, if and only if no reader still holds an older value. |
| ConfigRaces.SaveIsSeen | common/djangoapps/config_models/models.py:92-176 | The same for every save in any behaviour from an idle start, for `current` from its first delete and for `key_values` from its second. |
| ConfigRaces.OlderReaderPoisonsCache | common/djangoapps/config_models/models.py:120-176 | With such a reader left, a caller that starts only afterwards can be answered with the older value. |
| ConfigRaces.ListLagsBehind | common/djangoapps/config_models/models.py:96-99 | Between its two deletes a save may not be seen in the key list yet. |
| InstanceCache.InstanceKeyIsInjective | common/djangoapps/cache_toolbox/core.py:101-110 | Different primary keys have different cache keys. |
| InstanceCache.RebuildInverts | common/djangoapps/cache_toolbox/core.py:45-83 | Constructing an instance from the key and the cached dictionary of a row gives the row back, file fields included. |
| InstanceCache.CacheAgreesWithStore | common/djangoapps/cache_toolbox/model.py:62-79 | After any run of saves, deletes, evictions, lookups and entries put there from elsewhere, `get_cached` answers as the store does if and only if no such entry is left under the key, or it cannot be rebuilt, or it rebuilds to the stored row. |
| InstanceCache.MissingColumnIsDefaulted | common/djangoapps/cache_toolbox/core.py:42-56 | An entry without one of the columns is rebuilt with that column's default, so the lookup is right if and only if the row holds the default. |
| InstanceCache.SpoiledEntryIsReplaced | common/djangoapps/cache_toolbox/core.py:57-90 | An entry that cannot be rebuilt is dropped, the stored row is returned, and the new entry rebuilds to it. |
| InstanceCache.SecondGetHits | common/djangoapps/cache_toolbox/core.py:38-90 | A lookup of a stored row leaves an entry from which the next one is answered alike, changing nothing. |
| InstanceCache.CachedModel.GetInstance | common/djangoapps/cache_toolbox/core.py:38-90 | The lookup with its fallback, as one step on store and cache. |
| InstanceCache.CachedModel.GetCached | common/djangoapps/cache_toolbox/model.py:73-77 | An absent key is answered by nothing; any other as `get_instance` does. |
| InstanceCache.CachedModel.DeleteInstances | common/djangoapps/cache_toolbox/core.py:93-98 | Removes exactly the entries of the given keys. |
| InstanceCache.CachedModel.SaveInstance | common/djangoapps/cache_toolbox/model.py:67-71 | Saving stores the row and clears its entry. |
| AcceptLanguage.MatchSound | common/djangoapps/django_locale/trans_real.py:12-16 | One match consumes exactly the text of an element of the pattern's grammar, and ends the header only at its end or before a final newline. |
| AcceptLanguageResults.MatchIsExact | common/djangoapps/django_locale/trans_real.py:12-16 | A text is matched at its start if and only if an element of the pattern's grammar starts it. |
| AcceptLanguage.ParseAcceptLangHeader | common/djangoapps/django_locale/trans_real.py:25-45 | The loop over the pieces computes the parsed header: empty on any unmatched text, raising on a number `float` cannot read, else sorted. |
| AcceptLanguageResults.SortIsStable | common/djangoapps/django_locale/trans_real.py:44 | The sort gives a permutation, descending by q, with the header order within every q. |
| AcceptLanguageResults.StableOrderIsUnique | common/djangoapps/django_locale/trans_real.py:44 | Only one list is descending and keeps the order within every q, so the sort's result is determined. |
| AcceptLanguageResults.AllOrNothing | common/djangoapps/django_locale/trans_real.py:25-45 | A non-empty result comes only from a header that elements tile end to end, and is the stable sort of their entries, each with its element's language and, for standard numbers, what the element means. |
| AcceptLanguageResults.ElementMeans | common/djangoapps/django_locale/trans_real.py:36-43 | A standard element is read with its language and the value of its digits in thousandths, or one if there is no quality or only zeros. |
| AcceptLanguageResults.AbsentOrZeroIsOne | common/djangoapps/django_locale/trans_real.py:42 | Every language range, alone or with `;q=0`, is asked for with a quality of one. |
| AcceptLanguageResults.MatchNumberOf | common/djangoapps/django_locale/trans_real.py:14 | A standard number in a list is read with its value, except a one right before the header's final comma. |
| AcceptLanguageResults.StandardHeaders | common/djangoapps/django_locale/trans_real.py:10-45 | A header of the standard form is parsed into the stable sort of what its elements mean if and only if it does not end in a bare `q=1,`; if it does, parsing raises, or gives nothing when a newline follows. |
| AcceptLanguageResults.BareOneRaises | common/djangoapps/django_locale/trans_real.py:14-45 | For every language range, a header like `en;q=1,` raises. |
| DarkLang.FuzzyMatchIsReleased | common/djangoapps/dark_lang/middleware.py:92-102 | A code is matched by itself if released, else by the first released code of the same language, else by nothing, and then none is released. |
| DarkLang.ImagesKeepOrder | common/djangoapps/dark_lang/middleware.py:119-123 | The kept entries are released images of original entries with their q, still in descending order. |
| DarkLang.ImagesOfImages | common/djangoapps/dark_lang/middleware.py:92-123 | Filtering twice is filtering once, and every kept language is well formed. |
| DarkLang.PrintedNumber | common/djangoapps/dark_lang/middleware.py:104-108 | A printed q-value up to one is in the standard grammar and reads back as itself. |
| DarkLang.OversizedFails | common/djangoapps/django_locale/trans_real.py:14 | A printed q-value above one is not matched by the pattern. |
| DarkLang.OversizedStartsNoElement | common/djangoapps/django_locale/trans_real.py:12-16 | No element of the pattern's grammar starts an entry printed with such a q-value. |
| DarkLang.CleanedHeaderRoundTrips | common/djangoapps/dark_lang/middleware.py:110-127 | Parsing the cleaned header gives exactly the released images with their q and order if and only if no kept q exceeds one; and exactly then does cleaning again change nothing. |
| DarkLang.OversizedNumberIsLost | common/djangoapps/django_locale/trans_real.py:14 | For every released code and digit, a header like `en;q=19` is cleaned to one like `en;q=19.0`, and that to the empty header. |
| DarkLang.CleanedKeepsReleased | common/djangoapps/dark_lang/middleware.py:74-127 | Each parsed entry, in order and with its q, is kept under its lower-case code if that is an option or the default language, else under the first of the options and then the default with its prefix, and dropped only if none has it. |
| DarkLang.CleanAcceptHeaders | common/djangoapps/dark_lang/middleware.py:72-127 | The loop writes that header, leaves an absent header or a bare star alone, and raises when parsing does. |
| RequestLanguage.VariantServes | common/djangoapps/django_locale/trans_real.py:48-81 | A variant is found if and only if some language of the settings serves the code, and it is the one preferred: the code, its fallbacks in order, the generic code, then the first country variant. |
| RequestLanguage.GetSupportedLanguageVariant | common/djangoapps/django_locale/trans_real.py:48-81 | The two searches return that variant or raise. |
| AcceptLanguageResults.ParsedAreLanguages | common/djangoapps/django_locale/trans_real.py:116-121 | Every parsed entry is a language range, so the check of its form never skips one. |
| RequestLanguage.EarlierSourcesDecide | common/djangoapps/django_locale/trans_real.py:94-112 | A language in the path, if asked for, decides first; then a supported one in the session; then the one preferred for the cookie's. |
| RequestLanguage.HeaderDecides | common/djangoapps/django_locale/trans_real.py:84-131 | When those do not decide, the language is the preferred one for the first entry, before any star, that some language serves; if there is none it is the one preferred for the default code, or that code. |
| RequestLanguage.GetLanguageFromRequest | common/djangoapps/django_locale/trans_real.py:84-131 | Path, then session, then cookie, then header, then default, in that order. |
| ByteRanges.ParseRangeHeader | common/djangoapps/contentserver/middleware.py:152-192 | The loop returns the unit and the clamped ranges, at least one, or raises on the first bad one. |
| ByteRanges.ContentStream.StreamDataInRange | common/lib/xmodule/xmodule/contentstore/content.py:187-200 | The chunks put together are exactly the bytes from first to last. |
| ByteRanges.Serve | common/djangoapps/contentserver/middleware.py:97-142 | The reply to a Range header, its chunks streamed, is the reply function's. |
| ByteRanges.SingleRange | common/djangoapps/contentserver/middleware.py:123-137 | A single range `a-b`, `a-` or `-n` of any digit strings gets 206 with exactly the bytes of the clamped interval, their range and number in the headers, if there are any, and an empty 416 if there are none. |
| ByteRanges.TilesRebuild | common/djangoapps/contentserver/middleware.py:125-132 | Bodies fetched along any increasing cuts of a file, put together, are the file. |
| ByteRanges.ReversedIsUnsatisfiable | common/djangoapps/contentserver/middleware.py:125-137 | A range whose last byte is before its first gets 416, on every file. |
| Decimal.IntReadsIntegers | common/djangoapps/contentserver/middleware.py:175-188 | `int` reads exactly digits with an optional sign between white space. |
| ByteRanges.SyntaxErrorsAreIgnored | common/djangoapps/contentserver/middleware.py:104-142 | The whole file is sent if and only if the header is not `bytes=` and a single range of the form `-n`, `a-` or `a-b` with numbers that `int` reads. |
| ProctoredExams.IsItemInCourseTree | cms/djangoapps/contentstore/views/helpers.py:304-315 | The climb ends at a course exactly when one is among the ancestors. |
| ProctoredExams.RegisterProctoredExams | cms/djangoapps/contentstore/proctoring.py:26-116 | With the feature on, the registry is reconciled with the timed sequences in the tree; otherwise it is unchanged. |
| ProctoredExams.TimedAreInTree | cms/djangoapps/contentstore/proctoring.py:44-59 | Exactly the listed sequences below a course are taken. |
| ProctoredExams.SyncTimed | cms/djangoapps/contentstore/proctoring.py:63-93 | Every timed sequence has an active row with its fields, found or created, and no other row changed. |
| ProctoredExams.DisableOthers | cms/djangoapps/contentstore/proctoring.py:97-116 | Exactly the active rows of the course without a timed sequence are switched off. |
| ProctoredExams.ActiveRowsAreTimed | cms/djangoapps/contentstore/proctoring.py:26-116 | After reconciling, the active rows of the course are its timed sequences, one row each with synced fields; retired rows lose their flags and keep the rest; no row is lost or changes id, and other courses are untouched. |
| ProctoredExams.ReconcilingIsIdempotent | cms/djangoapps/contentstore/proctoring.py:26-116 | A second run changes nothing. |
| CourseCreators.CourseCreator.Save | cms/djangoapps/course_creators/models.py:59-99 | A save writes the row once, or twice with the date moved when the standing changed; the group and the notices follow; the assertion on the stored admin holds. |
| CourseCreators.Site.AddUser | cms/djangoapps/course_creators/views.py:83-99 | Adds a row unless the user is staff or has one. |
| CourseCreators.Site.AddUserWithStatusGranted | cms/djangoapps/course_creators/views.py:22-36 | A newly granted user is also put into the group. |
| CourseCreators.Site.UserRequestedAccess | cms/djangoapps/course_creators/views.py:70-80 | Makes a row pending unless it is granted; fails without a row. |
| CourseCreators.Site.SaveModel | cms/djangoapps/course_creators/admin.py:67-70 | The admin form's save stores the staff user first, so any change of standing goes through. |
| CourseCreators.RowsHoldLastAsked | cms/djangoapps/course_creators/views.py:22-99 | In every run each row has the standing and note last asked for its user, read from the operations: unrequested or granted when added, pending after a request unless granted, the admin's after an admin save. |
| CourseCreators.OtherRowsStay | cms/djangoapps/course_creators/views.py:22-99 | What is done for one user leaves the rows and group membership of all others as they were. |
| CourseCreators.GroupMatchesTable | cms/djangoapps/course_creators/models.py:59-99 | In every run of requests a user is in the creator group if and only if the row says granted. |
| CourseCreators.RequestsAnnounce | cms/djangoapps/course_creators/models.py:68-99 | In every run the notices that concern a user are exactly those that the changes of the user's standing call for, each once and in order. |
| CourseCreators.LastMessageIsTrue | cms/djangoapps/course_creators/models.py:68-99 | In every run from an empty site: a denied user was last told so; a user last told of a grant is in the group; a user in the group was last told of the grant, or was told nothing, and that if and only if the row was added as granted and has never been anything else; the admins have heard of every pending user. |
| CourseCreators.AddedAsGrantedIsSilent | cms/djangoapps/course_creators/views.py:22-36 | After the one request that adds a user as granted, the user is in the group and was told nothing. |
| CourseCreators.NestedSavesAreChanges | cms/djangoapps/course_creators/models.py:59-99 | In every run the table is written once for each save asked for, and once more for each change of an existing row's standing: the save from inside the callback nests once and no deeper. |
| CourseCreators.DatedByLastChange | cms/djangoapps/course_creators/models.py:97-99 | In every run a row's date is the time of the last change of its standing, or of its making. |
| CourseRerun.Server.UpdateState | common/djangoapps/course_action_state/managers.py:57-94 | A row is updated, or made if allowed; a rejected or failing update leaves the table unchanged. |
| CourseRerun.Server.Initiated | common/djangoapps/course_action_state/managers.py:117-128 | Sets the in-progress row with its origin and user, and the creator of a new row only. |
| CourseRerun.Server.Failed | common/djangoapps/course_action_state/managers.py:139-148 | Marks an existing row as failed with the last thousand characters of the traceback. |
| CourseRerun.Server.RerunCourse | cms/djangoapps/contentstore/tasks.py:26-75 | The task with its handlers is the rerun function, for every plan of failures. |
| CourseRerun.OutcomeMatchesSite | cms/djangoapps/contentstore/tasks.py:33-75 | For every first failing step: what is returned, the row's state and message, and whether the destination is there; nothing else changes. |
| CourseRerun.ExistingCourseSurvives | cms/djangoapps/contentstore/tasks.py:39-73 | A course that was there before is kept if and only if the first failure is a duplicate, or recording the failure fails, or deleting fails other than by not finding it. |
| CourseRerun.RedeliveredTask | cms/djangoapps/contentstore/tasks.py:33-75 | After success, however a second delivery goes: the row stays succeeded if and only if recording the failure fails, and the course is kept exactly as any existing course is. |
| CourseRerun.RedeliveryDeletes | cms/djangoapps/contentstore/tasks.py:39-73 | A second delivery that cannot read its fields deletes the course that the first one made. |
| CourseUpdates.IndexOfId | cms/djangoapps/contentstore/course_info_model.py:150-160 | Any prefix that does not end in a digit, followed by a number and perhaps a newline, is read as that number; without a number it is read as zero. |
| CourseUpdates.GetHtml | cms/djangoapps/contentstore/course_info_model.py:163-172 | The loop renders the undeleted updates, newest first. |
| CourseUpdates.RenderedText | cms/djangoapps/contentstore/course_info_model.py:163-172 | One more visible update puts its article, date before content, in front of the others; a deleted one changes nothing. |
| CourseUpdates.RenderedInOrder | cms/djangoapps/contentstore/course_info_model.py:163-172 | Exactly the undeleted updates are rendered, by descending id. |
| CourseUpdates.ReadsWhatIsRendered | cms/djangoapps/contentstore/course_info_model.py:102-115 | The list a client reads is what is rendered, in the same order. |
| CourseUpdates.CourseUpdateList.GetCourseUpdates | cms/djangoapps/contentstore/course_info_model.py:32-43 | Returns the one update an id selects, or that it was deleted, or else all visible updates, newest first. |
| CourseUpdates.CourseUpdateList.UpdateCourseUpdates | cms/djangoapps/contentstore/course_info_model.py:46-88 | Adds or edits one update and saves, and returns it; a bad id changes nothing. |
| CourseUpdates.CourseUpdateList.DeleteCourseUpdate | cms/djangoapps/contentstore/course_info_model.py:119-147 | Marks one update deleted and saves, and returns what is visible; a bad id changes nothing. |
| CourseUpdates.RunsOnlyGrow | cms/djangoapps/contentstore/course_info_model.py:46-186 | In every run the i-th item has id i + 1 and keeps it, the list never shrinks, nothing deleted comes back, and the stored text renders the items. |
| CourseUpdates.ItemsHoldLastWritten | cms/djangoapps/contentstore/course_info_model.py:46-147 | After any run from an empty list an item holds the date and content of the last edit that selected it, or else of its add, and is deleted if and only if some delete selected it. |
| CourseUpdates.DeletedStaysHidden | cms/djangoapps/contentstore/course_info_model.py:119-147 | From an empty list, a deleted item stays deleted and is never rendered again. |
| CourseUpdates.VisibleIsRead | cms/djangoapps/contentstore/course_info_model.py:32-43 | Reading an item that is not deleted by its id gives its own id, date and content. |
| CourseUpdates.DeletedIsMissing | cms/djangoapps/contentstore/course_info_model.py:102-112 | Reading a deleted item by its id finds nothing. |
| CourseUpdates.IdSelectsItem | cms/djangoapps/contentstore/course_info_model.py:63-70 | A prefix followed by an item's id edits or deletes that item and no other. |

## Left out

- The library indexer, which walks the same way with other keys and no groups map; the course-about index and HTML stripping.
- Exceptions outside the per-item handler of the indexer other than from unreadable group usage (a failing index dictionary or store), which abort the run with the general error.
- Cleaned locations: `version_agnostic` and the branch are represented by a location's key and version.
- Content groups are identified by text; the platform has numbers for content groups and text for split-test groups.
- The labels and validation messages of usage entries, and the assignment of group configuration ids.
- The order of dictionary iteration is arbitrary in `GroupUsage.Entries`, the searches and the registry; results are stated so that it does not matter, except that language settings are given in the order in which they are read.
- Regular-expression backtracking: where several elements start a text, `Match` takes the longest language and number, because a shorter one is followed by a character that no later part of the pattern starts with; both choices for the point after a one are tried in order.
- The list of language options is a parameter; its reading from the configuration row with its enabled switch, and the preview language of the session, are not modelled.
- Configuration: `key_values` on a subset of keys is not cleared on save, and its cache key ignores `flat`; both are excluded by asking for all keys in one form. Saves of an existing row are not modelled, since rows are read-only once saved.
- Names that a model accepts besides its columns' when an instance is rebuilt (related objects and properties of the class).
- Concurrency of the instance cache and of the creator table: each request is one atomic step.
- The asset server's lookup, access checks, not-modified replies and caching around the range branch.
- Exam registration takes the list of time-limited sequences from the store as given, without repeated locations.
- Rerun tasks whose course keys cannot be parsed, which raise before or while the failure is recorded.
- `update_should_display`, which updates every row, and deletion of rerun rows.
- The old HTML format of course updates, and push notifications; an absent id in a deletion is the empty id.
- External services (search engine, module store, exam registry, user roles) are represented by small classes with the contracts their callers rely on.
