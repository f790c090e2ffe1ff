# Group registry and album loader, modelled in Dafny

This project models two stores of a VK mini-app that shows the photos of a
user's saved groups.

**The group registry** (`src/store/groups/groups.ts`) keeps four pieces of state:

- an ordered list of memberships, each `{id, folder}`;
- the map of resolved groups;
- a counters cache stamped with the time of each write;
- the configuration.

It offers these actions and getters:

- edit the memberships: upsert, remove, clear;
- rebuild the list from storage;
- import a snapshot and export a folder-to-ids dictionary;
- the derived getters `folders`, `localGroups`, `groups`, `groupsReverse` and `groupIdsDictByFolderName`;
- resolve the groups not loaded yet;
- expire cache entries;
- load group counters;
- guard the configuration it reads from storage.

**The album loader** (`src/pages/AAlbums/useAlbums.ts`) grows a list of albums page by page. The owner's static albums come first. The target grows by 200 each time the scroller comes near the end.

Modules:

- `Wrappers`, `GroupTypes` and `Seqs`: option type, entities, sequence helpers.
- `Memberships`: the list operations as functions on `seq<LocalGroup>`, with their laws.
- `FolderDict`: the folder-to-ids dictionary, import as a series of upserts, and storage load and save. JavaScript objects are association lists in key insertion order.
- `GroupCache`: expiry, the counter loaders and the config guard, as functions of the cache.
- `GroupMap`: `groupsMap` as a JavaScript `Map`, meaning keys in insertion order plus a value map, and the views derived from it.
- `GroupRegistry`: the class `GroupsStore`. It has the store's fields and one method per action. Each method's `ensures` ties the new state to the functions above. The class `GroupsGetters` holds the cached arrays of the `groups` and `groupsReverse` getters, so that the in-place reversal of the shared array can be stated.
- `Albums`: the load step as a function `LoadStep` with its lemmas, and the class `AlbumsLoader` whose methods change the refs step by step.

The clock, storage reads, the remote requests and `isGroupBanned` are parameters:

- `now` is in milliseconds.
- `StoredGroups`, `ConfigRead`, `CounterFetch` and the fetched groups describe what a read or request yields, including the cases where it throws.
- `Page` is what the album request answers.

## Model

| member | source | states |
|---|---|---|
| Memberships.Remove | src/store/groups/groups.ts:180-184 | removeLocalGroup's filter (one id, or a set): never longer than the list; its meaning is stated by the lemmas below |
| Memberships.RemoveMembers | src/store/groups/groups.ts:180-184 | after removeLocalGroup exactly the entries whose id is not selected (one id, or a set) remain |
| Memberships.RemoveNoop | src/store/groups/groups.ts:180-184 | when no entry is selected the removal leaves the list as it was |
| Memberships.RemoveDistributes | src/store/groups/groups.ts:180-184 | the filter works entry by entry: removing from a concatenation removes from each part, so the kept entries keep their order |
| Memberships.RemoveKeepsUniqueIds | src/store/groups/groups.ts:180-184 | removal keeps the ids unique |
| Memberships.Upsert | src/store/groups/groups.ts:170-179 | addLocalGroup ends with the new membership, preceded by the old list without that id, in its order |
| Memberships.UpsertIdOnce | src/store/groups/groups.ts:170-179 | after addLocalGroup no earlier entry has the added id, so it occurs exactly once and last |
| Memberships.UpsertKeepsUniqueIds | src/store/groups/groups.ts:170-179 | addLocalGroup keeps the ids unique |
| Memberships.KeyById | src/store/groups/groups.ts:303-305 | localGroups has a key for exactly the ids in the list, each mapped to a membership with that id |
| Memberships.KeyByIdLastWins | src/store/groups/groups.ts:303-305 | keyBy keeps, for an id, the entry no later entry shares the id with |
| Memberships.UniqueLookup | src/store/groups/groups.ts:303-305 | with unique ids, localGroups maps each id to its one membership |
| Memberships.KeyByIdConcat | src/store/groups/groups.ts:303-305 | keyBy over a concatenation is the union in which the later part wins |
| Memberships.RemoveKeyByIdAt | src/store/groups/groups.ts:180-184 | on any list, repeated ids included, every key remaining after a removal was present before, is not selected and keeps its membership |
| Memberships.RemoveKeyByIdKept | src/store/groups/groups.ts:180-184 | every key that was present and is not selected survives the removal |
| Memberships.RemoveKeyById | src/store/groups/groups.ts:180-184 | on any list, repeated ids included, localGroups after a removal is the old one restricted to the ids not selected |
| Memberships.UpsertKeyById | src/store/groups/groups.ts:170-179 | on any list, repeated ids included, localGroups after addLocalGroup is the old one with that id overwritten |
| Memberships.ApplyEdit | src/store/groups/groups.ts:170-187 | one edit of the list: addLocalGroup is Upsert, removeLocalGroup is Remove, removeLocalGroups empties the list (definition; related to EditDict by EditRefinesDict) |
| Memberships.ApplyEdits | src/store/groups/groups.ts:170-187 | a sequence of list edits, applied in turn (definition; see EditsRefineDict and ApplyEditsConcat) |
| Memberships.EditDict | src/store/groups/groups.ts:170-187 | the reference meaning of an edit on the id-to-membership dictionary: add overwrites, delete drops the selected ids, clear empties (definition; the list edits are proved to refine it) |
| Memberships.EditRefinesDict | src/store/groups/groups.ts:170-187 | on any list each edit (add, remove, clear) acts on localGroups as the corresponding dictionary edit; from unique ids it keeps them unique |
| Memberships.EditsRefineDict | src/store/groups/groups.ts:170-187 | on any list any sequence of the three edits acts on localGroups as the same sequence of dictionary edits; from unique ids it keeps them unique |
| Memberships.EditsDictUntouched | src/store/groups/groups.ts:170-187 | an id no later edit touches keeps its membership |
| Memberships.ApplyEditsConcat | src/store/groups/groups.ts:170-187 | running two edit sequences one after the other is running their concatenation |
| Memberships.LastAddWins | src/store/groups/groups.ts:170-187 | from any list, including one rebuilt from storage with a repeated id, after any edits an id whose last touching edit was an add holds the membership of that add |
| Memberships.LocalGroupById | src/store/groups/groups.ts:137-139 | getLocalGroupById finds a membership exactly when the id is in the list, with that id, and the only one when ids are unique |
| Memberships.Folders | src/store/groups/groups.ts:292-294 | folders is duplicate-free and holds exactly the folders of the list |
| Memberships.FirstIndex | src/store/groups/groups.ts:292-294 | the first position of a folder in the list |
| Memberships.FoldersInFirstAppearanceOrder | src/store/groups/groups.ts:292-294 | folders lists the folders in the order of their first appearance in the list |
| FolderDict.Keys | src/store/groups/groups.ts:306-312 | Object.keys of the dictionary, one per entry, in order |
| FolderDict.Get | src/store/groups/groups.ts:306-312 | a lookup succeeds exactly for a present key |
| FolderDict.GroupIdsDictByFolderName | src/store/groups/groups.ts:306-312 | the getter's reduce over the list, one PushId per membership (definition; its meaning is stated by DictKeysAreFolders, DictGet, DictTotal and DictNoEmptyFolder) |
| FolderDict.IdsInFolder | src/store/groups/groups.ts:306-312 | an independent reference for one key: the ids of a folder's memberships, filtered in list order (definition; DictGet proves the getter agrees with it) |
| FolderDict.PushId | src/store/groups/groups.ts:307-310 | one reduce step keeps the keys, or appends the new folder as the last key |
| FolderDict.PushIdGet | src/store/groups/groups.ts:307-310 | one reduce step appends the id to its folder's list (created empty when missing) and leaves every other key alone |
| FolderDict.PushIdTotal | src/store/groups/groups.ts:307-310 | one reduce step stores exactly one more id |
| FolderDict.DictKeysAreFolders | src/store/groups/groups.ts:306-312 | the dictionary's keys are exactly folders: every folder present, once, in first-appearance order |
| FolderDict.DictGet | src/store/groups/groups.ts:306-312 | each folder maps to the ids of its memberships in list order, computed by an independent filter; other folders are absent |
| FolderDict.DictTotal | src/store/groups/groups.ts:306-312 | the list lengths sum to the number of memberships |
| FolderDict.DictNoEmptyFolder | src/store/groups/groups.ts:306-312 | no key holds an empty list |
| FolderDict.PushIdNoEmptyFolder | src/store/groups/groups.ts:307-310 | a reduce step never leaves an empty list under a key |
| FolderDict.Pairs | src/store/groups/groups.ts:151-157 | the pairs one key yields: one per id, and exactly the key's ids, each under that key |
| FolderDict.Flatten | src/store/groups/groups.ts:150-157 | the (id, folder) pairs saveImport visits: keys in order, ids in order within a key (definition; see FlattenMembers and FlattenSnoc) |
| FolderDict.FlattenMembers | src/store/groups/groups.ts:150-157 | on a dictionary with distinct keys, a pair is visited exactly when its folder is a key holding its id |
| FolderDict.FlattenSnoc | src/store/groups/groups.ts:151-157 | the pairs of a dictionary with one more key are its pairs followed by that key's pairs |
| FolderDict.PushIdNewKey | src/store/groups/groups.ts:307-310 | an id of a folder not seen yet opens a new last key holding just that id |
| FolderDict.PushIdLastKey | src/store/groups/groups.ts:307-310 | an id of the folder that is the last key is appended to that key's list |
| FolderDict.DictSnoc | src/store/groups/groups.ts:306-312 | the dictionary of a list with one more membership is one reduce step on the old dictionary |
| FolderDict.DictOfPairs | src/store/groups/groups.ts:306-312 | the memberships of a new folder, appended, add that folder as the last key with their ids |
| FolderDict.DictOfFlatten | src/store/groups/groups.ts:306-312 | a dictionary with distinct keys and no empty list is the export of its own pairs |
| FolderDict.UniqueIdsConcat | src/store/groups/groups.ts:170-179 | a concatenation has unique ids exactly when both parts do and they share no id |
| FolderDict.UpsertAll | src/store/groups/groups.ts:150-159 | one addLocalGroup per pair, in order (definition; see UpsertAllConcat, UpsertAllKeepsOthers, UpsertAllKeyById) |
| FolderDict.Import | src/store/groups/groups.ts:150-159 | saveImport: UpsertAll over the snapshot's pairs in key then id order (definition; see ImportThenExport and ExportImportExport) |
| FolderDict.UpsertAllConcat | src/store/groups/groups.ts:150-159 | importing two runs of pairs one after the other is importing their concatenation |
| FolderDict.RemoveTwice | src/store/groups/groups.ts:172-175 | removing one id and then a set of ids is removing their union |
| FolderDict.UpsertAllKeepsOthers | src/store/groups/groups.ts:150-159 | saveImport keeps the memberships whose id the snapshot does not mention, in their order, in front of what the upserts add |
| FolderDict.UpsertAllKeyById | src/store/groups/groups.ts:150-159 | on any list, each imported id ends with the folder of its last occurrence and the other ids are as before; from unique ids saveImport keeps them unique |
| FolderDict.UpsertAllFresh | src/store/groups/groups.ts:150-159 | importing pairs whose ids are new and distinct only appends them |
| FolderDict.ImportThenExport | src/store/groups/groups.ts:140-159 | importing into an empty registry a snapshot with distinct keys, no empty list and no id repeated, then exporting, returns the snapshot |
| FolderDict.ImportExportExample | src/store/groups/groups.ts:140-159 | the export of the import of { work: [1, 2], fun: [3] } into an empty registry is that dictionary |
| FolderDict.FlattenPushId | src/store/groups/groups.ts:307-310 | a reduce step with an id not present keeps the pairs' ids unique and adds exactly that id |
| FolderDict.HasIdConcat | src/store/groups/groups.ts:172 | an id occurs in a concatenation exactly when it occurs in one part |
| FolderDict.FlattenDictUnique | src/store/groups/groups.ts:306-312 | with unique ids, the pairs of the export have unique ids and exactly the ids of the list |
| FolderDict.ExportImportExport | src/store/groups/groups.ts:140-159 | with unique ids, importing an export into an empty registry and exporting again gives the same export |
| FolderDict.LoadedGroups | src/store/groups/groups.ts:103-116 | the memberships the nested forEach pushes: the pairs of every array-valued key, nothing for the others (definition; see LoadedIsFlatten) |
| FolderDict.ArrayFolders | src/store/groups/groups.ts:103-108 | the keys whose value passes Array.isArray, with their ids (definition; see LoadedIsFlatten and AsStored) |
| FolderDict.LoadedIsFlatten | src/store/groups/groups.ts:103-116 | updateCurrentLocalGroups pushes the pairs of the keys whose value is an array, keys in order, and nothing for the others |
| FolderDict.AsStored | src/store/groups/groups.ts:264-270 | what saveCurrentLocalGroups stores holds an array under every key, so reading it back gives every key again, with its ids in order |
| FolderDict.SaveThenLoad | src/store/groups/groups.ts:99-117 | saving then loading keeps every folder's ids in order: the rebuilt list has the same export |
| FolderDict.SaveThenLoadRegroups | src/store/groups/groups.ts:99-117 | saving then loading [1 in A, 2 in B, 3 in A] gives [1 in A, 3 in A, 2 in B]: memberships are regrouped by folder |
| GroupCache.DaysElapsed | src/store/groups/groups.ts:207-209 | the whole days between the write and now, rounded down |
| GroupCache.Expired | src/store/groups/groups.ts:207-210 | the staleness test: more than three whole days elapsed (definition; its meaning is stated by ExpiredIff) |
| GroupCache.ExpiredIff | src/store/groups/groups.ts:207-210 | an entry is stale exactly when at least four full days have passed since it was written |
| GroupCache.ExpiryBoundary | src/store/groups/groups.ts:207-210 | an entry is kept three days and one second, and until one millisecond before four days, after the write; it is dropped at four days; an entry dated in the future is never dropped |
| GroupCache.AfterExpiryCheck | src/store/groups/groups.ts:201-213 | clearCachedGroupIfExpired drops the entry of the id exactly when it is stale and leaves every other entry untouched |
| GroupCache.CachedGroup | src/store/groups/groups.ts:214-217 | getCachedGroup returns data exactly when the entry exists and is less than four days old, and then returns its data |
| GroupCache.GetCounters | src/store/groups/groups.ts:218-238 | getGroupCounters answers from the cache without a request exactly when the surviving entry has counters. Otherwise it requests, turns a failure into {}, throws on an empty answer, and caches {date: now, data: {counters}} |
| GroupCache.GetCountersOthers | src/store/groups/groups.ts:218-238 | getGroupCounters leaves the entries of every other group as they were |
| GroupCache.SecondCallHitsCache | src/store/groups/groups.ts:218-238 | after a request that returned counters (or failed, caching {}), any call within four days answers from the cache with the same counters and no request |
| GroupCache.StaleEntryRefetches | src/store/groups/groups.ts:218-238 | an entry four days old is refetched even when it holds counters, and the new entry is stamped now |
| GroupCache.LoadCounters | src/store/groups/groups.ts:188-200 | loadGroupCounters returns a group that has counters or is banned unchanged, with no request and no cache change; otherwise its counters are what getGroupCounters returns, and its errors propagate |
| GroupCache.LoadCountersKeepsIdentity | src/store/groups/groups.ts:188-200 | the group loadGroupCounters returns has the id and name of the group it was given |
| GroupCache.AcceptConfig | src/store/groups/groups.ts:244-260 | updateConfig installs the stored config exactly when it was read and has both autoSave and showCounters defined |
| GroupCache.SavedConfigAccepted | src/store/groups/groups.ts:239-260 | a config written by saveCurrentConfig is accepted back unchanged |
| GroupMap.MapSet | src/store/groups/groups.ts:132-136 | setGroup stores the group under its id, keeps every other entry and its place, puts a new key last and keeps the map well formed |
| GroupMap.SetAll | src/store/groups/groups.ts:128-130 | setting the fetched groups in turn keeps the map well formed |
| GroupMap.SetAllKeeps | src/store/groups/groups.ts:128-130 | a group no fetched group shares its id with keeps its entry |
| GroupMap.SetAllLastWins | src/store/groups/groups.ts:128-130 | each fetched id ends up holding its last fetched group |
| GroupMap.SetAllKeepsOrder | src/store/groups/groups.ts:128-130 | keys already in the map keep their places; new keys go after them |
| GroupMap.FilterGroups | src/store/groups/groups.ts:295-299 | the values of the map in key order, kept when localGroups has their id: never more than there are keys (see the lemmas below) |
| GroupMap.GroupsView | src/store/groups/groups.ts:295-299 | the groups getter on a map: never more groups than keys (see GroupsViewMembers, FilterGroupsOrdered, FilterGroupsKeyOrder) |
| GroupMap.FilterGroupsMembers | src/store/groups/groups.ts:295-299 | the filtered values are exactly the stored groups whose key has a membership |
| GroupMap.GroupsViewMembers | src/store/groups/groups.ts:295-299 | for a well-formed map, groups holds exactly the loaded groups that have a membership |
| GroupMap.FilterGroupsOrdered | src/store/groups/groups.ts:295-299 | groups repeats no group, and each comes from a key of the map |
| GroupMap.FilterGroupsKeyOrder | src/store/groups/groups.ts:295-299 | groups follows the key order of groupsMap: the i-th group is the value of the key at position p(i), with p strictly increasing, and exactly the kept keys are visited |
| GroupMap.GroupsReverse | src/store/groups/groups.ts:300-302 | groupsReverse as intended: the groups view back to front, element by element, leaving the groups view itself as it is |
| GroupMap.GroupsReverseDiffers | src/store/groups/groups.ts:300-302 | with two or more groups, the reversed view differs from the view |
| GroupMap.MissingIds | src/store/groups/groups.ts:119-121 | the ids loadNotLoadGroups requests are exactly the membership ids with no resolved group |
| GroupMap.SetAllResolves | src/store/groups/groups.ts:118-131 | after the fetched groups are set no id becomes missing, and every fetched id is resolved |
| GroupMap.SetAllKeepsKey | src/store/groups/groups.ts:128-130 | a resolved group's key stays present |
| Seqs.Reverse | src/store/groups/groups.ts:301 | Array.prototype.reverse as a value keeps the length |
| Seqs.ReverseAt | src/store/groups/groups.ts:301 | the k-th element of the reversal is the k-th from the end |
| Seqs.ReverseInvolutive | src/store/groups/groups.ts:301 | reversing twice gives the sequence back |
| GroupRegistry.GroupsStore.constructor | src/store/groups/groups.ts:56-71 | the store starts with no memberships, no groups, config { autoSave: true, showCounters: true }, an empty cache, not initialised |
| GroupRegistry.GroupsStore.AddLocalGroup | src/store/groups/groups.ts:170-179 | the list becomes Upsert of the old list, nothing else changes, unique ids stay unique |
| GroupRegistry.GroupsStore.RemoveLocalGroup | src/store/groups/groups.ts:180-184 | the list becomes Remove of the old list, nothing else changes, unique ids stay unique |
| GroupRegistry.GroupsStore.RemoveLocalGroups | src/store/groups/groups.ts:185-187 | the list becomes empty, nothing else changes |
| GroupRegistry.GroupsStore.PushFolder | src/store/groups/groups.ts:110-115 | the inner loop appends the key's pairs in id order |
| GroupRegistry.GroupsStore.UpdateCurrentLocalGroups | src/store/groups/groups.ts:99-117 | the list is emptied and then holds the pairs of the keys whose value is an array; an absent value gives the empty list; a throwing read leaves it empty and reports failure |
| GroupRegistry.GroupsStore.ImportFolder | src/store/groups/groups.ts:152-157 | the inner loop upserts the key's pairs in id order |
| GroupRegistry.GroupsStore.SaveImport | src/store/groups/groups.ts:150-159 | the list becomes Import of the old list, one upsert per pair in key then id order; nothing else changes |
| GroupRegistry.GroupsStore.GetExport | src/store/groups/groups.ts:140-142 | the export's keys are folders; each folder holds the ids of its memberships in list order; no membership is lost; no key is empty |
| GroupRegistry.GroupsStore.SaveCurrentLocalGroups | src/store/groups/groups.ts:261-274 | the loop builds the very dictionary the groupIdsDictByFolderName getter gives |
| GroupRegistry.GroupsStore.AutoSaveCurrentLocalGroups | src/store/groups/groups.ts:275-281 | the list is saved exactly when autoSave is on |
| GroupRegistry.GroupsStore.SetGroup | src/store/groups/groups.ts:132-136 | groupsMap becomes MapSet of the old map, the group is returned, nothing else changes |
| GroupRegistry.GroupsStore.LoadNotLoadGroups | src/store/groups/groups.ts:118-131 | a request is sent exactly when an api is available and some membership id is unresolved, and asks for exactly those ids; the fetched groups are set in turn; nothing else changes |
| GroupRegistry.GroupsStore.Groups | src/store/groups/groups.ts:295-299 | the groups getter holds exactly the loaded groups with a membership, none twice, in the key order of groupsMap |
| GroupRegistry.ReverseInPlace | src/store/groups/groups.ts:301 | Array.prototype.reverse: the array's new contents are its old contents back to front |
| GroupRegistry.GroupsGetters.constructor | src/store/groups/groups.ts:295-302 | both getters start with no cached value |
| GroupRegistry.GroupsGetters.DependenciesChanged | src/store/groups/groups.ts:295-302 | a change of groupsMap or localGroups drops both cached values |
| GroupRegistry.GroupsGetters.ReadGroups | src/store/groups/groups.ts:295-299 | reading groups returns the cached array, the same object, when there is one, otherwise a fresh array holding the view; after groupsReverse was read it holds the view back to front |
| GroupRegistry.GroupsGetters.ReadGroupsReverse | src/store/groups/groups.ts:300-302 | reading groupsReverse as written reverses the groups getter's cached array in place and caches that same array for both getters |
| GroupRegistry.GroupsAroundGroupsReverse | src/store/groups/groups.ts:295-302 | reading groups, then groupsReverse, then groups: the second groups read is the reversed view, which differs from the first when there are two or more groups |
| GroupRegistry.GroupsStore.ClearCachedGroupIfExpired | src/store/groups/groups.ts:201-213 | the cache becomes AfterExpiryCheck of the old cache, nothing else changes |
| GroupRegistry.GroupsStore.GetCachedGroup | src/store/groups/groups.ts:214-217 | the stale entry is cleared and the data of the surviving entry is returned |
| GroupRegistry.GroupsStore.GetGroupCounters | src/store/groups/groups.ts:218-238 | the request flag, the outcome and the new cache are those of GetCounters; nothing else changes |
| GroupRegistry.GroupsStore.LoadGroupCounters | src/store/groups/groups.ts:188-200 | the request flag, the outcome and the new cache are those of LoadCounters; nothing else changes |
| GroupRegistry.GroupsStore.UpdateConfig | src/store/groups/groups.ts:244-260 | the config becomes the accepted stored config, or stays; nothing else changes |
| GroupRegistry.GroupsStore.Init | src/store/groups/groups.ts:73-82 | init reads the config, rebuilds the list and, unless the rebuild threw, resolves the missing groups; the store ends initialised and the cache is untouched |
| Albums.Skips | src/pages/AAlbums/useAlbums.ts:56-58 | the watcher's early return: a load is running or no target is set (definition; see SkippedStepChangesNothing) |
| Albums.StaticPrefix | src/pages/AAlbums/useAlbums.ts:61-63 | the loader's invariant: a non-empty list starts with the static albums (definition; kept by StepKeepsStaticPrefix and AlbumsLoader.Valid) |
| Albums.Seeded | src/pages/AAlbums/useAlbums.ts:61-63 | the albums already there lead the seeded list; an empty list grows to the length of the static albums, a non-empty one keeps its length; a list that starts with the static albums still does |
| Albums.LoadStep | src/pages/AAlbums/useAlbums.ts:53-82 | the watcher as one transition on the refs, given the page (definition; its meaning is stated by the lemmas below, and LoadAlbums is proved against it) |
| Albums.RequestFor | src/pages/AAlbums/useAlbums.ts:65-68 | the request skips the remote albums already loaded (offset = length − static length) and asks for the rest of the target (offset + count = target) |
| Albums.SkippedStepChangesNothing | src/pages/AAlbums/useAlbums.ts:56-58 | while a load runs or before any target is set, a load step changes nothing |
| Albums.PerformedStepFlags | src/pages/AAlbums/useAlbums.ts:77-78 | after a performed step the loading flag is down, the loader is initialised and the target is as it was |
| Albums.SuccessAppends | src/pages/AAlbums/useAlbums.ts:68-69 | on success the page is appended after the albums already there, which stay as they were |
| Albums.FailureRollsBack | src/pages/AAlbums/useAlbums.ts:70-75 | on failure the error is recorded; with only the static albums loaded the list empties, otherwise it is kept |
| Albums.StepKeepsStaticPrefix | src/pages/AAlbums/useAlbums.ts:55-82 | every step keeps the static albums in front of the remote ones |
| Albums.FailedFirstLoadRetriesFromStart | src/pages/AAlbums/useAlbums.ts:55-82 | a failed first load leaves the list empty, so the next request starts at offset 0 for the whole target |
| Albums.TwoPagesAccumulate | src/pages/AAlbums/useAlbums.ts:55-82 | two successful steps give static albums, first page, second page; the second request skips the first page |
| Albums.FarFromEnd | src/pages/AAlbums/useAlbums.ts:90 | the scroller guard endIndex + 200/3 < target holds exactly when 3 × endIndex + 200 < 3 × target |
| Albums.AlbumsLoader.constructor | src/pages/AAlbums/useAlbums.ts:11-27 | the refs start empty: no albums, target 0, flags down, no group, no error |
| Albums.AlbumsLoader.OnClearComponent | src/pages/AAlbums/useAlbums.ts:29-36 | every ref is reset; owner and static albums stay |
| Albums.AlbumsLoader.OnOwnerChanged | src/pages/AAlbums/useAlbums.ts:38-51 | the owner watcher resets, looks the group up only for a negative owner, and sets the target to 200 so that the next load step runs |
| Albums.AlbumsLoader.LoadAlbums | src/pages/AAlbums/useAlbums.ts:53-82 | the refs after the step are LoadStep of the refs before; the request sent is RequestFor, or none when the step skips; the static prefix invariant holds |
| Albums.AlbumsLoader.OnScrollerUpdate | src/pages/AAlbums/useAlbums.ts:84-95 | the target grows by exactly 200 when 3 × endIndex + 200 ≥ 3 × target and stays otherwise; nothing else changes; the target stays a multiple of 200 |

## Left out

- I/O and the VK bridge are not modelled: storage reads and writes, `addRequestToQueue`, `getGroupsByLinksOrIds`, `getAlbums` and `getGroupByIdOrLoad`. What they yield are parameters, including their failures. `JSON.stringify` and `JSON.parse` are replaced by the stored structure itself.
- `downloadExport` is not modelled, because it builds a Blob and hands it to file-saver.
- `setEruda`, the loading finishers and `console` output are not modelled; none of them touches the modelled state.
- The pinia `persist` of `cachedGroupsData` and `filters` to localStorage is not modelled.
- `filters` and `spaceUsed` are not modelled; no modelled action reads them.
- Vue reactivity is not modelled, except the cached arrays of `groups` and `groupsReverse`: `watch`, other `computed` caches, deep watchers, `immediate`, and the config watchers started by `init`. The album load watcher is a method the caller invokes after `albumsMaxItems` changes. Vue skips a watcher when the value returns to where it was within one tick, for example 200 → 0 → 200 on an owner change; the model does not capture that.
- Async interleaving is not modelled. Each load step is atomic. So the model cannot show an owner change that arrives while a page request is in flight, nor the stale page that request would then append.
- `GroupHelper.getState` in `setGroup` is not modelled; it is outside the registry.
- `isGroupBanned` is not modelled; it is a Boolean parameter.
- `getGroupById` and `getGroupByIdOrLoad` are not modelled; their results are inputs of the loader.
- Group objects are values. `loadGroupCounters` returns the updated group rather than mutating an object that `groupsMap` may share, so aliasing is not captured.
- Object key order is modelled as insertion order. JavaScript enumerates integer-like keys (a folder named "12") first, in numeric order; the model does not.
- LoadNotLoadGroups: the request is a set of ids. The order `Object.keys` gives them in is not modelled.
- Dates are integer milliseconds. Invalid dates (NaN) and the ISO-string round trip are not modelled.
- One `now` serves as both the expiry check and the new stamp in `getGroupCounters`.
- Storage values are limited in two ways. A stored folder value is either an array of ids or not an array. A parsed `groups` value of `null` (or `undefined`) makes `Object.keys` throw, which is the throwing case; a number or boolean has no keys and a string only index keys whose values are not arrays, so each of them pushes nothing, as an empty dictionary does, and is not a separate case of the model. An imported snapshot whose key holds something other than an array, which throws after part of the import, is not modelled.
- FolderDict.GroupIdsDictByFolderName: a folder named after a member of `Object.prototype` (`constructor`, `toString`, `__proto__`, …) is not modelled. On a plain object `dict[f] ??= []` finds the inherited member and does nothing, and `.push` then throws, so the getter, `getExport` and `saveCurrentLocalGroups` throw for such a list; the model treats every folder name as a fresh key.
- GroupRegistry.GroupsGetters: the getter cache is modelled for `groups` and `groupsReverse` only. A change of a dependency is an explicit call (`DependenciesChanged`) rather than Vue's dependency tracking; the store class reads the view as a function.
- AcceptConfig: a stored field that is `null` passes the `!== undefined` guard in the source. The model has only "defined" and "undefined" values (`Option<bool>`), so `null` is not represented.
- Albums.AlbumsLoader.OnOwnerChanged: the group lookup is awaited before the target is set. The model runs both in one step.

## Findings

| source | as written | input that shows it | evidently intended | confidence | as-written member | corrected member |
|---|---|---|---|---|---|---|
| src/store/groups/groups.ts:300-302 | `this.groups.reverse()` reverses, in place, the array the cached `groups` getter returns | two loaded groups with memberships: after `groupsReverse` is read, `groups` lists them back to front | a reversed copy, leaving `groups` in map order (`[...this.groups].reverse()`) | medium, not executed; depends on the getter returning its cached array | GroupRegistry.GroupsAroundGroupsReverse | GroupMap.GroupsReverse |

## Notes on the behaviour the model follows

- An entry is stale after `floor(elapsed / day) > 3`, that is from four full days after the write (`GroupCache.ExpiredIff`). An entry three days and one second old is still served (`GroupCache.ExpiryBoundary`).
- A failed counters request caches `{}`, and `{}` is truthy. So the group is not asked again for four days (`GroupCache.SecondCallHitsCache`).
- Saving and loading the memberships keeps each folder's ids and their order. It does not keep the interleaving of different folders: the rebuilt list is grouped by folder (`FolderDict.SaveThenLoad`, `FolderDict.SaveThenLoadRegroups`).
- The list's ids are unique under the three edits and under import. A list rebuilt from storage repeats an id when storage lists it twice, under two folders or twice in one folder's array (`{"A": [1, 1]}`): every element is pushed.
