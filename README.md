# Advanced App Launcher state synchroniser, in Dafny

This project models the state synchroniser of the Advanced App Launcher,
`src-built-in/components/advancedAppLauncher/src/stores/StoreActions.js`. The
synchroniser keeps a cached `data` object. Its fields are:

- the folders (each a record with a list of app entries) and the folder order;
- the user's app definitions and the components materialised from the
  configuration catalog;
- the deleted markers, the active tags and the active folder.

Its synchronous mutators change this cache in place and write the changed
fields back to the distributed store.

The cache is the class `StoreActions.LauncherData`, with one field per
property of `data`. Each store write is taken to succeed and is appended to
the field `writes`, a log of `Persist.Write` values, so every callback chain
becomes straight-line code. Each mutator ensures that the new cache equals
a step function of the old one. The step functions are in the `Launcher`
module, and the lemmas there state what each step does: the folder it
creates, renames or deletes, the entries it adds or removes, and the writes
it makes. The loops of the source are loops here (validating the folder
shape, refreshing entries from config components, pruning orphans, filling
the config components, purging a deleted app, scanning the catalog in
`addPin`, refreshing tags in `getActiveFolder`). Each loop is proved against
a specification function, and the properties are proved about that function.

JavaScript objects become `Dicts.Dict`: a key sequence in enumeration order
plus a map. Assigning to an existing key keeps its place, a new key goes at
the end, and `delete` drops the key from the order. `indexOf`, `splice`,
`slice`, `split`, `join`, `trim`, `match(/\d+/g)` and the pin-key `replace`
are written out in `JsArrays`, `JsStrings` and `Pins` with the same edge
cases as in JavaScript. In particular, `splice(-1, 1)` removes the last
element, so removing an absent item drops the last entry of the list.

Four behaviours of the code differ from what a reader of its comments
and names would expect, and the model keeps the code's behaviour:

- **Removing an absent item.** One would expect `removeAppFromFolder` of an
  absent app to change nothing. The code removes the folder's last entry,
  and so do `deleteApp`'s folder loop, `deleteTag` and `deleteFolder`'s list
  removal (`RemoveAppFromFolderFacts`, `DeleteAppFacts`, `Tags.DeleteTagFirst`,
  `TagStepFacts`, `DeleteFolderFacts`).
- **Deleted apps coming back.** One would expect a deleted app never to come
  back through `initialize`. The code falls back to every seeded definition
  when filtering leaves no app at all, and that brings the deleted ones back
  (`Reconcile.InitialAppsFacts`, `Reconcile.DeletedOnlyAppComesBack`).
- **Key collisions in `getAllApps`.** One would expect user apps to keep their
  definitions when a config component has the same key. The code uses
  `Object.assign({}, apps, configComponents)`, so config components win
  (`Lookup.AllAppsFacts`).
- **Deleted apps staying in folders.** The comment on `deleted` says deleted
  items are excluded from what is shown, so one would expect no folder to
  hold a deleted appID after `initialize`. The code never filters folder
  entries by `deleted`: only the orphan prune removes entries. A deleted
  app's entry therefore stays when its name is a catalog key, when it comes
  right after a removed orphan, or when the fallback above brings every
  definition back (`Launcher.InitializeKeepsCatalogEntries`,
  `Launcher.DeletedEntrySurvivesInitialize`).

Other behaviours of the code that the model keeps:

- `renameFolder(x, x)` deletes the folder.
- `addApp` in the Advanced App Launcher folder files the app there twice,
  and a later `deleteApp` removes only the first copy, so one stays.
- The orphan prune skips the entry right after a removed one.
- `addPin` takes the last matching catalog key.

Two behaviours of the code follow from `addApp`'s numeric appID (the
timestamp), which the model does not represent (see "## Left out"):

- The orphan prune compares entries' appIDs with the string keys of
  `data.apps`, so an `addApp` entry whose name is not in the catalog counts
  as an orphan and is spliced out of every folder, the Advanced App Launcher
  folder included, unless the skip after a removal spares it.
- An `addApp` entry that stays in a folder other than the Advanced App
  Launcher folder makes `updateAppsInFolders` throw at `appID.trim()` as soon
  as there is a config component, and the callback is never called.

## Model

Source paths are relative to the repository root.

| member | source | states |
|---|---|---|
| JsArrays.IndexOf | src-built-in/components/advancedAppLauncher/src/stores/StoreActions.js:543 | `indexOf` is -1 exactly when the item is absent; otherwise the item is at that index and not before it |
| JsArrays.RemoveAt | src-built-in/components/advancedAppLauncher/src/stores/StoreActions.js:429 | dropping one position shortens the list by one and removes exactly that element from its multiset |
| JsArrays.SpliceAtIndexOfPresent | src-built-in/components/advancedAppLauncher/src/stores/StoreActions.js:543-544 | `splice(indexOf(x), 1)` on a list holding x removes its first occurrence and nothing else |
| JsArrays.SpliceAtIndexOfAbsent | src-built-in/components/advancedAppLauncher/src/stores/StoreActions.js:543-544 | `splice(indexOf(x), 1)` on a list without x removes the last element |
| JsArrays.SliceSplit | src-built-in/components/advancedAppLauncher/src/stores/StoreActions.js:432-434 | `slice(0, k)` followed by `slice(k)` gives the list back, for every k, negative ones included |
| JsArrays.SliceInsertMultiset | src-built-in/components/advancedAppLauncher/src/stores/StoreActions.js:430-435 | inserting one item between the two slices adds exactly that item to the multiset |
| JsStrings.Split | src-built-in/components/advancedAppLauncher/src/stores/StoreActions.js:445 | `split(",")` gives at least one piece and no piece contains a comma |
| JsStrings.JoinSplit | src-built-in/components/advancedAppLauncher/src/stores/StoreActions.js:445 | joining the pieces of a split with commas gives back the text |
| JsStrings.SplitJoin | src-built-in/components/advancedAppLauncher/src/stores/StoreActions.js:445 | splitting the comma-join of comma-free pieces gives back the pieces |
| JsStrings.TrimFacts | src-built-in/components/advancedAppLauncher/src/stores/StoreActions.js:183 | `trim()` gives a substring of the text that neither starts nor ends with whitespace |
| JsStrings.TrimIdempotent | src-built-in/components/advancedAppLauncher/src/stores/StoreActions.js:183 | trimming twice equals trimming once |
| JsStrings.LeadingDigits | src-built-in/components/advancedAppLauncher/src/stores/StoreActions.js:510 | the digit run `\d+` matches at a position is maximal: all digits, and followed by a non-digit or the end |
| JsStrings.DecimalValue | src-built-in/components/advancedAppLauncher/src/stores/StoreActions.js:514 | the decimal numeral the template string prints reads back as the same number |
| JsStrings.DigitRunsOfNumeral | src-built-in/components/advancedAppLauncher/src/stores/StoreActions.js:510 | `match(/\d+/g)` on a numeral finds just that number |
| JsStrings.DigitRunsAfterText | src-built-in/components/advancedAppLauncher/src/stores/StoreActions.js:510 | a digit-free prefix adds no match |
| Dicts.Dict.Values | src-built-in/components/advancedAppLauncher/src/stores/StoreActions.js:163 | `Object.values` lists the value of each key in key order |
| Dicts.Dict.Put | src-built-in/components/advancedAppLauncher/src/stores/StoreActions.js:522 | assigning a property sets its value, keeps an existing key's place and appends a new key |
| Dicts.Dict.Remove | src-built-in/components/advancedAppLauncher/src/stores/StoreActions.js:541 | `delete` drops the key from the values and from the order, keeping the object well formed |
| Dicts.Assign | src-built-in/components/advancedAppLauncher/src/stores/StoreActions.js:411 | `Object.assign` has the keys of both objects; source values win, target keys keep their order in front |
| Dicts.AssignToEmpty | src-built-in/components/advancedAppLauncher/src/stores/StoreActions.js:411 | assigning an object onto `{}` copies it exactly |
| Records.AppRef | src-built-in/components/advancedAppLauncher/src/stores/StoreActions.js:585-589 | the entry addAppToFolder pushes carries the app's appID, name and displayName |
| FolderOrder.FoldersWhere | src-built-in/components/advancedAppLauncher/src/stores/StoreActions.js:425-427 | each filter keeps exactly the names of the list that are (or are not) among the three drag-disabled folders |
| FolderOrder.FoldersWhereSplits | src-built-in/components/advancedAppLauncher/src/stores/StoreActions.js:426-427 | the fixed and the orderable names together are a permutation of the folder list |
| FolderOrder.MovedBlockPermutes | src-built-in/components/advancedAppLauncher/src/stores/StoreActions.js:428-435 | moving one orderable folder permutes the orderable folders and brings in no fixed one |
| FolderOrder.ReorderedKeepsFixed | src-built-in/components/advancedAppLauncher/src/stores/StoreActions.js:430-431 | the new list starts with the fixed folders in their old relative order, and no fixed folder appears after them |
| FolderOrder.ReorderedMovesOne | src-built-in/components/advancedAppLauncher/src/stores/StoreActions.js:428-435 | after the fixed folders come the orderable ones, with the one at destIndex taken out and put back at srcIndex |
| FolderOrder.ReorderedPermutes | src-built-in/components/advancedAppLauncher/src/stores/StoreActions.js:423-438 | the reordered list is a permutation of the old one |
| FolderNames.MaxOf | src-built-in/components/advancedAppLauncher/src/stores/StoreActions.js:511 | the largest number of one name is at least each of its numbers and is one of them, or 0 |
| FolderNames.HighestFolderNumber | src-built-in/components/advancedAppLauncher/src/stores/StoreActions.js:507-513 | the highest number bounds every digit run of every listed name and is one of them, or 0 |
| FolderNames.HighestNumberIn | src-built-in/components/advancedAppLauncher/src/stores/StoreActions.js:507-513 | the `forEach` over the folder list computes that highest number |
| FolderNames.FolderNameFor | src-built-in/components/advancedAppLauncher/src/stores/StoreActions.js:514 | a non-empty given name is used as is; an absent or empty one becomes "New folder N+1" |
| FolderNames.NewFolderNameRuns | src-built-in/components/advancedAppLauncher/src/stores/StoreActions.js:510-514 | the only number in "New folder N" is N |
| FolderNames.NewFolderNameIsFresh | src-built-in/components/advancedAppLauncher/src/stores/StoreActions.js:507-514 | the synthesised name is not already in the folder list |
| FolderNames.NewFolderNameExample | src-built-in/components/advancedAppLauncher/src/stores/StoreActions.js:507-514 | with "New folder 3" and "Favorites" listed, the new folder is "New folder 4" |
| FolderEdits.FindAppIndex | src-built-in/components/advancedAppLauncher/src/stores/StoreActions.js:582 | the first index whose appID matches, or -1 exactly when none does |
| FolderEdits.AddAppToFolderFacts | src-built-in/components/advancedAppLauncher/src/stores/StoreActions.js:581-592 | a present appID changes nothing; otherwise exactly one reference is appended, it is the only one with that appID, and adding again changes nothing |
| FolderEdits.RemoveAppFacts | src-built-in/components/advancedAppLauncher/src/stores/StoreActions.js:594-598 | a present app's first entry is removed and nothing else; with the app absent the last entry is removed |
| FolderEdits.RemoveAppOnce | src-built-in/components/advancedAppLauncher/src/stores/StoreActions.js:594-598 | an app listed once is gone from the folder afterwards |
| FolderEdits.PurgedFoldersFacts | src-built-in/components/advancedAppLauncher/src/stores/StoreActions.js:483-486 | the deleteApp loop changes only each folder's entries: one fewer where the app was, the last one dropped where it was not |
| FolderEdits.RenamedFoldersFacts | src-built-in/components/advancedAppLauncher/src/stores/StoreActions.js:551-553 | the old key is gone, the new key holds the old record and other folders stay; renaming to the same name deletes the folder |
| FolderEdits.RenamedListFacts | src-built-in/components/advancedAppLauncher/src/stores/StoreActions.js:556-559 | the first position of the old name now holds the new name and every other position is unchanged |
| FolderEdits.WithNewAppFacts | src-built-in/components/advancedAppLauncher/src/stores/StoreActions.js:463-465 | the new app is appended to the Advanced App Launcher folder and to the active folder (twice when they are the same); other folders stay |
| Tags.TagsFromText | src-built-in/components/advancedAppLauncher/src/stores/StoreActions.js:445 | "" gives no tags; any other text is split on commas and the tags join back to it |
| Tags.AddTagOnce | src-built-in/components/advancedAppLauncher/src/stores/StoreActions.js:652-658 | addTag appends only an absent tag, so the tag is then present, once if it was new, and adding again changes nothing |
| Tags.DeleteTagFirst | src-built-in/components/advancedAppLauncher/src/stores/StoreActions.js:660-666 | deleteTag removes the first occurrence of a present tag and keeps the rest in order; an absent tag drops the last one |
| Tags.ExtractTagsNormalises | src-built-in/components/advancedAppLauncher/src/stores/StoreActions.js:203-218 | a string tag setting gives the same tags as a one-element array of it, and an empty string gives none |
| Tags.AllTagsMembers | src-built-in/components/advancedAppLauncher/src/stores/StoreActions.js:641-645 | the concatenated tags are exactly the tags of some app |
| Tags.FirstOccurrencesFacts | src-built-in/components/advancedAppLauncher/src/stores/StoreActions.js:647-649 | the `indexOf(tag) === index` filter gives each tag once, every tag of the input, in first-occurrence order |
| Lookup.FindIn | src-built-in/components/advancedAppLauncher/src/stores/StoreActions.js:603 | `find` returns the first app whose field has the value, or nothing exactly when none has |
| Lookup.FindAppByFieldFacts | src-built-in/components/advancedAppLauncher/src/stores/StoreActions.js:602-605 | something is found exactly when an app or config component matches, the result matches, and a matching user app always wins |
| Lookup.AllAppsFacts | src-built-in/components/advancedAppLauncher/src/stores/StoreActions.js:410-413 | getAllApps has the keys of both objects and a config component wins on a shared key |
| Lookup.RefreshedTagsFacts | src-built-in/components/advancedAppLauncher/src/stores/StoreActions.js:609-616 | each entry keeps everything but its tags; an entry no app defines gets no tags; one a user app defines gets that app's tags |
| Normalize.NormalizedFoldersFacts | src-built-in/components/advancedAppLauncher/src/stores/StoreActions.js:153-168 | folder names and order are kept; array entries stay as they are, an object of entries becomes its values in key order |
| Normalize.NormalizeIdempotent | src-built-in/components/advancedAppLauncher/src/stores/StoreActions.js:153-170 | validating folders that were already validated changes nothing |
| Normalize.ValidateFolderDataStructure | src-built-in/components/advancedAppLauncher/src/stores/StoreActions.js:153-170 | the loop produces the normalised folders, and it warns exactly when some folder had the deprecated shape |
| Refresh.LastTrimmedMatch | src-built-in/components/advancedAppLauncher/src/stores/StoreActions.js:181-186 | the index the inner map leaves is a trimmed-appID match with no match after it, or -1 |
| Refresh.FindLastTrimmedMatch | src-built-in/components/advancedAppLauncher/src/stores/StoreActions.js:181-186 | the forward scan that overwrites `index` on every match ends at the last match |
| Refresh.ReplaceLastMatchFacts | src-built-in/components/advancedAppLauncher/src/stores/StoreActions.js:188-190 | the splice replaces the last matching entry by the config component and nothing else |
| Refresh.RefreshedAppsShape | src-built-in/components/advancedAppLauncher/src/stores/StoreActions.js:180-191 | a folder keeps its length; each entry stays or becomes a config component with the same trimmed appID; an unmatched entry stays |
| Refresh.RefreshFolderApps | src-built-in/components/advancedAppLauncher/src/stores/StoreActions.js:180-191 | the loop over config components computes the refreshed entries of one folder |
| Refresh.RefreshedFoldersFacts | src-built-in/components/advancedAppLauncher/src/stores/StoreActions.js:173-195 | every folder property but the entries stays, the Advanced App Launcher folder stays whole, and entries change only as above |
| Refresh.RefreshReplacesLastMatch | src-built-in/components/advancedAppLauncher/src/stores/StoreActions.js:180-191 | the config component at position n is, after the whole refresh, at the place of the folder's last entry sharing its trimmed appID, when no later component shares that appID |
| Refresh.RefreshedFolderReplaces | src-built-in/components/advancedAppLauncher/src/stores/StoreActions.js:173-195 | in every folder but the Advanced App Launcher folder, that last matching entry is replaced by the component |
| ConfigComponents.PruneOrphans | src-built-in/components/advancedAppLauncher/src/stores/StoreActions.js:272-280 | the `map` with `splice(i, 1)` inside computes the index walk over the shrinking list |
| ConfigComponents.PruneKeepsNonOrphans | src-built-in/components/advancedAppLauncher/src/stores/StoreActions.js:271-281 | pruning removes only entries, never an entry that is in the catalog or a user app |
| ConfigComponents.NonOrphansMember | src-built-in/components/advancedAppLauncher/src/stores/StoreActions.js:275-279 | the non-orphan entries are exactly the entries whose name is a catalog key or whose appID is a user app's key |
| ConfigComponents.PruneSkipsSecondOrphan | src-built-in/components/advancedAppLauncher/src/stores/StoreActions.js:272-280 | of two orphans in a row only the first is removed |
| ConfigComponents.PrunedFoldersFacts | src-built-in/components/advancedAppLauncher/src/stores/StoreActions.js:268-281 | each folder keeps its properties and its non-orphan entries, and loses only entries |
| ConfigComponents.ConfigComponentFor | src-built-in/components/advancedAppLauncher/src/stores/StoreActions.js:290-297 | the materialised component is named and keyed by its catalog name, has the config source, the display name or the name, and the extracted tags (a field-by-field description of the record; `MaterialiseExactly` states which names get one) |
| ConfigComponents.VisitNew | src-built-in/components/advancedAppLauncher/src/stores/StoreActions.js:284-298 | one catalog name is materialised exactly when it is launchable by the user and no user app has that name |
| ConfigComponents.MaterialiseFrame | src-built-in/components/advancedAppLauncher/src/stores/StoreActions.js:283-299 | names outside the catalog keep their config components |
| ConfigComponents.MaterialiseExactly | src-built-in/components/advancedAppLauncher/src/stores/StoreActions.js:283-299 | each catalog name has a config component exactly when it is launchable and no user app has that name, and it is the one its entry describes |
| Reconcile.NotDeleted | src-built-in/components/advancedAppLauncher/src/stores/StoreActions.js:80-82 | the folder filter keeps exactly the names not marked deleted |
| Reconcile.AppsNotDeleted | src-built-in/components/advancedAppLauncher/src/stores/StoreActions.js:86-91 | appList holds exactly the definitions whose appID is not deleted, unchanged |
| Reconcile.FilterDeletedApps | src-built-in/components/advancedAppLauncher/src/stores/StoreActions.js:86-91 | the loop over the definition keys builds that appList, in key order |
| Reconcile.InitialFoldersListFacts | src-built-in/components/advancedAppLauncher/src/stores/StoreActions.js:77-99 | the initial folder list has each seeded folder not marked deleted, once |
| Reconcile.InitialAppsFacts | src-built-in/components/advancedAppLauncher/src/stores/StoreActions.js:84-100 | the initial apps are the surviving definitions, unless nothing was deleted or none survives, and then all seeded ones |
| Reconcile.DeletedOnlyAppComesBack | src-built-in/components/advancedAppLauncher/src/stores/StoreActions.js:74-100 | a store whose only app is marked deleted still starts with that app |
| Pins.EscapeDots | src-built-in/components/advancedAppLauncher/src/stores/StoreActions.js:392 | the escaped name has no dot and is no shorter |
| Pins.UnescapeEscape | src-built-in/components/advancedAppLauncher/src/stores/StoreActions.js:392 | a name without `^` can be recovered from its escaped form |
| Pins.EscapeCollides | src-built-in/components/advancedAppLauncher/src/stores/StoreActions.js:392 | "a.b" and "a^DOT^b" get the same key |
| Pins.PinKey | src-built-in/components/advancedAppLauncher/src/stores/StoreActions.js:392 | the field is "pins." followed by a dot-free segment |
| Pins.PinKeyInjective | src-built-in/components/advancedAppLauncher/src/stores/StoreActions.js:392-399 | names without `^` have the same pin key exactly when they are equal |
| Pins.LastMatch | src-built-in/components/advancedAppLauncher/src/stores/StoreActions.js:350-357 | the catalog position the loop keeps matches the name, and nothing after it matches |
| Pins.ResolveComponent | src-built-in/components/advancedAppLauncher/src/stores/StoreActions.js:349-357 | the `for` loop without `break` finds the component of the last matching key |
| Pins.ResolvedFacts | src-built-in/components/advancedAppLauncher/src/stores/StoreActions.js:350-357 | a component is found exactly when some key is the name or the name + " Component", and it is the last such key's |
| Pins.PinForFacts | src-built-in/components/advancedAppLauncher/src/stores/StoreActions.js:359-391 | the pin's type, label, component, icons, section, uuid and params are derived as addPin does, including the fallbacks for missing toolbar settings (a field-by-field description of the record; the pin properties are `Pins.PinKeyInjective`, `Pins.ResolvedFacts` and `Launcher.PinStepFacts`) |
| Pins.WelcomeResolves | src-built-in/components/advancedAppLauncher/src/stores/StoreActions.js:352-354 | the pin "Welcome" resolves to the "Welcome Component" entry |
| Launcher.InitializeFacts | src-built-in/components/advancedAppLauncher/src/stores/StoreActions.js:62-123 | after initialize the deleted list is the stored one, the folder list has the non-deleted folders, the apps are the initial ones, and the config components are exactly the launchable catalog entries no user app is named after |
| Launcher.InitializeKeepsCatalogEntries | src-built-in/components/advancedAppLauncher/src/stores/StoreActions.js:74-123 | an entry whose name is a catalog key is still in its folder after initialize, or replaced by a config component with the same trimmed appID, whatever the deleted list holds |
| Launcher.DeletedEntrySurvivesInitialize | src-built-in/components/advancedAppLauncher/src/stores/StoreActions.js:68-123 | with x deleted, definitions x and y, a folder holding [o, x] and an empty catalog, the folder ends up holding x while x is deleted and only y is defined |
| Launcher.ReorderFacts | src-built-in/components/advancedAppLauncher/src/stores/StoreActions.js:423-438 | reorderFolders keeps the fixed folders in front, permutes the list, changes nothing else and persists the list |
| Launcher.AddNewFolderFacts | src-built-in/components/advancedAppLauncher/src/stores/StoreActions.js:504-529 | the folder gets the given or a fresh synthesised name, has no apps, is appended to the list, and other folders stay |
| Launcher.DeleteFolderFacts | src-built-in/components/advancedAppLauncher/src/stores/StoreActions.js:531-548 | the name is appended to deleted, the folder is gone, others stay, its list entry is removed (the last one when absent), and the active folder falls back to the Advanced App Launcher |
| Launcher.RenameFolderFacts | src-built-in/components/advancedAppLauncher/src/stores/StoreActions.js:550-579 | with distinct names the record moves to the new name, the list position is renamed and the rest kept, and the active folder follows |
| Launcher.RenameFolderRevives | src-built-in/components/advancedAppLauncher/src/stores/StoreActions.js:563-568 | a new name marked deleted loses its first deleted marker; otherwise deleted is unchanged |
| Launcher.RenameToSameNameDeletes | src-built-in/components/advancedAppLauncher/src/stores/StoreActions.js:551-553 | renaming a folder to its own name deletes it |
| Launcher.AddAppToFolderStepFacts | src-built-in/components/advancedAppLauncher/src/stores/StoreActions.js:581-592 | a present appID leaves the state as it is; otherwise one reference is appended and other folders stay; doing it again changes nothing |
| Launcher.RemoveAppFromFolderFacts | src-built-in/components/advancedAppLauncher/src/stores/StoreActions.js:594-598 | the app's first entry is removed, or the last entry when the app is absent; other folders stay |
| Launcher.NewAppRecord | src-built-in/components/advancedAppLauncher/src/stores/StoreActions.js:443-450 | the new definition has the given appID, the form's name, type component, canDelete, and tags that are empty exactly for "" and join back to the form's text |
| Launcher.PinStepFacts | src-built-in/components/advancedAppLauncher/src/stores/StoreActions.js:346-400 | addPin writes one pin under the escaped key when the catalog has the component and nothing otherwise; removePin clears the same key |
| Launcher.AddAppFacts | src-built-in/components/advancedAppLauncher/src/stores/StoreActions.js:440-472 | a failed registration changes nothing; otherwise the app is defined, filed in the root and active folders, pinned in Favorites, and persisted |
| Launcher.DeleteAppFacts | src-built-in/components/advancedAppLauncher/src/stores/StoreActions.js:474-502 | the pin is removed, the definition is gone and others stay, the appID is marked deleted, and every folder loses its first entry with that appID (its last entry when it has none) |
| Launcher.TagStepFacts | src-built-in/components/advancedAppLauncher/src/stores/StoreActions.js:652-666 | repeated addTag leaves the tag once; deleteTag of a present tag removes its first occurrence, and of an absent tag the last tag |
| Launcher.ActiveFolderFacts | src-built-in/components/advancedAppLauncher/src/stores/StoreActions.js:607-620 | the active folder is returned named, with each entry's tags refreshed and nothing else changed; asking again gives the same folder |
| Launcher.AllAppsTagsFacts | src-built-in/components/advancedAppLauncher/src/stores/StoreActions.js:638-650 | getAllAppsTags has no duplicates and holds exactly the tags of the apps and config components |
| StoreActions.LauncherData.constructor | src-built-in/components/advancedAppLauncher/src/stores/StoreActions.js:44 | the cache starts empty, with no writes |
| StoreActions.LauncherData.Initialize | src-built-in/components/advancedAppLauncher/src/stores/StoreActions.js:62-123 | the cache after initialize and the two loads is the initialize step of the store values and the catalog |
| StoreActions.LauncherData.ReadStore | src-built-in/components/advancedAppLauncher/src/stores/StoreActions.js:74-106 | reading the store sets the cache to the initial state and makes the seeding writes |
| StoreActions.LauncherData.LoadInstalledConfigComponents | src-built-in/components/advancedAppLauncher/src/stores/StoreActions.js:259-301 | the folders are pruned of orphans and the config components materialised from the catalog |
| StoreActions.LauncherData.UpdateAppsInFolders | src-built-in/components/advancedAppLauncher/src/stores/StoreActions.js:173-195 | every folder is refreshed from the config components and the folders are persisted |
| StoreActions.LauncherData.ReorderFolders | src-built-in/components/advancedAppLauncher/src/stores/StoreActions.js:423-438 | the list becomes the reordered one, is persisted and is returned |
| StoreActions.LauncherData.AddNewFolder | src-built-in/components/advancedAppLauncher/src/stores/StoreActions.js:504-529 | the cache becomes the addNewFolder step |
| StoreActions.LauncherData.DeleteFolder | src-built-in/components/advancedAppLauncher/src/stores/StoreActions.js:531-548 | the cache becomes the deleteFolder step |
| StoreActions.LauncherData.RenameFolder | src-built-in/components/advancedAppLauncher/src/stores/StoreActions.js:550-579 | the cache becomes the renameFolder step |
| StoreActions.LauncherData.AddAppToFolder | src-built-in/components/advancedAppLauncher/src/stores/StoreActions.js:581-592 | the cache becomes the addAppToFolder step |
| StoreActions.LauncherData.RemoveAppFromFolder | src-built-in/components/advancedAppLauncher/src/stores/StoreActions.js:594-598 | the cache becomes the removeAppFromFolder step |
| StoreActions.LauncherData.AddPin | src-built-in/components/advancedAppLauncher/src/stores/StoreActions.js:346-396 | the catalog scan and the pin write give the addPin step |
| StoreActions.LauncherData.RemovePin | src-built-in/components/advancedAppLauncher/src/stores/StoreActions.js:398-400 | the pin key is cleared |
| StoreActions.LauncherData.AddApp | src-built-in/components/advancedAppLauncher/src/stores/StoreActions.js:440-472 | the cache becomes the addApp step, and the callback outcome is failed_to_add_app exactly when registration failed |
| StoreActions.LauncherData.DeleteApp | src-built-in/components/advancedAppLauncher/src/stores/StoreActions.js:474-502 | the cache becomes the deleteApp step |
| StoreActions.LauncherData.AddTag | src-built-in/components/advancedAppLauncher/src/stores/StoreActions.js:652-658 | the cache becomes the addTag step |
| StoreActions.LauncherData.DeleteTag | src-built-in/components/advancedAppLauncher/src/stores/StoreActions.js:660-666 | the cache becomes the deleteTag step |
| StoreActions.LauncherData.GetActiveFolder | src-built-in/components/advancedAppLauncher/src/stores/StoreActions.js:607-620 | it returns the refreshed active folder and stores it back into the cache |
| StoreActions.LauncherData.GetAllAppsTags | src-built-in/components/advancedAppLauncher/src/stores/StoreActions.js:638-650 | it returns each tag of the apps and config components once, and only those, without changing the cache |
| StoreActions.PruneFolders | src-built-in/components/advancedAppLauncher/src/stores/StoreActions.js:271-281 | the `forEach` over folders computes the pruned folders |
| StoreActions.MaterialiseConfigs | src-built-in/components/advancedAppLauncher/src/stores/StoreActions.js:283-299 | the `map` over catalog names computes the materialised config components |
| StoreActions.RefreshFolders | src-built-in/components/advancedAppLauncher/src/stores/StoreActions.js:176-193 | the loop over folders computes the refreshed folders |
| StoreActions.RefreshEntryTags | src-built-in/components/advancedAppLauncher/src/stores/StoreActions.js:609-616 | the loop over the active folder's entries computes the refreshed tags |
| StoreActions.PurgeFolders | src-built-in/components/advancedAppLauncher/src/stores/StoreActions.js:483-486 | the `for..in` loop computes the purged folders |
| StoreActions.FilterDeleted | src-built-in/components/advancedAppLauncher/src/stores/StoreActions.js:74-95 | it computes the deleted list, the folder list, the kept apps and the two seeding writes made only when something was deleted |

## Left out

- Store I/O: `getStore`, `getToolbarStore`, `_setValue` and `_setFolders` are
  not modelled as calls. Every write is taken to succeed, and it is recorded
  in the `writes` log with the value written. The write-error branches,
  which drop the continuation, are not modelled.
- Foreign calls: the config client, the router subscription and the launcher
  client are inputs. `getComponentList` is a catalog parameter.
  `addUserDefinedComponent` is the `registered` flag of `AddApp`.
  `removeUserDefinedComponent` is taken to call back.
- Store listeners (come from other clients writing concurrently), the
  appDirectory / FDC3 loading (`lazyLoadAppD`, `getApp`,
  `loadInstalledComponentsFromStore`) and the `async` fan-out: this is
  concurrency and network access.
- Randomness and clocks: `uuidv4` is a `uuid` parameter, and the `Date`
  timestamp used as appID in `addApp` is an `appID` parameter.
- Logging, `console` output and the user alert of
  `validateFolderDataStructure`: the alert is the returned `warned` flag.
- `findAppIndexInFolder` comes from `utils/helpers`, which is not part of
  this model. `FolderEdits.FindAppIndex` takes it to return the first index
  with that appID, or -1.
- Trivial getters (`getFolders`, `getFoldersList`, `getFormStatus`,
  `getSingleFolder`, `getDeleted`, `getActiveFolderName`, `getSearchText`,
  `getSortBy`, `getTags`) return a field. `appInAppList` is folded into
  `ConfigComponents.Visit`.
- JavaScript's enumeration order puts integer-like keys first in ascending
  order. Dicts keep insertion order only. Numeric appIDs and the number/string
  distinctions of `===` are not modelled: appIDs are strings. `addApp`'s
  appID is a number in the source; the two consequences below follow.
- `ConfigComponents.PruneKeepsNonOrphans`: never prunes a user app's entry
  only because appIDs are strings here. In the source an `addApp` entry has
  a numeric appID, which `apps.includes` never finds among the string keys
  of `data.apps`, so when its name is not in the catalog it is spliced out of
  every folder, the Advanced App Launcher folder included, unless the skip
  after a removal spares it.
- `Refresh.RefreshedFoldersFacts`: refreshes every folder only because appIDs
  are strings here. In the source a surviving `addApp` entry in a folder
  other than the Advanced App Launcher folder makes `folderApp.appID.trim()`
  throw a TypeError once there is a config component, so
  `updateAppsInFolders` stops and never calls back.
- Missing `tags`: an app's tags are always a list and the `addApp` form's
  tags always a text. In the source a definition without `tags` makes
  `getAllAppsTags` concatenate `undefined` and `getActiveFolder` copy
  `undefined` onto entries, and `addApp()` called with its default `{}`
  throws at `app.tags.split`; none of this is modelled.
- Missing `component` section or `list`: every catalog entry is taken to
  have a `component` section and a `list` (empty when the entry is not a
  group). In the source, a launchable entry without `component` throws at
  `component.component.displayName` inside the `getComponentList` callback,
  so no config component is added and `cb` is never called; an entry
  without it that is not a group throws at `componentToToggle.component.type`
  in `addPin`, so no pin is written (the `windowGroup` read is guarded); and
  a group without `list` gets a pin whose `component` is `undefined`. The
  rows `ConfigComponents.ConfigComponentFor`,
  `ConfigComponents.MaterialiseExactly` and `Pins.PinForFacts` rely on this.
- Order of the `addApp` writes: the Favorites pin is logged before the
  `appDefinitions` write. In the source `addPin` writes the pin only in the
  `getComponentList` callback, after `_setValue("appDefinitions", …)` has
  been issued; the log does not capture that asynchronous order.
- Aliasing: the source's shared objects are values here. `folders` objects
  handed to the store, the `deleted` array shared by reference, and the
  entry objects getActiveFolder mutates are all copied by value, so a later
  in-place change to one copy is not seen through another.
- `Math.max` over numeral strings is over natural numbers. A name with no
  digits contributes `-Infinity` in the source, and 0 here; both are beaten
  by the initial 0. Numbers too large for a double are not modelled.
- `StoreActions.LauncherData.ReorderFolders`: requires `destIndex` to be a
  position of the orderable list. Outside it the source inserts `undefined`,
  and that case is not modelled.
- `StoreActions.LauncherData.RenameFolder`: requires the old folder to exist.
  The source would store `undefined` under the new name.
- `StoreActions.LauncherData.DeleteApp`: requires the appID to be defined.
  The source throws reading `data.apps[appID].name`.
- `StoreActions.LauncherData.AddAppToFolder`,
  `StoreActions.LauncherData.RemoveAppFromFolder` and
  `StoreActions.LauncherData.GetActiveFolder`: require the folder to exist.
  The source throws on a missing folder.
- `StoreActions.LauncherData.AddApp`: requires the Advanced App Launcher
  folder and the active folder to exist when registration succeeds. The
  source throws otherwise.
- `StoreActions.LauncherData.DeleteApp`: treats the pin removal as
  succeeding. When the toolbar store reports an error, the source stops
  before changing anything; that branch is not modelled.
