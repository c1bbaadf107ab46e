# ModManager: a Dafny model of the mod inventory's decision logic

This project models the sequential decision logic of `ModManager` in Pojlib.
That class keeps, for each game instance, an ordered list of installed mods. It adds mods
from the Modrinth registry, removes them, checks them for updates, re-installs them for a
new version, and enables or disables them by renaming their files with a `.disabled`
suffix. Two static fields coordinate the background work:

- `currentDownloadSlugs` is the list of slugs whose install is in flight.
- `saveStateCalled` marks a deferred save of `mods.json` that is still pending.

The modules follow the program's structure:

- `Mods` (mods.dfy): the entities `ModData` and `FileData`, the registry as a function
  `(slug, gameVersion) -> Answer`, and list operations. These are the first entry
  with a slug, `ArrayList.remove(Object)` as `RemoveFirst`, and subsequences.
- `Inventory` (inventory.dfy): minimal `Instance` and `State` classes, with the fields and
  operations the manager uses (`getName`, `getGameVersion`, `getMods`, `addMod`, `getMod`,
  `getInstance`).
- `Lifecycle` (lifecycle.dfy): each operation as a function from the state before it to
  the state after it (`AfterAddMod`, `AfterRemoveMod`, `AfterUpdateMods`,
  `AfterSetModActive`), with lemmas stating what the source promises. It also holds the
  read-only operations: the compatibility lookup, the duplicate scan and the update check.
- `DisabledFiles` (disabled_files.dfy): `String.replace(".disabled", "")` and the rename
  loop of `setModActive` over a directory listing, with the disable/enable round trip.
- `Manager` (mod_manager.dfy): the `ModManager` class. Its fields are the in-flight list,
  the save flag and a log of the writes of `mods.json`. `AddMod`, `RemoveMod` and
  `UpdateMods` are proved equal to `AfterAddMod`, `AfterRemoveMod` and `AfterUpdateMods`,
  and their contracts state that they keep the "one entry per slug" invariant.
  `SetModActive` is proved equal to `AfterSetModActive` on the mod list and to `Renamed`
  on the directory. It keeps the invariant through `SetModActivePreservesUniqueSlugs`.
  `SaveState` and `RunPendingSave` state the save flag and the writes directly. Every
  method that touches the writes keeps the rule that the deferred save writes only when
  nothing is in flight.

Outside collaborators become inputs:

- The registry answer is a `Registry` value. Its answers are `Found`, `NotFound` (a null
  answer) and `Failed` (an `IOException`). In `addMod` a null answer and a failed request
  have the same effect: the thread stops and the slug stays in flight. In
  `checkModsForUpdate` they differ. A null answer skips that one mod. A failed request
  ends the whole scan, because the `try` encloses the loop
  (ModManager.java:128-141), and only the mods found before it are returned.
- Whether a file was deleted or downloaded is a `bool`.
- The directory listing is a `seq<string>`. It is `None` when `listFiles()` gives null.
- The Android version gate is a `bool`.

A write of `mods.json` is logged with its origin and the slugs in flight at that moment.
The model records when a write happens, not the JSON that is written.

The model follows the code as written, including:

- When the registry has nothing (ModManager.java:93), the slug is not taken out of
  `currentDownloadSlugs`. The same holds for a duplicate (:98) and for a failed download
  (:109). A deferred save then keeps waiting (`AddAbortLeavesSlugInFlight`,
  `RunPendingSave`). It also happens in `updateMods` when the mod's file could not be
  deleted, the mod is still in the instance's list, and the registry's re-add answer is
  null, a failed request, or metadata with the same slug (`UpdateWithFailedDeleteStrandsSlug`).
  When the answer carries another slug and that slug is not installed, the re-add appends
  a second entry instead.
- The duplicate check compares installed slugs with the slug in the registry's answer, not
  with the requested slug.
- The excluded update slug `"simple-voice-chat"` is a fixed constant, not a configurable list.
- `setModActive` tries to move every listed file whose name, with every `.disabled`
  removed, equals the mod's file name. They all share one target name, so only the first
  is renamed. None is renamed when a file with the target name already exists
  (`RenamedFirstMatch`, `RenamedTargetPresent`).

## Model

| member | source | states |
|---|---|---|
| Lifecycle.GetModCompat | lib/src/main/java/pojlib/modmanager/ModManager.java:31-37 | the table's tier exactly when the platform is "modrinth" and the name is in the table, "Untested" in every other case |
| Manager.ModManager.IsDownloading | lib/src/main/java/pojlib/modmanager/ModManager.java:77-79 | true exactly when the slug is in the in-flight list |
| Manager.ModManager.SaveState | lib/src/main/java/pojlib/modmanager/ModManager.java:71-74 | a deferred save is started only when none is pending, and the flag is set afterwards, so repeated requests are no-ops; nothing else changes |
| Manager.ModManager.RunPendingSave | lib/src/main/java/pojlib/modmanager/ModManager.java:56-69 | the pending save writes exactly when no slug is in flight, and then clears the flag; otherwise it keeps waiting and nothing changes |
| Lifecycle.ContainsSlug | lib/src/main/java/pojlib/modmanager/ModManager.java:96-99 | the duplicate scan answers true exactly when some installed entry has the slug |
| Manager.ModManager.AddMod | lib/src/main/java/pojlib/modmanager/ModManager.java:81-115 | the instance's list, the in-flight list and the write log become `AfterAddMod` of the old ones; the save flag is untouched; one entry per slug is kept |
| Lifecycle.AddAbortLeavesSlugInFlight | lib/src/main/java/pojlib/modmanager/ModManager.java:84-99 | with no registry answer, or an installed entry with the answer's slug, the list and the writes are unchanged and the slug stays in flight |
| Lifecycle.AddAppendsOneActiveEntry | lib/src/main/java/pojlib/modmanager/ModManager.java:94-100 | otherwise exactly one entry, the answer marked active, is appended; earlier entries are unchanged and in order; its slug now occurs exactly once |
| Lifecycle.AddReleasesSlugAfterDownload | lib/src/main/java/pojlib/modmanager/ModManager.java:100-108 | after the append, a successful download restores the in-flight multiset and writes once; a failed one leaves the slug in flight and writes nothing |
| Lifecycle.AddPreservesUniqueSlugs | lib/src/main/java/pojlib/modmanager/ModManager.java:96-100 | adding keeps every slug at most once in the instance |
| Mods.UniqueSlugsCountOne | lib/src/main/java/pojlib/modmanager/ModManager.java:96-100 | under that invariant, a slug that is present is present exactly once |
| Manager.ModManager.RemoveMod | lib/src/main/java/pojlib/modmanager/ModManager.java:117-123 | the instance's list and the write log become `AfterRemoveMod` of the old ones; one entry per slug is kept |
| Lifecycle.RemoveFailsClosed | lib/src/main/java/pojlib/modmanager/ModManager.java:117-123 | a failed deletion changes nothing; a successful one removes the first entry equal to the mod, keeps the rest in order as a subsequence, and writes once |
| Lifecycle.RemovePreservesUniqueSlugs | lib/src/main/java/pojlib/modmanager/ModManager.java:119-121 | removing keeps every slug at most once in the instance |
| Mods.RemoveFirst | lib/src/main/java/pojlib/modmanager/ModManager.java:120 | an absent element leaves the list unchanged; otherwise the list has one element fewer |
| Mods.RemoveFirstMultiset | lib/src/main/java/pojlib/modmanager/ModManager.java:103 | removing from the in-flight list takes out exactly one copy of the slug when there is one, and nothing else |
| Mods.RemoveFirstAt | lib/src/main/java/pojlib/modmanager/ModManager.java:120 | the element taken out is the first occurrence; the list is split around it |
| Mods.RemoveFirstIsSubsequence | lib/src/main/java/pojlib/modmanager/ModManager.java:120 | the remaining elements keep their relative order |
| Lifecycle.CheckModsForUpdate | lib/src/main/java/pojlib/modmanager/ModManager.java:126-143 | a null list gives an empty answer; otherwise the answer is `UpdatesNeeded` of the installed mods before the first failed request (of the whole list when no request fails) |
| Lifecycle.AnsweredPrefix | lib/src/main/java/pojlib/modmanager/ModManager.java:128-141 | the scan gets through exactly the mods before the first one whose request fails: none of those fails, and the one at the stopping point does |
| Lifecycle.UpdatesNeededMembers | lib/src/main/java/pojlib/modmanager/ModManager.java:131-137 | an installed mod is reported exactly when the registry answers, the revision id differs, and the answer's slug is not "simple-voice-chat" |
| Lifecycle.UpdatesNeededIsSubsequence | lib/src/main/java/pojlib/modmanager/ModManager.java:127-137 | the reported mods are a subsequence of the installed list, in installation order |
| Lifecycle.ReAddVersion | lib/src/main/java/pojlib/modmanager/ModManager.java:149-153 | the re-add version is "1.19" for an instance on "1.19.2" and the instance's own version otherwise |
| Manager.ModManager.UpdateMods | lib/src/main/java/pojlib/modmanager/ModManager.java:145-155 | for a known instance, the state becomes `AfterUpdateMods` of the old one: each mod is removed, then re-added for `ReAddVersion`; an unknown instance changes no state and raises exactly when the list is non-empty |
| Lifecycle.UpdateOnPinnedVersionReAddsFor119 | lib/src/main/java/pojlib/modmanager/ModManager.java:147-153 | on "1.19.2" the updated mod comes back as the registry's "1.19" build, appended after the mods that were not updated |
| Lifecycle.UpdateWithFailedDeleteStrandsSlug | lib/src/main/java/pojlib/modmanager/ModManager.java:147-150 | when the file cannot be deleted, the re-add meets the entry as a duplicate: the list and writes are unchanged and the slug stays in flight |
| Lifecycle.UpdatePreservesUniqueSlugs | lib/src/main/java/pojlib/modmanager/ModManager.java:145-155 | updating keeps every slug at most once in the instance |
| Mods.SlugIndex | lib/src/main/java/pojlib/modmanager/ModManager.java:163 | the position of the first entry with the slug, and None exactly when no entry has it |
| Inventory.Instance.GetMod | lib/src/main/java/pojlib/modmanager/ModManager.java:163-164 | an installed entry with the slug, and None exactly when there is none |
| Inventory.Instance.AddMod | lib/src/main/java/pojlib/modmanager/ModManager.java:100 | the entry is appended at the end |
| Manager.ModManager.SetModActive | lib/src/main/java/pojlib/modmanager/ModManager.java:157-185 | below the version floor, or for an unknown instance or slug, nothing changes; otherwise the first entry's flag is set, the listing becomes `Renamed` with suffix ".disabled" or "", and a save is requested; a null listing skips the rename and the save |
| Lifecycle.SetModActiveFlipsOnlyTheFlag | lib/src/main/java/pojlib/modmanager/ModManager.java:163-166 | an unknown slug changes nothing; otherwise only the first entry with the slug changes, and only its flag |
| Lifecycle.SetModActivePreservesUniqueSlugs | lib/src/main/java/pojlib/modmanager/ModManager.java:163-166 | toggling keeps every slug at most once in the instance |
| DisabledFiles.RenameMatching | lib/src/main/java/pojlib/modmanager/ModManager.java:171-180 | the loop over the listing computes `Renamed` of the listing |
| DisabledFiles.RenamedShape | lib/src/main/java/pojlib/modmanager/ModManager.java:171-180 | files whose stripped name is not the mod's file name keep their names; each matching file gets the target name or keeps its own when the target already exists |
| DisabledFiles.StripConcat | lib/src/main/java/pojlib/modmanager/ModManager.java:172 | every occurrence of ".disabled" is removed, wherever it stands, not only a trailing one |
| DisabledFiles.StripIdentity | lib/src/main/java/pojlib/modmanager/ModManager.java:172 | a name without ".disabled" is unchanged by the stripping |
| DisabledFiles.StripDisabledSuffix | lib/src/main/java/pojlib/modmanager/ModManager.java:172-175 | a disabled file name strips back to the mod's file name |
| DisabledFiles.RenamedTargetPresent | lib/src/main/java/pojlib/modmanager/ModManager.java:171-180 | when a file with the target name exists, the loop renames nothing, because every move would overwrite it |
| DisabledFiles.RenamedFirstMatch | lib/src/main/java/pojlib/modmanager/ModManager.java:171-180 | when no file has the target name, the loop renames the first matching file and no other |
| DisabledFiles.EnableRestoresModFile | lib/src/main/java/pojlib/modmanager/ModManager.java:166-180 | on any listing of distinct names, disabling then enabling gives the mod's own file its name back, when the name has no ".disabled", even with leftover files that strip to the same name |
| DisabledFiles.DisableThenEnableRestores | lib/src/main/java/pojlib/modmanager/ModManager.java:166-180 | disabling renames the mod's file to name + ".disabled", and enabling afterwards restores the original listing, when the name has no ".disabled" and no other file strips to it |

## Left out

- Threads, `wait` and `notifyAll` are not modelled. Each thread body runs to completion as
  one method. The waiting loop of the deferred save is `RunPendingSave`: each call is one
  check of the in-flight list.
- `updateMods` starts each re-add as its own thread. The model finishes each re-add
  before it removes the next mod, so other interleavings are not covered.
- The race between two concurrent `addMod` calls for the same slug is not modelled,
  because a sequential model cannot express it.
- The content of `mods.json` and the Gson codec are left out. A write is logged with its
  origin and the in-flight slugs, not with the JSON.
- `getInstance` (ModManager.java:39-51) is left out, because it reloads `State` from disk.
  For the same reason `CheckModsForUpdate` takes the instance's mod list (None when null)
  and game version, and `listInstalledMods` (:187-189) is not modelled.
- `mkdir` of the instance directory is left out. Download, deletion, listing and the
  Android version check are inputs.
- `Files.move` is modelled only by its documented outcomes. A move onto an existing
  other file fails, and a move onto its own name does nothing. Other I/O failures of a
  move are not modelled.
- Java object identity and aliasing are not modelled. `ArrayList.remove(Object)` is
  modelled with value equality, because `ModData.equals` is not part of this model.
  `setModActive` sets the flag on the list entry only, not on copies of that object held
  elsewhere.
- `Instance.getMod`, `Instance.addMod` and `State.getInstance` are not part of this model.
  `getMod` is modelled as answering the first entry with the slug, `addMod` as an append
  at the end, and `getInstance` as a lookup in a map from names to instances.
- An unknown instance name makes `getInstance` answer null. `UpdateMods` models the
  `NullPointerException` that `removeMod` then raises to the caller (ModManager.java:118)
  only as its `raised` result, not as control flow. In the `setModActive` thread the
  same null ends the thread at `getMod` (:163). The model ends `SetModActive` there and
  does not model the exception itself.
- Null fields (a null revision id or slug) and the exceptions they raise are not
  modelled. A compatibility value that is not a JSON string is not modelled either.
- The compatibility table `modrinthCompat` is never filled in this file. The model takes
  the table as a parameter of `GetModCompat`.
