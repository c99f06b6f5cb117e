# QuickMod dependency download and descriptor cache, in Dafny

This project models two parts of MultiMC's QuickMod support. It then proves
what they promise.

**The dependency download task** (`QuickModDependencyDownloadTask`,
module `QuickModDependencyDownload`, file `dependency_download.dfy`):
- Seeded with a list of QuickMod descriptors, the task walks each
  descriptor's references (uid → locator URL).
- It skips every uid the process-wide mod list (`QuickModsList`) already
  holds.
- It registers every other locator with the mod list, but only if the
  task has not requested that locator before.
- When a descriptor whose update URL is pending arrives, the task retires
  that URL, keeps the descriptor and expands the descriptor's own
  references.
- After every step it publishes a progress percentage and, whenever nothing
  is pending, success.

The task is a class. Its fields are the ones the source updates in place:
`mods`, `requested`, `pending`, `lastSetPercentage` and the signals
emitted. Its invariant `Valid()` states:
- `requested` and `pending` have no duplicates.
- `pending` lies within `requested`.
- The published percentages never decrease and stay within 0..100.

The mod list is an abstract class: it holds a set of uids and a ghost log
of `registerMod` calls. Other components share it, so the invariant says
nothing about it. Instead every task method states that it appends to the
log exactly the locators it adds to `requested`, so the task registers
each requested locator once (`SharedStoreScenario` calls the task's
methods, with another client registering in between). Each mutating method states its whole new state
through the specification functions `Dispatched`, `SeedDispatched`,
`RemoveAll` and `NextPercentage`. Lemmas then characterise those functions.

Three points where the code's behaviour is easy to misread:
- A uid counts as present whether the mod list holds a stub or a full
  descriptor for it.
- Being a seed never causes a dispatch: a seed's own locator is
  dispatched only when some seed references it under a uid the mod list
  does not hold (`SeedDispatchedExactly`, `SeedReferencedBySeed`). For
  seeds [A],
  A → {B, C} and B → {C}, the seed expansion dispatches B and C and the
  arrival of B dispatches nothing, so C is fetched once
  (`SharedDependencyDispatchedOnce`).
- Progress is the integer ceiling of the finished share. It reaches 100
  only when nothing is pending, but only while at most 100 locators were
  requested (`FullOnlyWhenDone`). With 200 requested and one pending it
  already reads 100 (`FullBeforeDone`). Success is signalled from the
  pending list alone, not from the percentage.

**The descriptor cache** (`QuickModFilesUpdater`, module `QuickModFiles`,
file `files_updater.dfy`):
- The cache directory is a map from file name to what reading the file
  yields: `Unparseable(reason)` or `Parsed(descriptor)`.
- The mod list is a sequence. It is the same QuickModsList the task
  sees as a set of uids, but the two modules model it separately and no
  lemma connects the two views.
- The downloader's requests, the emitted errors and the JSON objects
  written are ghost logs.
- `ensureExists` synthesises a stub for a local mod. It saves the stub
  unless the cache file exists, parses and holds a non-stub. In that case
  the cached descriptor is returned and nothing is written.
- `receivedMod` does one of three things:
  - An index payload (`"IsIndex": true`) registers the URL under every
    other key.
  - A payload that does not parse is reported.
  - A payload that parses replaces its cache file and joins the list.
- `saveQuickMod` writes the six-field object, with the type tag of the
  mod's type, under `uid + ".json"`.
- `update` fetches the valid update URLs in list order.
- `readModFiles` rebuilds the list from the `*.json` files that parse
  and are not hidden. The listing leaves out names that start with a dot,
  so a descriptor whose uid is empty or starts with a dot is saved but
  not read back, unless another visible file holds the same descriptor
  (`SavedReadBack`).

`StubReplacementScenario` shows the order of events: a stub is saved, a
downloaded non-stub replaces it, and a later `ensureExists` keeps the
non-stub.

The shared vocabulary lives in module `QuickModData`, file
`quickmod_data.dfy`: descriptors, references, mod types and
duplicate-freedom.

## Model

| member | source | states |
|---|---|---|
| `QuickModDependencyDownload.Dispatched` | logic/quickmod/QuickModDependencyDownloadTask.cpp:61-78 | the locators one expansion dispatches are duplicate-free, none was requested before, and there are at most as many as references |
| `QuickModDependencyDownload.DispatchedExactly` | logic/quickmod/QuickModDependencyDownloadTask.cpp:66-76 | a locator is dispatched iff it was not requested before and some reference to a uid the mod list does not hold names it, so a reference whose uid is present never causes a dispatch |
| `QuickModDependencyDownload.DispatchedCovers` | logic/quickmod/QuickModDependencyDownloadTask.cpp:66-76 | after an expansion, every reference to an absent uid has its locator in requested |
| `QuickModDependencyDownload.SeedDispatched` | logic/quickmod/QuickModDependencyDownloadTask.cpp:26-29 | expanding all seed mods in order dispatches a duplicate-free list of locators, none requested before |
| `QuickModDependencyDownload.SeedDispatchedExactly` | logic/quickmod/QuickModDependencyDownloadTask.cpp:26-29 | the seed expansion dispatches a locator iff it was not requested before and some seed mod references it under a uid the mod list does not hold, so a reference to a present uid never causes a dispatch and being a seed never does either: a seed's own locator is dispatched only when some seed references it under an absent uid |
| `QuickModDependencyDownload.SeedDispatchedCovers` | logic/quickmod/QuickModDependencyDownloadTask.cpp:26-29 | after the seed expansion, every seed reference to an absent uid has its locator in requested |
| `QuickModDependencyDownload.SeedReferencedBySeed` | logic/quickmod/QuickModDependencyDownloadTask.cpp:26-29 | a seed B that another seed A references, with neither uid present, has its locator dispatched by the seed expansion |
| `QuickModDependencyDownload.SharedDependencyDispatchedOnce` | logic/quickmod/QuickModDependencyDownloadTask.cpp:61-78 | for seeds [A] with A → {B, C} and B → {C}, the seed expansion dispatches exactly B then C, and expanding B once it arrives dispatches nothing |
| `QuickModDependencyDownload.RemoveAll` | logic/quickmod/QuickModDependencyDownloadTask.cpp:41 | removeAll keeps exactly the elements other than the removed one and keeps a list duplicate-free; it shortens a duplicate-free list that holds the element by exactly one and leaves a list without it unchanged |
| `QuickModDependencyDownload.CeilPercent` | logic/quickmod/QuickModDependencyDownloadTask.cpp:50-53 | the percentage is the ceiling of 100·current/max, lies in 0..100, is 0 iff nothing is finished and is 100 when everything is |
| `QuickModDependencyDownload.NextPercentage` | logic/quickmod/QuickModDependencyDownloadTask.cpp:48-54 | the published value never decreases, stays at most 100, is at least the current ceiling, and is 100 once requests exist and none is pending |
| `QuickModDependencyDownload.FullOnlyWhenDone` | logic/quickmod/QuickModDependencyDownloadTask.cpp:50-53 | with at most 100 locators requested, the percentage is 100 iff nothing is pending |
| `QuickModDependencyDownload.FullBeforeDone` | logic/quickmod/QuickModDependencyDownloadTask.cpp:50-53 | with 200 requested and one pending, the ceiling already reads 100 |
| `QuickModDependencyDownload.MonotoneProgressExtend` | logic/quickmod/QuickModDependencyDownloadTask.cpp:53-58 | publishing a value no smaller than the last one, optionally followed by success, keeps the published percentages monotone and within bounds |
| `QuickModDependencyDownload.QuickModsList.RegisterMod` | logic/quickmod/QuickModDependencyDownloadTask.cpp:73 | registerMod is logged and the set of present uids is unchanged |
| `QuickModDependencyDownload.QuickModsList.AddMod` | logic/quickmod/QuickModFilesUpdater.cpp:135 | inserting a descriptor makes its uid present and registers nothing |
| `QuickModDependencyDownload.QuickModDependencyDownloadTask.constructor` | logic/quickmod/QuickModDependencyDownloadTask.cpp:7-11 | the task keeps its seed mods, starts with nothing requested or pending, and satisfies its invariant |
| `QuickModDependencyDownload.QuickModDependencyDownloadTask.ExecuteTask` | logic/quickmod/QuickModDependencyDownloadTask.cpp:13-35 | pending is cleared but requested is not, exactly the seed expansion is dispatched and registered, success is signalled up front when nothing was dispatched and again after the progress update, and the invariant holds |
| `QuickModDependencyDownload.QuickModDependencyDownloadTask.RequestSeedDependencies` | logic/quickmod/QuickModDependencyDownloadTask.cpp:26-29 | every seed mod is expanded in order, and requested, pending and the registration log grow by the seed expansion |
| `QuickModDependencyDownload.QuickModDependencyDownloadTask.ModAdded` | logic/quickmod/QuickModDependencyDownloadTask.cpp:37-46 | an arrival whose update URL is not pending changes nothing but progress; a pending one has every copy of its URL removed, is appended to mods and is expanded; a retired locator never becomes pending again; the invariant holds |
| `QuickModDependencyDownload.QuickModDependencyDownloadTask.OnStoreError` | logic/quickmod/QuickModDependencyDownloadTask.cpp:22-24 | any mod-list error emits a failure and changes nothing else |
| `QuickModDependencyDownload.QuickModDependencyDownloadTask.UpdateProgress` | logic/quickmod/QuickModDependencyDownloadTask.cpp:48-59 | the percentage becomes the larger of the last one and the ceiling, never decreases, is published, and success follows whenever nothing is pending |
| `QuickModDependencyDownload.QuickModDependencyDownloadTask.RequestDependenciesOf` | logic/quickmod/QuickModDependencyDownloadTask.cpp:61-78 | requested, pending and the registration log each grow by exactly the dispatched locators (each new, each once), so the invariant holds |
| `QuickModData.NoDupsAppend` | logic/quickmod/QuickModDependencyDownloadTask.cpp:71-76 | appending fresh distinct locators to a duplicate-free list keeps it duplicate-free |
| `QuickModData.LengthBound` | logic/quickmod/QuickModDependencyDownloadTask.cpp:50-51 | a duplicate-free list drawn from another list is no longer than it, so pending never outnumbers requested and the finished count is never negative |
| `QuickModFiles.TypeTag` | logic/quickmod/QuickModFilesUpdater.cpp:178-194 | every type has a tag, and the tag reads back as that type |
| `QuickModFiles.TypeTagInjective` | logic/quickmod/QuickModFilesUpdater.cpp:178-194 | two types share a tag iff they are the same type |
| `QuickModFiles.SaveObject` | logic/quickmod/QuickModFilesUpdater.cpp:172-194 | the saved object has exactly the keys description, modId, name, stub, type and websiteUrl, in the sorted order a QJsonObject iterates, carrying the descriptor's fields, its stub flag and the tag of its type |
| `QuickModFiles.FileName` | logic/quickmod/QuickModFilesUpdater.cpp:210-213 | a cache file name starts with the uid followed by ".json", so it matches the "*.json" filter of readModFiles |
| `QuickModFiles.FileNameInjective` | logic/quickmod/QuickModFilesUpdater.cpp:210-213 | two uids share a cache file iff they are equal |
| `QuickModFiles.Contains` | logic/quickmod/QuickModFilesUpdater.cpp:54 | the coremod test holds iff the text occurs somewhere in the mod's directory path |
| `QuickModFiles.StubModIdAsWritten` | logic/quickmod/QuickModFilesUpdater.cpp:50 | as written: an empty mod id stays empty, and a non-empty one is replaced by the name |
| `QuickModFiles.StubModIdAsWrittenLosesId` | logic/quickmod/QuickModFilesUpdater.cpp:50 | as written, a mod with id "examplemod" gets its name as the stub's id, and one without an id gets an empty id although it has a name |
| `QuickModFiles.StubModId` | logic/quickmod/QuickModFilesUpdater.cpp:50 | corrected: the mod id when there is one, else the name; empty only when both are |
| `QuickModFiles.StubOf` | logic/quickmod/QuickModFilesUpdater.cpp:46-61 | the synthesised descriptor is always a stub, is ForgeCoreMod iff the mod's directory path contains "coremod" (ForgeMod otherwise), copies name, home URL and description, and has no references or valid update URL |
| `QuickModFiles.IndexUrlsExactly` | logic/quickmod/QuickModFilesUpdater.cpp:96-105 | an index registers a URL iff some entry other than "IsIndex" holds it as its string value |
| `QuickModFiles.ValidUpdateUrlsExactly` | logic/quickmod/QuickModFilesUpdater.cpp:34-44 | update fetches a URL iff it is valid and is some listed mod's update URL |
| `QuickModFiles.LoadedModsExactly` | logic/quickmod/QuickModFilesUpdater.cpp:155-168 | readModFiles loads a descriptor iff some listed "*.json" file parses to it |
| `QuickModFiles.LoadErrorsExactly` | logic/quickmod/QuickModFilesUpdater.cpp:155-168 | readModFiles reports a parse failure iff some listed "*.json" file does not parse with that reason |
| `QuickModFiles.FileNameHidden` | logic/quickmod/QuickModFilesUpdater.cpp:160 | a cache file is hidden from the listing iff its uid is empty or starts with a dot |
| `QuickModFiles.LoadedModsFromDirectory` | logic/quickmod/QuickModFilesUpdater.cpp:155-168 | over the listing without hidden files, a descriptor is loaded iff some "*.json" file of the directory that is not hidden parses to it |
| `QuickModFiles.SavedReadBack` | logic/quickmod/QuickModFilesUpdater.cpp:155-168 | a descriptor in the cache file of a uid is read back when the uid is non-empty and does not start with a dot, and is lost when it does and no other file holds it |
| `QuickModFiles.QuickModFilesUpdater.constructor` | logic/quickmod/QuickModFilesUpdater.cpp:19-27 | the updater starts on the given mod list and cache directory, with nothing fetched, reported or written |
| `QuickModFiles.QuickModFilesUpdater.RegisterFile` | logic/quickmod/QuickModFilesUpdater.cpp:29-32 | registering a file fetches its URL and changes nothing else |
| `QuickModFiles.QuickModFilesUpdater.Update` | logic/quickmod/QuickModFilesUpdater.cpp:34-44 | the fetches grow by exactly the valid update URLs of the listed mods, each in list order; nothing else changes |
| `QuickModFiles.QuickModFilesUpdater.SaveQuickMod` | logic/quickmod/QuickModFilesUpdater.cpp:170-208 | when the file opens, the object is written under FileName(uid), the directory holds the mod there and the mod joins the list; otherwise a write error is reported and nothing changes |
| `QuickModFiles.QuickModFilesUpdater.EnsureExists` | logic/quickmod/QuickModFilesUpdater.cpp:46-87 | a cached non-stub is returned and nothing changes; otherwise (no file, unparseable, or a stub) the new stub is saved and returned; the result is a stub iff no cached non-stub exists; a cached non-stub under any name is never overwritten |
| `QuickModFiles.QuickModFilesUpdater.ReceivedMod` | logic/quickmod/QuickModFilesUpdater.cpp:89-136 | an index fetches exactly its URLs and writes nothing; an unparseable payload reports an error and leaves directory and list unchanged; a parsed one is removed and rewritten under its file name and joins the list, or the write error is reported and the old file is gone |
| `QuickModFiles.QuickModFilesUpdater.FailedMod` | logic/quickmod/QuickModFilesUpdater.cpp:138-143 | a failed download is reported with its URL and reason, and nothing else changes |
| `QuickModFiles.QuickModFilesUpdater.ReadModFiles` | logic/quickmod/QuickModFilesUpdater.cpp:155-168 | the list is replaced by the descriptors of the listed "*.json" files that parse, in listing order, over a listing without the hidden files; each one that does not parse is reported; the directory is unchanged |

## Findings

| source | as written | input that shows it | evidently intended | confidence | as-written member | corrected member |
|---|---|---|---|---|---|---|
| logic/quickmod/QuickModFilesUpdater.cpp:50 | `mod_id().isEmpty() ? mod_id() : name()`: an empty mod id is kept, and a non-empty one is replaced by the name | a local mod named "Example Mod" with id "examplemod" gets the stub id "Example Mod"; the same mod without an id gets the stub id "" (lemma `QuickModFiles.StubModIdAsWrittenLosesId`) | `mod_id().isEmpty() ? name() : mod_id()`: the id, falling back to the name | high; not executed | `QuickModFiles.StubModIdAsWritten` | `QuickModFiles.StubModId` |

`StubOf`, and so `EnsureExists`, use the corrected `StubModId` (see
"## Left out").

## Left out

- Network plumbing is not modelled: `get`, `NetJob`, `ByteArrayDownload`, the signal/slot connections, and the two `QTimer::singleShot` calls in the updater's constructor. A fetch is an entry in the `fetches` log (or a `registerMod` entry in the mod list's log). A caller runs `ReadModFiles` and `Update` in the order the timers would.
- ExecuteTask: connects `modAdded` and the error handler on every call, without `Qt::UniqueConnection`. After a second run each arrival runs `modAdded` once per connection, adding one more `Progress` and possibly one more `Succeeded` per extra connection, and each mod-list error emits `Failed` once per connection. The model runs each handler once per event, whatever the number of runs.
- File and JSON work is abstracted:
  - A cache file is the outcome of reading it (`Content`).
  - A download carries its top-level JSON object and the outcome of `QuickMod::parse` on its bytes (`Download`).
  - Whether a file opens for writing is the `writable` parameter.
  - The directory listing and its order are the `listing` parameter of `ReadModFiles`.
  - `QuickMod::parse` and `parseQuickMod`'s two failure messages (cannot open, does not parse) become one `ParseFailed(reason)`.
- SaveQuickMod: assumes that a file it wrote reads back as the saved descriptor. The parser that would decide this is not part of this model. The written object carries neither `updateUrl` nor `references`, so a descriptor with either would not read back as saved. The only caller passes stubs, which have neither (`StubOf`).
- StubOf: builds the stub's mod id with the corrected `StubModId`, not with line 50 as written. For a mod with an id, the source's stub has the mod's name as its id, and the model's has the id.
- EnsureExists: saves and returns the stub `StubOf` builds, so its mod id is the corrected one. When `uidOf` reads the mod id, the model checks and writes a different cache file than the source does. `StubModIdAsWritten` keeps the source's rule.
- Hidden files: a name is hidden when it starts with a dot, which is the Unix rule. System files and other platforms' hidden attribute are not modelled.
- QuickMod::uid() is not part of this model. The updater takes it as the function `uidOf`.
- The constructor of QuickMod is not part of this model. A stub is taken to start with no references and an invalid update URL.
- URLs are their text, and QUrl::isValid is taken to fail only for the empty URL.
- The references of a descriptor are given as a sequence in the order the map iterates them.
- The SHA-512 hash stored with a received descriptor is left out. It is an opaque library call.
- Floating point is left out:
  - The percentage is the exact integer ceiling of 100·current/max. The double arithmetic could round differently for very large counts.
  - NextPercentage: when nothing was requested, the source computes 0/0. The model keeps the previous percentage then, which is what `qMax` with the undefined integer conversion of NaN yields on common platforms.
- OnStoreError: mirrors the source's blanket rule that any error of the mod list fails the task. No filtering by locator is modelled, and neither is the event interleaving of that global broadcast.
- The internals of QuickModsList are not modelled (`addMod`, `mod(uid)`, `registerMod`, `clearMods`). The task sees a set of present uids and a registration log. The updater sees a list that `addMod` appends to and `clearMods` empties.
- The behaviour of the Task base class beyond emitting signals is not modelled: what a second `emitSucceeded` or a success after a failure does. The signals are logged as emitted.
- ModAdded: may be called before `ExecuteTask`. In the source it is only connected by `ExecuteTask`.
- No lemma bounds the number of fetches by the size of an unknown reference graph. `LengthBound` with the invariant bounds `requested` by any list of locators it is drawn from.
- The two install-dialog headers are declarations of GUI code with no bodies. They are not part of this model.
