# Godot version store — a Dafny model

This project models the version-store logic of the Godot Manager's engine
panel (`GodotPanel`): the paginated fetch of GitHub releases into the panel's
release buffer, the reconciliation of that buffer into the persisted set of
remote versions, the update-check decision taken when the panel becomes the
visible tab, install and uninstall bookkeeping on the persisted store
(installed versions, projects that refer to a version by id, the default
engine), the post-order directory listing used to delete an install, and the
list presentation (name-based hiding of available entries, the single
default flag).

Each handler is one atomic, pure transition. The API's answers, the user's
confirmation, the current time, the version record a finished download
produces, the mapping from stored paths to file-system paths, and the
directory tree found at an install location (absent when it cannot be listed)
are inputs. The API calls made, the alert raised, the release offered for
download, the paths removed and whether an uninstall stopped on an exception
are outputs.

Modules:

- `Wrappers` (wrappers.dfy): `Option`.
- `Store` (store.dfy): releases, remote and installed versions, projects,
  settings, the store record with its save counter, the empty-GUID sentinel
  and the "no dangling reference" invariant.
- `Fetch` (fetch.dfy): `GetReleases` over a sequence of page responses.
- `Updates` (updates.dfy): `GatherReleases`, `CheckForUpdates`, `OnPageChanged`.
- `Lifecycle` (lifecycle.dfy): `OnInstallClicked`, `OnUninstallClicked`.
- `Listing` (listing.dfy): `RecursiveListDir` over a directory-tree datatype.
- `Presentation` (presentation.dfy): `PopulateList`, `UpdateVisibility`, `OnDefaultSelected`.

Two behaviours of the program are kept as written:

- A gather converts and saves whatever was buffered even when a page request
  fails. Nothing rolls back a partial fetch.
- The release buffer is a field of the panel that nothing clears. The rebuild
  after a detected update therefore re-appends every release fetched by earlier
  gathers, not just the fresh catalog (`Updates.RebuildKeepsStaleBuffer`).

## Model

| member | source | states |
|---|---|---|
| `Fetch.FetchFrom` | Scripts/components/Panel/GodotPanel.cs:305-328 | from page i+1 on, the buffer gains the items of every page up to the first empty or failed one, one request per page up to and including that page, and a failure is reported iff that page failed |
| `Fetch.GetReleases` | Scripts/components/Panel/GodotPanel.cs:301-329 | pages 1, 2, … of size 30 are requested up to and including the first empty or failed page; the buffer keeps its old contents and gains, in order, exactly the items of the pages before that one; the alert is raised iff that page failed |
| `Fetch.BufferGrowth` | Scripts/components/Panel/GodotPanel.cs:317-322 | the buffer grows by the sum of the counts of the pages before the stopping page, and its old contents stay as a prefix |
| `Fetch.IgnoresLaterPages` | Scripts/components/Panel/GodotPanel.cs:305-328 | responses after the stopping page are never consulted: replacing them changes neither the requests nor the buffer |
| `Updates.GatherReleases` | Scripts/components/Panel/GodotPanel.cs:337-363 | one remote version per buffered release (the whole buffer, old and new, no deduplication) is appended to the remote set, the store is saved once, and versions, projects and settings are untouched |
| `Updates.CheckForUpdates` | Scripts/components/Panel/GodotPanel.cs:90-124 | a latest release whose name is already known causes one API call and leaves remote set and buffer unchanged; an unknown one clears the remote set, requests pages 1, 2, … as a full gather, rebuilds the set from the whole buffer, raises the alert iff the stopping page failed and offers the release; in both cases LastCheck becomes now and nothing else in the settings changes |
| `Updates.OnPageChanged` | Scripts/components/Panel/GodotPanel.cs:72-88 | inactive: nothing happens; empty remote set: a full gather runs and LastCheck is kept; otherwise an API call is made iff updates are enabled and now − LastCheck ≥ CheckInterval, and a check that runs records as LastCheck the second clock read, taken when it finishes |
| `Updates.FirstLoadIgnoresPolicy` | Scripts/components/Panel/GodotPanel.cs:74-78 | on first load the same gather runs whatever CheckForUpdates, LastCheck and CheckInterval hold, and the policy settings come out unchanged |
| `Updates.DisabledChecksMakeNoCalls` | Scripts/components/Panel/GodotPanel.cs:79-85 | with known remote versions and update checks disabled, page activation makes no API call and changes nothing |
| `Updates.KnownLatestIsIdempotent` | Scripts/components/Panel/GodotPanel.cs:101-123 | a check against an already-known latest release leaves the remote set alone, so a second check is again a single call that changes only LastCheck |
| `Updates.FirstLoadOfOne` | Scripts/components/Panel/GodotPanel.cs:72-78 | a first load of a catalog listing only release A, from an empty buffer and remote set, leaves buffer [A] and remote set [A] |
| `Updates.UpdateAfterOne` | Scripts/components/Panel/GodotPanel.cs:79-113 | when a due check finds B unknown with buffer [A] and a catalog listing B then A, the rebuilt remote set is A, B, A |
| `Updates.RebuildKeepsStaleBuffer` | Scripts/components/Panel/GodotPanel.cs:106-113 | first loading release A, then detecting update B whose catalog lists B and A, leaves the remote names A, B, A |
| `Lifecycle.OnInstallClicked` | Scripts/components/Panel/GodotPanel.cs:150-154 | exactly one version is appended; the default becomes its id iff it is the only installed version, otherwise the default and other settings stay; one save |
| `Lifecycle.InstallPreservesNoDangling` | Scripts/components/Panel/GodotPanel.cs:150-153 | if the default and every project refer to an installed version or the empty GUID before an install, they still do after |
| `Lifecycle.RemoveFirst` | Scripts/components/Panel/GodotPanel.cs:233 | removes exactly one occurrence (the first) of the version as a multiset difference, keeps the others in order, and changes nothing when the version is absent |
| `Lifecycle.DetachProjects` | Scripts/components/Panel/GodotPanel.cs:224-228 | every project referring to the removed id now holds the empty GUID; every other project is unchanged |
| `Lifecycle.Forget` | Scripts/components/Panel/GodotPanel.cs:224-234 | projects are detached, the default is cleared iff it equalled the removed id, the version is removed, remote set and other settings are unchanged, one save |
| `Lifecycle.OnUninstallClicked` | Scripts/components/Panel/GodotPanel.cs:178-240 | the prompt reads "remove reference" iff source equals location; declined: store unchanged, nothing removed, entry re-enabled; confirmed local reference (no GitHub or TuxFamily origin): forgotten with no file removed; confirmed managed install: if the tree at the mapped install location cannot be listed the handler stops with the store unchanged, otherwise the listing of that tree (ending with the normalized mapped location) and then the mapped, un-normalized cache location are removed and the version is forgotten |
| `Lifecycle.UninstallPreservesNoDangling` | Scripts/components/Panel/GodotPanel.cs:196-234 | after an uninstall, confirmed, declined or stopped by a listing failure, no project and not the default refers to a version that is not installed |
| `Lifecycle.InstallThenUninstall` | Scripts/components/Panel/GodotPanel.cs:150-233 | installing a new version nobody refers to and then uninstalling it (a local reference, or a managed install whose tree can be listed) restores the store apart from two saves, provided that when the store holds no version its default is already the empty GUID (otherwise the install sets the default to the new id and the uninstall resets it to the empty GUID) |
| `Listing.RecursiveListDir` | Scripts/components/Panel/GodotPanel.cs:159-175 | the listing is non-empty and ends with the directory's own path |
| `Listing.ListingContents` | Scripts/components/Panel/GodotPanel.cs:161-172 | as multisets, the listing is the tree's files once each, its subdirectory paths twice each and the root path once, and nothing else; its length follows |
| `Listing.BelowListedBeforeRoot` | Scripts/components/Panel/GodotPanel.cs:161-172 | every path below a directory occurs in its listing before the final entry, which is the directory itself |
| `Listing.SubtreeBlock` | Scripts/components/Panel/GodotPanel.cs:161-166 | the listing of any directory of the tree appears as one contiguous block of the whole listing, followed by that directory's path again when it is not the root |
| `Listing.PostOrder` | Scripts/components/Panel/GodotPanel.cs:159-175 | for every directory of the tree, each path below it occurs before some occurrence of its path |
| `Listing.OccurrenceCounts` | Scripts/components/Panel/GodotPanel.cs:161-172 | with distinct paths, a path below a directory occurs as often in the whole listing as in that directory's listing, and the directory's path occurs once in its own listing and twice in the whole listing unless it is the root |
| `Listing.RemovalOrder` | Scripts/components/Panel/GodotPanel.cs:217-221 | with distinct paths, every occurrence of a path below a directory comes before every occurrence of that directory's path, so removal in listing order empties a directory before any attempt to remove it |
| `Listing.SubdirListedTwice` | Scripts/components/Panel/GodotPanel.cs:162-165 | each subdirectory's path occurs twice in a row: at the end of its own listing and again from its parent |
| `Presentation.UpdateVisibility` | Scripts/components/Panel/GodotPanel.cs:287-299 | an available entry is visible iff no installed entry carries its label (exact match); nothing else about it changes |
| `Presentation.VisibilityIdempotent` | Scripts/components/Panel/GodotPanel.cs:293-298 | recomputing visibility a second time changes nothing |
| `Presentation.VisibilityExample` | Scripts/components/Panel/GodotPanel.cs:293-298 | with "3.5-stable" installed, of the available "3.5-stable" and "3.6-stable" only "3.6-stable" is visible |
| `Presentation.PopulateList` | Scripts/components/Panel/GodotPanel.cs:256-285 | one available entry per remote version and one installed entry per installed version, in order; an installed entry is flagged default iff it shows the default engine; visibility is recomputed |
| `Presentation.PopulateFlagsOneDefault` | Scripts/components/Panel/GodotPanel.cs:272-282 | when ids are distinct and the default names an installed version, the rebuild flags exactly one installed entry, the one showing the default |
| `Presentation.PopulateThenSelect` | Scripts/components/Panel/GodotPanel.cs:242-282 | selecting a default on freshly rebuilt entries with distinct ids keeps flags and store in agreement, with only the selected entry flagged |
| `Presentation.OnDefaultSelected` | Scripts/components/Panel/GodotPanel.cs:242-254 | selecting the current default changes nothing; otherwise the default becomes the entry's id, only that entry is flagged default, and the store is saved |
| `Presentation.SelectionKeepsFlagsAgreeing` | Scripts/components/Panel/GodotPanel.cs:246-252 | when flags agreed with the default and ids are distinct, after a selection they still agree and exactly the selected entry is flagged |
| `Presentation.SelectTwiceIsSelectOnce` | Scripts/components/Panel/GodotPanel.cs:243-244 | selecting the same entry twice is the same as selecting it once |

## Left out

- Godot node tree, signals, `_Ready`, dialogs (busy, yes/no, new-version), `Tr` localisation and the entry widgets (moving an entry into the Downloading group, progress toggles): UI plumbing. Of the uninstall's widget effects only the re-enabled toggle is kept, as a flag; entry visibility and default flags are modelled in `Presentation`.
- `IdleFrame` polling and the per-call `Mutex`, which excludes nothing: cooperative scheduling; each handler is one atomic step.
- `Github.GetReleases`, `Github.GetLatestRelease`: network calls. Their answers are inputs and the calls made are outputs. A failure of the latest-release call has no error path in the source and none here.
- `GodotLineEntry.StartDownload` and `CreateGodotVersion`: the download is not modelled and its record is an input. The source never observes the download task's fault, so the bookkeeping runs whatever the outcome.
- `GithubVersion.FromAPI`: not part of this model beyond carrying the release's name; it is `Store.FromApi`.
- `GodotLineEntry.Label` and `GodotLineEntry.Source`: not part of this model. Labels are supplied by a labelling function and the source path is a field of the uninstall's entry.
- `Godot.Directory.Remove`, `Directory.EnumerateDirectories`/`EnumerateFiles`, `GlobalizePath`: file system calls. `GlobalizePath` and `NormalizePath` are function parameters; the listing's root is the normalized mapped install location, the cache location is mapped but not normalized, and the paths inside the tree are taken as already normalized. The tree at the mapped install location is an input (`None` when enumerating it throws, which stops the uninstall). The removed paths are reported in order, not performed. `Directory.Remove` reports failure by an error code that the source ignores, so individual removal failures are not modelled. An enumeration that throws partway down the tree is modelled like one that throws at the top: both stop the handler before anything is removed.
- `Listing.RemovalOrder`, `Listing.OccurrenceCounts`: assume that the tree's paths are distinct, as on a real file system. Without that, only the weaker `Listing.PostOrder` holds.
- `SaveDatabase`: persistence I/O, modelled as a save counter.
- `OnChunkReceived`, `Util.FormatSize`: progress text.
- `OnActionClicked`, `OnToggledUseMono`, `OnDownloadUpdate`: thin dispatchers onto the modelled handlers (add-custom dialog, mono toggle then `UpdateVisibility`, install of the entry matching the offered release).
- The list refresh that `OnPageChanged`, `CheckForUpdates` and the install/uninstall handlers trigger is not part of their results; `Presentation.PopulateList` models it separately from the store.
- `DateTime`: integer timestamps and durations. `OnPageChanged` takes the two clock reads the source makes, the one that decides whether a check is due and the later one stored when it finishes, as two independent parameters; nothing is assumed about their order, so a clock stepping back between them is covered.
- Fetch termination: `Fetch.Terminating` requires some response to be empty or failed. A page sequence that never ends would make the source loop forever.
- Equality of installed versions: `Versions.Remove` in the source compares objects by reference. The model compares records structurally.
