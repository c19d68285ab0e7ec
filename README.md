# ModrinthCLI core, modelled in Dafny

ModrinthCLI keeps a JSON manifest of the Minecraft mods, resource packs and
shader packs a game directory should hold, and reconciles the directory with
it. This project models the sequential core of that tool and proves what it
promises:

- the manifest (`internal/manifest`):
  - creating one and the path check in `Save`;
  - `Add`, which upserts an entry after asking the registry;
  - `Enabled`, and the enable/disable rename state machine (`toggleDisabled`);
  - `RemoveFromSection` and `Remove`;
  - the checksum scan `findFileByChecksum`;
  - the consistency check `CheckFilenames`, which heals renamed files;
  - `Entry.Current`.
- the per-entry install pipeline (`internal/installer`):
  - which entries `Install` runs;
  - `resolveVersion` (loader filter by destination, newest by publication date);
  - `fileForVersion` (primary file);
  - the hash check of `download` and `backupIfExists`;
  - the step sequence of `installOne`;
  - `PlanUpdates`.
- the query builders of the registry client:
  - both versions of `SearchParams.Values`;
  - the parameters and path of `ProjectVersions`;
  - `ParseSlug`.
- the rules inside the command handlers:
  - `init`'s loader and version validation;
  - `update`'s ordering, classification and count;
  - `search`'s facet building, `contains` and the grouping of hits.

The world outside the program comes in as values:

- The file system is a map from directory path to a listing sorted by name
  (`Disk.FileSystem`), as `os.ReadDir` returns it. A regular file is
  represented by its SHA-1 digest.
- The registry is a pair of functions (`ModrinthVersions.Registry`):
  - the version list for a query;
  - the record for a version id.
- The project type returned by `GetProject` and the digest of the bytes a
  download received are parameters.
- The clock is a timestamp string.

Code that updates objects in place is modelled as imperative Dafny:

- The manifest is the class `Manifests.Manifest`, and its methods update the
  three section fields.
- The disk is the class `Disk.Disk`, whose `Rename`, `MkdirAll`, `MoveIn` and
  `RemoveFile` update its map.
- Every loop of the source is a loop with invariants, except the pure
  selection in `fileForVersion`, which is the recursive function
  `Installer.PrimaryFile`.

The methods that update the manifest or the disk are proved equal to the
specification functions listed below, and
the lemmas then state the source's promises about those functions. The
remaining methods (`InitCommand.Configure`, `SearchCommand.Request`,
`ModrinthSearch.Values`, `UpdateCommand.Run`,
`ModrinthVersions.ProjectVersionsRequest`) state
their results directly in their postconditions. The specification functions
are:

| Function | Operation |
|---|---|
| `ManifestToggle.Toggle` | `toggleDisabled` |
| `ManifestRemove.Remove` | `Remove` |
| `ManifestCheck.CheckDocument` | `CheckFilenames` |
| `Installer.InstallOneSpec` | `installOne` |
| `Installer.Plan` | `PlanUpdates` |

`Manifest.saved` is a ghost log of the documents `Save` wrote.

## Model

| member | source | states |
|---|---|---|
| Manifests.Manifest.New | internal/manifest/manifest.go:40-47 | a new manifest has schema 1, the given Minecraft settings, empty sections, and base directory `Dir(path)`; nothing saved |
| Manifests.Manifest.Load | internal/manifest/manifest.go:22-34 | a decoded document is kept as is, with its path and `Dir(path)` as base directory |
| Manifests.Manifest.Save | internal/manifest/manifest.go:51-57 | an unset path is the error `PathUnset` and writes nothing; otherwise the current document is appended to the saved log |
| Manifests.Manifest.Add | internal/manifest/manifest.go:64-174 | on any failed check nothing changes; on success only the section chosen by project type changes, to the upsert of the first version of the last list fetched |
| ManifestAdd.InferDest | internal/manifest/manifest.go:75-86 | a destination is inferred exactly for the types mod, resourcepack and shader |
| ManifestAdd.FetchVersions | internal/manifest/manifest.go:88-107 | the first query is slug, game version, and the loader unless a resourcepack/shader goes outside "mods"; a second, unfiltered query happens iff the type is resourcepack/shader and the first list came back empty; the result is the last list |
| ManifestAdd.AddTakesFirst | internal/manifest/manifest.go:109-115 | a successful decision took element 0 of a non-empty final list, and the section follows the project type |
| ManifestAdd.AddUnknownTypeLate | internal/manifest/manifest.go:98-172 | an unfiled project type is refused, and after a non-empty version list it is refused as an unknown type |
| ManifestAdd.Refreshed | internal/manifest/manifest.go:118-122 | an existing entry keeps slug, checksum and file name; dest, version and version number are overwritten and it is enabled |
| ManifestAdd.Upserted | internal/manifest/manifest.go:115-170 | with the slug present only its first entry is refreshed and everything else, including the length, is unchanged; otherwise exactly one new enabled entry is appended |
| ManifestAdd.UpsertedFinds | internal/manifest/manifest.go:115-170 | after an upsert the slug is found, enabled, at the chosen version |
| ManifestAdd.UpsertIdempotent | internal/manifest/manifest.go:115-170 | a second identical upsert changes nothing |
| ManifestAdd.SlugIndexAppend | internal/manifest/manifest.go:117-133 | appending keeps any earlier first match and otherwise finds the appended entry when its slug matches |
| Manifests.UpsertEntries | internal/manifest/manifest.go:117-133 | the scan-then-write-or-append loop computes `Upserted` |
| Manifests.FindSlug | internal/manifest/manifest.go:215-219 | the scan returns the first index holding the slug, or none |
| ManifestTypes.SlugIndex | internal/manifest/manifest.go:215-219 | the index found holds the slug and no earlier entry does; none means no entry holds it |
| ManifestTypes.With | internal/manifest/types.go:19-27 | replacing one section leaves the other sections, the schema and the Minecraft settings alone |
| Manifests.Manifest.Enabled | internal/manifest/manifest.go:178-186 | the filter loop returns exactly the enabled mods, in order |
| ManifestTypes.EnabledEntriesExact | internal/manifest/manifest.go:178-186 | every returned entry is enabled and from the list, every enabled entry is returned, and filtering twice changes nothing |
| Seqs.FilterAppend | internal/installer/installer.go:67-68 | filtering a concatenation is the concatenation of the filtered parts |
| Seqs.FilterSnoc | internal/manifest/manifest.go:180-184 | one more element adds itself to the filter exactly when it is kept |
| Seqs.FilterIdempotent | internal/manifest/manifest.go:178-186 | filtering twice is filtering once |
| Manifests.Manifest.Enable | internal/manifest/manifest.go:196-198 | enabling toggles in the mods section only, with `wantEnable` true |
| Manifests.Manifest.Disable | internal/manifest/manifest.go:204-206 | disabling toggles in the mods section only, with `wantEnable` false |
| Manifests.Manifest.ToggleDisabled | internal/manifest/manifest.go:214-256 | mods and disk become exactly what `Toggle` says; the other sections are untouched |
| Manifests.ToggleEntries | internal/manifest/manifest.go:214-256 | the loop over entries computes `Toggle`'s entries, file system and answer |
| Manifests.RenameEntryFile | internal/manifest/manifest.go:235-253 | the stat-then-rename step computes `ToggleFile`'s file system and answer |
| ManifestToggle.SourceTargetDiffer | internal/manifest/manifest.go:235-243 | source and target names differ, and enabling moves back what disabling moved |
| ManifestToggle.ToggleFile | internal/manifest/manifest.go:235-253 | the entries are passed through unchanged, and a failed step leaves the disk as it was |
| ManifestToggle.Toggle | internal/manifest/manifest.go:214-256 | an absent slug is "not in manifest" with nothing changed; otherwise only the first match changes, its flag is set to the request even when a later step fails, a recorded name is kept, and any error leaves the disk alone |
| ManifestToggle.ToggleHeals | internal/manifest/manifest.go:226-233 | an empty name is replaced by the checksum scan's answer; a failed scan is an error that renames nothing |
| ManifestToggle.ToggleNamed | internal/manifest/manifest.go:220-235 | with a name recorded, the toggle sets the flag and goes straight to the rename step |
| ManifestToggle.ToggleMoves | internal/manifest/manifest.go:235-251 | a successful toggle moves `<name>.disabled` to `<name>` (enable) or the reverse (disable), and changes no other name in the directory |
| ManifestToggle.ToggleRepeatFails | internal/manifest/manifest.go:245-247 | repeating a successful toggle fails with file-not-found and renames nothing |
| ManifestToggle.ToggleRoundTrip | internal/manifest/manifest.go:214-256 | disabling then enabling a named mod whose disabled name was free restores the disk and succeeds; the entries come back with only this entry's flag set to true |
| ManifestToggle.FileRoundTrip | internal/manifest/manifest.go:235-253 | the disable rename followed by the enable rename restores the directory |
| ManifestToggle.ToggleRoundTripEnable | internal/manifest/manifest.go:214-256 | enabling then disabling a named mod whose enabled name was free restores the disk and succeeds; the entries come back with only this entry's flag set to false |
| ManifestToggle.FileRoundTripEnable | internal/manifest/manifest.go:235-253 | the enable rename followed by the disable rename restores the directory |
| Disk.Disk.Rename | internal/manifest/manifest.go:245-251 | a missing source is an error that changes nothing; otherwise the node moves to the new name in its parent's listing |
| Disk.RenameBack | internal/manifest/manifest.go:249 | renaming a to a free b and back restores the file system |
| Disk.RenamedStat | internal/manifest/manifest.go:249 | after a rename the target holds the source's node, the source is gone, other names are unchanged |
| Checksums.FileHasDigest | internal/manifest/manifest.go:372-387 | true exactly when the path is a file with the wanted digest; a directory cannot be read; a missing file is false |
| Checksums.FirstMatch | internal/manifest/manifest.go:338-350 | the index found is the first non-directory listing entry with the wanted digest |
| Checksums.FindByChecksum | internal/manifest/manifest.go:332-352 | an unreadable directory or no matching file is an error; otherwise the first matching name in listing order |
| Checksums.FoundHasDigest | internal/manifest/manifest.go:332-352 | the name found is a non-directory file with the wanted digest, and no name sorting before it matches |
| Checksums.FindFileByChecksum | internal/manifest/manifest.go:332-352 | the scan over the directory computes `FindByChecksum` |
| ManifestRemove.SectionNamed | internal/manifest/manifest.go:264-273 | only "mods", "resourcepacks" and "shaders" name a section, and the section selected is the one bearing that name |
| ManifestRemove.SectionNameRoundTrip | internal/manifest/manifest.go:264-273 | every section is selected by its own name |
| ManifestRemove.RemovedFirst | internal/manifest/manifest.go:275-279 | the first entry with the slug is spliced out and the others keep their order |
| ManifestRemove.RemovedFirstCount | internal/manifest/manifest.go:275-279 | removal lowers the slug's count by one and leaves every other slug's count alone |
| ManifestRemove.RemoveUndoesAdd | internal/manifest/manifest.go:275-279 | removing a project that an upsert has just appended gives the old list back |
| ManifestRemove.RemoveFromSection | internal/manifest/manifest.go:262-282 | an unknown section or an absent slug is an error; otherwise only that section changes, by `RemovedFirst` |
| Manifests.Manifest.RemoveFromSection | internal/manifest/manifest.go:262-282 | the manifest becomes the function's document on success and is unchanged on error |
| ManifestRemove.SectionWith | internal/manifest/manifest.go:289-301 | the section picked lists the slug and no section before it in the order mods, resource packs, shaders does; none exactly when no section lists it |
| ManifestRemove.ResolveFile | internal/manifest/manifest.go:306-315 | a recorded name is used as is; an empty one is resolved by the checksum scan |
| ManifestRemove.Remove | internal/manifest/manifest.go:288-330 | any failure changes neither the manifest nor the disk |
| ManifestRemove.RemoveAt | internal/manifest/manifest.go:304-325 | on success the section loses its first entry for the slug |
| ManifestRemove.RemoveEffect | internal/manifest/manifest.go:288-330 | a successful remove drops one entry from the first section listing the slug, leaves the other sections alone, deletes the resolved name and keeps every other name in the directory |
| Manifests.Manifest.Remove | internal/manifest/manifest.go:288-330 | the section loop computes `ManifestRemove.Remove`'s document, disk and answer |
| Manifests.RemoveEntryFile | internal/manifest/manifest.go:304-325 | resolving, deleting and splicing compute `RemoveAt` |
| Manifests.FirstSectionWith | internal/manifest/manifest.go:289-299 | the first section in loop order that lists the slug is the one `SectionWith` picks |
| Manifests.NoSectionWith | internal/manifest/manifest.go:298-329 | when no section lists the slug, `SectionWith` finds none |
| Disk.Disk.RemoveFile | internal/manifest/manifest.go:318-321 | deleting a missing name succeeds and changes nothing; deleting a non-empty or unreadable directory is an error that changes nothing; otherwise the name leaves its listing, and a removed empty directory takes its own listing with it |
| ManifestCheck.CheckEntry | internal/manifest/manifest.go:396-443 | an entry is either unchanged or only its file name is healed, and a heal is always reported as a rename |
| ManifestCheck.CheckEntryOutcomes | internal/manifest/manifest.go:400-442 | exactly one outcome per entry, in order: no name; a right file reports nothing; a heal names a different file with the right digest; a mismatch keeps the entry, with the scan failed; "missing" means no file and no match |
| ManifestCheck.CheckEntryStable | internal/manifest/manifest.go:414-426 | a checked entry checks to itself, and a healed entry then checks clean |
| ManifestCheck.CheckAll | internal/manifest/manifest.go:396-444 | one entry out per entry in, at most one report per entry |
| ManifestCheck.CheckAllEntries | internal/manifest/manifest.go:397-398 | each output entry is that entry's own check |
| ManifestCheck.CheckAllClean | internal/manifest/manifest.go:396-444 | no report exactly when every entry checks clean |
| ManifestCheck.CheckAllChanged | internal/manifest/manifest.go:423-424 | the section changes exactly when some entry is healed |
| ManifestCheck.CheckSectionOutcome | internal/manifest/manifest.go:396-444 | a section reports nothing iff all its entries are clean, changes iff one is healed, and is unchanged when it reports nothing |
| ManifestCheck.CheckSectionStable | internal/manifest/manifest.go:396-444 | checking a checked section heals nothing more |
| ManifestCheck.CheckEntries | internal/manifest/manifest.go:396-444 | the loop computes the section's entries and reports, and `changed` is set exactly when the section changed |
| ManifestCheck.CheckDocument | internal/manifest/manifest.go:446-448 | all three sections are checked in order, and schema and Minecraft settings are kept |
| ManifestCheck.CheckDocumentClean | internal/manifest/manifest.go:457-460 | no report exactly when every entry of every section is clean, and the document is then unchanged |
| ManifestCheck.CheckDocumentStable | internal/manifest/manifest.go:392-461 | a second check heals nothing more |
| Manifests.CheckSections | internal/manifest/manifest.go:446-448 | the three section passes compute `CheckDocument`, and `healed` says whether the document changed |
| Manifests.Manifest.Settle | internal/manifest/manifest.go:450-460 | `Save` runs once and only after a heal; a failed save returns no reports and the wrapped error; otherwise the result is ok exactly when there are no reports, else the count of mismatches |
| Manifests.Manifest.CheckFilenames | internal/manifest/manifest.go:392-461 | the manifest becomes `CheckDocument`'s document; saved at most once and only after a heal; ok with no reports iff everything is clean |
| EntryCurrent.FirstOwned | internal/manifest/entry_current.go:16-20 | the index found is the first regular file whose name starts with the prefix |
| EntryCurrent.Current | internal/manifest/entry_current.go:12-22 | the listing loop computes `CurrentFile` |
| EntryCurrent.CurrentIsFirstOwned | internal/manifest/entry_current.go:12-22 | a non-empty answer is a regular file starting with `slug-` that sorts before every other such file; "" exactly when the directory cannot be read or nothing matches |
| EntryCurrent.CurrentFindsPlaced | internal/manifest/entry_current.go:16-19 | a regular file named `slug-…` in the directory makes the answer non-empty |
| Installer.StartEnabled | internal/installer/installer.go:72-79 | the loop starts exactly the enabled entries, in order |
| Installer.InstallQueue | internal/installer/installer.go:66-81 | the queue is the filter of enabled mods, then resource packs, then shaders |
| Installer.InstallQueueExact | internal/installer/installer.go:67-77 | the queue is exactly the enabled entries of each section, sections in that order |
| Installer.VersionQuery | internal/installer/installer.go:174-198 | "mods" queries with the manifest loader, the two pack destinations with none, and any other destination makes no query |
| Installer.Newest | internal/installer/installer.go:205-209 | the index found is a version that no other version postdates |
| Installer.ResolveVersion | internal/installer/installer.go:171-210 | an unknown dest is an error before any query; a failed or empty list is an error; otherwise the id of the newest version, with no unfiltered retry |
| Installer.ResolvedIsNewest | internal/installer/installer.go:202-209 | a resolved id belongs to a version of the list with the greatest publication date |
| Installer.PrimaryFile | internal/installer/installer.go:221-226 | the first primary file, or file 0 when none is primary |
| Installer.FileForVersion | internal/installer/installer.go:216-228 | a registry error is passed on, an empty file list is an error, and a non-empty list gives the file `PrimaryFile` picks: the first primary file when one exists, else the first file |
| Installer.Download | internal/installer/installer.go:241-263 | succeeds exactly when the received bytes have the wanted digest; otherwise the mismatch names url, wanted and received digests |
| Installer.BackupName | internal/installer/installer.go:289 | the backup name extends the file name and differs from it |
| Installer.BackupIfExists | internal/installer/installer.go:286-292 | with nothing at the path nothing happens; otherwise the file is renamed to its backup name |
| Installer.BackupKeeps | internal/installer/installer.go:286-292 | an existing file survives under the backup name; all other names are unchanged |
| Installer.Replace | internal/installer/installer.go:150-155 | back up, then move the downloaded file into place; a failed backup changes nothing |
| Disk.Disk.MkdirAll | internal/installer/installer.go:133-136 | a path that its parent lists as a file or other non-directory is an error that changes nothing; otherwise the directory exists afterwards and every existing listing is unchanged |
| Disk.MkdirOntoFile | internal/installer/installer.go:133-136 | a regular file at `<dir>/<name>` makes creating the directory `<dir>/<name>` fail |
| Disk.MkdirAgain | internal/installer/installer.go:134 | after a successful `MkdirAll` a second one succeeds and changes nothing |
| Installer.InstallOneSpec | internal/installer/installer.go:122-165 | slug, dest and checksum are never changed; the entry changes only when `Save` runs, and then the answer is `Save`'s |
| Installer.InstallOne | internal/installer/installer.go:122-165 | the method's steps compute `InstallOneSpec`'s entry, disk and answer, and the manifest is saved at most once |
| Installer.InstallAlreadyCurrent | internal/installer/installer.go:137-142 | a file already in place with the right digest ends the call with no download, backup or save, and the entry untouched |
| Installer.InstallHashMismatch | internal/installer/installer.go:144-147 | a download with the wrong digest fails before backup and rename, so the directory is as `MkdirAll` left it; if `MkdirAll` failed first, its error is the answer and nothing changed |
| Installer.InstallMkdirFails | internal/installer/installer.go:133-136 | when the destination path is taken by a file, the call returns `MkdirAll`'s error with the disk and the entry unchanged and no save |
| Installer.InstallSaved | internal/installer/installer.go:122-161 | reaching `Save` means every earlier step succeeded, the download had the advertised digest, and the disk is the created directory with the file moved in behind a backup |
| Installer.InstallPlaces | internal/installer/installer.go:150-161 | on save the file sits under its advertised name with its digest, a former file survives as the backup, no other name changes, and the entry records file name and version but keeps its checksum |
| Installer.PlanStep | internal/installer/installer.go:95-107 | one more entry extends the plan by its record exactly when its version differs from the newest; a resolve error aborts |
| Installer.PlanPrefixErr | internal/installer/installer.go:97-99 | an error on a prefix is the error of the whole plan |
| Installer.PlanRecords | internal/installer/installer.go:93-110 | every record is for a listed entry whose recorded version differs from the resolved one, and every such entry has a record |
| Installer.PlanUpdates | internal/installer/installer.go:93-110 | the loop over the enabled mods computes `Plan` |
| ModrinthSearch.FacetGroups | internal/modrinth/search.go:40-63 | one group per project type in order, then the loader, then the game version, then one OR group of all categories |
| ModrinthSearch.FacetsPresent | internal/modrinth/search.go:66-68 | there is a group exactly when some project type, a loader, a version or a category is given |
| ModrinthSearch.FacetArrays | internal/modrinth/search.go:41-63 | the append loops compute `FacetGroups` |
| ModrinthSearch.Values | internal/modrinth/search.go:33-77 | "query", "facets", "offset" and "limit" are each present exactly under their condition, with the stated values; no other key |
| LegacySearch.Values | modrinth/search.go:22-38 | "query" iff non-empty; one `["f"]` "facets" value per facet in order; "offset" iff > 0; "limit" iff > 0; no other key |
| ModrinthVersions.ProjectVersionsRequest | internal/modrinth/versions.go:53-61 | "game_versions" is `["V"]` iff a version is given, "loaders" is `["L"]` iff a loader is given, no other key, and the path is `project/<escaped slug>/version` |
| ModrinthVersions.RequestPathSegments | internal/modrinth/versions.go:61 | the middle segment of the path is exactly the escaped slug and holds no '/' |
| Url.PathEscape | internal/modrinth/versions.go:61 | the escaped text holds no '/', '?' or '#' |
| Url.PathEscapeRoundTrip | internal/modrinth/versions.go:61 | unescaping the escaped slug gives back its UTF-8 bytes |
| ModrinthVersions.MatchAtNone | internal/modrinth/versions.go:86 | a position has no match exactly when none of the five kinds lets `modrinth.com/<kind>/` followed by a character other than '/', '?', '#' start there |
| ModrinthVersions.CaptureAt | internal/modrinth/versions.go:86 | a match is the pattern through one of the five kinds, and its capture group is the maximal run of slug characters after that kind's '/' |
| ModrinthVersions.FirstMatch | internal/modrinth/versions.go:86-87 | a position found lies in the string and holds a match |
| ModrinthVersions.FirstMatchSkips | internal/modrinth/versions.go:86-87 | no position before the one found holds a match |
| ModrinthVersions.PatternFound | internal/modrinth/versions.go:86-87 | the search stops at or before every position where the pattern matches |
| ModrinthVersions.NoPatternBefore | internal/modrinth/versions.go:86-87 | the pattern matches through no kind anywhere before the position found |
| ModrinthVersions.ParseSlugMatch | internal/modrinth/versions.go:86-90 | on a match the answer is `s[a..b]`: the pattern matches nowhere before the leftmost position k, it matches at k through some kind, a is just past that kind's '/', b ends the maximal run of characters other than '/', '?' and '#', and the run is non-empty |
| ModrinthVersions.ParseSlugNoMatch | internal/modrinth/versions.go:86-91 | a string in which the pattern matches nowhere comes back unchanged |
| ModrinthVersions.ParseSlugBare | internal/modrinth/versions.go:83-85 | a string without '/' comes back unchanged |
| ModrinthVersions.ParseSlugIdempotent | internal/modrinth/versions.go:81-92 | parsing twice is parsing once |
| InitCommand.Configure | cmd/init.go:26-83 | directory is args[0] or "."; the settings equal `Settings(f)`; more than one loader flag is an error; a non-empty `--loader` wins over a flag; neither is an error, checked before the version; "latest" becomes 1.21.6; an empty version is an error; an empty loader version becomes "latest" |
| InitCommand.Init | cmd/init.go:26-90 | fails exactly when the settings checks fail, with that check's error and no manifest; otherwise a fresh manifest at `<dir>/<manifestRel>` holding the settled loader, game version and loader version and empty sections, saved once |
| UpdateCommand.Classify | cmd/update.go:43-58 | new iff current is empty; up-to-date iff equal; no-compatible iff target empty; latest iff target "latest"; in that order of precedence |
| UpdateCommand.CountUpdates | cmd/update.go:42-59 | `total` is the number of new, latest and plain update records |
| UpdateCommand.PlanNeverUpToDate | cmd/update.go:47 | no record `PlanUpdates` emits is classified up-to-date |
| UpdateCommand.Run | cmd/update.go:29-63 | install runs first and its error stops everything; a plan error is returned; the second install runs exactly when the plan is non-empty and it is not a dry run, and then its answer is returned |
| SearchCommand.Contains | cmd/search.go:123-130 | true exactly when some element equals the item |
| SearchCommand.ProjectTypes | cmd/search.go:40-52 | the type list is mod, resourcepack, shader from the set flags only, in that order; empty iff no flag |
| SearchCommand.Request | cmd/search.go:26-59 | no argument is an error; otherwise the query is args[0], the facets carry only the game version and the types, and the offset sent is the page variable minus one, so 0 for the value 1 the program always runs with |
| SearchCommand.RequestValues | cmd/search.go:19-57 | an "offset" parameter is sent exactly when the page variable exceeds 1, so never with the value 1 the program always runs with |
| SearchCommand.AddHit | cmd/search.go:78-87 | a hit joins the mods only if it is a mod for the loader and version, and the packs or shaders by its type |
| SearchCommand.GroupHits | cmd/search.go:71-88 | no hits is an error; otherwise each group is the order-keeping filter of the hits for its rule, and other types are dropped |
| SearchCommand.GroupsPartition | cmd/search.go:76-88 | no hit is in two groups, and the three groups together hold at most as many hits as were returned |
| Strings.DecimalRoundTrip | internal/modrinth/search.go:70-75 | the decimal text of a number reads back as that number |

## Behaviour worth noting

- Only `Add` retries a version lookup without filters (internal/manifest/manifest.go:102-107). `resolveVersion` does not (`Installer.ResolveVersion`).
- `installOne` never scans the directory for a renamed copy of the file. Only `CheckFilenames` heals by checksum (`Installer.InstallOneSpec`).
- A successful install records only `Filename` and `Version`, not the file's hash (`Installer.InstallPlaces`).
- `toggleDisabled` sets the `enabled` flag before the rename, so the flag changes even when the rename fails (`ManifestToggle.Toggle`).
- `CheckFilenames` also reports entries with no file name and files it cannot read (`ManifestCheck.CheckEntryOutcomes`).
- The update command has a "latest" class for a target version named `latest` (`UpdateCommand.Classify`).
- No lock serialises saves. The worker pool that could race on them is outside this model.
- The `search` command's `--page` flag is commented out (cmd/search.go:120). Its page variable therefore stays 1 (cmd/search.go:19), and the offset sent is always 0 (`SearchCommand.Request`).

## Left out

- The worker pool of `Install` (internal/installer/installer.go:70-80) is left out: its errgroup and shared-context cancellation are about concurrency.
  - `Installer.InstallQueue` gives the order entries are handed to workers.
  - `Installer.InstallOne` models one entry.
- `Install` aliasing is not modelled. It runs on a fresh slice, so `installOne`'s writes to `Filename` and `Version` never reach the manifest's sections, and its `Save` writes the unchanged manifest. `Installer.InstallOne` returns the updated copy of the entry, and the saved document is the manifest's own.
- The network is not modelled: HTTP, the registry client, JSON decoding of answers, `GetProject` and `Search`. Registry answers, the project type and the digest of the downloaded bytes are parameters. A failed request is a `Network` error.
- SHA-1 and hex encoding are not modelled. A regular file is represented by its digest. Reading a file's bytes can only fail for a directory.
- JSON encoding and file I/O in `Load` and `Save` are not modelled. `Manifests.Manifest.Load` takes the decoded document. `Manifests.Manifest.Save` keeps only the unset-path check and does not model a failed write.
- The temporary file of `download` is not modelled. Moving it into place is `Disk.MoveIn`; a cross-device rename error is ignored. The deferred removal of the temp file has nothing left to remove once it has been moved.
- `filepath.Join` and `filepath.Dir` are modelled as `dir + "/" + name` and "up to the last slash", without `Clean`.
- `Disk.Disk.MkdirAll` fails only when the last element of the path is listed in its parent as a non-directory. A file in place of an ancestor and permission errors are left out. A created directory gets an empty listing but no entry in its parent's listing. A directory its parent lists as a directory but whose listing is missing (an unreadable one) is also given an empty listing, so later digest checks and checksum scans see it as an empty, readable directory.
- `Disk.Disk.RemoveFile` treats a directory whose listing is not in the map (an unreadable one) as non-empty, so removing it fails.
- `Disk.Disk.Rename`: renaming a directory moves only its entry in the parent listing. The directory's own listing, and those below it, stay under the old path, so a backed-up or disabled directory's contents do not follow it. The manifest commands rename files; a directory is renamed only when one stands at a download's destination.
- `Disk.RenameError` reports only a missing source, or a directory on either side of a rename onto an existing name. Permission and device errors are left out, as is a rename onto an empty directory.
- `url.Values.Encode` and the request URL are not modelled. The models of `Values` stop at the key → values map.
- `Installer.Newest` picks the first version with the greatest date. `sort.Slice` is not stable and may pick any of several tied versions. The contract states only that no version is newer, which holds for every choice.
- `Installer.FileForVersion` returns `NoFiles` for a version with an empty file list. The program indexes `Files[0]` and panics there.
- `InitCommand.Configure` requires at most one argument, because cobra's `RangeArgs(0, 1)` rejects more before the handler runs.
- Printing, tabwriter output and cobra wiring are not modelled. This covers the thin command files (add, check, enable, disable, list, remove, install, root) and the informational messages in init and update.
- `time.Now` is not modelled; the backup timestamp is a parameter.
- The second `mc.Loader == ""` check in cmd/init.go:77-79 cannot fire after lines 57-69. The model asserts this instead of returning an error.
- `ParseSlug`'s regular expression is modelled as a direct leftmost search for the pattern, not as a general regex engine.
- `License.UnmarshalJSON` and the plain project records are not modelled. The search hit keeps only slug, title, project type, categories and versions.
