# Dentread desktop agent: staging, upload and cleanup

This project models the synchronisation core of the Dentread desktop
agent's preload script (`preload.js`) and proves properties of it:

- **Selective copier** (`copyFilesWithCondition`). It lists a source
  directory once and consumes the listing from the front. It archives
  folders into the destination as `<name>.zip` and copies files whose
  lower-cased extension is allowed. It skips names already synced, and
  folders whose name ends in `.zip`. It stops after five completed
  operations, at the end of the listing, or at the first item that throws.
- **Upload client** (`sendFileToAPI`). It sends one multipart POST with a
  bearer token. An answer outside 2xx becomes an `API Error: <statusText>`
  exception, and a failed fetch rejects.
- **Archive path rule** (`createZipFromDirectory`). The archive of
  `<dir>` is written next to it as `<dir>.zip`. The call resolves only
  once the output stream has closed.
- **Sync orchestrator** (`hitApiWithFolderPathAndSubdirectories`). It
  resolves `<cwd>/Dentread/<user>/<id>`. A folder is zipped, the zip is
  uploaded, and the zip is deleted. A file is uploaded as it is. Every
  thrown error becomes `{ message: 'API request failed', status: 500 }`.
- **Cleanup** (`emptyDirectory`). It removes `Dentread/<user>/<name>`. For
  a directory it removes each entry, then the directory itself. A file is
  unlinked, and anything else is refused.

The disk is a map from paths (sequences of components) to nodes: a
directory, a regular file, or another kind of entry. `FileTree` gives the
effect of each library call the agent makes as a pure function. `NodeFs`
wraps the disk in a `FileSystem` object whose methods change `nodes`
exactly as those functions say.

Each handler is an imperative module-level method that takes the
`FileSystem` object and changes it only through those calls. Each handler is
proved equal to a pure specification function (`Copier.Run`, `Cleanup.EmptySpec`,
`Sync.SyncSpec`), and the properties are lemmas about those functions.

Some inputs are parameters of the model:
- the HTTP reply;
- the values the script reads from `localStorage` (user name, token,
  exclusion sets);
- the working directory.

### Behaviour of the code that is easy to miss

- **Zip after a failed upload.** A failed upload throws before the
  `unlink` at `preload.js:293`, so the zip stays on disk.
  `Sync.SyncFolderUpload` proves that it stays.
- **Failed archive write.** `createZipFromDirectory` (`preload.js:48-71`)
  resolves on the output stream's `close` event and rejects only on the
  archiver's own `error` event. The only handler on the output stream's
  `error` event is the one `archive.pipe(output)` adds
  (`preload.js:65`, and `preload.js:212` in the copier). The model takes
  the reading in which that handler re-throws and `close` never fires. The
  orchestrator's promise then never settles (`Unsettled`), and the
  copier's chain stops (a `Failed` step).
- **Existing zip in the copier.** The copier does not look for an
  existing `<name>.zip` in the destination; an existing zip file of that
  name is overwritten (`preload.js:199-200`).
- **`directory_path` field.** `path.parse(..).name` strips any extension,
  not only ".zip" (`preload.js:14`): `scan.stl` is sent as `scan`.
- **Empty or "." names.** `path.join` drops an empty or "." component
  (`preload.js:136-138`), so `emptyDirectory("")` removes the whole
  `Dentread/<user>` folder, and when the user name is empty or "." as
  well it removes the whole `Dentread` folder. The orchestrator's path
  resolves the same way, but its archive name is built on the unresolved
  string (`preload.js:50`), so for such an id the archive `.zip` or
  `..zip` is written inside the folder it archives.

## Model

| member | source | states |
|---|---|---|
| FileTree.MkdirAll | preload.js:178-179 | recursive mkdir succeeds exactly when no prefix of the path is a non-directory; afterwards the path is a directory, old entries are kept unchanged, new entries are directories on the path |
| FileTree.MkdirAllKeepsValid | preload.js:178-179 | creating the missing directories keeps every entry inside a directory |
| FileTree.WriteFile | preload.js:52 | a write stream succeeds exactly when the parent is a directory and the path is absent or a regular file; the file is replaced and nothing else changes |
| FileTree.CopyFile | preload.js:227 | copyFileSync succeeds exactly when the source is a regular file and the destination is writable; the destination then holds the source's node |
| FileTree.Unlink | preload.js:150 | unlink succeeds exactly on an existing non-directory and removes only that entry |
| FileTree.RemoveTree | preload.js:148 | rimraf removes the path and everything below it, keeps every other entry, and keeps the tree well formed |
| FileTree.Rmdir | preload.js:154 | rmdir succeeds exactly on an empty directory other than the root and removes only it |
| FileTree.UnlinkIsRemoveTree | preload.js:147-151 | on a well-formed tree, unlinking a non-directory is the same as removing its subtree |
| NodeFs.FileSystem.ExistsSync | preload.js:178 | reports whether the path exists |
| NodeFs.FileSystem.StatSync | preload.js:194 | succeeds exactly when the path exists and returns its node; a missing path gives ENOENT |
| NodeFs.FileSystem.ReadDirSync | preload.js:183 | succeeds exactly on a directory and returns every child name once |
| NodeFs.FileSystem.MkdirSync | preload.js:179 | changes the disk as MkdirAll, or leaves it and reports the error |
| NodeFs.FileSystem.WriteStream | preload.js:52 | changes the disk as WriteFile, or leaves it and reports the error |
| NodeFs.FileSystem.CopyFileSync | preload.js:227 | changes the disk as CopyFile, or leaves it and reports the error |
| NodeFs.FileSystem.UnlinkSync | preload.js:150 | changes the disk as Unlink, or leaves it and reports the error |
| NodeFs.FileSystem.RmdirSync | preload.js:154 | changes the disk as Rmdir, or leaves it and reports the error |
| NodeFs.FileSystem.RimrafSync | preload.js:148 | changes the disk as RemoveTree |
| PathNames.ExtName | preload.js:222 | path.extname is empty, or a dot followed by no further dot, and is a suffix of the name |
| PathNames.ExtNameEmpty | preload.js:222 | a name has no extension exactly when it is ".." or has no dot after its first character |
| PathNames.ParseName | preload.js:14 | path.parse(..).name is the name without its extension, and it is not empty when there is an extension |
| PathNames.SplitExtension | preload.js:13-14 | a stem followed by an extension is read back as that stem and that extension |
| PathNames.ZipPath | preload.js:50 | the archive path is a sibling of the directory, named `<dir>.zip`, and differs from the directory |
| PathNames.ZipPathNames | preload.js:13-14 | the archive's name has the extension ".zip" and the directory's name as its stem |
| PathNames.Lower | preload.js:222 | toLowerCase maps each character to its lower-case form and keeps the length |
| Upload.RequestFor | preload.js:12-30 | the request streams the given path under its base name |
| Upload.SendFileToApi | preload.js:12-44 | the request goes to the given URL with the given path; the call returns exactly on a 2xx answer |
| Upload.BearerRoundTrip | preload.js:30 | a server that parses the Authorization header under section 2.1 of RFC 6750 reads back exactly the access token |
| Upload.RequestCarries | preload.js:12-33 | the request goes to the given URL with the given username; the file part streams the path under its base name; `directory_path` is that name without its extension; the header carries the token |
| Upload.ResultOf | preload.js:37-44 | the call returns the response exactly on a 2xx answer; any other answer throws `API Error: <statusText>`; a failed fetch throws a network error |
| Upload.ZipUploadNames | preload.js:13-14 | uploading `<dir>.zip` names the file part `<dir>.zip` and sends `<dir>` as `directory_path` |
| Upload.FileUploadStripsAnyExtension | preload.js:14 | for a plain file, any extension is stripped from `directory_path`, not only ".zip" |
| Copier.Eligible | preload.js:194-226 | the selection rules: a listed folder is archived unless already synced or named `*.zip`; anything else is copied when its lower-cased extension is allowed and it is not already synced; `Copier.StepSelects` ties them to a step |
| Copier.Run | preload.js:186-237 | the chain of processNextItem calls over the listing; its properties are the lemmas below |
| Copier.Prepare | preload.js:178-180 | the destination exists afterwards; an existing destination is left as it is; a missing one is created as a directory; entries are kept |
| Copier.Step | preload.js:186-235 | one processNextItem examines the named item, and the disk changes only when the item is copied or archived |
| Copier.StepRules | preload.js:194-234 | folders are archived unless excluded or named `*.zip`; files are copied when their lower-cased extension is allowed and they are not excluded; a step fails only on a missing item or a selected item it could not write; an archive lands at `dst/<name>.zip` and a copy at `dst/<name>` |
| Copier.StepPreserves | preload.js:194-234 | a step keeps every entry and its kind, and keeps the tree well formed |
| Copier.StepFrame | preload.js:199-228 | a step changes at most the one path it copies or archives to |
| Copier.RunPreserves | preload.js:186-238 | the whole chain keeps every entry and its kind, so each later stat sees the kind the listing had |
| Copier.RunWithinBatch | preload.js:187 | one call completes at most five copies and archives |
| Copier.RunStopsAtBatch | preload.js:187 | no item is examined once five copies and archives are done: every logged item was reached with fewer than five completed before it |
| Copier.RunScansInOrder | preload.js:186-238 | items are examined in listing order, each at most once; only the last one can have failed; an item is left unexamined only when the batch is full or an item failed |
| Copier.RunFrame | preload.js:199-228 | the chain writes only `dst/<name>.zip` for archived folders and `dst/<name>` for copied files; every other path keeps its entry |
| Copier.RunPicksFirstEligible | preload.js:186-238 | when nothing fails, the copied and archived items are exactly the first eligible items of the listing, as many as the batch allows |
| Copier.EligibleNamesRemember | preload.js:195-226 | adding names to the exclusion sets removes exactly those names from the selection |
| Copier.SecondPassTakesTheRest | preload.js:176-243 | a second call on the same listing, with the first call's results added to the exclusions, selects exactly the eligible items the first call left |
| Copier.ProcessItem | preload.js:189-234 | the body of processNextItem for one item changes the disk and reports as Step |
| Copier.ProcessListing | preload.js:186-238 | the chain of processNextItem calls changes the disk and logs as Run |
| Copier.CopyFilesWithCondition | preload.js:176-243 | a failed mkdir or readdir ends the call before the scan; otherwise the listing is one readdir result and the disk and log are those of Run over it |
| Cleanup.TargetPath | preload.js:133-138 | the target is `<cwd>/Dentread` or lies below it; it is `<cwd>/Dentread/<username>/<directoryName>` when neither name is empty or "."; an empty or "." directory name makes it the user's folder itself; no component after `Dentread` is empty or "." |
| Cleanup.EmptySpec | preload.js:140-169 | the call succeeds exactly when the target exists and is a directory or a regular file; a failed call leaves the disk as it was; afterwards the target is gone exactly when the call succeeded or it was missing |
| Cleanup.EmptySpecEffect | preload.js:140-167 | success exactly when the target is a directory or a regular file; then the target and everything below it are gone and every other entry is untouched; otherwise nothing changes; the message names the case |
| Cleanup.PruneOne | preload.js:147-148 | rimraf of one more child removes that child's subtree |
| Cleanup.PruneAll | preload.js:154 | once every child is removed, rmdir succeeds and the result is the directory's whole subtree removed |
| Cleanup.RemoveEntries | preload.js:144-152 | the loop over the listing removes exactly the subtrees of the directory's children, and no call in it throws |
| Cleanup.EmptyDirectory | preload.js:130-173 | the disk and the result are those of EmptySpec, the disk stays well formed, and no unlink or rmdir in it fails, so the catch branch is never taken |
| Sync.SyncTarget | preload.js:272-275 | the resolved path is never empty and its last component is neither empty nor "."; it is the requested id whenever the id is not empty or "." |
| Sync.SameEntryAsCleanup | preload.js:272-275 | the orchestrator's path is the entry `emptyDirectory` removes for the same user and name, so it is `<cwd>/Dentread` or lies below it, as `Cleanup.TargetPath` states |
| Sync.ArchivePath | preload.js:50 | the archive's name is `<id>.zip` |
| Sync.ArchivePlacement | preload.js:50 | the archive is `<folder>.zip` beside the folder for an ordinary id, lands inside the folder for an empty or "." id, and is never the folder's own path |
| Sync.ArchiveStem | preload.js:13-14 | the archive's `directory_path` is the id, or ".zip" when the id is empty |
| Sync.SyncSpec | preload.js:266-318 | one run of the orchestrator over the disk, the stored token and the endpoint's reply; its properties are the lemmas below |
| Sync.SyncKeepsValid | preload.js:285-295 | writing the archive and deleting it again keep every entry inside a directory |
| Sync.SyncFrame | preload.js:266-318 | only the archive path can change; every other entry, the target included, is kept |
| Sync.SyncResults | preload.js:285-317 | the response is returned exactly when a request went out and got a 2xx answer; every other settled end is `{ message: 'API request failed', status: 500 }`; without a request the disk is unchanged |
| Sync.SyncNeedsTokenAndTarget | preload.js:277-281 | a missing token object or a missing target gives exactly the failure object, with nothing sent and nothing changed |
| Sync.SyncFolderUnsettled | preload.js:285-286 | for a folder on a well-formed disk, the promise never settles exactly when the archive path exists and is not a regular file; then nothing is sent or changed |
| Sync.SyncFolderUpload | preload.js:285-303 | for a folder whose zip can be written, the zip is uploaded as `<id>.zip` with `directory_path` `<id>` (".zip" for an empty id) and the bearer token; after a 2xx answer the zip is gone, and otherwise it stays |
| Sync.SyncFile | preload.js:304-313 | a non-folder target is uploaded as it is, under its own name (the id, when that is not empty or ".") with its stem as `directory_path`, and the disk is unchanged |
| Sync.HitApiWithFolderPathAndSubdirectories | preload.js:266-318 | the result, the request sent and the disk are those of SyncSpec, and the disk stays well formed |

## Left out

- Electron, the context bridge and IPC, desktop notifications, and the
  other exposed functions (`createDirectory`, `deleteDirectory`,
  `setDirectoryPermissions`, `listFilesAndFolders`, the settings and
  window calls) are not part of this model.
- Archive bytes: compression, entry paths and the byte-level zip format are
  not modelled. A zip is a file whose content records the directory it was
  made from.
- Sync.SyncFolderUnsettled: assumes that an error of the archive's output
  stream is re-thrown by the handler `archive.pipe(output)` adds, so
  `close` never fires. The source does not pin the stream library, and
  with one whose `pipe` swallows the error `close` still fires and
  `createZipFromDirectory` resolves with an archive that was never
  written; that reading is not modelled.
- Copier.Step: makes the same assumption about a failed archive write, which
  ends the chain as a `Failed` step; under the other reading the item is
  counted and the chain goes on.
- Cleanup.EmptyDirectory: the catch branch (`preload.js:170-172`), which
  returns `{ success: false, message: error.message }`, has no case in
  `EmptyResult`. On this disk model, which has no permissions and no
  concurrent writers, no `unlinkSync` or `rmdirSync` in the handler can
  fail (the method asserts each outcome), so the branch is unreachable.
- Cleanup.EmptyDirectory: the messages carry the target as a path; the
  source prints it relative to the working directory, and that text is not
  modelled.
- The archiver's own `error` event (an unreadable entry) cannot arise on
  this disk model, which has no permissions, so that rejection path of
  `createZipFromDirectory` is not modelled.
- HTTP transport and multipart encoding are not modelled, nor reading the
  response and file streams. The endpoint's reply is an input. The request
  keeps only the fields it is built from.
- `localStorage` values are inputs. The exclusion sets are fixed for one
  copier call; the source re-reads them per item, but nothing writes them
  during a call. A null user name is not modelled.
- A stored token whose JSON does not parse is treated like a missing one.
- Clocks, timestamps and console logging are not modelled.
- Copier.Run: the recursion depth of `processNextItem` is not modelled.
  The source calls it directly for every item it skips or copies
  (`preload.js:216`, `219`, `235`); only an archive's `close` handler
  (`preload.js:204-211`) starts a fresh stack. A long enough run of such
  items therefore ends the scan with a `RangeError` before the cap, on
  every pass over the same listing, while the model examines them all.
  `Copier.RunStopsOnlyWhenDone`, `Copier.RunScansInOrder` and
  `Copier.RunPicksFirstEligible` hold only for listings short enough not to
  reach that depth.
- Event-loop interleaving is not modelled: the copier's chain resumes
  after an archive's `close` event and runs here without other code in
  between. An error thrown after that point is uncaught rather than caught
  by the `try`; both stop the chain, which the model records as a failed
  step.
- Paths are sequences of components. Dropping an empty or "." component
  is modelled; `path.join` normalisation of names that contain separators
  or `..` is not, and neither are the Windows `\\` separators in the
  orchestrator's path, which is read as the components it evidently means.
- Cleanup.TargetPath: a user or directory name containing a separator or
  `..` is kept as one component; `path.join` would split or cancel it.
- Sync.SyncTarget: as for `Cleanup.TargetPath`, an id containing a
  separator or `..` is kept as one component.
- Symbolic links are not modelled, so `statSync` and `lstatSync` agree.
- The copier's `fileExtensions` is an array of strings. `includes` on a
  string argument (substring search) is not modelled.
- Copying a fifo, socket or device is modelled as a failing `copyFileSync`.
- The orchestrator's `fs.promises.unlink` of the zip cannot fail in the
  model, because the zip was just written. The source's catch-and-log
  around it is therefore not exercised.
- PathNames.Lower: lowercases ASCII letters only; the full Unicode case
  mapping of `toLowerCase` is not modelled.
