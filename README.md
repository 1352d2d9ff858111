# CodeForge Hub core, modelled in Dafny

CodeForge Hub is a browser IDE. Its backend does several things:
- runs one Docker container per (user, project) and publishes container ports 5000..5010 on host ports from 21000 upwards;
- serves the project's files from a workspace directory behind a path-traversal guard;
- opens one pseudo terminal per socket connection;
- detects a project's language environment;
- rewrites GitHub URLs to carry an access token;
- maps thrown errors to HTTP answers.

Its frontend keeps the editor's tabs, active file and unsaved set in a small store.

This project models that core and proves what each part promises. It has one module per source file:

| module | file | source |
|---|---|---|
| `Container` | container.dfy | backend/src/services/container.ts |
| `Environment` | environment.dfy | backend/src/services/environment.ts |
| `Terminal` | terminal.dfy | backend/src/services/terminal.ts |
| `FileTree` | filetree.dfy | backend/src/services/fileSystem.ts, `getFileTree` |
| `FileSystem` | filesystem.dfy | backend/src/services/fileSystem.ts, the guard and the file operations |
| `Git` | git.dfy | backend/src/services/git.ts |
| `ErrorHandler` | errorhandler.dfy | backend/src/middleware/errorHandler.ts |
| `IdeStore` | idestore.dfy | frontend/src/store/ide-store.ts |

Three helper modules support them:
- `Results`: Option and Result.
- `Strings`: the JavaScript string methods the source calls, including the `$` substitution patterns of `replace`.
- `Paths`: Node's POSIX `path.normalize`, `path.join` and `path.extname`.

**Where state changes in place, the model is imperative.**
- `Container.ContainerManager` is a class. It holds the registry, the pending set, the port ledger and a log of runtime calls.
  - Its methods are proved against pure specification functions: `FirstFreePort`, `Allocation`, `PortMap`, `AfterInspect`, `Unstopped` and `Orphans`.
  - Its invariant `Valid()` says:
    - every record's host ports are reserved in the ledger;
    - no two records share a host port;
    - no record maps two container ports to the same host port.
- `Terminal.TerminalService` is a class over the session map.
- `IdeStore.Store` is a class over the store's fields.

**Where the source is pure, the model is functions.** This covers environment detection, the guard, language lookup, URL rewrites and the error middleware.

**The file service holds no state of its own.** Its operations are functions from a `Disk` value to the resulting disk and error.

**Outside effects become inputs.** Docker, the port probe, pseudo-terminal spawning and directory listings are all parameters:
- what `inspect` reports;
- whether a pull, create, start or stop succeeds;
- which ports can be bound;
- what a directory read returns.

The files form one program and are verified together: `dafny verify *.dfy`.

## Model

| member | source | states |
|---|---|---|
| Container.ContainerKey | backend/src/services/container.ts:65-67 | the key is userId, '-', projectId, with the '-' at index \|userId\| |
| Container.RecoveredKeyIff | backend/src/services/container.ts:312-316 | rebuilding a key from the first two parts of `split('-')` gives the key back iff the key holds exactly one '-' |
| Container.KeyRoundTrip | backend/src/services/container.ts:65-67 | the ids recovered from a key are the original ids, and the rebuilt key is the original key, iff neither id contains '-' |
| Container.ImageFor | backend/src/services/container.ts:39-44 | the image of an environment is always one of the three images of the table, with `node:20-alpine` for anything else |
| Container.DetectedEnvironmentImage | backend/src/services/container.ts:141 | for a detected environment, python gets the Python image; node and multi (which has no entry) get the Node image |
| Container.ImageFallback | backend/src/services/container.ts:141 | a name outside the table falls back to `node:20-alpine` |
| Container.ForwardSlashes | backend/src/services/container.ts:176 | every backslash becomes '/', every other character stays |
| Container.MountPath | backend/src/services/container.ts:172-181 | off Windows the path is unchanged; on Windows every backslash becomes '/', and a leading drive letter is replaced by its lower-case form with the rest kept |
| Container.MountPathIdempotent | backend/src/services/container.ts:175-181 | fixing an already fixed mount path changes nothing |
| Container.FirstFreeFromSpec | backend/src/services/container.ts:88-96 | the scan from a port returns a free port with no free port below it, and fails iff no port from there on is free |
| Container.FirstFreePortIsLowest | backend/src/services/container.ts:88-96 | `findAvailablePort` returns p iff p is in [21000, 22000), unreserved and bindable, and no lower port is; it fails iff no port qualifies |
| Container.ScanIgnoresRangeSize | backend/src/services/container.ts:47-48 | with 21000..21499 reserved the scan returns 21500: `PORT_RANGE_SIZE` (10) does not bound it |
| Container.AllocationSpec | backend/src/services/container.ts:165-169 | the binding loop completes iff it obtains 11 ports; the ports are distinct and were free; when it stops early, no port is free |
| Container.AllocationFailureKeepsPorts | backend/src/services/container.ts:165-169 | when only port 21000 can be bound, the loop takes 21000 and then fails, so a failed spawn keeps 21000 reserved |
| Container.PortMap | backend/src/services/container.ts:162-168 | the port map has exactly the container ports base..base+n-1, each mapped to the host port picked for it |
| Container.PortMapFacts | backend/src/services/container.ts:162-168 | with distinct picks, the map's host ports are exactly the picks and no two container ports share one |
| Container.CompleteAllocationMap | backend/src/services/container.ts:161-169 | a complete allocation maps each of 5000..5010 to its own host port, each free and bindable beforehand |
| Container.ActiveIds | backend/src/services/container.ts:323 | the active ids are exactly the container ids of the registered records |
| Container.Orphans | backend/src/services/container.ts:325-339 | the reaper visits at most the listed containers |
| Container.OrphansIff | backend/src/services/container.ts:325-330 | an id is reaped iff it is listed and neither registered nor pending |
| Container.SingleDashKeysStopped | backend/src/services/container.ts:312-316 | the first cleanup pass stops every record whose key holds a single '-' |
| Container.MultiDashKeySurvives | backend/src/services/container.ts:312-316 | a record under "a-b-c" survives the first cleanup pass, because "a-b" is stopped instead |
| Container.AfterInspect | backend/src/services/container.ts:102-121 | `getContainer` drops the record only when inspection throws; all other records and values stay |
| Container.StopStep | backend/src/services/container.ts:289-307 | one stop in the cleanup loop removes that record and releases its ports from the registry left so far, or changes nothing if it is gone |
| Container.ConsistentSubmap | backend/src/services/container.ts:117 | dropping records without releasing ports keeps every record's ports reserved and disjoint |
| Container.ConsistentRegister | backend/src/services/container.ts:253 | registering a record whose host ports were free keeps the registry consistent with the grown ledger |
| Container.ConsistentRelease | backend/src/services/container.ts:305-306 | dropping a record and releasing its ports keeps the registry consistent |
| Container.ContainerManager.constructor | backend/src/services/container.ts:58-63 | empty registry, pending set and ledger |
| Container.ContainerManager.FindAvailablePort | backend/src/services/container.ts:88-96 | the loop returns the lowest free port and reserves it; when none is free, the ledger is unchanged |
| Container.ContainerManager.ReleasePort | backend/src/services/container.ts:98-100 | only the given port leaves the ledger |
| Container.ContainerManager.ReleaseAll | backend/src/services/container.ts:264 | walking the map releases exactly its host ports |
| Container.ContainerManager.GetContainer | backend/src/services/container.ts:102-121 | returns the record iff it exists and is running; the registry becomes `AfterInspect` of the old one |
| Container.ContainerManager.BindPorts | backend/src/services/container.ts:161-169 | the loop's ports are `Allocation` of the old ledger, the map is their `PortMap`, and they are added to the ledger |
| Container.ContainerManager.Launch | backend/src/services/container.ts:210-266 | create failing releases the ports; otherwise the start is logged with the pending set holding the new id; start failing releases the ports; success registers the record; either way the pending mark is dropped afterwards |
| Container.ContainerManager.SpawnContainer | backend/src/services/container.ts:127-267 | see below |
| Container.ContainerManager.StopContainer | backend/src/services/container.ts:289-307 | see below |
| Container.ContainerManager.ForceStopContainer | backend/src/services/container.ts:123-125 | the same three clauses as `stopContainer`: with no record nothing changes; otherwise the record is dropped, its ports released, and a 5 s stop (plus a remove if it succeeded) is logged |
| Container.ContainerManager.StopAll | backend/src/services/container.ts:312-316 | the keys are visited in some order that enumerates each old key once; the registry becomes `Unstopped` of the old one, the ports of exactly the stopped records are released, and the log grows by exactly `StopAllCalls` of that order |
| Container.ContainerManager.StopVisit | backend/src/services/container.ts:313-316 | one visit splits the key, stops the rebuilt key in the registry the earlier visits left, and extends registry, ledger and log by that one step |
| Container.StopAllCallsSingleDash | backend/src/services/container.ts:312-316 | when the keys are distinct and each rebuilds to itself, the first pass's calls are those of stopping each registered container in the order visited |
| Container.ReapLoop | backend/src/services/container.ts:325-339 | the loop over the listing: the reaped ids are exactly `Orphans` of the listing in listing order, and the calls issued are those of stopping each of them in turn |
| Container.ContainerManager.ReapOrphans | backend/src/services/container.ts:319-339 | the reaped ids are `Orphans` of the listing; each is stopped with a 1 s grace and removed only if the stop succeeded, and a failure does not end the pass |
| Container.ContainerManager.CleanupAllContainers | backend/src/services/container.ts:309-340 | both passes: the registry after the first pass, the orphans with respect to it, and the log: the first pass's `StopAllCalls` followed by the `ReapCalls` of the reaped ids |
| Container.ContainerManager.GetContainerPorts | backend/src/services/container.ts:342-346 | the port map of the key's record, or none; when the manager is valid, its host ports are reserved and distinct |
| Environment.Names | backend/src/services/environment.ts:12 | the names of the root listing, in order |
| Environment.SomeEndsWithIff | backend/src/services/environment.ts:20 | the `some`/`endsWith` scan holds iff some name ends in one of the suffixes |
| Environment.SuffixLists | backend/src/services/environment.ts:20-24 | the Python and Node suffix tests are exactly `.py`, and `.js`/`.ts`/`.jsx`/`.tsx` |
| Environment.HasPythonIff | backend/src/services/environment.ts:15-20 | hasPython iff a Python manifest is at the root or a root name ends in `.py` |
| Environment.HasNodeIff | backend/src/services/environment.ts:22-24 | hasNode iff package.json is at the root or a root name ends in `.js`, `.ts`, `.jsx` or `.tsx` |
| Environment.SubdirHasPackageJsonIff | backend/src/services/environment.ts:27-37 | the subdirectory scan succeeds iff some immediate subdirectory holds package.json |
| Environment.DetectEnvironmentTable | backend/src/services/environment.ts:11-52 | the whole decision table; Base never occurs |
| Environment.SubdirPackageJsonWins | backend/src/services/environment.ts:27-37 | a package.json one level down gives node even beside Python manifests |
| Environment.SubdirIgnoredWithRootNode | backend/src/services/environment.ts:27 | with a Node marker at the root, subdirectory contents do not matter |
| Environment.GetContainerImage | backend/src/services/environment.ts:54-62 | every image is a `codeblocking/` image |
| Environment.GetContainerImageInjective | backend/src/services/environment.ts:54-62 | the map is total and gives four different images |
| Terminal.ShellFor | backend/src/services/terminal.ts:36 | `powershell.exe` on Windows, else a non-empty SHELL, else `bash` |
| Terminal.WorkspaceDirFor | backend/src/services/terminal.ts:37 | a non-empty WORKSPACE_DIR, else cwd + "/workspace" |
| Terminal.TerminalService.constructor | backend/src/services/terminal.ts:13 | no sessions |
| Terminal.TerminalService.CreateTerminal | backend/src/services/terminal.ts:35-73 | see below |
| Terminal.TerminalService.HandleInput | backend/src/services/terminal.ts:78-83 | input is written to the socket's terminal iff it has a session |
| Terminal.TerminalService.HandleResize | backend/src/services/terminal.ts:88-93 | a resize goes to the socket's terminal iff it has a session |
| Terminal.TerminalService.HandleDisconnect | backend/src/services/terminal.ts:98-105 | the session is removed and its terminal killed; with no session nothing happens |
| Terminal.TerminalService.HandleOutput | backend/src/services/terminal.ts:55-57 | output is sent as `terminal:output` to the socket the terminal was spawned for |
| Terminal.TerminalService.HandleExit | backend/src/services/terminal.ts:60-64 | `terminal:exit` with code and signal goes to that socket, and whatever session that socket holds now is removed |
| Terminal.TerminalService.GetActiveSessionCount | backend/src/services/terminal.ts:110-112 | the number of stored sessions |
| Terminal.TerminalService.DistinctTerminals | backend/src/services/terminal.ts:52 | sessions of different sockets never share a terminal |
| Terminal.ReplacedTerminalExit | backend/src/services/terminal.ts:52-63 | after a second create on one socket, the first terminal's exit removes the second session |
| Terminal.RepeatedDisconnect | backend/src/services/terminal.ts:98-105 | a second disconnect kills nothing more: one spawn, one kill, no session |
| FileTree.LexLeTotal | backend/src/services/fileSystem.ts:76 | the name order is total |
| FileTree.NodeLeTotal | backend/src/services/fileSystem.ts:74-77 | the comparator orders any two nodes |
| FileTree.InsertSorted | backend/src/services/fileSystem.ts:74-77 | inserting into a sorted list keeps it sorted and adds exactly that node |
| FileTree.SortNodesCorrect | backend/src/services/fileSystem.ts:74-77 | the sort returns a permutation of its input, folders first, then by name |
| FileTree.GetFileTree | backend/src/services/fileSystem.ts:41-82 | the loop with its recursive calls computes `Tree` of the listing |
| FileTree.Kept | backend/src/services/fileSystem.ts:48-56 | the kept entries are no more than the listed ones |
| FileTree.BuiltDescribesKept | backend/src/services/fileSystem.ts:58-70 | the loop pushes one node per kept entry, in order: id and path are `join(dirPath, name)`, and children appear iff it is a folder |
| FileTree.KeptNotHidden | backend/src/services/fileSystem.ts:50-56 | an entry is kept iff its name does not start with '.' and is not node_modules, __pycache__, target or build |
| FileTree.TreeOfListing | backend/src/services/fileSystem.ts:41-77 | the result is a sorted permutation of nodes that describe exactly the kept entries |
| FileTree.UnreadableIsEmpty | backend/src/services/fileSystem.ts:78-81 | a directory that cannot be read gives the empty list |
| FileTree.NoHiddenNode | backend/src/services/fileSystem.ts:50-56 | no returned node has a hidden name |
| FileSystem.TraversalErrorIs403 | backend/src/services/fileSystem.ts:93 | the guard's error is answered with 403 by the middleware |
| FileSystem.PlainPathsPass | backend/src/services/fileSystem.ts:88-94 | a plain relative path under a plain root joins to root + "/" + path and passes |
| FileSystem.EmptyPathIsRoot | backend/src/services/fileSystem.ts:163-168 | the empty path names the root itself and passes, so deleting "" targets the workspace |
| FileSystem.ClimbOut | backend/src/services/fileSystem.ts:88-91 | "../" from the root resolves to the root's parent followed by the target |
| FileSystem.SiblingPrefixPasses | backend/src/services/fileSystem.ts:91-94 | a sibling directory whose name extends the root's last segment passes the string-prefix guard, while lying outside root + "/" |
| FileSystem.EscapeRefused | backend/src/services/fileSystem.ts:91-94 | climbing into a sibling whose name starts differently is refused |
| FileSystem.LanguageOf | backend/src/services/fileSystem.ts:181-206 | the language is "plaintext" or a value of the extension table |
| FileSystem.ExtnameOfSuffix | backend/src/services/fileSystem.ts:182 | the extension of base + "." + x is "." + x when x has no '.' or '/' |
| FileSystem.LanguageOfName | backend/src/services/fileSystem.ts:181-206 | such a file gets the table's language for the lower-cased extension, else plaintext |
| FileSystem.UpperCaseExtension | backend/src/services/fileSystem.ts:182 | ".TSX" is looked up as ".tsx", giving typescriptreact |
| FileSystem.NoExtensionIsPlaintext | backend/src/services/fileSystem.ts:205 | a path without an extension is plaintext |
| FileSystem.Ancestors | backend/src/services/fileSystem.ts:118 | the folders above a path are exactly its proper prefixes ending before a '/' |
| FileSystem.Key | backend/src/services/fileSystem.ts:88-96 | a full path ending in '/' names the entry without that '/'; any other path names itself |
| FileSystem.ReadFile | backend/src/services/fileSystem.ts:87-104 | a refused path throws the traversal error; success iff the path names a file and does not end in '/', with its content, the requested path and its language; a folder answers EISDIR, a file named with a trailing '/' or a path running through a file ENOTDIR, anything else ENOENT |
| FileSystem.MakeFolders | backend/src/services/fileSystem.ts:118 | creating folders succeeds iff none of them is a file, and adds exactly them |
| FileSystem.WriteFile | backend/src/services/fileSystem.ts:109-120 | see below |
| FileSystem.WriteBuffer | backend/src/services/fileSystem.ts:125-136 | refused paths throw; a path ending in '/' fails; what a successful write stored reads back |
| FileSystem.CreateFile | backend/src/services/fileSystem.ts:141-143 | refused paths throw; a path ending in '/' fails; a successful create leaves an empty file that reads back as "" |
| FileSystem.CreateFolder | backend/src/services/fileSystem.ts:148-157 | the guard first; the entry named (a trailing '/' ignored) being a file answers EEXIST; succeeds iff neither it nor a parent is a file, adding it and its parents; an existing folder is no error; a failure changes nothing |
| FileSystem.RemoveTree | backend/src/services/fileSystem.ts:172 | exactly the folder and what lies below it are removed; the remaining contents are unchanged |
| FileSystem.Delete | backend/src/services/fileSystem.ts:162-176 | see below |
| FileSystem.WriteKeepsWellFormed | backend/src/services/fileSystem.ts:118-119 | writing, even when it fails, leaves no path that is both file and folder, and no missing parent |
| FileSystem.CreateFolderKeepsWellFormed | backend/src/services/fileSystem.ts:156 | creating a folder keeps the disk well formed |
| FileSystem.DeleteKeepsWellFormed | backend/src/services/fileSystem.ts:170-175 | deleting keeps the disk well formed |
| FileSystem.ReadAfterWrite | backend/src/services/fileSystem.ts:87-120 | after a successful write, reading the same path returns the content written, with the path's language |
| FileSystem.CreateThenRead | backend/src/services/fileSystem.ts:141-143 | a created file reads back as empty content |
| FileSystem.WriteLeavesOtherFiles | backend/src/services/fileSystem.ts:109-120 | a write changes what no other file reads, whichever way that file is named |
| FileSystem.WriteIdempotent | backend/src/services/fileSystem.ts:109-120 | writing the same content twice leaves what one write leaves |
| FileSystem.DeleteAfterCreate | backend/src/services/fileSystem.ts:141-176 | a created file can be deleted, and reading it afterwards gives ENOENT |
| FileSystem.DeleteFolderEmptiesIt | backend/src/services/fileSystem.ts:170-172 | deleting a folder, with or without a trailing '/', succeeds and leaves nothing below it |
| FileSystem.SlashNamesSameFolder | backend/src/services/fileSystem.ts:87-176 | two paths naming one folder, one with a trailing '/', are the same entry to `delete` and `createFolder`, and `readFile` answers EISDIR for both |
| FileSystem.RefusedEverywhere | backend/src/services/fileSystem.ts:91-168 | a path the guard refuses leaves the disk unchanged under all five operations and is answered with 403 |
| FileSystem.NotFoundIs404 | backend/src/middleware/errorHandler.ts:40-45 | the error of a missing file is answered with 404 |
| FileSystem.MissingFileIs404 | backend/src/services/fileSystem.ts:96 | reading a path whose entry is neither file nor folder, and which runs through no file, throws ENOENT, answered with 404 |
| FileSystem.NotFolderIs500 | backend/src/middleware/errorHandler.ts:47-50 | the ENOTDIR error is answered with 500 |
| FileSystem.PathThroughFileIs500 | backend/src/services/fileSystem.ts:96-172 | on a well-formed disk, reading or deleting a path that runs through a file answers ENOTDIR, not ENOENT, and the read's error is answered with 500; the disk is unchanged |
| Git.ProjectPath | backend/src/services/git.ts:18 | `join(WORKSPACE_DIR, userId, projectId)`, which is never empty |
| Git.ProjectPathById | backend/src/services/git.ts:16 | `join(WORKSPACE_DIR, "projects", projectId)`, which is never empty |
| Git.OverloadsShareProjectsDir | backend/src/services/git.ts:13-19 | the one-argument path is the two-argument path of a user named "projects" |
| Git.ProjectPathPlain | backend/src/services/git.ts:18 | with plain ids, the path is workspace/userId/projectId |
| Git.CloneUrl | backend/src/services/git.ts:33-36 | a URL without the bare GitHub prefix is unchanged; otherwise only its first occurrence is replaced, by the authenticated prefix as it is when the token holds no '$' |
| Git.TokenPlain | backend/src/services/git.ts:35 | a token without '$' makes a replacement string with no substitution pattern, whatever the match |
| Git.CloneUrlPlain | backend/src/services/git.ts:166-169 | a URL starting with the bare prefix gets the token after "https://" |
| Git.MatchLength | backend/src/services/git.ts:54-57 | a regex match starts with "https://" and fits in the string |
| Git.FirstMatchFrom | backend/src/services/git.ts:113-116 | the leftmost match, with no match before it, or none at all |
| Git.RemoteUrlReplacesCredential | backend/src/services/git.ts:113-116 | an existing credential is replaced by a token without '$' |
| Git.CredentialMatch | backend/src/services/git.ts:115 | in a URL carrying a credential, the regex matches the whole prefix at index 0, with the credential and its '@' as the group |
| Git.GroupReferenceInToken | backend/src/services/git.ts:113-116 | a token spelling "$1" is replaced by the regex's group, so the old credential comes back with an extra '@' |
| Git.RemoteUrlPlain | backend/src/services/git.ts:54-57 | a bare URL with no later '@' gets the token, as the clone rewrite does |
| Git.RemoteUrlIdempotent | backend/src/services/git.ts:113-116 | rewriting a URL that already carries the same token changes nothing |
| Git.CloneThenRemoteUrl | backend/src/services/git.ts:33-57 | the pull rewrite leaves the clone rewrite's result unchanged |
| Git.CloneUrlKeepsCredential | backend/src/services/git.ts:33-36 | the clone rewrite leaves a URL that already embeds a credential unchanged |
| ErrorHandler.NewApiError | backend/src/middleware/errorHandler.ts:5-13 | an ApiError carries the given status and message |
| ErrorHandler.HandleError | backend/src/middleware/errorHandler.ts:21-51 | every body has success false; an ApiError answers its own status and message; otherwise 403 iff the message mentions path traversal, and only 403, 404 or 500 occur |
| ErrorHandler.TraversalBeforeNotFound | backend/src/middleware/errorHandler.ts:32-45 | a traversal message wins over an ENOENT code |
| ErrorHandler.NotFoundIs404 | backend/src/middleware/errorHandler.ts:40-45 | ENOENT without a traversal message answers 404 |
| ErrorHandler.ApiErrorFirst | backend/src/middleware/errorHandler.ts:24-29 | an ApiError keeps its status even when its message mentions path traversal |
| ErrorHandler.FallbackIs500 | backend/src/middleware/errorHandler.ts:47-50 | anything else answers 500 "Internal server error" |
| IdeStore.Opened | frontend/src/store/ide-store.ts:65-71 | the file is open afterwards; it is appended iff it was absent, and the other tabs stay |
| IdeStore.Without | frontend/src/store/ide-store.ts:75 | the filtered list holds exactly the other files |
| IdeStore.NextActive | frontend/src/store/ide-store.ts:76-80 | closing the active file activates the last remaining tab, or none; otherwise the active file stays |
| IdeStore.OpenedNoDuplicates | frontend/src/store/ide-store.ts:64-72 | `openFile` never creates a duplicate tab |
| IdeStore.WithoutNoDuplicates | frontend/src/store/ide-store.ts:75 | `closeFile` never creates a duplicate tab |
| IdeStore.ClosedSplice | frontend/src/store/ide-store.ts:74-75 | closing removes that one position and keeps the other tabs in order |
| IdeStore.CloseUndoesOpen | frontend/src/store/ide-store.ts:64-75 | closing a freshly opened tab restores the previous tab list |
| IdeStore.CloseKeepsActiveOpen | frontend/src/store/ide-store.ts:74-85 | if the active file was open, it still is after a close |
| IdeStore.Store.constructor | frontend/src/store/ide-store.ts:58-62 | the initial store: no tabs, no active file, plaintext, both panels open |
| IdeStore.Store.OpenFile | frontend/src/store/ide-store.ts:64-72 | tabs become `Opened`, the file becomes active, nothing else changes, and "active is open" holds |
| IdeStore.Store.CloseFile | frontend/src/store/ide-store.ts:74-86 | tabs become `Without`, the active file becomes `NextActive`, unsaved files are untouched, and "active is open" is preserved |
| IdeStore.Store.SetActiveFile | frontend/src/store/ide-store.ts:88 | only the active file changes |
| IdeStore.Store.SetActiveFileContent | frontend/src/store/ide-store.ts:90-97 | the buffer changes; a truthy active file becomes unsaved |
| IdeStore.Store.MarkUnsaved | frontend/src/store/ide-store.ts:129-137 | adds or removes exactly that file |
| IdeStore.Store.SaveActiveFile | frontend/src/store/ide-store.ts:113-127 | no request without a truthy active file; otherwise sends its path and buffer, and on success removes it from the unsaved set; tabs and active file stay |
| IdeStore.Store.ToggleTerminal | frontend/src/store/ide-store.ts:140 | negates only the terminal flag |
| IdeStore.Store.ToggleSidebar | frontend/src/store/ide-store.ts:143 | negates only the sidebar flag |
| IdeStore.TogglesAreInvolutions | frontend/src/store/ide-store.ts:139-143 | toggling twice restores both flags |
| IdeStore.ActiveWithoutTab | frontend/src/store/ide-store.ts:88 | `setActiveFile` can make a file active that has no tab |
| IdeStore.EditSaveEdit | frontend/src/store/ide-store.ts:90-127 | a successful save clears the unsaved mark, and the next edit sets it again |
| Paths.Normalize | backend/src/services/fileSystem.ts:91 | the normal form is never empty |
| Paths.JoinPaths | backend/src/services/fileSystem.ts:88 | a join is never empty |
| Paths.NormalizeAbsolutePlain | backend/src/services/fileSystem.ts:91 | an absolute path of plain segments is already normal |
| Paths.JoinPlain | backend/src/services/fileSystem.ts:88 | joining plain paths glues them with '/' |
| Paths.Extname | backend/src/services/fileSystem.ts:182 | an extension is empty or starts with '.' and ends the path |
| Strings.ReplaceFirst | backend/src/services/git.ts:33-36 | a string without the pattern is unchanged; otherwise only the first occurrence is replaced, by the expanded replacement, with the text around it kept |
| Strings.ExpandPlain | backend/src/services/git.ts:35 | a replacement string without '$' is inserted as it is |
| Strings.ExpandPlainPrefix | backend/src/services/git.ts:115 | a '$'-free head of the replacement is copied and the expansion goes on after it |
| Strings.ToLower | backend/src/services/fileSystem.ts:182 | the lower-casing of each character |
| Strings.SplitJoin | backend/src/services/container.ts:314 | splitting a join of separator-free parts gives the parts back |

Rows marked "see below" have contracts too long for a table cell:

**Container.ContainerManager.SpawnContainer**
- A running registered container is returned, and nothing changes.
- Otherwise a failed pull throws before any port is taken.
- If the ports run out, the error propagates and the ports already taken stay reserved.
- Otherwise one create call is logged, with the image of the environment and the fixed mount path.
  - A failed create releases every port.
  - After a create, the start call is logged with the pending set, which then holds the new id.
  - A failed start releases every port and clears the pending mark.
  - A successful start registers exactly the new record under the key.

**Container.ContainerManager.StopContainer**
- With no record, nothing happens.
- Otherwise the container is stopped with a 5 s grace and removed only if the stop succeeded.
- Its ports are released and its record dropped, whatever the runtime answered.

**Terminal.TerminalService.CreateTerminal**
- The terminal is spawned with the shell, the workspace directory and 80x24.
- On success the session is stored under the socket id, replacing any earlier one, and then `terminal:ready` is sent.
- On failure no session is stored and `terminal:error` is sent.

**FileSystem.WriteFile**
- A refused path throws the traversal error.
- The write succeeds iff the full path does not end in '/', no parent of it is a file, and it is not a folder.
- On success the file holds the content and the parents exist.
- A path ending in '/' whose parents are not files answers ENOTDIR when it names a file, and EISDIR otherwise.

**FileSystem.Delete**
- A refused path throws the traversal error.
- The path names its entry with any trailing '/' ignored.
- The delete succeeds iff that entry is a folder, or a file named without a trailing '/'.
- Afterwards the entry is neither a file nor a folder.
- An entry that is neither answers ENOENT, or ENOTDIR when one of its parents is a file.
- On failure the disk is unchanged.

## Left out

- Docker I/O is not modelled: `getDockerSocket`, `pingDocker`, `execInContainer`, the pull progress stream and the 500 ms wait after start. Their outcomes are inputs of the methods.
- Container.ContainerManager.SpawnContainer: the second image check and pull (container.ts:186-208) swallow their own errors and change no state, so they are not modelled.
- Container.ContainerManager.SpawnContainer: `path.resolve(projectPath)` is taken as an input, because it depends on the process's working directory.
- Container.ContainerManager.SpawnContainer: the container's create options are recorded only as image, mount path, port map and labels. Cmd, Tty, Env, the memory limit and the CPU shares are constants of no consequence to the model.
- Container.ImageFor: only the four names of the table are looked up. Names such as "constructor", which a JavaScript object inherits from its prototype, are not modelled.
- Container.ContainerManager.ReapOrphans: console logging of per-container errors is not modelled. A failed stop or remove is recorded in the call log and the pass goes on.
- Concurrency between `await`s is not modelled; each operation runs as one sequential step. `spawnContainer` takes no per-key lock, so two interleaved spawns for one key are not covered.
- Container leaks are modelled as written, not corrected:
  - ports already taken when the binding loop fails stay reserved;
  - a record dropped by `getContainer` keeps its ports;
  - a record replaced by a new spawn keeps its old ports.
  So "the ledger is exactly the union of the records' ports" is not an invariant; only "every record's ports are in the ledger" is.
- FileTree.SortNodes: `localeCompare` is replaced by code-unit lexicographic order, because locale collation has no definition the model can state.
- Strings.ToLower: only ASCII letters are lower-cased; full Unicode case mapping is not modelled.
- FileSystem.WriteBuffer: the buffer's bytes are modelled as the text they spell. Byte encodings are not modelled.
- FileSystem.WriteFile: every failure of the recursive `mkdir` of the parents through an existing file is reported as ENOTDIR. Node reports EEXIST when the direct parent is a file; both are answered 500.
- FileSystem.CreateFolder: with a file among the parents the model answers ENOTDIR; Node may answer EEXIST or ENOTDIR depending on which part it reaches first. Both are answered 500.
- FileSystem.Delete: file permissions, symbolic links and I/O errors other than a missing path are not modelled.
- `ensureWorkspace`, `deleteProject` and the git command sequences of clone, pull, branch push and init-and-push are not modelled. Only their path and URL logic is, and the rest is calls into simple-git.
- The backend routes, `index.ts` and the GitHub and frontend HTTP clients are not modelled; they are request glue.
- IdeStore: `fetchFileTree`, `fetchFileContent`, `setFileTree`, `setBackendConnected` and the loading and connection flags are not modelled. They store what an HTTP call returned.
- IdeStore.Store.SaveActiveFile: the write response is an input, and a thrown request is treated as an unsuccessful response; both leave the unsaved set unchanged.
- Environment.DetectEnvironment: the exceptions of `readdirSync` and `statSync` (environment.ts:12, 30-31) are not modelled. A missing project directory, an unreadable subdirectory or a dangling symbolic link at the root would throw; the model takes the listing as read.
- Container.Allocation: one `probe` answers all eleven port searches of a spawn, so a port that failed to bind is never probed again within that spawn. The source probes afresh each time, and a port could become bindable in between.
- Paths: only the POSIX behaviour of Node's `path` module is modelled. On Windows `path.join` and `path.normalize` use '\\' and drive letters, which the model does not cover.
- Git.CloneUrl: the clause giving the rewritten URL literally, and the lemmas built on it (CloneUrlPlain, RemoteUrlReplacesCredential, RemoteUrlPlain, RemoteUrlIdempotent, CloneThenRemoteUrl), assume a token without '$'. A token with '$' is expanded as `replace` expands it; GroupReferenceInToken shows one such case.
- Environment: `detectEnvironment` returns python, node or multi and defaults to node, while the project route (backend/src/routes/projects.ts:50-51) accepts python, node, java or base with base as its default. The model follows `detectEnvironment`; the route's validation is not part of this model.
- Container.ContainerManager.StopAll: the keys may be visited in any order. The source visits them in the `Map`'s insertion order (container.ts:312); only the order of the logged runtime calls depends on it.
