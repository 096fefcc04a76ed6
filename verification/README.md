# Verified model of the sandboxed file system and the timer loop

A Dafny 4.11 model of three parts of the repository:

* the in-memory backend `MemFSBackend`, a mutable tree of nodes addressed by string paths;
* the router `VirtualFS`, which normalises virtual paths, picks a mount and checks permissions;
* the timer part of `SandboxContext`, a heap beside a map with lazy cancellation and one armed deadline.

`dafny verify dfyconfig.toml` checks everything.

## How it is built

| file | content |
|---|---|
| `Types.dfy` | error numbers, results, permission masks, stat records |
| `Paths.dfy` | both path parsers as loops, the functions they compute, and how the two relate |
| `FlatFs.dfy` | the simple file system: one prefix-closed map from component lists to entries, and the effect of every call on it |
| `FlatFsLaws.dfy`, `Inodes.dfy` | what those effects promise: proper trees, all-or-nothing, exact relocation, round trips, distinct inodes |
| `Manual.dfy` | one page per call, as a decision table over errors and outcomes, independent of the effects: kept, complete, and what `stat` and `readFile` show |
| `MemFs.dfy` | the node tree as mutable objects, every operation proved to have the flat effect |
| `Mounts.dfy` | the mount table, `resolve` as a loop, longest component prefix wins |
| `Worlds.dfy` | the mounted file system over flat backends: permissions over runs, end-to-end reads and writes |
| `VirtualFs.dfy` | the router object over shared backend objects, proved to follow `Worlds.dfy` |
| `TimerSpec.dfy` | the simple timer service: a map of live timers; passes, runs, rearming |
| `TimerLoop.dfy` | heap, map, tombstones, deadline and reference counts as a mutable object, proved to implement the simple service |

The central device for the tree is a ghost map from component lists to nodes. That it is injective and agrees with
the `children` fields says that each node has one owner, that there are no cycles and no null children. A rename
re-keys that map. File contents and stat records are kept in a second ghost map, the flat file system, so every
method states its whole new state by one equation.

Results that come out differently from what one might expect of the code, or of its documentation
(sandboxed-fs/README.md), are stated as such:

* `rename` compares raw strings to reject a move into the moved directory. On what the router prints that is
  exactly the component test; with a trailing slash (`/a/` to `/a/b`) it is not, the call reports success and the
  subtree is gone (`RenameIntoItselfWithSlash`). `RenameRelocates` says exactly when a successful rename relocates.
* A mount at `/` ignores its `backendPath` (`RootMountIgnoresBackendPath`). The documented algorithm lists `/` as
  "root catch-all" (sandboxed-fs/README.md:43) and leaves open what happens to the backend path.
* Below its own place a mount drops a backend path of one character, not only `/` as documented
  (sandboxed-fs/README.md:48). `LandingIsTarget` says exactly when the backend sees the meant path, `LandingInjective`
  which two paths then meet, and `RelativeBackendPathLosesDirectory` gives a rename that loses a directory.
* Writing to the root of the in-memory backend is EISDIR, not the documented EACCES (`WriteFilePage`).
* A pass over expired timers need not end: not while a due timer repeats with an interval below one millisecond
  (`StuckNeverEnds`, `PassEndsIff`), and not if every callback schedules a timer that is due at once
  (`ChainedPassNeverEnds`). `setTimeout(f, 0)` from a callback does so only if the clock still reads the tick of the
  pass (`NewDueIff`).
* `rename(p, p)` succeeds even if `p` is missing: the code returns before looking it up.

The main results, each over all inputs, runs or reachable states:

* the pointer rearrangement of `rename` on the heap is the relocation of a subtree in a flat map (`MovedIsProper`,
  `MemFSBackend.Rename`), with exact conditions for being one and for being undone (`RenameRelocates`,
  `RenameRoundTrip`);
* every call keeps a page that leaves its outcome no choice (`EveryCallKeepsPage`, `PagesLeaveNoChoice`), and through
  the router that page holds at the landing of the path if the Write bit is set (`OneRequest`);
* the first match in the sorted table is the longest component prefix, in any table (`LongestPrefixWins`), and the
  permission bits of that mount decide (`PermissionDecides`);
* a backend mounted without Write never changes along a run (`ReadOnlyBackendIsConstant`);
* the router's string code and the backend's agree on what they mean (`Normalize`, `SplitOfNormal`, `OneMoreSegment`);
* heap, tombstones, deadline and reference counts of the event loop implement a plain map of timers, event by event
  (`SandboxContext.Run`); a timeout runs exactly once (`TimeoutRunsOnce`), an interval goes on (`IntervalGoesOn`), a
  cancelled timer is never called (`CancelledIsNeverCalled`).

## Model

| member | source | states |
|---|---|---|
| Paths.SplitPath | sandboxed-fs/src/vfs_mem.cpp:10-32 | the character scan yields the non-empty, non-`.` pieces between separators of either kind |
| Paths.Tokenize | sandboxed-fs/src/vfs_mem.cpp:19-31 | the scanning loop alone, on any string |
| Paths.SplitLegal | sandboxed-fs/src/vfs_mem.cpp:19-31 | whatever the string, every resulting name is non-empty, not `.` and free of separators |
| Paths.SplitRender | sandboxed-fs/src/vfs_mem.cpp:10-32 | splitting inverts printing on every legal component list |
| Paths.SplitConcat | sandboxed-fs/src/vfs_mem.cpp:19-31 | splitting `a/b` is splitting both and concatenating |
| Paths.Normalize | sandboxed-fs/src/vfs.cpp:49-85 | the string code returns the printed form of the directory reached by following all segments from the root |
| Paths.ReplaceBackslashes | sandboxed-fs/src/vfs.cpp:56 | replacing backslashes changes no segment and leaves none |
| Paths.GetLine | sandboxed-fs/src/vfs.cpp:59-61 | one `getline` consumes exactly the first remaining segment |
| Paths.Print | sandboxed-fs/src/vfs.cpp:75-84 | the final loop prints the component list |
| Paths.OneMoreSegment | sandboxed-fs/src/vfs.cpp:61-70 | behind a separator of either kind, an empty segment or `.` changes nothing, `..` leads to the parent and stays at the root, any other name is entered; the backend's parser enters `..` too |
| Paths.FirstSegment | sandboxed-fs/src/vfs.cpp:49-70 | the segment a path begins with; with the row above both parsers are determined on every string |
| Paths.NormalText | sandboxed-fs/src/vfs.cpp:72-85 | the router's output has no backslash, and its segments are one empty one and the components, which determines the text |
| Paths.TestsOnText | sandboxed-fs/src/vfs.cpp:98-103 | both raw prefix tests ask whether a text goes on with `/` |
| Paths.CanonicalNormal | sandboxed-fs/src/vfs.cpp:61-70 | the router never yields an empty, `.` or `..` component, on any string |
| Paths.CanonicalRender | sandboxed-fs/src/vfs.cpp:49-85 | canonicalising inverts printing on normal component lists |
| Paths.NormalIdempotent | sandboxed-fs/src/vfs.cpp:49-85 | normalising twice is normalising once |
| Paths.NormalCompositional | sandboxed-fs/src/vfs.cpp:49-85 | the first half of a path may be normalised beforehand |
| Paths.ParsersAgree | sandboxed-fs/src/vfs_mem.cpp:10-32 | the backend's parser and the router's agree on a path if and only if it has no `..` component |
| Paths.SplitOfNormal | sandboxed-fs/src/vfs_mem.cpp:10-32 | on what the router prints the backend reads what the router meant |
| Paths.TextUnderIsPrefix | sandboxed-fs/src/vfs.cpp:98-103 | the string prefix test with its boundary check is the component-prefix test, and what is cut off is the printed rest |
| Paths.TextInsideIsInside | sandboxed-fs/src/vfs_mem.cpp:292-296 | on printed paths the cycle test is exactly "strictly below" |
| Paths.TextInsideSound | sandboxed-fs/src/vfs_mem.cpp:292-296 | on any strings a positive cycle test means a descendant or the same component list |
| FlatFsLaws.PrefixClosed | sandboxed-fs/src/vfs_mem.cpp:57-66 | every prefix of an existing path exists and every strict one is a directory |
| FlatFsLaws.ParentDirErrors | sandboxed-fs/src/vfs_mem.cpp:71-90 | parent lookup fails with ENOENT if and only if the parent is missing and with ENOTDIR if and only if it is a file |
| FlatFsLaws.UtimesCommutesWithRename | sandboxed-fs/src/vfs_mem.cpp:368-376 | the times travel with a renamed entry: stamping before or after the move gives the same file system |
| FlatFsLaws.FailureChangesNothing | sandboxed-fs/src/vfs_mem.cpp:110-376 | every call that reports an error leaves tree and inode counter untouched |
| FlatFsLaws.MakeDirsAllOrNothing | sandboxed-fs/src/vfs_mem.cpp:194-215 | recursive mkdir fails if and only if some prefix is a file, and then nothing was created although it creates as it walks |
| FlatFsLaws.MakeDirsAdds | sandboxed-fs/src/vfs_mem.cpp:194-215 | on success exactly the missing prefixes were added, and only the last directory's mode was set |
| FlatFsLaws.MkdirRecursiveTwice | sandboxed-fs/src/vfs_mem.cpp:194-215 | repeating a successful recursive mkdir changes nothing |
| FlatFsLaws.RenameSucceedsWhen | sandboxed-fs/src/vfs_mem.cpp:276-317 | the exact condition under which rename between different strings succeeds |
| FlatFsLaws.RenameRelocates | sandboxed-fs/src/vfs_mem.cpp:276-317 | a successful rename moves the subtree, leaves nothing behind and touches nothing else, if and only if the target is not inside the source; otherwise the subtree is cut off; an overwritten destination had no children |
| FlatFsLaws.RenameOfPrintedPaths | sandboxed-fs/src/vfs_mem.cpp:292-296 | between printed component lists every successful rename is such a relocation |
| FlatFsLaws.RenameRoundTrip | sandboxed-fs/src/vfs_mem.cpp:276-317 | renaming to a fresh name and back restores tree and counter if and only if the target was not inside the source |
| FlatFsLaws.RenameBackIsAllowed | sandboxed-fs/src/vfs_mem.cpp:292-296 | on the way back the cycle test never fires |
| FlatFsLaws.RenameIntoItselfWithSlash | sandboxed-fs/src/vfs_mem.cpp:292-296 | the concrete call that loses a directory, beside the spelling that is rejected |
| FlatFsLaws.EveryCallKeepsTree | sandboxed-fs/src/vfs_mem.cpp:110-376 | every call on every string keeps a proper tree of legal names in which sizes match the data |
| FlatFsLaws.RunComposes | sandboxed-fs/include/sandboxed-fs/vfs_mem.hpp:18-43 | a run is its calls one after the other, failed ones included |
| Manual.WriteFileKeepsPage | sandboxed-fs/src/vfs_mem.cpp:110-144 | the page of `writeFile`: the situation of each of three errors, and the entry that a success leaves, stat record included |
| Manual.AppendFileKeepsPage | sandboxed-fs/src/vfs_mem.cpp:146-168 | the page of `appendFile` |
| Manual.UnlinkKeepsPage | sandboxed-fs/src/vfs_mem.cpp:170-187 | the page of `unlink`: EACCES for the root, ENOENT, ENOTDIR, ENOTEMPTY, or exactly that entry is gone |
| Manual.RmdirKeepsPage | sandboxed-fs/src/vfs_mem.cpp:241-250 | the page of `rmdir`: ENOENT, ENOTDIR for files, ENOTEMPTY, EACCES for the root, or exactly that directory is gone |
| Manual.MkdirKeepsPage | sandboxed-fs/src/vfs_mem.cpp:216-238 | the page of plain `mkdir` |
| Manual.MkdirsKeepsPage | sandboxed-fs/src/vfs_mem.cpp:194-215 | the page of recursive `mkdir`: the new directories have consecutive inodes, their clock readings and exactly the requested permission bits; existing ones are unchanged but for the last one's mode |
| Manual.TruncateKeepsPage | sandboxed-fs/src/vfs_mem.cpp:348-366 | the page of `truncate`: EINVAL before ENOENT before EISDIR; the common prefix survives, growth is zero-filled |
| Manual.UtimesKeepsPage | sandboxed-fs/src/vfs_mem.cpp:368-376 | the page of `utimes` |
| Manual.RenameKeepsPage | sandboxed-fs/src/vfs_mem.cpp:276-317 | the page of `rename`: equal strings succeed without a look-up, nine error situations in order, otherwise relocation or detachment |
| Manual.CopyFileKeepsPage | sandboxed-fs/src/vfs_mem.cpp:319-346 | the page of `copyFile` |
| Manual.PagesLeaveNoChoice | sandboxed-fs/src/vfs_mem.cpp:110-376 | the pages of the one-path calls are complete: two outcomes that keep a page are equal |
| Manual.RenameIsUnique | sandboxed-fs/src/vfs_mem.cpp:276-317 | so is the page of `rename` |
| Manual.CopyFileIsUnique | sandboxed-fs/src/vfs_mem.cpp:319-346 | and that of `copyFile` |
| Manual.StatAgreesWithRead | sandboxed-fs/src/vfs_mem.cpp:265-270 | `stat` is ENOENT if and only if the path is missing, tells directories from readable files, and its size is the length of what is read |
| Manual.WriteThenStat | sandboxed-fs/src/vfs_mem.cpp:125-143 | what was written is read back; `stat` shows size and time, and the whole record of a new file |
| Manual.AppendIsWrite | sandboxed-fs/src/vfs_mem.cpp:146-168 | appending is writing what was read followed by the new data, errors included |
| Manual.MkdirThenStat | sandboxed-fs/src/vfs_mem.cpp:226-237 | `stat` shows the whole record of a new directory; removing it restores the tree |
| Manual.TruncateThenStat | sandboxed-fs/src/vfs_mem.cpp:348-366 | succeeds exactly on readable files and sizes not negative; what `stat` and `readFile` then show |
| Manual.UtimesThenStat | sandboxed-fs/src/vfs_mem.cpp:368-376 | the times given are the times shown, what any path reads is unchanged, and of two calls the last wins |
| Manual.CopyThenStat | sandboxed-fs/src/vfs_mem.cpp:319-346 | the copy reads and looks like the source but for a new inode, and the source is as before |
| Manual.RenameThenStat | sandboxed-fs/src/vfs_mem.cpp:313-315 | the target shows the source's record and contents, and the source is missing |
| Manual.OtherPathsAreUntouched | sandboxed-fs/src/vfs_mem.cpp:110-376 | every other path is seen as before by `stat` and `readFile` |
| Manual.NewBackend | sandboxed-fs/src/vfs_mem.cpp:36-48 | a new backend shows a root with mode 777 and inode 1, and nothing else |
| Inodes.CreateInodes | sandboxed-fs/src/vfs_mem.cpp:128 | one creation keeps inodes distinct and below the counter if and only if the 64-bit counter does not wrap |
| Inodes.MakeDirsInodes | sandboxed-fs/src/vfs_mem.cpp:197-209 | recursive mkdir takes exactly one number per missing prefix |
| Inodes.RelocationInodes | sandboxed-fs/src/vfs_mem.cpp:313-315 | a relocation keeps inode numbers distinct |
| Inodes.EveryCallKeepsInodes | sandboxed-fs/src/vfs_mem.cpp:110-376 | without a wrap no call makes two entries share an inode |
| Inodes.EveryRun | sandboxed-fs/include/sandboxed-fs/vfs_mem.hpp:46-53 | every run of a new backend: a proper tree, matching sizes, distinct inodes |
| MemFs.MovedIsLinked | sandboxed-fs/src/vfs_mem.cpp:307-315 | rearranging two `children` maps links exactly the relocated tree |
| MemFs.MovedIsProper | sandboxed-fs/src/vfs_mem.cpp:307-315 | after the move each node has one owner again, with the relocated contents |
| MemFs.MoveEntry | sandboxed-fs/src/vfs_mem.cpp:307-315 | the two `children` maps after the null slot, the move, the erase and the assignment, also when they are the same map |
| MemFs.KeysInOrder | sandboxed-fs/src/vfs_mem.cpp:258-262 | iteration visits every key once, in ascending string order |
| MemFs.LessIsFirstDifference | sandboxed-fs/src/vfs_mem.cpp:258-262 | the order of names: a name precedes its extensions, otherwise the first difference decides |
| MemFs.MemFSBackend.constructor | sandboxed-fs/src/vfs_mem.cpp:36-48 | a new backend is the flat file system with only the root |
| MemFs.MemFSBackend.WalkTo | sandboxed-fs/src/vfs_mem.cpp:50-69 | finds the node exactly if the component list is in the flat map, with its parent and name; otherwise ENOENT |
| MemFs.MemFSBackend.ParentDir | sandboxed-fs/src/vfs_mem.cpp:71-90 | the loop's node or error is the flat lookup's |
| MemFs.MemFSBackend.ReadFile | sandboxed-fs/src/vfs_mem.cpp:92-108 | value or error of the flat read |
| MemFs.MemFSBackend.GetStat | sandboxed-fs/src/vfs_mem.cpp:265-272 | value or error of the flat stat |
| MemFs.MemFSBackend.Exists | sandboxed-fs/src/vfs_mem.cpp:274 | true exactly for the paths of the flat map |
| MemFs.MemFSBackend.Readdir | sandboxed-fs/src/vfs_mem.cpp:252-263 | exactly the child names, ascending; ENOENT and ENOTDIR told apart |
| MemFs.MemFSBackend.Access | sandboxed-fs/src/vfs_mem.cpp:378-395 | granted exactly if the owner bits include all requested ones |
| MemFs.OwnerRights | sandboxed-fs/src/vfs_mem.cpp:384-392 | the rights a new directory grants are the owner bits it was created with; a new file may be read and written, not executed |
| MemFs.MemFSBackend.WriteFile | sandboxed-fs/src/vfs_mem.cpp:110-144 | refines the flat write: same result, same whole new state, proper heap tree kept |
| MemFs.MemFSBackend.AppendFile | sandboxed-fs/src/vfs_mem.cpp:146-168 | refines the flat append |
| MemFs.MemFSBackend.Unlink | sandboxed-fs/src/vfs_mem.cpp:170-187 | refines the flat unlink |
| MemFs.MemFSBackend.Mkdir | sandboxed-fs/src/vfs_mem.cpp:189-239 | refines the flat mkdir |
| MemFs.MemFSBackend.MkdirRecursive | sandboxed-fs/src/vfs_mem.cpp:194-215 | the walking loop refines the flat recursion, errors in the middle included |
| MemFs.MemFSBackend.Rmdir | sandboxed-fs/src/vfs_mem.cpp:241-250 | refines the flat rmdir |
| MemFs.MemFSBackend.Rename | sandboxed-fs/src/vfs_mem.cpp:276-317 | refines the flat rename on every pair of strings, the lost subtree included |
| MemFs.MemFSBackend.CopyFile | sandboxed-fs/src/vfs_mem.cpp:319-346 | refines the flat copy |
| MemFs.MemFSBackend.Truncate | sandboxed-fs/src/vfs_mem.cpp:348-366 | refines the flat truncate |
| MemFs.MemFSBackend.Utimes | sandboxed-fs/src/vfs_mem.cpp:368-376 | refines the flat utimes |
| MemFs.MemFSBackend.ServeAll | sandboxed-fs/include/sandboxed-fs/vfs_mem.hpp:18-43 | after any list of calls the heap is a proper tree and its state is the flat run's |
| Mounts.CheckBackendConflict | sandboxed-fs/src/vfs.cpp:11-25 | true exactly if no backend has two permissions |
| Mounts.LowerBound | sandboxed-fs/src/vfs.cpp:44-45 | the first place whose prefix is not longer |
| Mounts.SortMounts | sandboxed-fs/src/vfs.cpp:29-30 | some arrangement of the same mounts by descending prefix size |
| Mounts.FindMount | sandboxed-fs/src/vfs.cpp:87-120 | the early-exit loop answers with the first matching mount |
| Mounts.MatchIsCover | sandboxed-fs/src/vfs.cpp:92-103 | any mount matches a canonical path exactly if its prefix is empty or canonically spelled and its component list is a prefix |
| Mounts.AnswerIsLanding | sandboxed-fs/src/vfs.cpp:105-116 | for any mount, what the backend parses from the string glued together, as a component list |
| Mounts.LandingIsTarget | sandboxed-fs/src/vfs.cpp:91-116 | that is the backend path followed by the rest if and only if the backend path names the root, or is longer than one character under a prefix other than `/`, or the path is the very place of a mount below the root |
| Mounts.LongestPrefixWins | sandboxed-fs/src/vfs.cpp:87-120 | in any table the answer is that of the mount with the longest component prefix, its refusal is final, and the backend reads the landing; on canonical spellings the text is the printed target |
| Mounts.UncoveredIsRefused | sandboxed-fs/src/vfs.cpp:119 | in any table a path no mount covers is EACCES |
| Mounts.BestExists | sandboxed-fs/src/vfs.cpp:87-120 | there is a longest covering mount if and only if some mount covers the path |
| Mounts.OrderIsIrrelevant | sandboxed-fs/src/vfs.cpp:27-47 | with distinct prefixes, however spelled, the order of mounting decides nothing |
| Mounts.LandingInjective | sandboxed-fs/src/vfs.cpp:105-116 | within one mount different virtual paths meet in the backend in exactly one case: the place of a mount with a one-letter backend path and the path of that letter below it |
| Mounts.NestedMountIsTransparent | sandboxed-fs/include/sandboxed-fs/vfs.hpp:18-22 | mounting, in any table, a visible directory again at its own place leaves the answer for a path as it was if and only if the new mount does not answer for it, refuses, is addressed at its own place, or does not drop its backend path |
| Mounts.RootMountIgnoresBackendPath | sandboxed-fs/src/vfs.cpp:91-96 | in any table a granting mount at `/` answers with the path itself; that is the path it is meant to show if and only if its backend path names the root |
| Mounts.PermissionDecides | sandboxed-fs/src/vfs.cpp:105-106 | access is granted if and only if the best mount has the bit of every right asked for; otherwise it is EACCES |
| Mounts.GrantedByAllMounts | sandboxed-fs/src/vfs.cpp:87-120 | in a consistent table every mount of the granted backend has the bit of every right asked for |
| Worlds.NewestMountWins | sandboxed-fs/src/vfs.cpp:44-46 | a mount added at a taken prefix shadows the older one |
| Worlds.MountRequest | sandboxed-fs/src/vfs.cpp:33-47 | `mount` is accepted if and only if no mount of that backend has another permission; the table gains that one entry, and a known backend keeps its state |
| Worlds.EveryRequestKeepsSound | sandboxed-fs/src/vfs.cpp:131-216 | every request and mount keeps the table ordered and consistent and every disk a proper tree |
| Worlds.FailedRequestChangesNothing | sandboxed-fs/src/vfs.cpp:131-216 | a request that reports an error, a rejected mount included, changes nothing |
| Worlds.WritesMissReadOnly | sandboxed-fs/src/vfs.cpp:105-106 | a backend mounted without Write is never the one a write resolves to |
| Worlds.ReadOnlyBackendIsConstant | sandboxed-fs/include/sandboxed-fs/vfs.hpp:25-28 | its state is constant along every run of requests and further mounts |
| Worlds.RunsCompose | sandboxed-fs/include/sandboxed-fs/vfs.hpp:25-28 | a run is its requests one after the other |
| Worlds.KnowingChangesNothing | sandboxed-fs/src/vfs.cpp:33-47 | no run looks at a backend that is not mounted yet: having its state on record from the start gives the same run |
| Worlds.OneRequest | sandboxed-fs/src/vfs.cpp:139-177 | every one-path mutating request: EACCES without the Write bit on the best mount; with it the outcome that the call's page promises, at the landing of the path, on that disk only |
| Worlds.ReadRequest | sandboxed-fs/src/vfs.cpp:131-149 | a read needs the Read bit, then sees the contents or the error at the landing of the path |
| Worlds.MoveRequest | sandboxed-fs/src/vfs.cpp:188-199 | a rename needs the Write bit of both mounts, is EXDEV between backends, and otherwise has the outcome that the page of `rename` promises |
| Worlds.CopyRequest | sandboxed-fs/src/vfs.cpp:201-216 | a copy needs Read at the source and Write at the target; within a backend it keeps the page of `copyFile`, between two it is a read and a write |
| Worlds.UncoveredRequest | sandboxed-fs/src/vfs.cpp:119 | a request on a path no mount covers is EACCES and changes nothing |
| Worlds.WriteThenRead | sandboxed-fs/src/vfs.cpp:147-153 | after a successful write every path to the same file reads the data, every other path what it read before |
| Worlds.WriteThenReadBack | sandboxed-fs/src/vfs.cpp:147-153 | in particular every path with the same normal form |
| Worlds.BackendSeesTarget | sandboxed-fs/src/vfs.cpp:105-116 | in any table the backend reads the path the answering mount is meant to show if and only if that mount does not drop its backend path, or is addressed at its own place |
| Worlds.SameMountSameFile | sandboxed-fs/src/vfs.cpp:87-120 | within one mount the file written is the file read if and only if the two paths normalise alike or are the pair that a one-letter backend path folds |
| Worlds.MoveRelocates | sandboxed-fs/src/vfs.cpp:188-199 | with any table a successful rename through the router changes one backend only and is an exact relocation there if and only if the target does not land inside the source; under canonical mounts, or one mount that does not drop its backend path, it never does |
| Worlds.RelativeBackendPathLosesDirectory | sandboxed-fs/src/vfs.cpp:107-113 | the concrete table and rename that lose a directory through a one-letter backend path |
| Worlds.CopyArrives | sandboxed-fs/src/vfs.cpp:201-216 | after a copy, within or between backends, every path to the target reads what the source read, every other path what it read before |
| VirtualFs.VirtualFS.Create | sandboxed-fs/src/vfs.cpp:27-31 | rejects exactly the inconsistent tables and otherwise holds the same mounts, ordered |
| VirtualFs.VirtualFS.AddMount | sandboxed-fs/src/vfs.cpp:33-47 | refines the table insertion; a conflict changes nothing |
| VirtualFs.VirtualFS.DispatchWrite | sandboxed-fs/src/vfs.cpp:139-177 | every one-path mutating call refines resolve-then-perform; other backends do not notice |
| VirtualFs.VirtualFS.ReadFile | sandboxed-fs/src/vfs.cpp:131-149 | the value or error of the resolved read |
| VirtualFs.VirtualFS.Exists | sandboxed-fs/src/vfs.cpp:181-186 | true exactly if a readable mount answers and its backend has the path |
| VirtualFs.VirtualFS.Access | sandboxed-fs/src/vfs.cpp:218-224 | the mount must grant what the mode asks for before the backend's mode bits decide |
| VirtualFs.NeededPermForAccess | sandboxed-fs/src/vfs.cpp:122-129 | Read is needed exactly for the read bit, Write exactly for the write bit, nothing else |
| VirtualFs.VirtualFS.Rename | sandboxed-fs/src/vfs.cpp:188-199 | refines resolve twice, EXDEV across backends, rename within |
| VirtualFs.VirtualFS.CopyFile | sandboxed-fs/src/vfs.cpp:201-216 | refines the backend copy, or a read and a write across backends |
| VirtualFs.VirtualFS.ServeAll | sandboxed-fs/include/sandboxed-fs/vfs.hpp:25-28 | after any list of requests and mounts, of backends not mounted before too, the router and all node trees are valid and stand for the run of the simple model |
| VirtualFs.VirtualFS.ServeAllReadOnly | sandboxed-fs/include/sandboxed-fs/vfs.hpp:25-28 | along such a list the node tree of a backend mounted without Write keeps its contents |
| TimerSpec.PassCallsDueInOrder | src/context.cpp:142-185 | if callbacks schedule nothing that is due in the pass already and no timer is stuck, a pass calls only timers due at its start, in order of expiry, each once, none that an earlier callback cancelled |
| TimerSpec.PassMissesNone | src/context.cpp:142-185 | whatever the callbacks do, a finished pass called every due timer that no callback of the pass cancelled |
| TimerSpec.FireAndDue | src/context.cpp:157-183 | one turn, whatever its callback does: which timers are due after it, as an if and only if, its own included |
| TimerSpec.NewDueIff | src/context.cpp:87-104 | a timer that a callback creates takes the next id, lives on unless the callback cancels it again, is as ordered, and is due in the same pass if and only if its delay has run out at the clock reading of the pass |
| TimerSpec.TurnLaw | src/context.cpp:157-183 | after one turn a timer lives on if and only if the callback did not cancel it and it is not the one-shot timer whose turn it was; the exact next expiry of the one that is rearmed |
| TimerSpec.PassEndsIff | src/context.cpp:142-185 | whatever the callbacks, so long as they schedule nothing due in the pass already, the pass can end: this holds if and only if no due timer repeats with an interval below one millisecond |
| TimerSpec.StuckNeverEnds | src/context.cpp:175-179 | while such a timer is due and no callback cancels it, no sequence of calls ends the pass |
| TimerSpec.ZeroIntervalNeverEnds | src/bindings/timers.cpp:16-24 | `setInterval(f, 0)` in a new context leads there |
| TimerSpec.ChainedPassNeverEnds | src/context.cpp:142-185 | if every callback ends by scheduling a timer that is due at once, a pass that finds a due timer never ends |
| TimerSpec.RearmBounds | src/context.cpp:175-179 | the new expiry lies in (now, now + interval], on the old grid when less than one interval late |
| TimerSpec.NeverTooEarly | src/context.cpp:175-179 | over every run, each call of a timer moves its expiry on by at least one interval, however late callbacks run |
| TimerSpec.NthCallOnTime | src/context.cpp:93-95 | so a timer set up with delay `ms` that was called n times in a run is not due again before its start plus n + 1 times `ms` |
| TimerSpec.TimerLife | src/context.cpp:169-183 | over every run that does not cancel it, a one-shot timer is called at most once and lives until then, an interval timer lives on, and nothing but a call changes it |
| TimerSpec.TimeoutRunsOnce | src/context.cpp:175-183 | `setTimeout`: unless cancelled it has been called exactly once when a clock past its time finds nothing due, and is gone |
| TimerSpec.NeverTooLate | src/context.cpp:175-179 | the next call of a timer is never put off by more than one interval beyond the latest pass |
| TimerSpec.IntervalGoesOn | src/context.cpp:175-179 | `setInterval`: unless cancelled it stays, next due after the latest pass and at most one interval later |
| TimerSpec.CancelInsidePass | src/context.cpp:169-173 | a callback that cancels a timer given out by then, its own or one created in the same pass included, ends that timer's calls for the pass |
| TimerSpec.CancelledIsNeverCalled | src/context.cpp:106-111 | once a timer given out by then has been cancelled, by the script or inside a callback, no later handler of the run calls it |
| TimerSpec.NeverCalledAgain | include/context_state.hpp:44-46 | an id that was given out and is no longer live is never called again, because ids are not reused |
| TimerLoop.AgreeAfterRearm | src/context.cpp:175-179 | pushing the rearmed timer restores the agreement of heap and map |
| TimerLoop.AgreeAfterRetire | src/context.cpp:180-183 | erasing the entry whose turn is over restores it too |
| TimerLoop.RefsAfterDup | src/context.cpp:92-97 | duplicating a function for a new entry keeps one reference per holder |
| TimerLoop.RefsAfterFree | src/context.cpp:160-161 | freeing on erase keeps one reference per holder and never frees too much |
| TimerLoop.SandboxContext.NoLostWakeUp | src/context.cpp:113-140 | between handlers no live timer expires before the armed deadline, which belongs to a heap entry |
| TimerLoop.SandboxContext.ScheduleTimer | src/context.cpp:87-104 | refines adding one live timer; the deadline stays the heap minimum although it is armed only for a new top |
| TimerLoop.SandboxContext.CancelTimer | src/context.cpp:106-111 | refines removing one live timer, leaving a tombstone |
| TimerLoop.SandboxContext.ArmNextTimer | src/context.cpp:113-140 | drops dead tops, then the deadline is armed exactly if the heap has an entry, for its minimum; no live timer is lost |
| TimerLoop.SandboxContext.JsCall | src/context.cpp:165 | re-entrant actions, whatever they are, refine their sequence; forward ones add nothing due to the running pass |
| TimerLoop.SandboxContext.ProcessExpiredTimers | src/context.cpp:142-185 | terminates and is a complete pass of the simple service whose k-th call does what the k-th callback does, or stops at the first callback that throws |
| TimerLoop.SandboxContext.EndTurn | src/context.cpp:169-183 | retire, rearm or release exactly as the simple service does |
| TimerLoop.SandboxContext.HandleWait | src/context.cpp:134-139 | such a pass followed by arming restores the between-handlers invariant; an exception skips the arming |
| TimerLoop.SandboxContext.Run | src/context.cpp:201-214 | the k-th step answers the k-th event: the script's action, or a complete pass of that event's callbacks after which no timer is due, whether or not the deadline had been reached; the final state is theirs; otherwise the run stops in the pass whose callback threw |
| TimerLoop.FollowsIsRun | src/context.cpp:201-214 | those steps are a run of the simple service, so what is proved of its runs holds of them |
| TimerLoop.SandboxContext.Destroy | src/context.cpp:54-59 | from any state, after an exception too, every held reference is given back |

## Left out

- TimerLoop.SandboxContext.ProcessExpiredTimers: assumes, so that the pass ends, that no due timer repeats below one millisecond and that no callback schedules a timer that is due in the same pass already; the code enforces neither. `TimerSpec.PassEndsIff` shows the first to be necessary, `TimerSpec.NewDueIff` and `TimerSpec.ChainedPassNeverEnds` say what the second excludes.
- TimerLoop.SandboxContext.JsCall: a callback is an arbitrary finite list of schedule and cancel actions and a flag whether it throws; values, microtasks and promise rejections are not modelled.
- TimerLoop.SandboxContext.HeapPush: stands for the library's priority queue; among equal expiries any entry may be on top.
- TimerLoop.SandboxContext.Run: assumes that repeating timers are given at least one millisecond and that no callback schedules a timer that is due in its own pass already, for the same reason; asio's dispatch is "the pending wait may run its handler once its deadline has passed"; `stop()`, `join()` and sockets are not modelled.
- TimerLoop.SandboxContext.EndTurn: addresses the map by id after the callback; validity of the iterator held across insertions is not modelled.
- Mounts.SortMounts: the order `std::sort` gives to prefixes of equal size is left open; only that some descending arrangement results.
- VirtualFs.VirtualFS.AddMount: the exception for a conflicting mount is reported as EINVAL; likewise in `Create`.
- VirtualFs.VirtualFS.ServeAll: a backend that the list mounts is put on ghost record beforehand (`Register`), which by `Worlds.KnowingChangesNothing` makes no difference to the run.
- VirtualFs.VirtualFS.DispatchWrite: one method stands for the macro and its seven expansions.
- MemFs.MemFSBackend.ReadFile: `readFile` and `readFileBytes` differ only in the type of the returned bytes and are one method; `stat` and `lstat` likewise.
- `readdir`, `stat` and `lstat` through the router: the same dispatch as `readFile`, so they would add only easy members.
- `RealFSBackend`: rests on the operating system and `std::filesystem`; every backend of the model is in memory.
- Clock readings (`nowMs`, `steady_clock::now`) are arguments of the calls that make them; recursive mkdir takes one per created directory.
- Integer widths: only the inode counter wraps around in the model; file sizes, times and timer ids are unbounded.
- Allocation failure, and the memory of a subtree that `rename` cuts off, are not modelled.
