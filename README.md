# jem-util file, config, env and error helpers in Dafny

This project models the core of the jem-util utility library:
- `src/file.ts`, the filesystem helpers: reading, writing, copying, moving and deleting files, plus the recursive `copyDirectory`, `moveDirectory` and `deleteDirectory`;
- `src/config.ts`, the module-level configuration object saved to and loaded from a JSON file;
- `src/env.ts`, environment lookup;
- `src/error.ts`, the `AppError` family the other helpers raise.

The filesystem is a map from paths to nodes, where a path is a sequence of names. A node is `File(text)` or `Dir`. The map is well formed when:
- the root is a directory;
- every other path sits below a directory.

Each Node `fs` call the helpers use is an `Fs…` method of the `Files.FileSystem` class. The class holds the tree in a field that those methods update. For each call, `FsModel` defines when it succeeds and what the tree is afterwards.

A call fails when its natural condition fails, for example reading a path that is not a file. It also fails when the pair (call, path) is in the filesystem's fixed `faults` set, which stands for permissions and disk errors that the model does not examine. An error that a helper passes through untranslated is `Sys(call, path)`. An application error is `App(AppError)`.

The helpers are methods of `FileSystem` built from those calls, with the same checks, order and messages as `src/file.ts`. `copyDirectory` is proved against the specification in `CopyModel`:
- `CopySucceeds`: the copy goes through exactly when this holds.
- `CopyResult`: the tree after a copy that goes through.
- `Between`, `Copied` and `SameBelow`: what a copy that fails part way leaves behind. Completed entries stay copied, and nothing is rolled back.

`src/config.ts` is the class `Config.ConfigStore`. It holds the `config` map and works on a `FileSystem`. `JSON.parse` and `JSON.stringify` are functions passed in, returning `None` when they would throw. The environment of `src/env.ts` is a map passed to the two functions.

Paths are shown in messages as their names joined with `/`, and the root as `.`.

## Model

| member | source | states |
|---|---|---|
| Paths.GetDirName | src/file.ts:73-75 | the directory of the root is the root; any other path loses exactly its last name, and the result is its ancestor |
| Paths.JoinPath | src/file.ts:64-66 | no segments give the root, and one group of segments is joined to itself |
| Paths.JoinPathPrefixes | src/file.ts:64-66 | joining a leading group of the segments gives a prefix of joining them all |
| Paths.JoinPathAppend | src/file.ts:64-66 | joining two groups of segments is joining their concatenation |
| Paths.DirNameOfJoin | src/file.ts:64-75 | `getDirName(joinPath(dir, name))` gives back `dir` |
| Paths.JoinChild | src/file.ts:210-211 | `path.join(dir, entry)` is `dir` with the one name `entry` added |
| Paths.ChildrenDisjoint | src/file.ts:210-211 | the source and target paths of one entry are disjoint when the source and target directories are |
| Errors.NewAppError | src/error.ts:9-20 | an `AppError` keeps its message and status code, `isOperational` defaults to true, and its name is `AppError` |
| Errors.ValidationError | src/error.ts:33-37 | status 400, operational, an instance of `AppError` and of no other subclass |
| Errors.NotFoundError | src/error.ts:42-46 | status 404, operational, an instance of `AppError` and of no other subclass |
| Errors.InternalServerError | src/error.ts:51-55 | status 500, operational, an instance of `AppError` and of no other subclass |
| Errors.SubclassFromStatus | src/error.ts:33-55 | among the three subclasses with one message, the status code determines the subclass, and each is operational |
| Env.GetEnv | src/env.ts:10-19 | a set variable gives its value with or without a default; an unset one gives the default, or a 404 NotFoundError when there is none |
| Env.ValidateEnv | src/env.ts:26-30 | fails, with a 400 ValidationError, exactly when the variable is unset |
| Env.ValidateAgreesWithGetEnv | src/env.ts:10-30 | validation passes exactly when a lookup without a default succeeds, and then the default is ignored |
| Env.EmptyStringIsSet | src/env.ts:10-30 | a variable set to the empty string is set: its value is returned and validation passes |
| FsModel.InChildren | src/file.ts:205 | a name is listed by `readdir` of `p` exactly when `p` joined with it exists |
| FsModel.AncestorIsDir | src/file.ts:192-228 | in a well-formed tree every proper ancestor of an existing path is a directory |
| FsModel.EmptyDirHasNothingBelow | src/file.ts:205-209 | a directory with no entries has nothing below it |
| FsModel.WithAncestorsAreDirs | src/file.ts:46 | after a recursive `mkdir`, the path and all its ancestors are directories |
| FsModel.WithAncestorsIdempotent | src/file.ts:199 | a second recursive `mkdir` of the same path changes nothing |
| FsModel.MkdirKeepsWellFormed | src/file.ts:199 | a recursive `mkdir` with no file in the way keeps the tree well formed |
| FsModel.RemoveKeepsWellFormed | src/file.ts:241-252 | removing a subtree other than the root keeps the tree well formed |
| FsModel.RenameKeepsWellFormed | src/file.ts:100 | an accepted rename keeps the tree well formed |
| FsModel.RenameDisjoint | src/file.ts:100 | a rename that is accepted, between two different paths, moves a subtree to a place disjoint from it |
| FsModel.CopyResultWellFormed | src/file.ts:192-228 | a finished copy is well formed when no ancestor of the target is a file and no file lands on a directory |
| FsModel.CopyAddsOutsideSource | src/file.ts:192-228 | every path a copy adds lies outside its source |
| FsModel.FilesAmongMembers | src/file.ts:183 | the filtered names are exactly the listed names that are files, without repeats when the listing has none |
| FsModel.FilesAmongListing | src/file.ts:183 | filtering a listing of a directory gives a listing of exactly its files |
| CopyModel.SplitSucceeds | src/file.ts:198-227 | a directory copy goes through exactly when the target can be created, the source read, and every entry copied |
| CopyModel.EntryEquivalence | src/file.ts:210-226 | one turn of the loop goes through, on the tree the earlier turns left, exactly when that entry's subtree can be copied from the starting tree |
| CopyModel.FileSourceFails | src/file.ts:204-208 | a copy whose source is a file does not go through, since reading it as a directory fails |
| CopyModel.MkdirStep | src/file.ts:198-202 | creating the target is a first step towards the finished copy |
| CopyModel.SourceKept | src/file.ts:192-228 | any state between the start and the finished copy agrees with the start at and below the source |
| CopyModel.FrameOutside | src/file.ts:192-228 | such a state agrees with the start at and below every path disjoint from the target |
| CopyModel.CopiedByStep | src/file.ts:218-225 | copying an entry that has not changed puts its whole subtree at its place below the target |
| CopyModel.LiftBetween | src/file.ts:218-219 | a nested copy, part way or finished, is still between the start of the outer copy and its finished state |
| CopyModel.FileCopyResult | src/file.ts:222 | copying a single file is the finished copy of a one-node subtree: the target takes the source file's contents |
| CopyModel.Complete | src/file.ts:209-227 | once every entry is copied into the created target, the tree is exactly the finished copy |
| CopyModel.LoopStart | src/file.ts:198-209 | after the target is created, the loop starts with no entry copied and every entry's target untouched |
| CopyModel.AfterEntry | src/file.ts:209-227 | after a turn, finished or not, the earlier entries stay copied and the later entries' targets stay untouched |
| CopyModel.LoopNext | src/file.ts:209-227 | a finished turn moves the loop state on by one entry |
| CopyModel.LoopEnd | src/file.ts:209-227 | after the last turn the tree is the finished copy |
| CopyModel.UnderShrinks | src/file.ts:218-219 | an entry's subtree is strictly smaller than its directory's, so the recursion ends |
| CopyModel.CopyPlacesSource | src/file.ts:209-227 | a finished copy has every node of the source, the source itself included, at the same relative path below the target; an empty source gives an existing target directory |
| CopyModel.EmptySourceCopy | src/file.ts:199-209 | copying a directory with no entries only creates the target and its missing ancestors |
| CopyModel.StepErrorWiden | src/file.ts:217-219 | the error of the nested copy of an entry is a step error of the enclosing copy, at a path below it |
| CopyModel.CopyKeepsSource | src/file.ts:192-228 | a finished copy leaves the source and everything below it unchanged |
| CopyModel.CopyKeepsOutside | src/file.ts:192-228 | a copy changes nothing outside the target; the only new paths outside it are the target's created ancestors |
| CopyModel.CopyIdempotent | src/file.ts:199-222 | copying a second time onto the finished copy changes nothing |
| CopyModel.CopyAgainSucceeds | src/file.ts:192-228 | a copy that went through goes through again on the tree it left |
| CopyModel.RenameFileMoves | src/file.ts:96-101 | renaming a file gives the target the file's contents and removes the source path, and nothing else changes |
| CopyModel.RelocatedAfterCopy | src/file.ts:236-239 | removing the source after a finished copy gives the moved tree |
| CopyModel.RelocatedMoves | src/file.ts:230-239 | after a move the source's nodes are below the target, nothing remains at or below the source, and every other path outside the target keeps its node |
| CopyModel.MoveLeavesSourceExample | src/file.ts:236-252 | moving `a`, which holds `a/f`, to `b` goes through, and `a/f` is still there next to `b/f` |
| Files.FileSystem.FsExists | src/file.ts:12 | `existsSync` and `access` report exactly whether the path exists |
| Files.FileSystem.FsReadFile | src/file.ts:15 | `readFileSync` yields the file's text exactly when the path is a readable file, and otherwise raises its own error on that path |
| Files.FileSystem.FsWriteFile | src/file.ts:25 | `writeFileSync` succeeds exactly when the path is writable (its directory exists, it is no directory, it is not refused); the path then holds the content and nothing else changes, and on failure nothing changes |
| Files.FileSystem.FsAppendFile | src/file.ts:170 | `appendFileSync` succeeds exactly when the path is writable and the call not refused; the file then holds its old text (or nothing) followed by the content, and on failure nothing changes |
| Files.FileSystem.FsUnlink | src/file.ts:37 | `unlinkSync` succeeds exactly when the path is an unrefused file; exactly that path is then removed, and on failure nothing changes |
| Files.FileSystem.FsStat | src/file.ts:214 | `stat`/`statSync` of an existing, unrefused path yields stats whose `isFile`/`isDirectory` match its node, and otherwise raises its own error on that path |
| Files.FileSystem.FsReaddir | src/file.ts:205 | a successful `readdir` lists every entry of the directory exactly once; it fails exactly when the path is no readable directory |
| Files.FileSystem.FsMkdir | src/file.ts:199 | a recursive `mkdir` succeeds unless a file is in the way or it is refused; it adds the path and its missing ancestors |
| Files.FileSystem.FsCopyFile | src/file.ts:222 | `copyFile` of a file onto a writable path gives the target the source's contents |
| Files.FileSystem.FsRename | src/file.ts:100 | `renameSync` moves the subtree when it is accepted, and otherwise changes nothing |
| Files.FileSystem.FsRemove | src/file.ts:241-252 | a recursive removal deletes the path and everything below it |
| Files.FileSystem.ReadFile | src/file.ts:11-16 | a missing path is a NotFoundError; otherwise the file's text, or the raw read error for a directory or a refused read |
| Files.FileSystem.WriteFile | src/file.ts:24-26 | writes the text when the parent is a directory and the path is not one; otherwise the raw write error and no change |
| Files.FileSystem.DeleteFile | src/file.ts:33-38 | a missing path is a NotFoundError and nothing changes; otherwise removes exactly that file, or fails with the raw unlink error |
| Files.FileSystem.CreateDirectory | src/file.ts:44-48 | an existing path is left alone; otherwise the path and its ancestors become directories, or the raw mkdir error and no change |
| Files.FileSystem.Exists | src/file.ts:55-57 | true exactly when the path exists |
| Files.FileSystem.CopyFile | src/file.ts:83-88 | a missing source is a NotFoundError and nothing changes; otherwise the target gets the source's contents and the source stays |
| Files.FileSystem.MoveFile | src/file.ts:96-101 | a missing source is a NotFoundError; a moved file is at the target and no longer at the source |
| Files.FileSystem.ReadDirectory | src/file.ts:109-114 | a missing path is a NotFoundError; otherwise every entry listed exactly once, or the raw readdir error |
| Files.FileSystem.GetStats | src/file.ts:122-127 | a missing path is a NotFoundError; otherwise stats whose isFile and isDirectory match the node, exactly one of them true |
| Files.FileSystem.ReadJsonFile | src/file.ts:136-143 | the parsed contents of the file; read errors are passed on, and only a parse failure becomes a ValidationError |
| Files.FileSystem.WriteJsonFile | src/file.ts:151-158 | writes the serialised data, or changes nothing, and a serialisation or write failure is the ValidationError |
| Files.FileSystem.AppendToFile | src/file.ts:166-171 | the file afterwards holds its old contents, or nothing if it did not exist, followed by the appended text |
| Files.FileSystem.ListFilesInDirectory | src/file.ts:179-184 | exactly the files of the directory, in listing order; a failing stat ends it with the first failing entry's error |
| Files.FileSystem.CopyDirectory | src/file.ts:192-228 | a missing source is a NotFoundError with no change. A target that cannot be created is the "Failed to create directory" error with no change. A source that cannot be listed is the "Failed to read directory" error, leaving only the created target. Every other failure is a 500 step error (create, read, stat or copy) naming a path below the first listed entry that cannot be copied, all entries before it being copied. It goes through exactly when `CopySucceeds`, and then the tree is the finished copy |
| Files.FileSystem.CopyEntries | src/file.ts:209-227 | the loop goes through exactly when every entry can be copied; a failure is at the first entry, in listing order, that cannot be copied, and raises a step error naming a path below it; the entries before it could be copied and stay copied, and the targets of those after it are untouched |
| Files.FileSystem.CopyTurn | src/file.ts:209-227 | one turn goes through exactly when its entry can be copied, and then the loop state moves on |
| Files.FileSystem.CopyEntry | src/file.ts:210-226 | a failed stat is the "Failed to get stats for" error naming the entry, and a failed file copy is the "Failed to copy file" error naming both paths; both leave the tree unchanged. A directory entry is copied by the nested call |
| Files.FileSystem.MoveDirectory | src/file.ts:236-239 | goes through exactly when the copy does; a copy failure is passed on before any deletion, as the copy's step error (the create and read failures with their exact messages); afterwards the source is still in place; a file source leaves only the created target |
| Files.FileSystem.DeleteDirectory | src/file.ts:246-252 | fails with a NotFoundError exactly when the path is missing, and changes nothing |
| Files.FileSystem.RemoveDirectory | src/file.ts:241-252 | a missing path is a NotFoundError; a removal that goes through leaves nothing at or below the path and everything else as it was |
| Files.FileSystem.RelocateDirectory | src/file.ts:230-239 | goes through exactly when the copy and the removal do, and then the tree is the moved tree; when the copy goes through but the removal fails, the tree is the finished copy and the raw `rm` error is raised; a failed copy raises the copy's step error with status 500 (the create and read failures with their exact messages), and a file source leaves only the created target |
| Config.Loaded | src/config.ts:16-26 | loading succeeds exactly when the file can be read and parsed; a missing file is a 404, every other failure a 400 |
| Config.SaveThenLoad | src/config.ts:16-44 | loading what was saved gives back the saved configuration whenever parsing reads back what serialising wrote |
| Config.SavedFrame | src/config.ts:33-44 | saving changes no existing path other than the configuration file |
| Config.ConfigStore.LoadConfig | src/config.ts:16-26 | on success the parsed object replaces the configuration wholesale; on any failure it is kept |
| Config.ConfigStore.SaveConfig | src/config.ts:33-44 | creates the missing directory, then writes the serialised configuration; every failure is the one ValidationError; the configuration is not changed |
| Config.ConfigStore.GetConfig | src/config.ts:51-53 | the value of a set key, None for one never set |
| Config.ConfigStore.SetConfig | src/config.ts:60-62 | the key takes the value and every other key is unchanged |

## Left out

- Files.FileSystem.CopyDirectory: requires the source and the target to be disjoint. The code accepts a target inside the source, and then recursion only ends at the platform's path-length limit, since the new target shows up in the source's listing. It also accepts a source inside its target, where the copy can write into its own source: copying `d/x` that holds `d/x/x/f` to `d` adds `d/x/f`. The target equal to the source is excluded too, although the code then only walks the tree once, copying each file onto itself. The same precondition is on MoveDirectory and RelocateDirectory.
- Files.FileSystem.CopyDirectory: for a copy that fails part way, the contract bounds the tree rather than naming it:
  - every path holds its old node or its final one;
  - the entries completed before the failure are fully copied, and each of them could be copied;
  - the entry that failed is the first in listing order whose copy cannot go through;
  - the targets of the entries after it are untouched.
  The entry being copied when the failure happened is only bounded.
- Files.FileSystem.CopyDirectory / CopyEntries / MoveDirectory / RelocateDirectory: a failure after the lookup is stated as one of the four step errors ("Failed to create directory", "Failed to read directory", "Failed to get stats for", "Failed to copy file") naming a path at or below the first entry that cannot be copied. The contract does not pin down which path below that entry the message names, nor tie it to the first node there whose step fails. Only the create and read failures of the top-level copy carry their exact message.
- The loop body of `copyDirectory` is split across CopyEntries, CopyTurn and CopyEntry, so that each proof stays small. Together they make the same calls, in the same order, as the single loop of the source.
- Paths: `path.join` and `path.dirname` are modelled on name sequences. No `.`/`..` normalisation, no absolute/relative distinction, no trailing separators. Error messages show a path as its names joined by `/`.
- Files hold decoded text. Encodings, bytes, file modes, timestamps, symlinks and all `fs.Stats` fields other than `isFile`/`isDirectory` are not modelled.
- Permissions and disk errors are a fixed set of refused (call, path) pairs rather than modelled causes. A refusal of a two-path call is keyed on its source path.
- The details of Node's `fs` calls are simplified to the conditions in FsModel. One example is which directories `rename` may replace.
- The order of a directory listing is left to the platform: any order with each entry once.
- The async/await framing of `copyDirectory`, `moveDirectory` and `deleteDirectory` is modelled by sequential methods; no other process changes the tree meanwhile.
- Config.ConfigStore.GetConfig / SetConfig: the configuration is a plain map. It has no keys inherited from `Object.prototype`: `getConfig('toString')` or `getConfig('constructor')` on a fresh configuration returns an inherited value in the source, and None here. A `__proto__` key is an ordinary key here. In the source, `setConfig('__proto__', v)` replaces the object's prototype instead, so the key is not listed and `JSON.stringify` leaves it out of the saved file.
- Config.ConfigStore.LoadConfig: `JSON.parse` is modelled as yielding a key/value object. A file holding some other JSON value (an array, a number) is outside the model, although the source would store it as the configuration.
- `JSON.parse` and `JSON.stringify` are uninterpreted: functions passed in that return None where they throw.
- The `typeof content !== 'string'` check of `appendToFile` (src/file.ts:167-169) cannot fail on a typed string argument.
- The ValidationError that the documentation of `writeFile` promises for non-string content is not implemented by the code (src/file.ts:24-26). So it is not modelled.
- `AppError`'s `stack` argument, `Error.captureStackTrace` and the prototype fix-up are left out (src/error.ts:13-26). So is `catchAsync` (src/error.ts:62-72), which is promise and console plumbing.
- The process environment is a map passed to GetEnv and ValidateEnv; nothing writes to it.

## Findings

| source | as written | input that shows it | evidently intended | confidence | as-written member | corrected member |
|---|---|---|---|---|---|---|
| src/file.ts:246-252 | `deleteDirectory` only checks that the path exists and removes nothing | any existing directory: afterwards it and all below it are still there | remove the directory and everything below it, as its documentation says | high; not executed | Files.FileSystem.DeleteDirectory | Files.FileSystem.RemoveDirectory |
| src/file.ts:236-239 | `moveDirectory` is the copy followed by that `deleteDirectory`, so a successful move leaves the source in place | moving `a` holding `a/f` to `b`: `a/f` stays next to `b/f` (CopyModel.MoveLeavesSourceExample, CopyModel.CopyKeepsSource) | the source is gone after the move, and the tree is the moved tree | high; not executed | Files.FileSystem.MoveDirectory | Files.FileSystem.RelocateDirectory |

For both findings, the corrected members are proved to do what the documentation intends:
- RemoveDirectory leaves nothing at or below the path.
- RelocateDirectory yields `Relocated`. By CopyModel.RelocatedMoves, it puts every node of the source below the target and leaves nothing at the source. `Relocated` is also the effect of an accepted rename (FsRename).
