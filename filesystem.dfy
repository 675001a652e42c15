/** src/file.ts: the file helpers, as methods of an object that owns the filesystem
    tree. The `Fs…` methods are the Node `fs` calls the helpers are built from; each
    one does exactly what the matching step of FsModel says. */
module Files {
  import opened Paths
  import opened Errors
  import opened FsModel
  import opened CopyModel

  class FileSystem {
    /** The current contents of the filesystem. */
    var tree: Tree
    /** The calls that this filesystem refuses (see FsModel.Faults). */
    const faults: Faults

    ghost predicate Valid()
      reads this
    {
      WellFormed(tree)
    }

    constructor (t: Tree, f: Faults)
      requires WellFormed(t)
      ensures Valid() && tree == t && faults == f
    {
      tree, faults := t, f;
    }

    // ---- the Node `fs` calls ----

    /** `existsSync(p)`, and `fs.promises.access(p)` with its default mode. */
    method FsExists(p: Path) returns (b: bool)
      ensures b <==> p in tree
    {
      b := p in tree;
    }

    method FsReadFile(p: Path) returns (r: Result<string>)
      ensures r == if ReadOk(tree, faults, p) then Ok(tree[p].data) else Err(Sys(ReadFileSync, p))
    {
      if ReadOk(tree, faults, p) {
        r := Ok(tree[p].data);
      } else {
        r := Err(Sys(ReadFileSync, p));
      }
    }

    method FsWriteFile(p: Path, content: string) returns (r: Outcome)
      requires Valid()
      modifies this
      ensures Valid()
      ensures r == if WriteOk(old(tree), faults, p) then Pass else Fail(Sys(WriteFileSync, p))
      ensures tree == if r.Pass? then old(tree)[p := File(content)] else old(tree)
    {
      if WriteOk(tree, faults, p) {
        WriteKeepsWellFormed(tree, p, content);
        tree := tree[p := File(content)];
        r := Pass;
      } else {
        r := Fail(Sys(WriteFileSync, p));
      }
    }

    method FsAppendFile(p: Path, content: string) returns (r: Outcome)
      requires Valid()
      modifies this
      ensures Valid()
      ensures r == if AppendOk(old(tree), faults, p) then Pass else Fail(Sys(AppendFileSync, p))
      ensures tree == if r.Pass? then Appended(old(tree), p, content) else old(tree)
    {
      if AppendOk(tree, faults, p) {
        WriteKeepsWellFormed(tree, p, (if IsFile(tree, p) then tree[p].data else "") + content);
        tree := Appended(tree, p, content);
        r := Pass;
      } else {
        r := Fail(Sys(AppendFileSync, p));
      }
    }

    method FsUnlink(p: Path) returns (r: Outcome)
      requires Valid()
      modifies this
      ensures Valid()
      ensures r == if UnlinkOk(old(tree), faults, p) then Pass else Fail(Sys(UnlinkSync, p))
      ensures tree == if r.Pass? then old(tree) - {p} else old(tree)
    {
      if UnlinkOk(tree, faults, p) {
        UnlinkKeepsWellFormed(tree, p);
        tree := tree - {p};
        r := Pass;
      } else {
        r := Fail(Sys(UnlinkSync, p));
      }
    }

    /** `fs.promises.rm(p, { recursive: true })`. */
    method FsRemove(p: Path) returns (r: Outcome)
      requires Valid()
      modifies this
      ensures Valid()
      ensures r == if RemoveOk(old(tree), faults, p) then Pass else Fail(Sys(Rm, p))
      ensures tree == if r.Pass? then old(tree) - Under(old(tree), p) else old(tree)
    {
      if RemoveOk(tree, faults, p) {
        RemoveKeepsWellFormed(tree, p);
        tree := tree - Under(tree, p);
        r := Pass;
      } else {
        r := Fail(Sys(Rm, p));
      }
    }

    /** `mkdirSync(p, { recursive: true })` and `fs.promises.mkdir(p, { recursive: true })`. */
    method FsMkdir(p: Path) returns (r: Outcome)
      requires Valid()
      modifies this
      ensures Valid()
      ensures r == if MkdirOk(old(tree), faults, p) then Pass else Fail(Sys(MkdirSync, p))
      ensures tree == if r.Pass? then WithAncestors(old(tree), p) else old(tree)
    {
      if MkdirOk(tree, faults, p) {
        MkdirKeepsWellFormed(tree, p);
        tree := WithAncestors(tree, p);
        r := Pass;
      } else {
        r := Fail(Sys(MkdirSync, p));
      }
    }

    method FsCopyFile(s: Path, d: Path) returns (r: Outcome)
      requires Valid()
      modifies this
      ensures Valid()
      ensures r == if CopyFileOk(old(tree), faults, s, d) then Pass else Fail(Sys(CopyFileSync, s))
      ensures tree == if r.Pass? then old(tree)[d := old(tree)[s]] else old(tree)
    {
      if CopyFileOk(tree, faults, s, d) {
        WriteKeepsWellFormed(tree, d, tree[s].data);
        tree := tree[d := tree[s]];
        r := Pass;
      } else {
        r := Fail(Sys(CopyFileSync, s));
      }
    }

    method FsRename(s: Path, d: Path) returns (r: Outcome)
      requires Valid()
      modifies this
      ensures Valid()
      ensures r == if RenameOk(old(tree), faults, s, d) then Pass else Fail(Sys(RenameSync, s))
      ensures tree == if r.Pass? then Relocated(old(tree), s, d) else old(tree)
    {
      if RenameOk(tree, faults, s, d) {
        RenameKeepsWellFormed(tree, faults, s, d);
        tree := Relocated(tree, s, d);
        r := Pass;
      } else {
        r := Fail(Sys(RenameSync, s));
      }
    }

    method FsStat(p: Path) returns (r: Result<Stats>)
      ensures r == if StatOk(tree, faults, p) then Ok(StatsOf(tree[p])) else Err(Sys(StatSync, p))
    {
      if StatOk(tree, faults, p) {
        r := Ok(StatsOf(tree[p]));
      } else {
        r := Err(Sys(StatSync, p));
      }
    }

    /** `readdirSync(p)` and `fs.promises.readdir(p)`: the entries one by one, in an
        order the platform chooses. */
    method FsReaddir(p: Path) returns (r: Result<seq<Name>>)
      ensures r.Ok? <==> ReaddirOk(tree, faults, p)
      ensures r.Ok? ==> ListingOf(r.value, Children(tree, p))
      ensures r.Err? ==> r.error == Sys(ReaddirSync, p)
    {
      if !ReaddirOk(tree, faults, p) {
        return Err(Sys(ReaddirSync, p));
      }
      var rest := Children(tree, p);
      var names: seq<Name> := [];
      while rest != {}
        invariant forall i, j :: 0 <= i < j < |names| ==> names[i] != names[j]
        invariant forall n :: n in names ==> n !in rest
        invariant forall n :: n in Children(tree, p) <==> n in names || n in rest
        decreases rest
      {
        var n :| n in rest;
        names := names + [n];
        rest := rest - {n};
      }
      r := Ok(names);
    }

    // ---- the single-step helpers of src/file.ts ----

    /** `readFile(filePath)`. */
    method ReadFile(p: Path) returns (r: Result<string>)
      ensures p !in tree ==> r == Err(App(NotFoundError("File not found: " + Show(p))))
      ensures r.Ok? <==> ReadOk(tree, faults, p)
      ensures r.Ok? ==> r.value == tree[p].data
      ensures p in tree && r.Err? ==> r.error == Sys(ReadFileSync, p)
    {
      var present := FsExists(p);
      if !present {
        return Err(App(NotFoundError("File not found: " + Show(p))));
      }
      r := FsReadFile(p);
    }

    /** `writeFile(filePath, content)`: no check of its own; the raw error of the write
        is what the caller sees. */
    method WriteFile(p: Path, content: string) returns (r: Outcome)
      requires Valid()
      modifies this
      ensures Valid()
      ensures r.Pass? <==> WriteOk(old(tree), faults, p)
      ensures r.Fail? ==> r.error == Sys(WriteFileSync, p)
      ensures tree == if r.Pass? then old(tree)[p := File(content)] else old(tree)
    {
      r := FsWriteFile(p, content);
    }

    /** `deleteFile(filePath)`: a directory is not deleted; `unlink` refuses it. */
    method DeleteFile(p: Path) returns (r: Outcome)
      requires Valid()
      modifies this
      ensures Valid()
      ensures p !in old(tree) ==> r == Fail(App(NotFoundError("File not found: " + Show(p))))
      ensures p in old(tree) ==> (r.Pass? <==> UnlinkOk(old(tree), faults, p))
      ensures p in old(tree) && r.Fail? ==> r.error == Sys(UnlinkSync, p)
      ensures tree == if r.Pass? then old(tree) - {p} else old(tree)
    {
      var present := FsExists(p);
      if !present {
        return Fail(App(NotFoundError("File not found: " + Show(p))));
      }
      r := FsUnlink(p);
    }

    /** `createDirectory(dirPath)`: nothing is done when something (even a file) is
        already at the path. */
    method CreateDirectory(p: Path) returns (r: Outcome)
      requires Valid()
      modifies this
      ensures Valid()
      ensures p in old(tree) ==> r == Pass && tree == old(tree)
      ensures p !in old(tree) ==> (r.Pass? <==> MkdirOk(old(tree), faults, p))
      ensures p !in old(tree) && r.Fail? ==> r.error == Sys(MkdirSync, p)
      ensures p !in old(tree) ==> tree == if r.Pass? then WithAncestors(old(tree), p) else old(tree)
      ensures p !in old(tree) && r.Pass? ==> forall i :: 0 <= i <= |p| ==> IsDir(tree, p[..i])
    {
      var present := FsExists(p);
      if present {
        return Pass;
      }
      ghost var t0 := tree;
      r := FsMkdir(p);
      if r.Pass? {
        WithAncestorsAreDirs(t0, p);
      }
    }

    /** `exists(filePath)`. */
    method Exists(p: Path) returns (b: bool)
      ensures b <==> p in tree
    {
      b := FsExists(p);
    }

    /** `copyFile(srcPath, destPath)`. */
    method CopyFile(s: Path, d: Path) returns (r: Outcome)
      requires Valid()
      modifies this
      ensures Valid()
      ensures s !in old(tree) ==> r == Fail(App(NotFoundError("Source file not found: " + Show(s))))
      ensures s in old(tree) ==> (r.Pass? <==> CopyFileOk(old(tree), faults, s, d))
      ensures s in old(tree) && r.Fail? ==> r.error == Sys(CopyFileSync, s)
      ensures tree == if r.Pass? then old(tree)[d := old(tree)[s]] else old(tree)
    {
      var present := FsExists(s);
      if !present {
        return Fail(App(NotFoundError("Source file not found: " + Show(s))));
      }
      r := FsCopyFile(s, d);
    }

    /** `moveFile(srcPath, destPath)`: a rename, so a directory moves too. */
    method MoveFile(s: Path, d: Path) returns (r: Outcome)
      requires Valid()
      modifies this
      ensures Valid()
      ensures s !in old(tree) ==> r == Fail(App(NotFoundError("Source file not found: " + Show(s))))
      ensures s in old(tree) ==> (r.Pass? <==> RenameOk(old(tree), faults, s, d))
      ensures s in old(tree) && r.Fail? ==> r.error == Sys(RenameSync, s)
      ensures tree == if r.Pass? then Relocated(old(tree), s, d) else old(tree)
      ensures r.Pass? && IsFile(old(tree), s) && s != d ==> tree == (old(tree) - {s})[d := old(tree)[s]]
    {
      ghost var t0 := tree;
      var present := FsExists(s);
      if !present {
        return Fail(App(NotFoundError("Source file not found: " + Show(s))));
      }
      r := FsRename(s, d);
      if r.Pass? && IsFile(t0, s) && s != d {
        RenameFileMoves(t0, s, d);
      }
    }

    /** `readDirectory(dirPath)`. */
    method ReadDirectory(p: Path) returns (r: Result<seq<Name>>)
      ensures p !in tree ==> r == Err(App(NotFoundError("Directory not found: " + Show(p))))
      ensures r.Ok? <==> ReaddirOk(tree, faults, p)
      ensures r.Ok? ==> ListingOf(r.value, Children(tree, p))
      ensures p in tree && r.Err? ==> r.error == Sys(ReaddirSync, p)
    {
      var present := FsExists(p);
      if !present {
        return Err(App(NotFoundError("Directory not found: " + Show(p))));
      }
      r := FsReaddir(p);
    }

    /** `getStats(filePath)`. */
    method GetStats(p: Path) returns (r: Result<Stats>)
      ensures p !in tree ==> r == Err(App(NotFoundError("File or directory not found: " + Show(p))))
      ensures r.Ok? <==> StatOk(tree, faults, p)
      ensures r.Ok? ==> (r.value.isFile <==> IsFile(tree, p)) && (r.value.isDirectory <==> IsDir(tree, p))
      ensures r.Ok? ==> r.value.isFile != r.value.isDirectory
      ensures p in tree && r.Err? ==> r.error == Sys(StatSync, p)
    {
      var present := FsExists(p);
      if !present {
        return Err(App(NotFoundError("File or directory not found: " + Show(p))));
      }
      r := FsStat(p);
    }

    /** `readJsonFile(filePath)`, with `JSON.parse` given as `parse` (None for a text it
        rejects). Only a rejected text becomes a ValidationError; the errors of the read
        itself are passed on as they are. */
    method ReadJsonFile<V>(p: Path, parse: string -> Option<V>) returns (r: Result<V>)
      ensures p !in tree ==> r == Err(App(NotFoundError("File not found: " + Show(p))))
      ensures p in tree && !ReadOk(tree, faults, p) ==> r == Err(Sys(ReadFileSync, p))
      ensures r.Ok? <==> ReadOk(tree, faults, p) && parse(tree[p].data).Some?
      ensures r.Ok? ==> r.value == parse(tree[p].data).value
      ensures ReadOk(tree, faults, p) && parse(tree[p].data).None? ==>
        r == Err(App(ValidationError("Invalid JSON in file: " + Show(p))))
    {
      var content := ReadFile(p);
      if content.Err? {
        return Err(content.error);
      }
      var parsed := parse(content.value);
      if parsed.None? {
        return Err(App(ValidationError("Invalid JSON in file: " + Show(p))));
      }
      r := Ok(parsed.value);
    }

    /** `writeJsonFile(filePath, data)`, with `JSON.stringify(data, null, 2)` given as
        `stringify` (None where it throws or yields no text). Every failure, that of the
        write included, becomes the same ValidationError. */
    method WriteJsonFile<V>(p: Path, data: V, stringify: V -> Option<string>) returns (r: Outcome)
      requires Valid()
      modifies this
      ensures Valid()
      ensures r.Pass? <==> stringify(data).Some? && WriteOk(old(tree), faults, p)
      ensures r.Pass? ==> tree == old(tree)[p := File(stringify(data).value)]
      ensures r.Fail? ==> tree == old(tree)
      ensures r.Fail? ==> r == Fail(App(ValidationError("Failed to serialize data to JSON: " + Show(p))))
    {
      var content := stringify(data);
      if content.Some? {
        r := WriteFile(p, content.value);
      }
      if content.None? || r.Fail? {
        r := Fail(App(ValidationError("Failed to serialize data to JSON: " + Show(p))));
      }
    }

    /** `appendToFile(filePath, content)`. */
    method AppendToFile(p: Path, content: string) returns (r: Outcome)
      requires Valid()
      modifies this
      ensures Valid()
      ensures r.Pass? <==> AppendOk(old(tree), faults, p)
      ensures r.Fail? ==> r.error == Sys(AppendFileSync, p)
      ensures tree == if r.Pass? then Appended(old(tree), p, content) else old(tree)
      ensures r.Pass? ==> IsFile(tree, p)
      ensures r.Pass? ==> tree[p].data == (if IsFile(old(tree), p) then old(tree)[p].data else "") + content
    {
      r := FsAppendFile(p, content);
    }

    /** `listFilesInDirectory(dirPath)`: the directory is listed, and each entry is
        stat'ed in listing order and kept when it is a file. The first stat that fails
        ends the listing with its error. `listing` is the order readdir returned. */
    method ListFilesInDirectory(p: Path) returns (r: Result<seq<Name>>, ghost listing: seq<Name>)
      ensures p !in tree ==> r == Err(App(NotFoundError("Directory not found: " + Show(p))))
      ensures p in tree && !ReaddirOk(tree, faults, p) ==> r == Err(Sys(ReaddirSync, p))
      ensures ReaddirOk(tree, faults, p) ==> ListingOf(listing, Children(tree, p))
      ensures r.Ok? <==> ReaddirOk(tree, faults, p) && forall n :: n in listing ==> (StatSync, p + [n]) !in faults
      ensures r.Ok? ==> r.value == FilesAmong(tree, p, listing) && ListingOf(r.value, FileEntries(tree, p))
      ensures r.Err? && ReaddirOk(tree, faults, p) ==>
        exists k :: (0 <= k < |listing| && r.error == Sys(StatSync, p + [listing[k]]) &&
          (StatSync, p + [listing[k]]) in faults &&
          forall j :: 0 <= j < k ==> (StatSync, p + [listing[j]]) !in faults)
    {
      listing := [];
      var present := FsExists(p);
      if !present {
        return Err(App(NotFoundError("Directory not found: " + Show(p)))), listing;
      }
      var entries := FsReaddir(p);
      if entries.Err? {
        return Err(entries.error), listing;
      }
      var names := entries.value;
      listing := names;
      var files: seq<Name> := [];
      var i := 0;
      while i < |names|
        invariant 0 <= i <= |names|
        invariant files == FilesAmong(tree, p, names[..i])
        invariant forall j :: 0 <= j < i ==> (StatSync, p + [names[j]]) !in faults
      {
        var n := names[i];
        JoinChild(p, n);
        InChildren(tree, p, n);
        var stat := FsStat(JoinPath([p, [n]]));
        if stat.Err? {
          return Err(stat.error), listing;
        }
        assert names[..i + 1][..i] == names[..i];
        if stat.value.isFile {
          files := files + [n];
        }
        i := i + 1;
      }
      assert names[..i] == names;
      FilesAmongListing(tree, p, names);
      r := Ok(files);
    }

    // ---- copyDirectory ----

    /** `copyDirectory(src, dst)`. The source is looked up, the target created, the source
        listed, and the listed entries copied one after the other; the first failure ends
        the copy, and what was copied before it stays. `listing` is the order the entries
        were listed in, and `done` how many of them were copied in full. */
    method CopyDirectory(src: Path, dst: Path) returns (r: Outcome, ghost listing: seq<Name>, ghost done: nat)
      requires Valid() && Disjoint(src, dst)
      modifies this
      decreases Under(tree, src), 3
      ensures Valid()
      ensures src !in old(tree) ==>
        r == Fail(App(NotFoundError("Source directory not found: " + Show(src)))) && tree == old(tree)
      ensures src in old(tree) && r.Fail? ==> RaisesStatus(r, 500)
      ensures src in old(tree) && !MkdirOk(old(tree), faults, dst) ==>
        r == Fail(App(NewAppError("Failed to create directory: " + Show(dst), 500))) && tree == old(tree)
      ensures src in old(tree) && MkdirOk(old(tree), faults, dst) && !ReaddirOk(old(tree), faults, src) ==>
        r == Fail(App(NewAppError("Failed to read directory: " + Show(src), 500))) &&
        tree == WithAncestors(old(tree), dst)
      ensures r.Pass? <==> CopySucceeds(old(tree), faults, src, dst)
      ensures r.Pass? ==> tree == CopyResult(old(tree), src, dst)
      ensures IsDir(old(tree), src) ==> Between(old(tree), tree, CopyResult(old(tree), src, dst))
      ensures IsFile(old(tree), src) ==>
        tree == if MkdirOk(old(tree), faults, dst) then WithAncestors(old(tree), dst) else old(tree)
      ensures listing != [] ==> ListingOf(listing, Children(old(tree), src))
      ensures done <= |listing| && (r.Pass? ==> done == |listing|)
      ensures forall j :: 0 <= j < done ==>
        Copied(old(tree), tree, src + [listing[j]], dst + [listing[j]])
      ensures forall j :: done < j < |listing| ==> SameBelow(old(tree), tree, dst + [listing[j]])
      ensures r.Fail? && listing != [] ==>
        done < |listing| && !EntryOkBelow(old(tree), faults, src, dst, listing[done])
      ensures forall j :: 0 <= j < done ==> EntryOkBelow(old(tree), faults, src, dst, listing[j])
      ensures src in old(tree) && r.Fail? ==> StepError(r.error, src, dst)
      ensures r.Fail? && listing != [] ==>
        StepError(r.error, src + [listing[done]], dst + [listing[done]])
    {
      ghost var t0 := tree;
      listing, done := [], 0;
      FileSourceFails(t0, faults, src, dst);
      BetweenStart(t0, src, dst);
      var present := FsExists(src);
      if !present {
        r := Fail(App(NotFoundError("Source directory not found: " + Show(src))));
        return;
      }
      if IsDir(t0, src) {
        SplitSucceeds(t0, faults, src, dst);
      }
      var made := FsMkdir(dst);
      if made.Fail? {
        r := Fail(App(NewAppError("Failed to create directory: " + Show(dst), 500)));
        StepErrorHere(r.error, src, dst);
        return;
      }
      MkdirFrame(t0, dst, src);
      PrefixOfExtension(src, [], []);
      assert src + [] == src;
      var entries := FsReaddir(src);
      if entries.Err? {
        if IsDir(t0, src) {
          MkdirStep(t0, src, dst);
        }
        r := Fail(App(NewAppError("Failed to read directory: " + Show(src), 500)));
        StepErrorHere(r.error, src, dst);
        return;
      }
      ChildrenSame(t0, tree, src);
      UnderSame(t0, tree, src);
      listing := entries.value;
      r, done := CopyEntries(src, dst, entries.value, t0);
    }

    /** The loop of `copyDirectory(src, dst)` over the listed `names`, once the target
        has been created in the starting state `a`. */
    method CopyEntries(src: Path, dst: Path, names: seq<Name>, ghost a: Tree) returns (r: Outcome, ghost done: nat)
      requires Valid() && WellFormed(a) && IsDir(a, src) && Disjoint(src, dst) && !IsFile(a, dst)
      requires ListingOf(names, Children(a, src)) && tree == WithAncestors(a, dst)
      modifies this
      decreases Under(tree, src), 2
      ensures Valid() && Between(a, tree, CopyResult(a, src, dst))
      ensures r.Pass? <==> forall e :: e in Children(a, src) ==> EntryOkBelow(a, faults, src, dst, e)
      ensures r.Pass? ==> tree == CopyResult(a, src, dst)
      ensures r.Fail? ==> RaisesStatus(r, 500)
      ensures done <= |names| && (r.Pass? ==> done == |names|)
      ensures forall j :: 0 <= j < done ==> Copied(a, tree, src + [names[j]], dst + [names[j]])
      ensures forall j :: done < j < |names| ==> SameBelow(a, tree, dst + [names[j]])
      ensures r.Fail? ==> done < |names| && !EntryOkBelow(a, faults, src, dst, names[done])
      ensures forall j :: 0 <= j < done ==> EntryOkBelow(a, faults, src, dst, names[j])
      ensures r.Fail? ==> StepError(r.error, src + [names[done]], dst + [names[done]])
      ensures r.Fail? ==> StepError(r.error, src, dst)
    {
      LoopStart(a, src, dst, names);
      var i := 0;
      while i < |names|
        invariant 0 <= i <= |names|
        invariant Valid() && LoopState(a, tree, src, dst, names, i)
        invariant forall j :: 0 <= j < i ==> EntryOkBelow(a, faults, src, dst, names[j])
      {
        UnderSame(a, tree, src);
        var step := CopyTurn(src, dst, names, i, a);
        if step.Fail? {
          StepErrorWiden(step.error, src, dst, names[i]);
          r, done := step, i;
          return;
        }
        EntriesOkNext(a, faults, src, dst, names, i);
        i := i + 1;
      }
      LoopEnd(a, tree, src, dst, names);
      forall e | e in Children(a, src)
        ensures EntryOkBelow(a, faults, src, dst, e)
      {
        var j :| 0 <= j < |names| && names[j] == e;
      }
      r, done := Pass, |names|;
    }

    /** The turn of the loop over `names` for the entry `names[i]`. */
    method CopyTurn(src: Path, dst: Path, names: seq<Name>, i: nat, ghost a: Tree) returns (r: Outcome)
      requires Valid() && WellFormed(a) && IsDir(a, src) && Disjoint(src, dst) && !IsFile(a, dst)
      requires ListingOf(names, Children(a, src)) && i < |names| && LoopState(a, tree, src, dst, names, i)
      modifies this
      decreases Under(tree, src), 1
      ensures Valid()
      ensures r.Pass? <==> EntryOkBelow(a, faults, src, dst, names[i])
      ensures r.Pass? ==> LoopState(a, tree, src, dst, names, i + 1)
      ensures r.Fail? ==> RaisesStatus(r, 500)
      ensures r.Fail? ==> StepError(r.error, src + [names[i]], dst + [names[i]])
      ensures r.Fail? ==> Between(a, tree, CopyResult(a, src, dst))
      ensures r.Fail? ==> forall j :: 0 <= j < i ==> Copied(a, tree, src + [names[j]], dst + [names[j]])
      ensures r.Fail? ==> forall j :: i < j < |names| ==> SameBelow(a, tree, dst + [names[j]])
    {
      var e := names[i];
      InChildren(a, src, e);
      ChildrenDisjoint(src, dst, e);
      ghost var b := tree;
      EntryEquivalence(a, b, faults, src, dst, e);
      r := CopyEntry(src, dst, e);
      if r.Fail? {
        AfterEntry(a, b, tree, src, dst, names, i);
      } else {
        LoopNext(a, b, src, dst, names, i);
      }
    }

    /** One turn of the loop of `copyDirectory`: the entry `e` of `src` is stat'ed, and
        copied to the entry `e` of `dst` -- a directory by a nested `copyDirectory`, a file
        by `copyFile`. */
    method CopyEntry(src: Path, dst: Path, e: Name) returns (r: Outcome)
      requires Valid() && Disjoint(src, dst) && IsDir(tree, dst) && src + [e] in tree
      modifies this
      decreases Under(tree, src), 0
      ensures Valid()
      ensures Between(old(tree), tree, CopyResult(old(tree), src + [e], dst + [e]))
      ensures r.Pass? <==> EntrySucceeds(old(tree), faults, src + [e], dst + [e])
      ensures r.Pass? ==> tree == CopyResult(old(tree), src + [e], dst + [e])
      ensures r.Fail? ==> RaisesStatus(r, 500)
      ensures r.Fail? ==> StepError(r.error, src + [e], dst + [e])
      ensures !StatOk(old(tree), faults, src + [e]) ==>
        r == Fail(App(NewAppError("Failed to get stats for: " + Show(src + [e]), 500))) && tree == old(tree)
      ensures (StatOk(old(tree), faults, src + [e]) && IsFile(old(tree), src + [e]) &&
               !CopyFileOk(old(tree), faults, src + [e], dst + [e])) ==>
        r == Fail(App(NewAppError("Failed to copy file: " + Show(src + [e]) + " to " + Show(dst + [e]), 500))) &&
        tree == old(tree)
    {
      var srcPath, destPath := JoinPath([src, [e]]), JoinPath([dst, [e]]);
      JoinChild(src, e);
      JoinChild(dst, e);
      ChildrenDisjoint(src, dst, e);
      BetweenStart(tree, srcPath, destPath);
      var stat := FsStat(srcPath);
      if stat.Err? {
        r := Fail(App(NewAppError("Failed to get stats for: " + Show(srcPath), 500)));
        StepErrorHere(r.error, srcPath, destPath);
        return;
      }
      if stat.value.isDirectory {
        UnderShrinks(tree, src, e);
        var sub, _, _ := CopyDirectory(srcPath, destPath);
        r := sub;
      } else {
        assert GetDirName(destPath) == dst;
        FileCopyResult(tree, srcPath, destPath);
        var copied := FsCopyFile(srcPath, destPath);
        if copied.Fail? {
          r := Fail(App(NewAppError("Failed to copy file: " + Show(srcPath) + " to " + Show(destPath), 500)));
          StepErrorHere(r.error, srcPath, destPath);
          return;
        }
        r := Pass;
      }
    }

    // ---- moveDirectory and deleteDirectory ----

    /** `moveDirectory(srcDir, destDir)`: `copyDirectory`, then `deleteDirectory` on the
        source. As `deleteDirectory` removes nothing, a move that goes through leaves
        the source where it was, next to its copy. */
    method MoveDirectory(src: Path, dst: Path) returns (r: Outcome)
      requires Valid() && Disjoint(src, dst)
      modifies this
      ensures Valid()
      ensures src !in old(tree) ==>
        r == Fail(App(NotFoundError("Source directory not found: " + Show(src)))) && tree == old(tree)
      ensures r.Pass? <==> CopySucceeds(old(tree), faults, src, dst)
      ensures r.Pass? ==> tree == CopyResult(old(tree), src, dst)
      ensures r.Pass? ==> src in tree && SameBelow(old(tree), tree, src)
      ensures src in old(tree) && r.Fail? ==> RaisesStatus(r, 500) && StepError(r.error, src, dst)
      ensures src in old(tree) && !MkdirOk(old(tree), faults, dst) ==>
        r == Fail(App(NewAppError("Failed to create directory: " + Show(dst), 500))) && tree == old(tree)
      ensures src in old(tree) && MkdirOk(old(tree), faults, dst) && !ReaddirOk(old(tree), faults, src) ==>
        r == Fail(App(NewAppError("Failed to read directory: " + Show(src), 500))) &&
        tree == WithAncestors(old(tree), dst)
      ensures IsDir(old(tree), src) ==> Between(old(tree), tree, CopyResult(old(tree), src, dst))
      ensures IsFile(old(tree), src) ==>
        tree == if MkdirOk(old(tree), faults, dst) then WithAncestors(old(tree), dst) else old(tree)
    {
      ghost var t0 := tree;
      var copied, _, _ := CopyDirectory(src, dst);
      if copied.Fail? {
        return copied;
      }
      CopyKeepsSource(t0, src, dst);
      PrefixOfExtension(src, [], []);
      assert src + [] == src;
      r := DeleteDirectory(src);
    }

    /** `deleteDirectory(dirPath)`: it looks the path up and does nothing else, so the
        directory is still there when it returns. */
    method DeleteDirectory(p: Path) returns (r: Outcome)
      ensures r.Fail? <==> p !in tree
      ensures r.Fail? ==> r == Fail(App(NotFoundError("Directory not found: " + Show(p))))
    {
      var present := FsExists(p);
      if !present {
        return Fail(App(NotFoundError("Directory not found: " + Show(p))));
      }
      r := Pass;
    }

    /** `deleteDirectory` as its documentation describes it: the lookup, then
        `fs.promises.rm(dirPath, { recursive: true })`. */
    method RemoveDirectory(p: Path) returns (r: Outcome)
      requires Valid()
      modifies this
      ensures Valid()
      ensures p !in old(tree) ==> r == Fail(App(NotFoundError("Directory not found: " + Show(p))))
      ensures p in old(tree) ==> (r.Pass? <==> RemoveOk(old(tree), faults, p))
      ensures p in old(tree) && r.Fail? ==> r.error == Sys(Rm, p)
      ensures tree == if r.Pass? then old(tree) - Under(old(tree), p) else old(tree)
      ensures r.Pass? ==> forall q :: IsPrefix(p, q) ==> q !in tree
      ensures r.Pass? ==> forall q :: q in old(tree) && !IsPrefix(p, q) ==> q in tree && tree[q] == old(tree)[q]
    {
      var present := FsExists(p);
      if !present {
        return Fail(App(NotFoundError("Directory not found: " + Show(p))));
      }
      r := FsRemove(p);
    }

    /** `moveDirectory` with the removal above: the copy, then the removal of the
        source. A move that goes through has the effect of renaming the directory. */
    method RelocateDirectory(src: Path, dst: Path) returns (r: Outcome)
      requires Valid() && Disjoint(src, dst)
      modifies this
      ensures Valid()
      ensures src !in old(tree) ==>
        r == Fail(App(NotFoundError("Source directory not found: " + Show(src)))) && tree == old(tree)
      ensures r.Pass? <==> CopySucceeds(old(tree), faults, src, dst) && (Rm, src) !in faults
      ensures r.Pass? ==> tree == Relocated(old(tree), src, dst)
      ensures IsDir(old(tree), src) && !CopySucceeds(old(tree), faults, src, dst) ==>
        Between(old(tree), tree, CopyResult(old(tree), src, dst))
      ensures CopySucceeds(old(tree), faults, src, dst) && r.Fail? ==>
        tree == CopyResult(old(tree), src, dst) && r.error == Sys(Rm, src)
      ensures src in old(tree) && !CopySucceeds(old(tree), faults, src, dst) ==>
        RaisesStatus(r, 500) && StepError(r.error, src, dst)
      ensures src in old(tree) && !MkdirOk(old(tree), faults, dst) ==>
        r == Fail(App(NewAppError("Failed to create directory: " + Show(dst), 500))) && tree == old(tree)
      ensures src in old(tree) && MkdirOk(old(tree), faults, dst) && !ReaddirOk(old(tree), faults, src) ==>
        r == Fail(App(NewAppError("Failed to read directory: " + Show(src), 500))) &&
        tree == WithAncestors(old(tree), dst)
      ensures IsFile(old(tree), src) ==>
        tree == if MkdirOk(old(tree), faults, dst) then WithAncestors(old(tree), dst) else old(tree)
    {
      ghost var t0 := tree;
      var copied, _, _ := CopyDirectory(src, dst);
      if copied.Fail? {
        return copied;
      }
      CopyKeepsSource(t0, src, dst);
      RelocatedAfterCopy(t0, src, dst);
      PrefixOfExtension(src, [], []);
      assert src + [] == src && src != [];
      r := RemoveDirectory(src);
    }
  }
}
