/** The filesystem that the operations of src/file.ts act on, as a value: a map from
    paths to nodes. The Node `fs` calls made in src/file.ts become the step functions below:
    for each call, when it succeeds and what the tree is afterwards. */
module FsModel {
  import opened Paths
  import opened Errors

  /** A file holds its (decoded) text; a directory holds nothing itself: its entries are
      the paths one name below it. */
  datatype Node = File(data: string) | Dir

  type Tree = map<Path, Node>

  /** The calls that fail for reasons outside the model (permissions, a full or faulty
      disk): a call fails when its own condition fails or when it is listed here with
      the path it is given (the source path, for the two-path calls). */
  type Faults = set<(FsCall, Path)>

  predicate IsDir(t: Tree, p: Path) {
    p in t && t[p] == Dir
  }

  predicate IsFile(t: Tree, p: Path) {
    p in t && t[p].File?
  }

  /** The root is a directory, and every other path hangs below a directory. */
  ghost predicate WellFormed(t: Tree) {
    IsDir(t, []) && forall q {:trigger GetDirName(q)} :: q in t && q != [] ==> IsDir(t, GetDirName(q))
  }

  /** What `readdir` lists: the names one level below `p`. */
  function Children(t: Tree, p: Path): set<Name> {
    set q | q in t && |q| == |p| + 1 && q[..|p|] == p :: q[|p|]
  }

  /** `p` and every path below it. */
  function Under(t: Tree, p: Path): set<Path> {
    set q | q in t && IsPrefix(p, q)
  }

  lemma InChildren(t: Tree, p: Path, n: Name)
    ensures n in Children(t, p) <==> p + [n] in t
  {
    var q := p + [n];
    assert |q| == |p| + 1 && q[..|p|] == p && q[|p|] == n;
    if n in Children(t, p) {
      var q' :| q' in t && |q'| == |p| + 1 && q'[..|p|] == p && q'[|p|] == n;
      assert q' == q;
    }
  }

  /** Every proper ancestor of a path in a well-formed tree is a directory. */
  lemma {:induction false} AncestorIsDir(t: Tree, p: Path, q: Path)
    requires WellFormed(t) && q in t && IsPrefix(p, q) && p != q
    ensures IsDir(t, p)
    decreases |q|
  {
    var up := GetDirName(q);
    assert IsDir(t, up);
    if p != up {
      assert up[..|p|] == q[..|p|];
      AncestorIsDir(t, p, up);
    }
  }

  /** A directory with no entries has nothing below it. */
  lemma {:induction false} EmptyDirHasNothingBelow(t: Tree, p: Path, q: Path)
    requires WellFormed(t) && Children(t, p) == {} && q in t && IsPrefix(p, q)
    ensures q == p
  {
    if q != p {
      var c := q[..|p| + 1];
      assert c[..|p|] == p;
      assert c == p + [q[|p|]];
      if c != q {
        assert IsPrefix(c, q);
        AncestorIsDir(t, c, q);
      }
      InChildren(t, p, q[|p|]);
    }
  }

  // ---- the `fs` calls: when each one succeeds, and its effect ----

  /** `readFileSync(p, 'utf8')`. */
  predicate ReadOk(t: Tree, f: Faults, p: Path) {
    IsFile(t, p) && (ReadFileSync, p) !in f
  }

  /** `writeFileSync(p, c)` (and `copyFileSync` for its destination): the parent is a
      directory and `p` is not one. */
  predicate Writable(t: Tree, p: Path) {
    p != [] && IsDir(t, GetDirName(p)) && !IsDir(t, p)
  }

  predicate WriteOk(t: Tree, f: Faults, p: Path) {
    Writable(t, p) && (WriteFileSync, p) !in f
  }

  /** `appendFileSync(p, c)`: appends to a file, or creates it. */
  predicate AppendOk(t: Tree, f: Faults, p: Path) {
    Writable(t, p) && (AppendFileSync, p) !in f
  }

  function Appended(t: Tree, p: Path, c: string): Tree {
    t[p := File((if IsFile(t, p) then t[p].data else "") + c)]
  }

  /** `unlinkSync(p)`: only a file can be unlinked. */
  predicate UnlinkOk(t: Tree, f: Faults, p: Path) {
    IsFile(t, p) && (UnlinkSync, p) !in f
  }

  /** `fs.promises.rm(p, { recursive: true })`: anything but the root, with all that is
      below it; the tree afterwards is `t - Under(t, p)`. */
  predicate RemoveOk(t: Tree, f: Faults, p: Path) {
    p != [] && p in t && (Rm, p) !in f
  }

  /** `mkdirSync(p, { recursive: true })`: succeeds when nothing on the way is a file;
      an existing directory is not an error. */
  predicate MkdirOk(t: Tree, f: Faults, p: Path) {
    (forall i :: 0 <= i <= |p| ==> !IsFile(t, p[..i])) && (MkdirSync, p) !in f
  }

  /** The tree after a successful recursive `mkdir`: the missing ancestors and `p`. */
  function WithAncestors(t: Tree, p: Path): Tree {
    map q | q in t.Keys + Prefixes(p) :: if q in t then t[q] else Dir
  }

  /** `readdirSync(p)`. */
  predicate ReaddirOk(t: Tree, f: Faults, p: Path) {
    IsDir(t, p) && (ReaddirSync, p) !in f
  }

  /** `statSync(p)`. */
  predicate StatOk(t: Tree, f: Faults, p: Path) {
    p in t && (StatSync, p) !in f
  }

  /** `copyFileSync(s, d)`: `s` is a file, and `d` can be written. */
  predicate CopyFileOk(t: Tree, f: Faults, s: Path, d: Path) {
    IsFile(t, s) && Writable(t, d) && (CopyFileSync, s) !in f
  }

  /** `renameSync(s, d)`. A file may replace a file; a directory may replace an empty
      directory and may not move below itself; renaming a path onto itself does nothing. */
  predicate RenameOk(t: Tree, f: Faults, s: Path, d: Path) {
    && s in t && s != [] && (RenameSync, s) !in f
    && d != [] && IsDir(t, GetDirName(d))
    && (s == d
        || (IsFile(t, s) && !IsDir(t, d))
        || (IsDir(t, s) && !IsPrefix(s, d) && !IsFile(t, d) && (IsDir(t, d) ==> Children(t, d) == {})))
  }

  // ---- copying a subtree ----

  /** The paths below `s`, placed below `d`. */
  function Image(t: Tree, s: Path, d: Path): set<Path> {
    set q | q in t && IsPrefix(s, q) :: d + q[|s|..]
  }

  /** What is at `q` once the subtree at `s` has been laid over `d`: the source's node
      where there is one, else what was there, else a directory (a created ancestor). */
  function Placed(t: Tree, s: Path, d: Path, q: Path): Node {
    if IsPrefix(d, q) && s + q[|d|..] in t then t[s + q[|d|..]]
    else if q in t then t[q]
    else Dir
  }

  /** The tree after `copyDirectory(s, d)` has run to completion: `d` and its missing
      ancestors created, every node below `s` at the same relative position below `d`
      (overwriting files there), everything else as before. */
  function CopyResult(t: Tree, s: Path, d: Path): Tree {
    map q | q in t.Keys + Prefixes(d) + Image(t, s, d) :: Placed(t, s, d, q)
  }

  /** The tree after moving the subtree at `s` to `d`: the copy, without the source. */
  function Relocated(t: Tree, s: Path, d: Path): Tree {
    if s == d then t else CopyResult(t, s, d) - Under(t, s)
  }

  // ---- every successful call keeps the tree well formed ----

  lemma WriteKeepsWellFormed(t: Tree, p: Path, c: string)
    requires WellFormed(t) && Writable(t, p)
    ensures WellFormed(t[p := File(c)])
  {
  }

  lemma UnlinkKeepsWellFormed(t: Tree, p: Path)
    requires WellFormed(t) && IsFile(t, p)
    ensures WellFormed(t - {p})
  {
  }

  lemma RemoveKeepsWellFormed(t: Tree, p: Path)
    requires WellFormed(t) && p != []
    ensures WellFormed(t - Under(t, p))
  {
    var t' := t - Under(t, p);
    assert [] !in Under(t, p);
    forall q | q in t' && q != []
      ensures IsDir(t', GetDirName(q))
    {
      PrefixTransitive(p, GetDirName(q), q);
    }
  }

  lemma MkdirKeepsWellFormed(t: Tree, p: Path)
    requires WellFormed(t) && forall i :: 0 <= i <= |p| ==> !IsFile(t, p[..i])
    ensures WellFormed(WithAncestors(t, p))
  {
    var t' := WithAncestors(t, p);
    assert [] == p[..0];
    forall q | q in t' && q != []
      ensures IsDir(t', GetDirName(q))
    {
      if q !in t {
        var i :| 0 <= i <= |p| && q == p[..i];
        assert GetDirName(q) == p[..i - 1];
        assert !IsFile(t, p[..i - 1]);
      }
    }
  }

  /** The copy of a subtree is well formed when no ancestor of the destination is a
      file and no file of the source lands on a directory. */
  lemma CopyResultWellFormed(t: Tree, s: Path, d: Path)
    requires WellFormed(t) && Disjoint(s, d)
    requires forall i :: 0 <= i < |d| ==> !IsFile(t, d[..i])
    requires forall q :: q in t && IsPrefix(s, q) && t[q].File? ==> !IsDir(t, d + q[|s|..])
    ensures WellFormed(CopyResult(t, s, d))
  {
    var c := CopyResult(t, s, d);
    assert [] in t && IsDir(c, []);
    forall q | q in c && q != []
      ensures IsDir(c, GetDirName(q))
    {
      CopyResultParent(t, s, d, q);
    }
  }

  lemma CopyResultParent(t: Tree, s: Path, d: Path, q: Path)
    requires WellFormed(t) && Disjoint(s, d)
    requires forall i :: 0 <= i < |d| ==> !IsFile(t, d[..i])
    requires forall q :: q in t && IsPrefix(s, q) && t[q].File? ==> !IsDir(t, d + q[|s|..])
    requires q in t.Keys + Prefixes(d) + Image(t, s, d) && q != []
    ensures GetDirName(q) in t.Keys + Prefixes(d) + Image(t, s, d)
    ensures Placed(t, s, d, GetDirName(q)) == Dir
  {
    if q in Image(t, s, d) {
      var x :| x in t && IsPrefix(s, x) && q == d + x[|s|..];
      ImageParent(t, s, d, x);
    } else if q in t {
      OldParent(t, s, d, q);
    } else {
      var i :| 0 <= i <= |d| && q == d[..i];
      var u := GetDirName(q);
      assert u == d[..i - 1] && u in Prefixes(d);
      assert !IsPrefix(d, u);
    }
  }

  lemma ImageParent(t: Tree, s: Path, d: Path, x: Path)
    requires WellFormed(t) && x in t && IsPrefix(s, x)
    requires forall i :: 0 <= i < |d| ==> !IsFile(t, d[..i])
    requires d + x[|s|..] != []
    ensures GetDirName(d + x[|s|..]) in Prefixes(d) + Image(t, s, d)
    ensures Placed(t, s, d, GetDirName(d + x[|s|..])) == Dir
  {
    var q := d + x[|s|..];
    var u := GetDirName(q);
    var r := x[|s|..];
    assert x == s + r;
    if r == [] {
      assert q == d && u == d[..|d| - 1];
      assert u in Prefixes(d);
      assert !IsPrefix(d, u);
    } else {
      assert GetDirName(x) == s + GetDirName(r);
      var y := GetDirName(x);
      assert IsDir(t, y);
      assert IsPrefix(s, y) && y[|s|..] == GetDirName(r);
      assert u == d + y[|s|..];
      assert u in Image(t, s, d);
      assert IsPrefix(d, u) && u[|d|..] == y[|s|..];
      assert s + u[|d|..] == y;
    }
  }

  lemma OldParent(t: Tree, s: Path, d: Path, q: Path)
    requires WellFormed(t) && q in t && q != []
    requires forall q :: q in t && IsPrefix(s, q) && t[q].File? ==> !IsDir(t, d + q[|s|..])
    ensures GetDirName(q) in t
    ensures Placed(t, s, d, GetDirName(q)) == Dir
  {
    var u := GetDirName(q);
    assert IsDir(t, u);
    if IsPrefix(d, u) && s + u[|d|..] in t {
      var x := s + u[|d|..];
      assert IsPrefix(s, x) && x[|s|..] == u[|d|..];
      assert d + x[|s|..] == u;
    }
  }

  /** The paths a copy adds all lie outside the source when the two are disjoint. */
  lemma CopyAddsOutsideSource(t: Tree, s: Path, d: Path, q: Path)
    requires Disjoint(s, d)
    ensures q in Prefixes(d) + Image(t, s, d) ==> !IsPrefix(s, q)
  {
    if q in Prefixes(d) {
      var i :| 0 <= i <= |d| && q == d[..i];
      PrefixTransitive(s, q, d);
    } else if q in Image(t, s, d) {
      var x :| x in t && IsPrefix(s, x) && q == d + x[|s|..];
      assert |s| <= |d| ==> q[..|s|] == d[..|s|];
      assert |s| > |d| ==> q[..|d|] == d;
    }
  }

  /** A path with something in the tree below it is a directory. */
  lemma BelowIsDir(t: Tree, p: Path, q: Path)
    requires WellFormed(t)
    ensures q in t && IsPrefix(p, q) && p != q ==> IsDir(t, p)
  {
    if q in t && IsPrefix(p, q) && p != q {
      AncestorIsDir(t, p, q);
    }
  }

  /** ... and has at least one entry. */
  lemma BelowIsNonEmpty(t: Tree, p: Path, q: Path)
    requires WellFormed(t)
    ensures q in t && IsPrefix(p, q) && p != q ==> Children(t, p) != {}
  {
    if q in t && IsPrefix(p, q) && p != q {
      var c := q[..|p| + 1];
      assert c[..|p|] == p && c == p + [q[|p|]];
      assert IsPrefix(c, q);
      BelowIsDir(t, c, q);
      InChildren(t, p, q[|p|]);
    }
  }

  /** A rename that `renameSync` accepts between two different paths moves a subtree to a
      place disjoint from it. */
  lemma RenameDisjoint(t: Tree, f: Faults, s: Path, d: Path)
    requires WellFormed(t) && RenameOk(t, f, s, d) && s != d
    ensures Disjoint(s, d)
  {
    var up := GetDirName(d);
    assert IsPrefix(s, d) && s != up ==> IsPrefix(s, up) && s != up;
    BelowIsDir(t, s, up);
    BelowIsNonEmpty(t, d, s);
    BelowIsDir(t, d, s);
  }

  /** The two side conditions of CopyResultWellFormed hold for an accepted rename. */
  lemma RenameAncestorsAreDirs(t: Tree, f: Faults, s: Path, d: Path)
    requires WellFormed(t) && RenameOk(t, f, s, d)
    ensures forall i :: 0 <= i < |d| ==> !IsFile(t, d[..i])
  {
    var up := GetDirName(d);
    forall i | 0 <= i < |d|
      ensures !IsFile(t, d[..i])
    {
      assert IsPrefix(d[..i], up);
      BelowIsDir(t, d[..i], up);
    }
  }

  lemma RenameFilesLandOnNonDirs(t: Tree, f: Faults, s: Path, d: Path)
    requires WellFormed(t) && RenameOk(t, f, s, d) && s != d
    ensures forall q :: q in t && IsPrefix(s, q) && t[q].File? ==> !IsDir(t, d + q[|s|..])
  {
    forall q | q in t && IsPrefix(s, q) && t[q].File?
      ensures !IsDir(t, d + q[|s|..])
    {
      FileLandsOnNonDir(t, f, s, d, q);
    }
  }

  lemma FileLandsOnNonDir(t: Tree, f: Faults, s: Path, d: Path, q: Path)
    requires WellFormed(t) && RenameOk(t, f, s, d) && s != d
    requires q in t && IsPrefix(s, q) && t[q].File?
    ensures !IsDir(t, d + q[|s|..])
  {
    var x := d + q[|s|..];
    if q == s {
      assert x == d;
    } else {
      BelowIsDir(t, s, q);
      assert IsPrefix(d, x) && x != d;
      BelowIsDir(t, d, x);
      BelowIsNonEmpty(t, d, x);
    }
  }

  lemma RenameKeepsWellFormed(t: Tree, f: Faults, s: Path, d: Path)
    requires WellFormed(t) && RenameOk(t, f, s, d)
    ensures WellFormed(Relocated(t, s, d))
  {
    if s != d {
      RenameDisjoint(t, f, s, d);
      RenameAncestorsAreDirs(t, f, s, d);
      RenameFilesLandOnNonDirs(t, f, s, d);
      CopyResultWellFormed(t, s, d);
      var c := CopyResult(t, s, d);
      var m := c - Under(t, s);
      forall q | q in m && q != []
        ensures IsDir(m, GetDirName(q))
      {
        var u := GetDirName(q);
        assert IsDir(c, u) && IsPrefix(u, q);
        PrefixTransitive(s, u, q);
        CopyAddsOutsideSource(t, s, d, q);
      }
      assert [] !in Under(t, s);
    }
  }

  // ---- what `statSync` reports, and what `readdir` returns ----

  datatype Stats = Stats(isFile: bool, isDirectory: bool)

  function StatsOf(n: Node): Stats {
    Stats(n.File?, n.Dir?)
  }

  /** A listing of a directory: each entry exactly once, in some order. */
  ghost predicate ListingOf(names: seq<Name>, entries: set<Name>) {
    (forall i, j :: 0 <= i < j < |names| ==> names[i] != names[j]) &&
    (forall n :: n in names <==> n in entries)
  }

  /** The names of the entries of `p` that are files. */
  ghost function FileEntries(t: Tree, p: Path): set<Name> {
    set n | n in Children(t, p) && IsFile(t, p + [n])
  }

  /** `names.filter(n => statSync(join(p, n)).isFile())`, once every stat has succeeded. */
  function FilesAmong(t: Tree, p: Path, names: seq<Name>): seq<Name> {
    if names == [] then []
    else
      var n := names[|names| - 1];
      FilesAmong(t, p, names[..|names| - 1]) + (if IsFile(t, p + [n]) then [n] else [])
  }

  /** The filter keeps exactly the names of files, each as often as the input has it. */
  lemma {:induction false} FilesAmongMembers(t: Tree, p: Path, names: seq<Name>)
    ensures forall n :: n in FilesAmong(t, p, names) <==> n in names && IsFile(t, p + [n])
    ensures (forall i, j :: 0 <= i < j < |names| ==> names[i] != names[j]) ==>
      forall i, j :: 0 <= i < j < |FilesAmong(t, p, names)| ==>
        FilesAmong(t, p, names)[i] != FilesAmong(t, p, names)[j]
  {
    if names != [] {
      var init, n := names[..|names| - 1], names[|names| - 1];
      assert names == init + [n];
      FilesAmongMembers(t, p, init);
      if forall i, j :: 0 <= i < j < |names| ==> names[i] != names[j] {
        assert n !in init;
        assert forall i, j :: 0 <= i < j < |init| ==> init[i] != init[j] by {
          forall i, j | 0 <= i < j < |init| ensures init[i] != init[j] {
            assert init[i] == names[i] && init[j] == names[j];
          }
        }
      }
    }
  }

  /** Filtering a listing of `p` gives a listing of the files of `p`. */
  lemma FilesAmongListing(t: Tree, p: Path, names: seq<Name>)
    requires ListingOf(names, Children(t, p))
    ensures ListingOf(FilesAmong(t, p, names), FileEntries(t, p))
  {
    FilesAmongMembers(t, p, names);
  }

  /** After a successful recursive `mkdir`, the path and every ancestor of it is a
      directory. */
  lemma WithAncestorsAreDirs(t: Tree, p: Path)
    requires forall i :: 0 <= i <= |p| ==> !IsFile(t, p[..i])
    ensures forall i :: 0 <= i <= |p| ==> IsDir(WithAncestors(t, p), p[..i])
  {
    forall i | 0 <= i <= |p|
      ensures IsDir(WithAncestors(t, p), p[..i])
    {
      assert p[..i] in Prefixes(p);
    }
  }

  /** A second recursive `mkdir` of the same path changes nothing. */
  lemma WithAncestorsIdempotent(t: Tree, p: Path)
    ensures WithAncestors(WithAncestors(t, p), p) == WithAncestors(t, p)
  {
    var w := WithAncestors(t, p);
    assert WithAncestors(w, p).Keys == w.Keys;
  }
}
