/** Paths as sequences of names, standing for the strings that src/file.ts hands to
    `path.join` and `path.dirname`. Joining is concatenation: `.` and `..` are not
    normalised. The empty path is the root of the modelled filesystem. */
module Paths {

  type Name = string
  type Path = seq<Name>

  /** `p` is `q` or an ancestor of `q`. */
  predicate IsPrefix(p: Path, q: Path) {
    |p| <= |q| && q[..|p|] == p
  }

  /** Neither path lies inside the other (nor are they equal). */
  predicate Disjoint(p: Path, q: Path) {
    !IsPrefix(p, q) && !IsPrefix(q, p)
  }

  /** The path and all of its ancestors, the root included. */
  function Prefixes(p: Path): set<Path> {
    set i | 0 <= i <= |p| :: p[..i]
  }

  /** `joinPath(...paths)`: the segments one after the other. */
  function JoinPath(parts: seq<Path>): (r: Path)
    ensures parts == [] ==> r == []
    ensures |parts| == 1 ==> r == parts[0]
  {
    if parts == [] then [] else JoinPath(parts[..|parts| - 1]) + parts[|parts| - 1]
  }

  /** Joining a leading group of the segments gives a prefix of joining them all. */
  lemma {:induction false} JoinPathPrefixes(parts: seq<Path>, k: nat)
    requires k <= |parts|
    ensures IsPrefix(JoinPath(parts[..k]), JoinPath(parts))
  {
    assert parts[..k] + parts[k..] == parts;
    JoinPathAppend(parts[..k], parts[k..]);
    PrefixOfExtension(JoinPath(parts[..k]), [], JoinPath(parts[k..]));
  }

  /** `getDirName(filePath)`: drops the last name; the root is its own directory. */
  function GetDirName(p: Path): (r: Path)
    ensures p == [] ==> r == []
    ensures p != [] ==> IsPrefix(r, p) && |r| == |p| - 1
  {
    if p == [] then [] else p[..|p| - 1]
  }

  /** The string shown in error messages: the names separated by `/`, the root as `.`. */
  function Show(p: Path): string {
    if p == [] then "." else ShowNames(p)
  }

  function ShowNames(p: Path): string
    requires p != []
  {
    if |p| == 1 then p[0] else p[0] + "/" + ShowNames(p[1..])
  }

  /** Joining several groups of segments is joining their concatenation. */
  lemma {:induction false} JoinPathAppend(a: seq<Path>, b: seq<Path>)
    ensures JoinPath(a + b) == JoinPath(a) + JoinPath(b)
  {
    if b == [] {
      assert a + b == a;
    } else {
      var b' := b[..|b| - 1];
      assert (a + b)[..|a + b| - 1] == a + b';
      JoinPathAppend(a, b');
    }
  }

  /** `getDirName(joinPath(dir, name))` gives back `dir`. */
  lemma DirNameOfJoin(dir: Path, name: Name)
    ensures GetDirName(JoinPath([dir, [name]])) == dir
  {
    assert [dir, [name]][..1] == [dir];
    assert [dir][..0] == [];
    assert JoinPath([dir]) == dir;
    assert JoinPath([dir, [name]]) == dir + [name];
  }

  lemma PrefixTransitive(p: Path, q: Path, s: Path)
    ensures IsPrefix(p, q) && IsPrefix(q, s) ==> IsPrefix(p, s)
  {
    if IsPrefix(p, q) && IsPrefix(q, s) {
      assert s[..|p|] == s[..|q|][..|p|];
    }
  }

  lemma PrefixOfExtension(p: Path, q: Path, r: Path)
    ensures IsPrefix(p, p + r)
    ensures IsPrefix(p + q, p + r) <==> IsPrefix(q, r)
  {
    assert (p + r)[..|p|] == p;
    if |q| <= |r| {
      assert (p + r)[..|p + q|] == p + r[..|q|];
      if (p + r)[..|p + q|] == p + q {
        assert r[..|q|] == (p + r)[..|p + q|][|p|..];
      }
    }
  }

  /** `joinPath(dir, name)` is `dir` with `name` appended. */
  lemma JoinChild(dir: Path, name: Name)
    ensures JoinPath([dir, [name]]) == dir + [name]
  {
    assert [dir, [name]][..1] == [dir];
    assert [dir][..0] == [];
    assert JoinPath([dir]) == dir;
  }

  lemma ChildPrefix(p: Path, n: Name, q: Path)
    ensures IsPrefix(p + [n], q) ==> IsPrefix(p, q)
  {
    PrefixOfExtension(p, [], [n]);
    PrefixTransitive(p, p + [n], q);
  }

  /** Two ancestors of the same path lie on one line. */
  lemma PrefixesComparable(p: Path, q: Path, s: Path)
    ensures IsPrefix(p, s) && IsPrefix(q, s) ==> IsPrefix(p, q) || IsPrefix(q, p)
  {
    if IsPrefix(p, s) && IsPrefix(q, s) {
      if |p| <= |q| {
        assert q[..|p|] == s[..|q|][..|p|];
      } else {
        assert p[..|q|] == s[..|p|][..|q|];
      }
    }
  }

  /** Two different entries of one directory are disjoint. */
  lemma SiblingsDisjoint(p: Path, a: Name, b: Name)
    requires a != b
    ensures Disjoint(p + [a], p + [b])
  {
    assert (p + [a])[|p|] == a && (p + [b])[|p|] == b;
  }

  /** Entries of disjoint directories are disjoint. */
  lemma ChildrenDisjoint(p: Path, q: Path, n: Name)
    requires Disjoint(p, q)
    ensures Disjoint(p + [n], q + [n])
  {
    ChildPrefix(p, n, q + [n]);
    ChildPrefix(q, n, p + [n]);
    PrefixesComparable(p, q, q + [n]);
    PrefixesComparable(p, q, p + [n]);
  }
}
