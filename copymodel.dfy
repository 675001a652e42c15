/** What `copyDirectory` (src/file.ts) achieves, as relations between trees: when a copy
    goes through, what a finished copy leaves, and what a copy interrupted part way
    may leave. The method in Files is proved against these. */
module CopyModel {
  import opened Paths
  import opened Errors
  import opened FsModel

  /** The errors `copyDirectory` raises for the step that fails at the source path `sp`
      with its target path `dp`: the target cannot be created, the source cannot be
      listed, an entry cannot be stat'ed, or a file cannot be copied. */
  function StepErrors(sp: Path, dp: Path): set<Failure> {
    {App(NewAppError("Failed to create directory: " + Show(dp), 500)),
     App(NewAppError("Failed to read directory: " + Show(sp), 500)),
     App(NewAppError("Failed to get stats for: " + Show(sp), 500)),
     App(NewAppError("Failed to copy file: " + Show(sp) + " to " + Show(dp), 500))}
  }

  /** The step errors at the paths `rel` below `s` and `d`. */
  function StepErrorsBelow(s: Path, d: Path, rel: Path): set<Failure> {
    StepErrors(s + rel, d + rel)
  }

  /** `err` is raised by a step of copying `s` to `d`, at some path below them both. */
  ghost predicate StepError(err: Failure, s: Path, d: Path) {
    exists rel :: err in StepErrorsBelow(s, d, rel)
  }

  /** A step error of a copy at `s` and `d` themselves. */
  lemma StepErrorHere(err: Failure, s: Path, d: Path)
    requires err in StepErrors(s, d)
    ensures StepError(err, s, d)
  {
    assert s + [] == s && d + [] == d;
    assert err in StepErrorsBelow(s, d, []);
  }

  /** A step error of the copy of one entry is a step error of the enclosing copy. */
  lemma StepErrorWiden(err: Failure, s: Path, d: Path, e: Name)
    requires StepError(err, s + [e], d + [e])
    ensures StepError(err, s, d)
  {
    var rel :| err in StepErrorsBelow(s + [e], d + [e], rel);
    assert s + [e] + rel == s + ([e] + rel) && d + [e] + rel == d + ([e] + rel);
    assert err in StepErrorsBelow(s, d, [e] + rel);
  }

  /** `b` agrees with `a` at `p` and everywhere below it. */
  ghost predicate SameBelow(a: Tree, b: Tree, p: Path) {
    forall q {:trigger IsPrefix(p, q)} :: IsPrefix(p, q) ==> (q in a <==> q in b) && (q in a ==> a[q] == b[q])
  }

  /** Part way from `a` to `full`: nothing that was there has gone, nothing is there that
      `full` lacks, and each path holds what it held or what `full` puts there. */
  ghost predicate Between(a: Tree, b: Tree, full: Tree) {
    a.Keys <= b.Keys <= full.Keys &&
    forall q :: q in b ==> b[q] == full[q] || (q in a && b[q] == a[q])
  }

  /** Everything at or below `s` in `a` is in `b` at the same place below `d`. */
  ghost predicate Copied(a: Tree, b: Tree, s: Path, d: Path) {
    forall q {:trigger IsPrefix(s, q)} :: q in a && IsPrefix(s, q) ==> d + q[|s|..] in b && b[d + q[|s|..]] == a[q]
  }

  /** The node `q` below `s` can be handled by the copy of `s` to `d`: it can be stat'ed
      (the top directory itself is not), a directory can be created at its place and
      read, and a file can be copied to its place. */
  ghost predicate EntryCopies(t: Tree, f: Faults, s: Path, d: Path, q: Path) {
    q in t && IsPrefix(s, q) &&
    var r := q[|s|..];
    (r != [] ==> (StatSync, q) !in f) &&
    (t[q] == Dir ==> (MkdirSync, d + r) !in f && (ReaddirSync, q) !in f && !IsFile(t, d + r)) &&
    (t[q].File? ==> r != [] && (CopyFileSync, q) !in f && !IsDir(t, d + r))
  }

  /** `copyDirectory(s, d)` on `t` completes without throwing. */
  ghost predicate CopySucceeds(t: Tree, f: Faults, s: Path, d: Path) {
    s in t &&
    (forall i :: 0 <= i < |d| ==> !IsFile(t, d[..i])) &&
    forall q {:trigger EntryCopies(t, f, s, d, q)} :: q in t && IsPrefix(s, q) ==> EntryCopies(t, f, s, d, q)
  }

  /** One turn of the loop of `copyDirectory`, for the entry `s` and its target `d`. */
  ghost predicate EntrySucceeds(t: Tree, f: Faults, s: Path, d: Path) {
    s in t && (StatSync, s) !in f &&
    (t[s] == Dir ==> CopySucceeds(t, f, s, d)) &&
    (t[s].File? ==> CopyFileOk(t, f, s, d))
  }

  /** Every node below the entry `e` of `s` can be handled by the copy of `s` to `d`. */
  ghost predicate EntryOkBelow(t: Tree, f: Faults, s: Path, d: Path, e: Name) {
    forall q {:trigger EntryCopies(t, f, s, d, q)} :: q in t && IsPrefix(s + [e], q) ==> EntryCopies(t, f, s, d, q)
  }

  // ---- the success condition, one entry at a time ----

  lemma EntryBelowChild(t: Tree, f: Faults, s: Path, d: Path, q: Path)
    requires WellFormed(t) && q in t && IsPrefix(s, q) && q != s
    requires forall e :: e in Children(t, s) ==> EntryOkBelow(t, f, s, d, e)
    ensures EntryCopies(t, f, s, d, q)
  {
    var e := q[|s|];
    var c := s + [e];
    assert q[..|s| + 1] == c;
    if c != q {
      AncestorIsDir(t, c, q);
    }
    InChildren(t, s, e);
    assert EntryOkBelow(t, f, s, d, e);
  }

  /** A copy of a directory goes through exactly when its target can be created, it can
      be read, and each of its entries can be copied. */
  lemma SplitSucceeds(t: Tree, f: Faults, s: Path, d: Path)
    requires WellFormed(t) && IsDir(t, s)
    ensures CopySucceeds(t, f, s, d) <==>
      MkdirOk(t, f, d) && (ReaddirSync, s) !in f &&
      forall e :: e in Children(t, s) ==> EntryOkBelow(t, f, s, d, e)
  {
    assert s[|s|..] == [];
    assert d + [] == d;
    assert d[..|d|] == d;
    if CopySucceeds(t, f, s, d) {
      assert EntryCopies(t, f, s, d, s);
      forall e | e in Children(t, s)
        ensures EntryOkBelow(t, f, s, d, e)
      {
        forall q | q in t && IsPrefix(s + [e], q)
          ensures EntryCopies(t, f, s, d, q)
        {
          ChildPrefix(s, e, q);
        }
      }
      forall i | 0 <= i <= |d|
        ensures !IsFile(t, d[..i])
      {
      }
    }
    if MkdirOk(t, f, d) && (ReaddirSync, s) !in f &&
       forall e :: e in Children(t, s) ==> EntryOkBelow(t, f, s, d, e)
    {
      forall q | q in t && IsPrefix(s, q)
        ensures EntryCopies(t, f, s, d, q)
      {
        if q != s {
          EntryBelowChild(t, f, s, d, q);
        }
      }
    }
  }

  // ---- an entry, judged in the state the loop has reached ----

  lemma SameBelowNarrow(a: Tree, b: Tree, p: Path, p': Path)
    requires SameBelow(a, b, p) && IsPrefix(p, p')
    ensures SameBelow(a, b, p')
  {
    forall q | IsPrefix(p', q)
      ensures (q in a <==> q in b) && (q in a ==> a[q] == b[q])
    {
      PrefixTransitive(p, p', q);
    }
  }

  /** Below the entry itself, the nested copy and the enclosing one ask the same of a node. */
  lemma EntryAtInner(a: Tree, b: Tree, f: Faults, src: Path, dst: Path, e: Name, q: Path)
    requires SameBelow(a, b, src + [e]) && SameBelow(a, b, dst + [e])
    requires q in a && IsPrefix(src + [e], q) && q != src + [e]
    ensures EntryCopies(a, f, src, dst, q) <==> EntryCopies(b, f, src + [e], dst + [e], q)
  {
    var s, d := src + [e], dst + [e];
    ChildPrefix(src, e, q);
    var rn := q[|s|..];
    assert q == s + rn;
    assert q[|src|..] == [e] + rn;
    assert dst + q[|src|..] == d + rn;
    PrefixOfExtension(d, [], rn);
    assert rn != [];
  }

  /** At the entry itself. */
  lemma EntryAtRoot(a: Tree, b: Tree, f: Faults, src: Path, dst: Path, e: Name)
    requires SameBelow(a, b, src + [e]) && SameBelow(a, b, dst + [e]) && src + [e] in a
    ensures EntryCopies(a, f, src, dst, src + [e]) <==>
      (StatSync, src + [e]) !in f &&
      (a[src + [e]] == Dir ==> EntryCopies(b, f, src + [e], dst + [e], src + [e])) &&
      (a[src + [e]].File? ==> (CopyFileSync, src + [e]) !in f && !IsDir(b, dst + [e]))
  {
    var s, d := src + [e], dst + [e];
    ChildPrefix(src, e, s);
    PrefixOfExtension(s, [], []);
    PrefixOfExtension(d, [], []);
    assert s[|src|..] == [e];
    assert s[|s|..] == [];
    assert d + [] == d;
  }

  /** The ancestors of an entry's target are directories once the target's parent is. */
  lemma TargetAncestors(t: Tree, dst: Path, e: Name)
    requires WellFormed(t) && IsDir(t, dst)
    ensures forall i :: 0 <= i < |dst + [e]| ==> !IsFile(t, (dst + [e])[..i])
  {
    forall i | 0 <= i < |dst + [e]|
      ensures !IsFile(t, (dst + [e])[..i])
    {
      var p := (dst + [e])[..i];
      assert p == dst[..i];
      if i < |dst| {
        AncestorIsDir(t, p, dst);
      }
    }
  }

  lemma EntryDirCase(a: Tree, b: Tree, f: Faults, src: Path, dst: Path, e: Name)
    requires WellFormed(b) && IsDir(b, dst) && SameBelow(a, b, src + [e]) && SameBelow(a, b, dst + [e])
    requires IsDir(a, src + [e])
    ensures EntrySucceeds(b, f, src + [e], dst + [e]) <==> EntryOkBelow(a, f, src, dst, e)
  {
    var s, d := src + [e], dst + [e];
    PrefixOfExtension(s, [], []);
    assert s + [] == s;
    TargetAncestors(b, dst, e);
    EntryAtRoot(a, b, f, src, dst, e);
    if EntrySucceeds(b, f, s, d) {
      forall q | q in a && IsPrefix(s, q)
        ensures EntryCopies(a, f, src, dst, q)
      {
        assert EntryCopies(b, f, s, d, q);
        if q != s {
          EntryAtInner(a, b, f, src, dst, e, q);
        }
      }
    }
    if EntryOkBelow(a, f, src, dst, e) {
      forall q | q in b && IsPrefix(s, q)
        ensures EntryCopies(b, f, s, d, q)
      {
        assert EntryCopies(a, f, src, dst, q);
        if q != s {
          EntryAtInner(a, b, f, src, dst, e, q);
        }
      }
      assert EntryCopies(a, f, src, dst, s);
    }
  }

  lemma EntryFileCase(a: Tree, b: Tree, f: Faults, src: Path, dst: Path, e: Name)
    requires WellFormed(b) && IsDir(b, dst) && SameBelow(a, b, src + [e]) && SameBelow(a, b, dst + [e])
    requires IsFile(a, src + [e])
    ensures EntrySucceeds(b, f, src + [e], dst + [e]) <==> EntryOkBelow(a, f, src, dst, e)
  {
    var s, d := src + [e], dst + [e];
    PrefixOfExtension(s, [], []);
    assert s + [] == s;
    assert GetDirName(d) == dst;
    EntryAtRoot(a, b, f, src, dst, e);
    forall q | q in a && IsPrefix(s, q)
      ensures q == s
    {
      BelowIsDir(b, s, q);
    }
  }

  /** An entry's turn of the loop goes through, in the state the loop has reached, exactly
      when the enclosing copy, judged in its starting state, can handle every node below
      that entry. */
  lemma EntryEquivalence(a: Tree, b: Tree, f: Faults, src: Path, dst: Path, e: Name)
    requires WellFormed(b) && IsDir(b, dst) && SameBelow(a, b, src) && SameBelow(a, b, dst + [e])
    requires src + [e] in a
    ensures EntrySucceeds(b, f, src + [e], dst + [e]) <==> EntryOkBelow(a, f, src, dst, e)
  {
    PrefixOfExtension(src, [], [e]);
    SameBelowNarrow(a, b, src, src + [e]);
    if a[src + [e]] == Dir {
      EntryDirCase(a, b, f, src, dst, e);
    } else {
      EntryFileCase(a, b, f, src, dst, e);
    }
  }

  // ---- the state of the tree part way through a copy ----

  lemma BetweenStart(a: Tree, s: Path, d: Path)
    ensures Between(a, a, CopyResult(a, s, d))
  {
  }

  lemma SameBelowTrans(a: Tree, b: Tree, c: Tree, p: Path)
    requires SameBelow(a, b, p) && SameBelow(b, c, p)
    ensures SameBelow(a, c, p)
  {
  }

  lemma ChildrenSame(a: Tree, b: Tree, p: Path)
    requires SameBelow(a, b, p)
    ensures Children(a, p) == Children(b, p)
  {
    forall n | true
      ensures n in Children(a, p) <==> n in Children(b, p)
    {
      InChildren(a, p, n);
      InChildren(b, p, n);
      PrefixOfExtension(p, [], [n]);
      assert p + [] == p;
    }
  }

  /** A path that is one of the ancestors of `p` and lies below `p` is `p`. */
  lemma PrefixOfItself(p: Path, q: Path)
    ensures q in Prefixes(p) && IsPrefix(p, q) ==> q == p
  {
  }

  /** Creating `dst` and its ancestors is the first move towards the copy. */
  lemma MkdirStep(a: Tree, src: Path, dst: Path)
    requires IsDir(a, src)
    ensures Between(a, WithAncestors(a, dst), CopyResult(a, src, dst))
  {
    var b, full := WithAncestors(a, dst), CopyResult(a, src, dst);
    assert src + [] == src;
    forall q | q in b
      ensures b[q] == full[q] || (q in a && b[q] == a[q])
    {
      PrefixOfItself(dst, q);
      if q !in a {
        assert q in Prefixes(dst);
        if IsPrefix(dst, q) {
          assert q[|dst|..] == [];
        }
      }
    }
  }

  /** Creating `p` and its ancestors leaves alone everything below a path `x` that is not
      one of them. */
  lemma MkdirFrame(a: Tree, p: Path, x: Path)
    requires !IsPrefix(x, p)
    ensures SameBelow(a, WithAncestors(a, p), x)
  {
    forall q | IsPrefix(x, q)
      ensures q !in Prefixes(p)
    {
      if q in Prefixes(p) {
        PrefixTransitive(x, q, p);
      }
    }
  }

  /** What a copy adds lies outside the (disjoint) source: the source stays as it was. */
  lemma SourceKept(a: Tree, b: Tree, s: Path, d: Path)
    requires Disjoint(s, d) && Between(a, b, CopyResult(a, s, d))
    ensures SameBelow(a, b, s)
  {
    forall q | IsPrefix(s, q)
      ensures (q in a <==> q in b) && (q in a ==> a[q] == b[q])
    {
      CopyAddsOutsideSource(a, s, d, q);
      PrefixesComparable(s, d, q);
    }
  }

  lemma ImageBelow(a: Tree, s: Path, d: Path, q: Path)
    ensures q in Image(a, s, d) ==> IsPrefix(d, q) && s + q[|d|..] in a
  {
    if q in Image(a, s, d) {
      var x :| x in a && IsPrefix(s, x) && q == d + x[|s|..];
      PrefixOfExtension(d, [], x[|s|..]);
      assert q[|d|..] == x[|s|..];
      assert s + q[|d|..] == x;
    }
  }

  /** A copy to `d` changes nothing below a path disjoint from `d`. */
  lemma FrameOutside(a: Tree, b: Tree, s: Path, d: Path, p: Path)
    requires Between(a, b, CopyResult(a, s, d)) && Disjoint(p, d)
    ensures SameBelow(a, b, p)
  {
    forall q | IsPrefix(p, q)
      ensures (q in a <==> q in b) && (q in a ==> a[q] == b[q])
    {
      PrefixesComparable(p, d, q);
      PrefixTransitive(p, q, d);
      ImageBelow(a, s, d, q);
    }
  }

  lemma CopiedKept(a: Tree, b: Tree, c: Tree, s: Path, d: Path)
    requires Copied(a, b, s, d) && SameBelow(b, c, d)
    ensures Copied(a, c, s, d)
  {
    forall q | q in a && IsPrefix(s, q)
      ensures d + q[|s|..] in c && c[d + q[|s|..]] == a[q]
    {
      PrefixOfExtension(d, [], q[|s|..]);
    }
  }

  /** Finishing the copy of an entry, from a state that agrees with `a` on the entry,
      leaves the entry copied. */
  lemma CopiedByStep(a: Tree, b: Tree, s: Path, d: Path)
    requires SameBelow(a, b, s)
    ensures Copied(a, CopyResult(b, s, d), s, d)
  {
    forall q | q in a && IsPrefix(s, q)
      ensures d + q[|s|..] in CopyResult(b, s, d) && CopyResult(b, s, d)[d + q[|s|..]] == a[q]
    {
      var x := d + q[|s|..];
      assert x in Image(b, s, d);
      PrefixOfExtension(d, [], q[|s|..]);
      assert x[|d|..] == q[|s|..];
      assert s + x[|d|..] == q;
    }
  }

  /** A node that the copy of an entry takes from that entry's source is where, and
      what, the enclosing copy puts there. */
  lemma LiftSourceCase(a: Tree, b: Tree, src: Path, dst: Path, e: Name, q: Path)
    requires SameBelow(a, b, src)
    requires IsPrefix(dst + [e], q) && (src + [e]) + q[|dst + [e]|..] in b
    ensures q in CopyResult(a, src, dst) && q in CopyResult(b, src + [e], dst + [e])
    ensures CopyResult(a, src, dst)[q] == CopyResult(b, src + [e], dst + [e])[q]
  {
    var s, d := src + [e], dst + [e];
    var rel := q[|d|..];
    PrefixOfExtension(src, [e], [e] + rel);
    assert s + rel == src + ([e] + rel);
    assert q == d + rel;
    PrefixOfExtension(s, [], rel);
    assert (s + rel)[|s|..] == rel;
    assert q in Image(b, s, d);
    PrefixOfExtension(dst, [], [e] + rel);
    assert q == dst + ([e] + rel);
    assert q[|dst|..] == [e] + rel;
    assert src + q[|dst|..] == s + rel;
    assert (s + rel)[|src|..] == [e] + rel;
    assert q in Image(a, src, dst);
  }

  /** A directory that the copy of an entry creates as an ancestor of its target is one
      the enclosing copy creates too. */
  lemma LiftAncestorCase(a: Tree, b: Tree, src: Path, dst: Path, e: Name, q: Path)
    requires IsDir(a, src) && a.Keys <= b.Keys && q !in b && src + [e] in b
    requires q in CopyResult(b, src + [e], dst + [e])
    requires !(IsPrefix(dst + [e], q) && (src + [e]) + q[|dst + [e]|..] in b)
    ensures q in CopyResult(a, src, dst) && CopyResult(a, src, dst)[q] == Dir
  {
    var s, d := src + [e], dst + [e];
    ImageBelow(b, s, d, q);
    var i :| 0 <= i <= |d| && q == d[..i];
    assert d[|d|..] == [] && s + [] == s && IsPrefix(d, d);
    assert i < |d|;
    assert q == dst[..i];
    assert q in Prefixes(dst);
    if IsPrefix(dst, q) {
      assert q[|dst|..] == [];
      assert src + [] == src;
    }
  }

  lemma LiftAt(a: Tree, b: Tree, c: Tree, src: Path, dst: Path, e: Name, q: Path)
    requires Between(a, b, CopyResult(a, src, dst))
    requires Between(b, c, CopyResult(b, src + [e], dst + [e]))
    requires SameBelow(a, b, src) && IsDir(a, src) && src + [e] in a && q in c
    ensures q in CopyResult(a, src, dst)
    ensures c[q] == CopyResult(a, src, dst)[q] || (q in a && c[q] == a[q])
  {
    var s, d := src + [e], dst + [e];
    PrefixOfExtension(src, [], [e]);
    if IsPrefix(d, q) && s + q[|d|..] in b {
      LiftSourceCase(a, b, src, dst, e, q);
    } else if q !in b {
      LiftAncestorCase(a, b, src, dst, e, q);
    }
  }

  /** The copy of one entry, laid over a state between the start of the enclosing copy
      and its end, leaves a state that is still between them. */
  lemma LiftBetween(a: Tree, b: Tree, c: Tree, src: Path, dst: Path, e: Name)
    requires Between(a, b, CopyResult(a, src, dst))
    requires Between(b, c, CopyResult(b, src + [e], dst + [e]))
    requires SameBelow(a, b, src) && IsDir(a, src) && src + [e] in a
    ensures Between(a, c, CopyResult(a, src, dst))
  {
    forall q | q in c
      ensures q in CopyResult(a, src, dst)
      ensures c[q] == CopyResult(a, src, dst)[q] || (q in a && c[q] == a[q])
    {
      LiftAt(a, b, c, src, dst, e, q);
    }
  }

  /** The target directory, once created, remains a directory. */
  lemma TargetStaysDir(a: Tree, b: Tree, src: Path, dst: Path)
    requires Between(a, b, CopyResult(a, src, dst)) && dst in b
    requires IsDir(a, src) && !IsFile(a, dst)
    ensures IsDir(b, dst)
  {
    assert src + dst[|dst|..] == src;
  }

  lemma FileCopyKey(t: Tree, s: Path, d: Path, q: Path)
    requires WellFormed(t) && IsFile(t, s) && d != [] && IsDir(t, GetDirName(d))
    requires q in Prefixes(d) + Image(t, s, d)
    ensures q in t || q == d
  {
    ImageBelow(t, s, d, q);
    if q in Image(t, s, d) {
      BelowIsDir(t, s, s + q[|d|..]);
      PrefixOfExtension(s, [], q[|d|..]);
      assert q == d + q[|d|..];
    } else {
      var i :| 0 <= i <= |d| && q == d[..i];
      if i < |d| - 1 {
        AncestorIsDir(t, q, GetDirName(d));
      }
    }
  }

  lemma FileCopyValue(t: Tree, s: Path, d: Path, q: Path)
    requires WellFormed(t) && IsFile(t, s) && q != d
    ensures !(IsPrefix(d, q) && s + q[|d|..] in t)
  {
    if IsPrefix(d, q) {
      var rel := q[|d|..];
      PrefixOfExtension(s, [], rel);
      BelowIsDir(t, s, s + rel);
      assert q == d + rel;
    }
  }

  lemma FileCopyKeys(t: Tree, s: Path, d: Path)
    requires WellFormed(t) && IsFile(t, s) && d != [] && IsDir(t, GetDirName(d))
    ensures CopyResult(t, s, d).Keys == t.Keys + {d}
  {
    assert s + [] == s && d[|d|..] == [] && s[|s|..] == [] && d + [] == d;
    assert IsPrefix(s, s) && d + s[|s|..] == d;
    assert d in Image(t, s, d);
    forall q | q in Prefixes(d) + Image(t, s, d)
      ensures q in t || q == d
    {
      FileCopyKey(t, s, d, q);
    }
  }

  lemma FileCopyAt(t: Tree, s: Path, d: Path, q: Path)
    requires WellFormed(t) && IsFile(t, s) && q in t.Keys + {d}
    ensures Placed(t, s, d, q) == t[d := t[s]][q]
  {
    if q != d {
      FileCopyValue(t, s, d, q);
    } else {
      assert IsPrefix(d, d) && d[|d|..] == [] && s + [] == s;
    }
  }

  /** Copying a file to a path whose parent is a directory is a single write. */
  lemma FileCopyResult(t: Tree, s: Path, d: Path)
    requires WellFormed(t) && IsFile(t, s) && d != [] && IsDir(t, GetDirName(d))
    ensures CopyResult(t, s, d) == t[d := t[s]]
  {
    var c, w := CopyResult(t, s, d), t[d := t[s]];
    FileCopyKeys(t, s, d);
    forall q | q in c
      ensures c[q] == w[q]
    {
      FileCopyAt(t, s, d, q);
    }
  }

  lemma ImageAbove(a: Tree, s: Path, d: Path, q: Path)
    ensures IsPrefix(d, q) && s + q[|d|..] in a ==> q in Image(a, s, d)
  {
    if IsPrefix(d, q) && s + q[|d|..] in a {
      var x := s + q[|d|..];
      PrefixOfExtension(s, [], q[|d|..]);
      assert x[|s|..] == q[|d|..];
      assert q == d + x[|s|..];
    }
  }

  /** A node of the target that is the image of a node below an entry. */
  lemma CompleteImage(a: Tree, b: Tree, src: Path, dst: Path, q: Path)
    requires WellFormed(a) && IsDir(a, src) && IsDir(b, dst)
    requires forall e :: e in Children(a, src) ==> Copied(a, b, src + [e], dst + [e])
    requires q in Image(a, src, dst)
    ensures q in b && b[q] == CopyResult(a, src, dst)[q]
  {
    ImageBelow(a, src, dst, q);
    var x := src + q[|dst|..];
    PrefixOfExtension(src, [], q[|dst|..]);
    assert x[|src|..] == q[|dst|..];
    if x == src {
      assert q[|dst|..] == [];
      assert q == dst;
    } else {
      var e := x[|src|];
      var c := src + [e];
      assert x[..|src| + 1] == c;
      if c != x {
        AncestorIsDir(a, c, x);
      }
      InChildren(a, src, e);
      assert Copied(a, b, c, dst + [e]);
      assert IsPrefix(c, x);
      assert x[|c|..] == q[|dst| + 1..];
      assert q == (dst + [e]) + x[|c|..];
    }
  }

  /** A node of the result that is not the image of a source node and was there before. */
  lemma CompleteOld(a: Tree, b: Tree, src: Path, dst: Path, q: Path)
    requires Between(a, b, CopyResult(a, src, dst))
    requires q in a && q !in Image(a, src, dst)
    ensures q in b && b[q] == CopyResult(a, src, dst)[q]
  {
    ImageAbove(a, src, dst, q);
    assert CopyResult(a, src, dst)[q] == Placed(a, src, dst, q) == a[q];
  }

  /** A created ancestor of the target. */
  lemma CompleteAncestor(a: Tree, b: Tree, src: Path, dst: Path, q: Path)
    requires WellFormed(b) && IsDir(b, dst) && Between(a, b, CopyResult(a, src, dst))
    requires q in Prefixes(dst) && q !in a
    ensures q in b && b[q] == CopyResult(a, src, dst)[q]
  {
    var i :| 0 <= i <= |dst| && q == dst[..i];
    assert IsPrefix(q, dst);
    BelowIsDir(b, q, dst);
  }

  /** A node of the result that is not the image of a source node. */
  lemma CompleteRest(a: Tree, b: Tree, src: Path, dst: Path, q: Path)
    requires WellFormed(b) && IsDir(b, dst) && Between(a, b, CopyResult(a, src, dst))
    requires q in CopyResult(a, src, dst) && q !in Image(a, src, dst)
    ensures q in b && b[q] == CopyResult(a, src, dst)[q]
  {
    if q in a {
      CompleteOld(a, b, src, dst, q);
    } else {
      CompleteAncestor(a, b, src, dst, q);
    }
  }

  /** Once every entry of the source has been copied into the created target, the tree is
      the finished copy. */
  lemma Complete(a: Tree, b: Tree, src: Path, dst: Path)
    requires WellFormed(a) && WellFormed(b) && IsDir(a, src) && IsDir(b, dst)
    requires Between(a, b, CopyResult(a, src, dst))
    requires forall e :: e in Children(a, src) ==> Copied(a, b, src + [e], dst + [e])
    ensures b == CopyResult(a, src, dst)
  {
    var full := CopyResult(a, src, dst);
    forall q | q in full
      ensures q in b && b[q] == full[q]
    {
      if q in Image(a, src, dst) {
        CompleteImage(a, b, src, dst, q);
      } else {
        CompleteRest(a, b, src, dst, q);
      }
    }
    assert b.Keys == full.Keys;
  }

  // ---- one turn of the loop of `copyDirectory` ----

  lemma UnderSame(a: Tree, b: Tree, p: Path)
    requires SameBelow(a, b, p)
    ensures Under(a, p) == Under(b, p)
  {
  }

  /** The subtree of an entry is strictly smaller than that of its directory. */
  lemma UnderShrinks(t: Tree, p: Path, e: Name)
    requires WellFormed(t) && p + [e] in t
    ensures Under(t, p + [e]) < Under(t, p)
  {
    forall q | q in Under(t, p + [e])
      ensures q in Under(t, p)
    {
      ChildPrefix(p, e, q);
    }
    assert GetDirName(p + [e]) == p;
    PrefixOfExtension(p, [], []);
    assert p + [] == p;
    assert p in Under(t, p);
  }

  /** What the loop knows before the turn of entry `i`. */
  ghost predicate LoopState(a: Tree, b: Tree, src: Path, dst: Path, names: seq<Name>, i: int)
    requires 0 <= i <= |names|
  {
    Between(a, b, CopyResult(a, src, dst)) && SameBelow(a, b, src) && IsDir(b, dst) &&
    (forall j :: 0 <= j < i ==> Copied(a, b, src + [names[j]], dst + [names[j]])) &&
    (forall j :: i <= j < |names| ==> SameBelow(a, b, dst + [names[j]]))
  }

  /** Before the first turn, right after `dst` has been created. */
  lemma LoopStart(a: Tree, src: Path, dst: Path, names: seq<Name>)
    requires IsDir(a, src) && Disjoint(src, dst) && !IsFile(a, dst)
    ensures LoopState(a, WithAncestors(a, dst), src, dst, names, 0)
  {
    var b := WithAncestors(a, dst);
    MkdirStep(a, src, dst);
    SourceKept(a, b, src, dst);
    TargetCreated(a, dst);
    EntriesUntouched(a, dst, names);
  }

  lemma TargetCreated(a: Tree, dst: Path)
    requires !IsFile(a, dst)
    ensures IsDir(WithAncestors(a, dst), dst)
  {
    assert dst[..|dst|] == dst;
  }

  lemma EntriesUntouched(a: Tree, dst: Path, names: seq<Name>)
    ensures forall j :: 0 <= j < |names| ==> SameBelow(a, WithAncestors(a, dst), dst + [names[j]])
  {
    forall j | 0 <= j < |names|
      ensures SameBelow(a, WithAncestors(a, dst), dst + [names[j]])
    {
      MkdirFrame(a, dst, dst + [names[j]]);
    }
  }

  /** What the turn of entry `i` leaves, whether it completed or was cut short. */
  lemma AfterEntry(a: Tree, b: Tree, c: Tree, src: Path, dst: Path, names: seq<Name>, i: int)
    requires IsDir(a, src) && Disjoint(src, dst) && !IsFile(a, dst)
    requires ListingOf(names, Children(a, src)) && 0 <= i < |names|
    requires LoopState(a, b, src, dst, names, i)
    requires Between(b, c, CopyResult(b, src + [names[i]], dst + [names[i]]))
    ensures Between(a, c, CopyResult(a, src, dst)) && SameBelow(a, c, src) && IsDir(c, dst)
    ensures forall j :: 0 <= j < i ==> Copied(a, c, src + [names[j]], dst + [names[j]])
    ensures forall j :: i < j < |names| ==> SameBelow(a, c, dst + [names[j]])
  {
    var e := names[i];
    InChildren(a, src, e);
    LiftBetween(a, b, c, src, dst, e);
    SourceKept(a, c, src, dst);
    TargetStaysDir(a, c, src, dst);
    forall j | 0 <= j < |names| && j != i
      ensures SameBelow(b, c, dst + [names[j]])
    {
      SiblingsDisjoint(dst, names[j], e);
      FrameOutside(b, c, src + [e], dst + [e], dst + [names[j]]);
    }
    forall j | 0 <= j < i
      ensures Copied(a, c, src + [names[j]], dst + [names[j]])
    {
      CopiedKept(a, b, c, src + [names[j]], dst + [names[j]]);
    }
    forall j | i < j < |names|
      ensures SameBelow(a, c, dst + [names[j]])
    {
      SameBelowTrans(a, b, c, dst + [names[j]]);
    }
  }

  /** A completed turn leaves its entry copied. */
  lemma EntryDone(a: Tree, b: Tree, src: Path, dst: Path, e: Name)
    requires SameBelow(a, b, src)
    ensures Copied(a, CopyResult(b, src + [e], dst + [e]), src + [e], dst + [e])
  {
    PrefixOfExtension(src, [], [e]);
    SameBelowNarrow(a, b, src, src + [e]);
    CopiedByStep(a, b, src + [e], dst + [e]);
  }

  /** After the last turn: every listed entry has been copied. */
  lemma LoopEnd(a: Tree, b: Tree, src: Path, dst: Path, names: seq<Name>)
    requires WellFormed(a) && WellFormed(b) && IsDir(a, src)
    requires ListingOf(names, Children(a, src)) && LoopState(a, b, src, dst, names, |names|)
    ensures b == CopyResult(a, src, dst)
  {
    forall e | e in Children(a, src)
      ensures Copied(a, b, src + [e], dst + [e])
    {
      var j :| 0 <= j < |names| && names[j] == e;
    }
    Complete(a, b, src, dst);
  }

  /** A copy whose source is a file does not go through. */
  lemma FileSourceFails(t: Tree, f: Faults, s: Path, d: Path)
    ensures IsFile(t, s) ==> !CopySucceeds(t, f, s, d)
  {
    assert s[|s|..] == [];
    PrefixOfExtension(s, [], []);
    assert s + [] == s;
    if IsFile(t, s) {
      assert !EntryCopies(t, f, s, d, s);
    }
  }

  /** A completed turn moves the loop on to the next entry. */
  lemma LoopNext(a: Tree, b: Tree, src: Path, dst: Path, names: seq<Name>, i: int)
    requires IsDir(a, src) && Disjoint(src, dst) && !IsFile(a, dst)
    requires ListingOf(names, Children(a, src)) && 0 <= i < |names|
    requires LoopState(a, b, src, dst, names, i)
    ensures LoopState(a, CopyResult(b, src + [names[i]], dst + [names[i]]), src, dst, names, i + 1)
  {
    var c := CopyResult(b, src + [names[i]], dst + [names[i]]);
    BetweenStart(b, src + [names[i]], dst + [names[i]]);
    assert Between(b, c, c);
    AfterEntry(a, b, c, src, dst, names, i);
    EntryDone(a, b, src, dst, names[i]);
  }

  lemma EntriesOkNext(a: Tree, f: Faults, src: Path, dst: Path, names: seq<Name>, i: int)
    requires 0 <= i < |names|
    requires forall j :: 0 <= j < i ==> EntryOkBelow(a, f, src, dst, names[j])
    requires EntryOkBelow(a, f, src, dst, names[i])
    ensures forall j :: 0 <= j < i + 1 ==> EntryOkBelow(a, f, src, dst, names[j])
  {
  }

  // ---- what a finished copy is ----

  /** A finished copy has every node of the source at its place below the target. */
  lemma CopyPlacesSource(t: Tree, s: Path, d: Path)
    ensures Copied(t, CopyResult(t, s, d), s, d)
  {
    CopiedByStep(t, t, s, d);
  }

  /** Copying a directory with no entries only creates the target: the finished copy is
      what a recursive `mkdir` of the target gives. */
  lemma EmptySourceCopy(t: Tree, s: Path, d: Path)
    requires WellFormed(t) && IsDir(t, s) && Children(t, s) == {} && !IsFile(t, d)
    ensures CopyResult(t, s, d) == WithAncestors(t, d)
  {
    var c, w := CopyResult(t, s, d), WithAncestors(t, d);
    assert d[..|d|] == d && d + s[|s|..] == d;
    forall q | q in t && IsPrefix(s, q)
      ensures d + q[|s|..] == d
    {
      EmptyDirHasNothingBelow(t, s, q);
    }
    assert c.Keys == w.Keys;
    forall q | q in c
      ensures c[q] == w[q]
    {
      if IsPrefix(d, q) && s + q[|d|..] in t {
        PrefixOfExtension(s, [], q[|d|..]);
        EmptyDirHasNothingBelow(t, s, s + q[|d|..]);
        assert q == d + q[|d|..];
      }
    }
  }

  /** A finished copy leaves the source as it was. */
  lemma CopyKeepsSource(t: Tree, s: Path, d: Path)
    requires Disjoint(s, d)
    ensures SameBelow(t, CopyResult(t, s, d), s)
  {
    var c := CopyResult(t, s, d);
    forall q | IsPrefix(s, q)
      ensures (q in t <==> q in c) && (q in t ==> t[q] == c[q])
    {
      CopyAddsOutsideSource(t, s, d, q);
      PrefixesComparable(s, d, q);
    }
  }

  /** A finished copy changes nothing outside the target and its ancestors: an old path
      not below the target keeps its node, and a new path not below the target is one
      of its ancestors. */
  lemma CopyKeepsOutside(t: Tree, s: Path, d: Path, q: Path)
    ensures q in t && !IsPrefix(d, q) ==> q in CopyResult(t, s, d) && CopyResult(t, s, d)[q] == t[q]
    ensures q in CopyResult(t, s, d) && q !in t && !IsPrefix(d, q) ==> q in Prefixes(d)
  {
    ImageBelow(t, s, d, q);
  }

  /** Copying again what has just been copied changes nothing. */
  lemma CopyIdempotent(t: Tree, s: Path, d: Path)
    requires Disjoint(s, d)
    ensures CopyResult(CopyResult(t, s, d), s, d) == CopyResult(t, s, d)
  {
    var c := CopyResult(t, s, d);
    var c2 := CopyResult(c, s, d);
    CopyKeepsSource(t, s, d);
    forall q | q in Image(c, s, d)
      ensures q in c
    {
      var x :| x in c && IsPrefix(s, x) && q == d + x[|s|..];
      assert x in t;
      assert q in Image(t, s, d);
    }
    assert c2.Keys == c.Keys;
    forall q | q in c
      ensures c2[q] == c[q]
    {
      if IsPrefix(d, q) && s + q[|d|..] in c {
        var x := s + q[|d|..];
        PrefixOfExtension(s, [], q[|d|..]);
        assert s + [] == s && IsPrefix(s, x);
        assert x in t && c[x] == t[x];
      }
    }
  }

  /** A copy that went through goes through a second time (and then, by CopyIdempotent,
      leaves the tree as it is). */
  lemma CopyAgainSucceeds(t: Tree, f: Faults, s: Path, d: Path)
    requires Disjoint(s, d) && CopySucceeds(t, f, s, d)
    ensures CopySucceeds(CopyResult(t, s, d), f, s, d)
  {
    var c := CopyResult(t, s, d);
    CopyKeepsSource(t, s, d);
    PrefixOfExtension(s, [], []);
    assert s + [] == s && IsPrefix(s, s);
    forall i | 0 <= i < |d|
      ensures !IsFile(c, d[..i])
    {
      assert d[..i] in Prefixes(d);
    }
    forall q | q in c && IsPrefix(s, q)
      ensures EntryCopies(c, f, s, d, q)
    {
      assert EntryCopies(t, f, s, d, q);
      var r := q[|s|..];
      assert (d + r)[|d|..] == r && s + r == q;
      assert d + r in Image(t, s, d);
      assert c[d + r] == t[q];
    }
  }

  // ---- moving ----

  /** Renaming a file puts its contents at the new path and removes the old one. */
  lemma RenameFileMoves(t: Tree, s: Path, d: Path)
    requires WellFormed(t) && IsFile(t, s) && s != d && d != [] && IsDir(t, GetDirName(d))
    ensures Relocated(t, s, d) == (t - {s})[d := t[s]]
  {
    FileCopyResult(t, s, d);
    forall q | q in Under(t, s)
      ensures q == s
    {
      BelowIsDir(t, s, q);
    }
    assert Under(t, s) == {s};
  }

  /** Removing the source after a finished copy gives the moved tree. */
  lemma RelocatedAfterCopy(t: Tree, s: Path, d: Path)
    requires Disjoint(s, d)
    ensures CopyResult(t, s, d) - Under(CopyResult(t, s, d), s) == Relocated(t, s, d)
  {
    CopyKeepsSource(t, s, d);
    UnderSame(t, CopyResult(t, s, d), s);
  }

  /** What a move achieves: every node of the source is at its place below the target,
      nothing is left at or below the source, and every other path not below the target
      keeps its node. */
  lemma RelocatedMoves(t: Tree, s: Path, d: Path)
    requires Disjoint(s, d)
    ensures forall q :: q in t && IsPrefix(s, q) ==>
      d + q[|s|..] in Relocated(t, s, d) && Relocated(t, s, d)[d + q[|s|..]] == t[q]
    ensures forall q :: IsPrefix(s, q) ==> q !in Relocated(t, s, d)
    ensures forall q :: q in t && !IsPrefix(s, q) && !IsPrefix(d, q) ==>
      q in Relocated(t, s, d) && Relocated(t, s, d)[q] == t[q]
  {
    var c := CopyResult(t, s, d);
    CopyPlacesSource(t, s, d);
    CopyKeepsSource(t, s, d);
    forall q | q in t && IsPrefix(s, q)
      ensures d + q[|s|..] in Relocated(t, s, d) && Relocated(t, s, d)[d + q[|s|..]] == t[q]
    {
      assert d + q[|s|..] in Image(t, s, d);
      CopyAddsOutsideSource(t, s, d, d + q[|s|..]);
    }
    forall q | q in t && !IsPrefix(s, q) && !IsPrefix(d, q)
      ensures q in Relocated(t, s, d) && Relocated(t, s, d)[q] == t[q]
    {
      CopyKeepsOutside(t, s, d, q);
    }
  }

  /** Moving `a`, which holds the file `a/f`, to `b` on a filesystem without faults: the
      copy goes through and `b/f` is created, but `a/f` is still there, where a move
      that removes its source (Relocated) leaves nothing at `a`. */
  lemma MoveLeavesSourceExample()
    ensures var t := map[[] := Dir, ["a"] := Dir, ["a", "f"] := File("x")];
      && CopySucceeds(t, {}, ["a"], ["b"])
      && ["b", "f"] in CopyResult(t, ["a"], ["b"]) && ["a", "f"] in CopyResult(t, ["a"], ["b"])
      && ["a", "f"] !in Relocated(t, ["a"], ["b"])
  {
    var t := map[[] := Dir, ["a"] := Dir, ["a", "f"] := File("x")];
    var s, d, q := ["a"], ["b"], ["a", "f"];
    assert s + [] == s && s[|s|..] == [] && q[|s|..] == ["f"];
    forall x | x in t && IsPrefix(s, x)
      ensures EntryCopies(t, {}, s, d, x)
    {
      assert x == s || x == q;
    }
    assert d + q[|s|..] == ["b", "f"];
    assert ["b", "f"] in Image(t, s, d);
    assert IsPrefix(s, q) && q in Under(t, s);
  }
}
