/** A directory tree below one root, as the engine sees it through
    `Directory.Exists`, `File.Exists` and the operations that change it.

    `dirs` holds every directory except the root, which always exists;
    `files` maps every file to its content. */
module FileTree {
  import opened Paths

  type Content = seq<bv8>

  datatype Option<T> = None | Some(value: T)

  datatype Tree = Tree(dirs: set<Path>, files: map<Path, Content>)

  const Empty: Tree := Tree({}, map[])

  predicate DirExists(t: Tree, p: Path) {
    p == [] || p in t.dirs
  }

  /** What every real directory tree satisfies: every entry sits in an
      existing directory, and no path is both a file and a directory. */
  ghost predicate WellFormed(t: Tree) {
    && (forall d :: d in t.dirs ==> d != [] && DirExists(t, Parent(d)))
    && (forall f :: f in t.files ==> f != [] && DirExists(t, Parent(f)) && f !in t.dirs)
  }

  lemma PrefixOfParent(p: Path, q: Path)
    requires q != [] && IsPrefix(p, Parent(q))
    ensures IsPrefix(p, q)
  {
    assert q[..|p|] == Parent(q)[..|p|];
  }

  /** In a well-formed tree every ancestor of an entry is a directory. */
  lemma {:induction false} AncestorsExist(t: Tree, p: Path, k: nat)
    requires WellFormed(t)
    requires p in t.dirs || p in t.files
    requires k < |p|
    ensures DirExists(t, p[..k])
    decreases |p|
  {
    var q := Parent(p);
    if k < |q| {
      AncestorsExist(t, q, k);
      assert q[..k] == p[..k];
    }
  }

  /** `Directory.Delete(dir, true)` and `FileSystem.DeleteDirectory` with
      `DeleteAllContents`: `p` and everything under it disappear. */
  function RemoveSubtree(t: Tree, p: Path): (r: Tree)
    ensures forall q :: IsPrefix(p, q) ==> q !in r.dirs && q !in r.files
    ensures forall q :: !IsPrefix(p, q) ==> (q in r.dirs <==> q in t.dirs)
    ensures forall q :: !IsPrefix(p, q) && q in t.files ==> q in r.files && r.files[q] == t.files[q]
    ensures r.files.Keys <= t.files.Keys
  {
    Tree(set d | d in t.dirs && !IsPrefix(p, d),
         map f | f in t.files && !IsPrefix(p, f) :: t.files[f])
  }

  lemma RemoveSubtreeWellFormed(t: Tree, p: Path)
    requires WellFormed(t)
    ensures WellFormed(RemoveSubtree(t, p))
  {
    var r := RemoveSubtree(t, p);
    forall q | q in r.dirs || q in r.files
      ensures q != [] && DirExists(r, Parent(q))
    {
      if Parent(q) != [] && IsPrefix(p, Parent(q)) {
        PrefixOfParent(p, q);
      }
    }
  }

  /** A file written in place; the writer checked that its directory exists. */
  function WriteFile(t: Tree, p: Path, c: Content): Tree {
    t.(files := t.files[p := c])
  }

  lemma WriteFileWellFormed(t: Tree, p: Path, c: Content)
    requires WellFormed(t)
    requires p != [] && DirExists(t, Parent(p)) && p !in t.dirs
    ensures WellFormed(WriteFile(t, p, c))
  {
  }

  lemma RemoveFileWellFormed(t: Tree, p: Path)
    requires WellFormed(t)
    ensures WellFormed(t.(files := t.files - {p}))
  {
  }

  /** The directories `Directory.CreateDirectory(p)` creates: `p` and all its
      ancestors below the root. */
  function Ancestry(p: Path): set<Path> {
    set k | 1 <= k <= |p| :: p[..k]
  }

  /** `Directory.CreateDirectory`: creates `p` and any missing ancestor; fails
      when `p` or one of its ancestors is a file. */
  function CreateDirectory(t: Tree, p: Path): (r: Option<Tree>)
    ensures r.None? <==> exists k :: 1 <= k <= |p| && p[..k] in t.files
    ensures r.Some? ==> DirExists(r.value, p) && r.value.files == t.files
    ensures r.Some? ==> t.dirs <= r.value.dirs && r.value.dirs - t.dirs <= Ancestry(p)
  {
    if exists k :: 1 <= k <= |p| && p[..k] in t.files then None
    else
      assert p != [] ==> p[..|p|] == p;
      Some(t.(dirs := t.dirs + Ancestry(p)))
  }

  lemma CreateDirectoryWellFormed(t: Tree, p: Path)
    requires WellFormed(t) && CreateDirectory(t, p).Some?
    ensures WellFormed(CreateDirectory(t, p).value)
  {
    var r := CreateDirectory(t, p).value;
    forall d | d in r.dirs
      ensures d != [] && DirExists(r, Parent(d))
    {
      if d !in t.dirs {
        var k :| 1 <= k <= |p| && d == p[..k];
        if k > 1 {
          assert Parent(d) == p[..k - 1];
        }
      }
    }
  }

  /** The path `q` gets when the directory `from` becomes `to`. */
  function Rebase(q: Path, from: Path, to: Path): Path
    requires IsPrefix(from, q)
  {
    to + q[|from|..]
  }

  lemma RebaseInjective(q1: Path, q2: Path, from: Path, to: Path)
    requires IsPrefix(from, q1) && IsPrefix(from, q2)
    requires Rebase(q1, from, to) == Rebase(q2, from, to)
    ensures q1 == q2
  {
    assert q1[|from|..] == Rebase(q1, from, to)[|to|..];
    assert q1 == from + q1[|from|..];
    assert q2 == from + q2[|from|..];
  }

  /** The files under `from`, renamed to sit under `to`. */
  function MovedFiles(t: Tree, from: Path, to: Path): (m: map<Path, Content>)
    ensures forall f :: f in t.files && IsPrefix(from, f) ==>
      Rebase(f, from, to) in m && m[Rebase(f, from, to)] == t.files[f]
    ensures forall q :: q in m ==> exists f :: f in t.files && IsPrefix(from, f) && Rebase(f, from, to) == q
  {
    assert forall f1, f2 | f1 in t.files && IsPrefix(from, f1) && f2 in t.files && IsPrefix(from, f2)
      :: Rebase(f1, from, to) == Rebase(f2, from, to) ==> f1 == f2 by {
      forall f1, f2 | f1 in t.files && IsPrefix(from, f1) && f2 in t.files && IsPrefix(from, f2)
        && Rebase(f1, from, to) == Rebase(f2, from, to)
        ensures f1 == f2
      {
        RebaseInjective(f1, f2, from, to);
      }
    }
    map f | f in t.files && IsPrefix(from, f) :: Rebase(f, from, to) := t.files[f]
  }

  /** Moving directory `from` to `to`: entries under `from` reappear under
      `to` with the same content, entries elsewhere stay. */
  function Move(t: Tree, from: Path, to: Path): Tree {
    var keptDirs := set d | d in t.dirs && !IsPrefix(from, d) && !IsPrefix(to, d);
    var movedDirs := set d | d in t.dirs && IsPrefix(from, d) :: Rebase(d, from, to);
    var keptFiles := map f | f in t.files && !IsPrefix(from, f) && !IsPrefix(to, f) :: t.files[f];
    Tree(keptDirs + movedDirs, keptFiles + MovedFiles(t, from, to))
  }

  /** `FileSystem.RenameDirectory(dir, newName)`: `dir` keeps its place and
      takes the name `newName`. It fails when `newName` is empty, when `dir`
      is no directory (or the root), and when something already exists under
      the new name -- the old name included. */
  function RenameDirectory(t: Tree, dir: Path, newName: Segment): Option<Tree> {
    if newName == "" || dir !in t.dirs || dir == [] then None
    else
      var target := Parent(dir) + [newName];
      if target in t.dirs || target in t.files then None
      else Some(Move(t, dir, target))
  }

  /** Same-length paths that differ are not prefixes of one another. */
  lemma SiblingsDisjoint(a: Path, b: Path, q: Path)
    requires |a| == |b| && a != b
    ensures !(IsPrefix(a, q) && IsPrefix(b, q))
  {
  }

  /** Where an entry after a move comes from: under `to` it comes from the
      same place under `from`; elsewhere it is an entry that was not under
      `from` and that sat outside `to`. */
  lemma MoveAt(t: Tree, from: Path, to: Path, q: Path)
    ensures var r := Move(t, from, to);
      && (IsPrefix(to, q) ==>
            && (q in r.dirs <==> from + q[|to|..] in t.dirs)
            && (q in r.files <==> from + q[|to|..] in t.files)
            && (q in r.files ==> r.files[q] == t.files[from + q[|to|..]]))
      && (!IsPrefix(to, q) ==>
            && (q in r.dirs <==> q in t.dirs && !IsPrefix(from, q))
            && (q in r.files <==> q in t.files && !IsPrefix(from, q))
            && (q in r.files ==> r.files[q] == t.files[q]))
  {
    var r := Move(t, from, to);
    if IsPrefix(to, q) {
      var o := from + q[|to|..];
      assert IsPrefix(from, o) && o[|from|..] == q[|to|..];
      assert q == to + q[|to|..];
      assert Rebase(o, from, to) == q;
      if q in r.dirs {
        var d :| d in t.dirs && IsPrefix(from, d) && Rebase(d, from, to) == q;
        RebaseInjective(d, o, from, to);
      }
      if q in r.files {
        var f :| f in t.files && IsPrefix(from, f) && Rebase(f, from, to) == q;
        RebaseInjective(f, o, from, to);
        assert r.files[q] == MovedFiles(t, from, to)[Rebase(o, from, to)];
      }
    }
  }

  /** Every entry that was under the old name is under the new one, with the
      same content; nothing is left under the old name. */
  lemma {:induction false} RenameDirectoryMovesContents(t: Tree, dir: Path, newName: Segment, rest: Path)
    requires RenameDirectory(t, dir, newName).Some?
    ensures var r := RenameDirectory(t, dir, newName).value;
      var target := Parent(dir) + [newName];
      && (dir + rest in t.dirs <==> target + rest in r.dirs)
      && (dir + rest in t.files <==> target + rest in r.files)
      && (dir + rest in t.files ==> r.files[target + rest] == t.files[dir + rest])
      && dir + rest !in r.dirs && dir + rest !in r.files
  {
    var target := Parent(dir) + [newName];
    MoveAt(t, dir, target, target + rest);
    assert (target + rest)[|target|..] == rest;
    assert (target + rest)[..|target|] == target;
    MoveAt(t, dir, target, dir + rest);
    assert (dir + rest)[..|dir|] == dir;
    SiblingsDisjoint(dir, target, dir + rest);
  }

  /** Entries outside both the old and the new name are untouched. */
  lemma RenameDirectoryKeepsOthers(t: Tree, dir: Path, newName: Segment, q: Path)
    requires RenameDirectory(t, dir, newName).Some?
    requires !IsPrefix(dir, q) && !IsPrefix(Parent(dir) + [newName], q)
    ensures var r := RenameDirectory(t, dir, newName).value;
      (q in r.dirs <==> q in t.dirs) && (q in r.files <==> q in t.files)
      && (q in t.files ==> r.files[q] == t.files[q])
  {
    MoveAt(t, dir, Parent(dir) + [newName], q);
  }

  lemma {:induction false} RenameDirectoryWellFormed(t: Tree, dir: Path, newName: Segment)
    requires WellFormed(t) && RenameDirectory(t, dir, newName).Some?
    ensures WellFormed(RenameDirectory(t, dir, newName).value)
  {
    var target := Parent(dir) + [newName];
    var r := RenameDirectory(t, dir, newName).value;
    forall q | q in r.dirs || q in r.files
      ensures q != [] && DirExists(r, Parent(q))
    {
      MovedParentExists(t, dir, target, q);
    }
    forall q | q in r.files
      ensures q !in r.dirs
    {
      MoveAt(t, dir, target, q);
    }
  }

  /** The parent of every entry after a move exists after the move. */
  lemma MovedParentExists(t: Tree, from: Path, to: Path, q: Path)
    requires WellFormed(t) && from in t.dirs
    requires to != [] && Parent(to) == Parent(from) && to != from
    requires q in Move(t, from, to).dirs || q in Move(t, from, to).files
    ensures q != [] && DirExists(Move(t, from, to), Parent(q))
  {
    MoveAt(t, from, to, q);
    if IsPrefix(to, q) {
      var o := from + q[|to|..];
      if |q| == |to| {
        assert q == to && o == from;
        MovedParentOfTop(t, from, to);
      } else {
        MovedParentBelow(t, from, to, q);
      }
    } else {
      var g := Parent(q);
      MoveAt(t, from, to, g);
      if g != [] {
        if IsPrefix(from, g) { PrefixOfParent(from, q); }
        if IsPrefix(to, g) { PrefixOfParent(to, q); }
      }
    }
  }

  /** The new name sits where the old one sat. */
  lemma MovedParentOfTop(t: Tree, from: Path, to: Path)
    requires WellFormed(t) && from in t.dirs
    requires to != [] && Parent(to) == Parent(from) && to != from
    ensures DirExists(Move(t, from, to), Parent(to))
  {
    var g := Parent(from);
    if g != [] {
      MoveAt(t, from, to, g);
      assert !IsPrefix(from, g) && !IsPrefix(to, g);
    }
  }

  /** Below the new name, a parent is the moved parent of the origin. */
  lemma MovedParentBelow(t: Tree, from: Path, to: Path, q: Path)
    requires WellFormed(t)
    requires IsPrefix(to, q) && |q| > |to| && from != []
    requires from + q[|to|..] in t.dirs || from + q[|to|..] in t.files
    ensures DirExists(Move(t, from, to), Parent(q))
  {
    var o := from + q[|to|..];
    var g := Parent(q);
    assert g[..|to|] == to;
    assert from + g[|to|..] == Parent(o);
    MoveAt(t, from, to, g);
  }
}
