/** How the engine turns the names it stored into places on disk, and the two
    file operations that can fail on a file held open by another process.

    There are two roots, the watched folder and its copy. A stored name is
    either relative to the watched folder (`e.Name`, `e.OldName`) or rooted
    (`e.FullPath`, the watched folder's path followed by the relative name). */
module Locations {
  import opened Paths
  import opened FileTree

  datatype Root = Source | Mirror

  datatype Name = Relative(path: Path) | Rooted(path: Path)

  datatype Loc = Loc(root: Root, path: Path)

  /** `Path.Combine(root, name)`: a relative name is placed under `root`; a
      rooted name is returned as it is, so it stays under the watched folder
      whatever root it was combined with. */
  function Combine(root: Root, n: Name): (l: Loc)
    ensures l.path == n.path
    ensures l.root == (if n.Rooted? then Source else root)
  {
    match n
    case Relative(p) => Loc(root, p)
    case Rooted(p) => Loc(Source, p)
  }

  /** `text.Replace(sourceRoot, mirrorRoot)` on a location under the watched
      folder, taken as a substitution of the root prefix. */
  function Replace(l: Loc): (r: Loc)
    ensures r.root == Mirror && r.path == l.path
  {
    Loc(Mirror, l.path)
  }

  /** The tree a location lies in. */
  function TreeAt(src: Tree, mirror: Tree, l: Loc): Tree {
    if l.root == Source then src else mirror
  }

  /** `File.Exists`: true only for a file, never for a directory. */
  predicate FileExists(src: Tree, mirror: Tree, l: Loc) {
    l.path in TreeAt(src, mirror, l).files
  }

  /** `File.Delete` in the copy folder. A missing file is no error; the call
      throws when the path is a directory, when the directory that should hold
      it is missing, or when the file is held open. */
  function DeleteFile(mirror: Tree, locked: set<Loc>, l: Loc): (r: Option<Tree>)
    requires l.root == Mirror
    ensures r.None? <==> l.path == [] || l.path in mirror.dirs || !DirExists(mirror, Parent(l.path))
                         || (l.path in mirror.files && l in locked)
    ensures r.Some? ==> r.value.dirs == mirror.dirs && l.path !in r.value.files
    ensures r.Some? ==> forall q :: q != l.path ==>
      (q in r.value.files <==> q in mirror.files) && (q in mirror.files ==> r.value.files[q] == mirror.files[q])
  {
    if l.path == [] || l.path in mirror.dirs then None
    else if !DirExists(mirror, Parent(l.path)) then None
    else if l.path in mirror.files && l in locked then None
    else Some(mirror.(files := mirror.files - {l.path}))
  }

  /** Why `File.Copy(from, to, overwrite: true)` throws, if it does: the source
      is no file or is held open, the target's directory is missing, the target
      is a directory, or the existing target is held open. */
  predicate CopyFails(src: Tree, mirror: Tree, locked: set<Loc>, from: Loc, to: Loc)
    requires to.root == Mirror
  {
    || !FileExists(src, mirror, from)
    || from in locked
    || to.path == []
    || !DirExists(mirror, Parent(to.path))
    || to.path in mirror.dirs
    || (to.path in mirror.files && to in locked)
  }

  /** `File.Copy(from, to, overwrite: true)` into the copy folder. */
  function CopyFile(src: Tree, mirror: Tree, locked: set<Loc>, from: Loc, to: Loc): (r: Option<Tree>)
    requires to.root == Mirror
    ensures r.None? <==> CopyFails(src, mirror, locked, from, to)
    ensures r.Some? ==> r.value.dirs == mirror.dirs
    ensures r.Some? ==> to.path in r.value.files && r.value.files[to.path] == TreeAt(src, mirror, from).files[from.path]
    ensures r.Some? ==> forall q :: q != to.path ==>
      (q in r.value.files <==> q in mirror.files) && (q in mirror.files ==> r.value.files[q] == mirror.files[q])
  {
    if CopyFails(src, mirror, locked, from, to) then None
    else Some(WriteFile(mirror, to.path, TreeAt(src, mirror, from).files[from.path]))
  }

  /** The relative name of a changed record is copied to the very place in
      the copy that its existence test looked at. */
  lemma RelativeCopyTargetIsProbe(p: Path)
    ensures Replace(Combine(Source, Relative(p))) == Combine(Mirror, Relative(p))
    ensures Combine(Mirror, Relative(p)).root == Mirror
  {
  }

  /** A rooted name, as rename records hold, is tested in the watched folder
      but copied into the copy folder: the probe and the target differ. */
  lemma RootedProbeIsNotCopyTarget(p: Path)
    ensures Combine(Mirror, Rooted(p)) == Loc(Source, p)
    ensures Replace(Combine(Source, Rooted(p))) == Loc(Mirror, p)
    ensures Combine(Mirror, Rooted(p)) != Replace(Combine(Source, Rooted(p)))
  {
  }

  lemma DeleteFileWellFormed(mirror: Tree, locked: set<Loc>, l: Loc)
    requires WellFormed(mirror) && l.root == Mirror && DeleteFile(mirror, locked, l).Some?
    ensures WellFormed(DeleteFile(mirror, locked, l).value)
  {
    RemoveFileWellFormed(mirror, l.path);
  }

  lemma CopyFileWellFormed(src: Tree, mirror: Tree, locked: set<Loc>, from: Loc, to: Loc)
    requires WellFormed(mirror) && to.root == Mirror && CopyFile(src, mirror, locked, from, to).Some?
    ensures WellFormed(CopyFile(src, mirror, locked, from, to).value)
  {
    WriteFileWellFormed(mirror, to.path, TreeAt(src, mirror, from).files[from.path]);
  }
}
