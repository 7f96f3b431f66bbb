/** The synchronizer's shared state and the operations that change it: the
    four watcher handlers, the queue append, the interval pass, and the
    initial build of the copy folder.

    The watched folder is not owned by the synchronizer: each operation that
    reads it receives it as it is at that moment (`src`), together with the
    files other programs hold open (`locked`). */
module Program {
  import opened Paths
  import opened FileTree
  import opened Locations
  import opened Changes

  /** The kind a watcher event reports for itself. */
  datatype WatcherChangeTypes = Created | Deleted | Changed | Renamed

  /** The directories strictly below `dir` in `t`. */
  function Below(t: Tree, dir: Path): set<Path> {
    set d | d in t.dirs && IsPrefix(dir, d) && |d| > |dir|
  }

  /** `Directory.Exists` in the watched folder, whose root may be missing. */
  predicate SourceDirExists(src: Tree, rootExists: bool, dir: Path) {
    if dir == [] then rootExists else dir in src.dirs
  }

  /** A well-formed tree with nothing at its top level is empty. */
  lemma EmptyWithoutTopLevel(t: Tree)
    requires WellFormed(t)
    requires forall d :: d in t.dirs ==> |d| != 1
    requires forall f :: f in t.files ==> |f| != 1
    ensures t == Empty
  {
    forall p | p in t.dirs || p in t.files
      ensures false
    {
      AncestorsExist(t, p, 1);
    }
    assert t.files == map[];
  }

  /** `Directory.GetDirectories(dir)`: the directories right below `dir`. */
  function Children(t: Tree, dir: Path): set<Path> {
    set d | d in t.dirs && |d| == |dir| + 1 && IsPrefix(dir, d)
  }

  /** The directories below `dir` that lie under one of the children `done`. */
  ghost function BelowVia(t: Tree, dir: Path, done: set<Path>): set<Path> {
    set d | d in Below(t, dir) && d[..|dir| + 1] in done
  }

  /** Every directory of the tree lies below the root. */
  lemma BelowRoot(t: Tree)
    requires WellFormed(t)
    ensures Below(t, []) == t.dirs
  {
    assert forall d :: d in t.dirs ==> d in Below(t, []);
  }

  /** Handling one more child adds that child and all that lies below it. */
  lemma BelowViaStep(t: Tree, dir: Path, done: set<Path>, sub: Path)
    requires sub in Children(t, dir)
    ensures BelowVia(t, dir, done + {sub}) == BelowVia(t, dir, done) + {sub} + Below(t, sub)
    ensures |Below(t, sub)| < |Below(t, dir)|
  {
    forall d | d in Below(t, dir) && d[..|dir| + 1] == sub
      ensures d == sub || d in Below(t, sub)
    {
      assert d[..|sub|] == sub;
    }
    forall d | d in Below(t, sub)
      ensures d in Below(t, dir) && d[..|dir| + 1] == sub
    {
      assert d[..|dir|] == sub[..|dir|];
      assert d[..|dir| + 1] == d[..|sub|];
    }
    assert sub[..|dir| + 1] == sub;
    StrictSubsetSmaller(Below(t, sub), Below(t, dir), sub);
  }

  lemma {:induction false} StrictSubsetSmaller<T>(a: set<T>, b: set<T>, x: T)
    requires a <= b && x in b && x !in a
    ensures |a| < |b|
    decreases a
  {
    if a != {} {
      var y :| y in a;
      StrictSubsetSmaller(a - {y}, b - {y}, x);
    }
  }

  /** Once every child is handled, everything below `dir` is. */
  lemma BelowViaAll(t: Tree, dir: Path)
    requires WellFormed(t)
    ensures BelowVia(t, dir, Children(t, dir)) == Below(t, dir)
  {
    forall d | d in Below(t, dir) ensures d[..|dir| + 1] in Children(t, dir) {
      var c := d[..|dir| + 1];
      if |d| > |dir| + 1 {
        AncestorsExist(t, d, |dir| + 1);
      } else {
        assert c == d;
      }
      assert c[..|dir|] == dir;
    }
  }

  /** In a copy without files whose `dir` exists, creating a child of `dir`
      adds exactly that child. */
  lemma CreateChild(t: Tree, dir: Path, sub: Path)
    requires t.files == map[]
    requires forall k :: 1 <= k <= |dir| ==> dir[..k] in t.dirs
    requires |sub| == |dir| + 1 && IsPrefix(dir, sub)
    ensures CreateDirectory(t, sub) == Some(t.(dirs := t.dirs + {sub}))
    ensures forall k :: 1 <= k <= |sub| ==> sub[..k] in t.dirs + {sub}
  {
    forall k | 1 <= k <= |sub| ensures sub[..k] in t.dirs + {sub} {
      if k <= |dir| { assert sub[..k] == dir[..k]; } else { assert sub[..k] == sub; }
    }
    assert sub[..|sub|] == sub;
    assert t.dirs + Ancestry(sub) == t.dirs + {sub};
  }

  class Synchronizer {
    /** `_itemsToChangeList`: the records waiting for the next pass. */
    var pending: seq<ItemsToChange>
    /** `_isCopyRunning`: set while a pass runs. */
    var running: bool
    /** The contents of the copy folder. */
    var mirror: Tree

    ghost predicate Valid()
      reads this
    {
      WellFormed(mirror) && AllIngested(pending)
    }

    /** The state at start-up: nothing queued, no pass running. */
    constructor (m: Tree)
      requires WellFormed(m)
      ensures Valid() && pending == [] && !running && mirror == m
    {
      pending := [];
      running := false;
      mirror := m;
    }

    /** Appends one record to the queue; the earlier records stay as they are. */
    method SaveChangesForInterval(newName: Name, changeType: FileChangeType, oldName: Option<Path>)
      requires Valid() && Ingested(ItemsToChange(changeType, newName, oldName))
      modifies this`pending
      ensures Valid()
      ensures pending == old(pending) + [ItemsToChange(changeType, newName, oldName)]
    {
      pending := pending + [ItemsToChange(changeType, newName, oldName)];
    }

    /** A rename is queued with the rooted new name and the relative old one. */
    method FileWatcherOnRenamed(name: Path, oldName: Option<Path>)
      requires Valid()
      modifies this`pending
      ensures Valid()
      ensures pending == old(pending) + [ItemsToChange(FileChangeType.Renamed, Rooted(name), oldName)]
    {
      SaveChangesForInterval(Rooted(name), FileChangeType.Renamed, oldName);
    }

    /** A deletion is queued the same way for a file and for a directory; the
        copy folder is consulted only to choose the log message. */
    method FileWatcherOnDeleted(name: Path)
      requires Valid()
      modifies this`pending
      ensures Valid()
      ensures pending == old(pending) + [ItemsToChange(FileChangeType.Deleted, Relative(name), None)]
    {
      SaveChangesForInterval(Relative(name), FileChangeType.Deleted, None);
    }

    /** Only an event that reports itself as a change is queued. */
    method FileWatcherOnChanged(changeType: WatcherChangeTypes, name: Path)
      requires Valid()
      modifies this`pending
      ensures Valid()
      ensures changeType != WatcherChangeTypes.Changed ==> pending == old(pending)
      ensures changeType == WatcherChangeTypes.Changed ==>
        pending == old(pending) + [ItemsToChange(FileChangeType.Changed, Relative(name), None)]
    {
      if changeType != WatcherChangeTypes.Changed {
        return;
      }
      SaveChangesForInterval(Relative(name), FileChangeType.Changed, None);
    }

    /** A created name without a dot anywhere in it is made a directory of the
        copy at once and never queued -- even when it names a file. Any other
        created name is queued. `thrown` tells that `Directory.CreateDirectory`
        failed because a file stands in the way. */
    method FileWatcherOnCreated(name: Path) returns (thrown: bool)
      requires Valid()
      modifies this`pending, this`mirror
      ensures Valid()
      ensures !ContainsDot(Join(name)) ==>
        && pending == old(pending)
        && (thrown <==> CreateDirectory(old(mirror), name).None?)
        && (thrown ==> mirror == old(mirror))
        && (!thrown ==> mirror == CreateDirectory(old(mirror), name).value && DirExists(mirror, name))
      ensures ContainsDot(Join(name)) ==>
        && !thrown && mirror == old(mirror)
        && pending == old(pending) + [ItemsToChange(FileChangeType.Created, Relative(name), None)]
    {
      thrown := false;
      if !ContainsDot(Join(name)) {
        match CreateDirectory(mirror, name) {
          case None =>
            thrown := true;
          case Some(m) =>
            CreateDirectoryWellFormed(mirror, name);
            mirror := m;
        }
        return;
      }
      SaveChangesForInterval(Relative(name), FileChangeType.Created, None);
    }

    /** One timer tick. With an empty queue or a pass still marked as running it
        does nothing. Otherwise it replays the queue in order; when the loop
        ends it clears the flag and the queue. An exception that escapes a
        record leaves the copy as the earlier records made it, the flag set and
        the queue whole -- so in the model every later tick does nothing. */
    method IntervalCopy(src: Tree, locked: set<Loc>)
      requires Valid()
      modifies this
      ensures Valid()
      ensures old(pending) == [] || old(running) ==>
        pending == old(pending) && running == old(running) && mirror == old(mirror)
      ensures old(pending) != [] && !old(running) ==>
        var pass := Replay(src, locked, old(mirror), old(pending));
        && mirror == pass.mirror
        && (pass.finished ==> !running && pending == [])
        && (!pass.finished ==> running && pending == old(pending))
    {
      if |pending| <= 0 || running {
        return;
      }
      running := true;
      var i := 0;
      while i < |pending|
        invariant 0 <= i <= |pending|
        invariant pending == old(pending) && running
        invariant WellFormed(mirror)
        invariant Replay(src, locked, old(mirror), pending) == Replay(src, locked, mirror, pending[i..])
      {
        assert pending[i..][0] == pending[i] && pending[i..][1..] == pending[i + 1..];
        ApplyWellFormed(src, locked, mirror, pending[i]);
        match Apply(src, locked, mirror, pending[i])
        case Throw =>
          return;
        case Next(m) =>
          mirror := m;
        i := i + 1;
      }
      running := false;
      pending := [];
    }

    /** The initial build: empties the copy folder, recreates the watched
        folder's directories in it and copies every file. When it completes,
        the copy is the watched folder. It fails when either root is missing,
        when a file at the copy's top level is held open (it cannot be
        deleted) or when a file of the watched folder is held open (it cannot
        be copied); nothing catches those failures. */
    method CopyAllFiles(src: Tree, srcRootExists: bool, mirrorRootExists: bool, locked: set<Loc>)
      returns (completed: bool)
      requires Valid() && WellFormed(src)
      modifies this`mirror
      ensures Valid()
      ensures completed <==>
        && mirrorRootExists && srcRootExists
        && (forall f :: f in old(mirror).files && |f| == 1 ==> Loc(Mirror, f) !in locked)
        && (forall f :: f in src.files ==> Loc(Source, f) !in locked)
      ensures completed ==> mirror == src
    {
      if !mirrorRootExists {
        return false;
      }
      var deleted := DeleteTopLevelFiles(locked);
      if !deleted {
        return false;
      }
      DeleteTopLevelDirectories();
      // The result of DirectoryCreation is not looked at.
      var _ := DirectoryCreation(src, srcRootExists, []);
      if !srcRootExists {
        // Directory.GetFiles on a missing watched folder throws.
        return false;
      }
      BelowRoot(src);
      completed := CopyFiles(src, locked);
    }

    /** The first loop of the initial build: deletes the files at the copy's
        top level, stopping at the first one held open. */
    method DeleteTopLevelFiles(locked: set<Loc>) returns (ok: bool)
      requires WellFormed(mirror)
      modifies this`mirror
      ensures WellFormed(mirror)
      ensures ok <==> forall f :: f in old(mirror).files && |f| == 1 ==> Loc(Mirror, f) !in locked
      ensures ok ==> mirror.dirs == old(mirror).dirs && forall f :: f in mirror.files ==> |f| != 1
      ensures ok ==> mirror.files.Keys <= old(mirror).files.Keys
      ensures ok ==> forall f :: f in old(mirror).files && |f| != 1 ==>
        f in mirror.files && mirror.files[f] == old(mirror).files[f]
    {
      var topFiles := set f | f in mirror.files && |f| == 1;
      while topFiles != {}
        invariant WellFormed(mirror) && mirror.dirs == old(mirror).dirs
        invariant topFiles <= mirror.files.Keys
        invariant forall f :: f in mirror.files ==> f in old(mirror).files
        invariant forall f :: f in old(mirror).files && |f| != 1 ==>
          f in mirror.files && mirror.files[f] == old(mirror).files[f]
        invariant forall f :: f in mirror.files && |f| == 1 ==> f in topFiles
        invariant forall f :: f in old(mirror).files && |f| == 1 ==>
          f in topFiles || Loc(Mirror, f) !in locked
        decreases topFiles
      {
        var f :| f in topFiles;
        match DeleteFile(mirror, locked, Loc(Mirror, f))
        case None =>
          return false;
        case Some(m) =>
          DeleteFileWellFormed(mirror, locked, Loc(Mirror, f));
          mirror := m;
        topFiles := topFiles - {f};
      }
      ok := true;
    }

    /** The second loop of the initial build: deletes the directories at the
        copy's top level with all they hold, which leaves the copy empty. */
    method DeleteTopLevelDirectories()
      requires WellFormed(mirror) && forall f :: f in mirror.files ==> |f| != 1
      modifies this`mirror
      ensures mirror == Empty
    {
      var topDirs := set d | d in mirror.dirs && |d| == 1;
      while topDirs != {}
        invariant WellFormed(mirror)
        invariant forall f :: f in mirror.files ==> |f| != 1
        invariant forall d :: d in mirror.dirs && |d| == 1 ==> d in topDirs
        decreases topDirs
      {
        var d :| d in topDirs;
        RemoveSubtreeWellFormed(mirror, d);
        mirror := RemoveSubtree(mirror, d);
        topDirs := topDirs - {d};
      }
      EmptyWithoutTopLevel(mirror);
    }

    /** The last loop of the initial build: copies every file of the watched
        folder into the copy, whose directories are already in place,
        stopping at the first file held open. */
    method CopyFiles(src: Tree, locked: set<Loc>) returns (ok: bool)
      requires WellFormed(src) && mirror.dirs == src.dirs && mirror.files == map[]
      modifies this`mirror
      ensures WellFormed(mirror)
      ensures ok <==> forall f :: f in src.files ==> Loc(Source, f) !in locked
      ensures ok ==> mirror == src
    {
      var todo := src.files.Keys;
      while todo != {}
        invariant WellFormed(mirror)
        invariant mirror.dirs == src.dirs && todo <= src.files.Keys
        invariant forall f :: f in mirror.files <==> f in src.files && f !in todo
        invariant forall f :: f in mirror.files ==> mirror.files[f] == src.files[f]
        invariant forall f :: f in src.files && f !in todo ==> Loc(Source, f) !in locked
        decreases todo
      {
        var f :| f in todo;
        var from := Loc(Source, f);
        match CopyFile(src, mirror, locked, from, Replace(from))
        case None =>
          return false;
        case Some(m) =>
          CopyFileWellFormed(src, mirror, locked, from, Replace(from));
          mirror := m;
        todo := todo - {f};
      }
      assert mirror.files == src.files;
      ok := true;
    }

    /** Recreates in the copy every directory below `dir` of the watched
        folder, depth first. It answers `true`, creating nothing, only when
        `dir` is missing from the watched folder. */
    method DirectoryCreation(src: Tree, srcRootExists: bool, dir: Path) returns (stop: bool)
      requires WellFormed(src) && mirror.files == map[]
      requires forall k :: 1 <= k <= |dir| ==> dir[..k] in mirror.dirs
      modifies this`mirror
      ensures stop <==> !SourceDirExists(src, srcRootExists, dir)
      ensures stop ==> mirror == old(mirror)
      ensures !stop ==> mirror == old(mirror).(dirs := old(mirror).dirs + Below(src, dir))
      decreases |Below(src, dir)|
    {
      if !SourceDirExists(src, srcRootExists, dir) {
        return true;
      }
      // Directory.GetDirectories: the directories right below `dir`.
      var subs := Children(src, dir);
      ghost var done: set<Path> := {};
      while subs != {}
        invariant subs + done == Children(src, dir) && subs !! done
        invariant mirror.files == map[]
        invariant forall k :: 1 <= k <= |dir| ==> dir[..k] in mirror.dirs
        invariant mirror.dirs == old(mirror).dirs + BelowVia(src, dir, done)
        decreases subs
      {
        var sub :| sub in subs;
        // Path.Combine(destination, Path.GetFileName(sub)) is `sub` in the copy.
        CreateChild(mirror, dir, sub);
        BelowViaStep(src, dir, done, sub);
        mirror := CreateDirectory(mirror, sub).value;
        ghost var created := mirror;
        var nested := DirectoryCreation(src, srcRootExists, sub);
        // The early return after a recursive call is never taken.
        assert !nested;
        assert mirror.dirs == created.dirs + Below(src, sub);
        subs := subs - {sub};
        done := done + {sub};
      }
      BelowViaAll(src, dir);
      stop := false;
    }
  }
}
