/** The pending change records and what replaying them does to the copy folder.

    `Apply` is one iteration of the `foreach` in `IntervalCopy`: it maps one
    record to operations on the copy, re-checking existence at that moment.
    An exception the iteration does not catch ends the whole pass (`Throw`);
    `Replay` is the pass itself, record by record in queue order. */
module Changes {
  import opened Paths
  import opened FileTree
  import opened Locations

  datatype FileChangeType = Deleted | Renamed | Created | Changed

  /** One queued record. `newName` is the only name of a created, changed or
      deleted item; `oldName` is only ever set for a rename. */
  datatype ItemsToChange = ItemsToChange(changeType: FileChangeType, newName: Name, oldName: Option<Path>)

  /** What the four watcher handlers store: a rename keeps the rooted
      `e.FullPath`, every other record the relative `e.Name`. */
  predicate Ingested(r: ItemsToChange) {
    (r.changeType == Renamed) == r.newName.Rooted?
  }

  predicate AllIngested(rs: seq<ItemsToChange>) {
    forall i :: 0 <= i < |rs| ==> Ingested(rs[i])
  }

  /** The outcome of one record: the copy folder afterwards, or an exception
      that escapes the loop. Every such exception is raised before the record
      has changed anything. */
  datatype Step = Next(mirror: Tree) | Throw

  /** One record replayed onto the copy folder `m`; `src` is the watched
      folder as it is now and `locked` the files held open by other programs. */
  function Apply(src: Tree, locked: set<Loc>, m: Tree, r: ItemsToChange): Step
    requires Ingested(r)
  {
    match r.changeType
    case Renamed =>
      if r.oldName.Some? && HasExtension(Join(r.newName.path)) then
        // The rooted new name makes this existence test look at the watched folder.
        var probe := Combine(Mirror, r.newName);
        if !FileExists(src, m, probe) then Next(m)
        else
          (match DeleteFile(m, locked, Combine(Mirror, Relative(r.oldName.value)))
           case None => Throw
           case Some(m1) =>
             var from := Combine(Source, r.newName);
             (match CopyFile(src, m1, locked, from, Replace(from))
              case None => Next(m1)
              case Some(m2) => Next(m2)))
      else if !HasExtension(Join(r.newName.path)) then
        // `Path.Combine` with a null old name throws.
        if r.oldName.None? then Throw
        else
          (match RenameDirectory(m, Combine(Mirror, Relative(r.oldName.value)).path, FileName(r.newName.path))
           case None => Throw
           case Some(m1) => Next(m1))
      else Next(m)
    case Deleted =>
      var l := Combine(Mirror, r.newName);
      if DirExists(m, l.path) then Next(RemoveSubtree(m, l.path))
      else if !FileExists(src, m, l) then Next(m)
      else
        (match DeleteFile(m, locked, l)
         case None => Throw
         case Some(m1) => Next(m1))
    case Created =>
      var from := Combine(Source, r.newName);
      (match CopyFile(src, m, locked, from, Replace(from))
       case None => Throw
       case Some(m1) => Next(m1))
    case Changed =>
      var l := Combine(Mirror, r.newName);
      if !FileExists(src, m, l) then Next(m)
      else
        // Both the delete and the copy sit inside the try block.
        (match DeleteFile(m, locked, l)
         case None => Next(m)
         case Some(m1) =>
           var from := Combine(Source, r.newName);
           (match CopyFile(src, m1, locked, from, Replace(from))
            case None => Next(m1)
            case Some(m2) => Next(m2)))
  }

  /** The result of a pass: the copy folder afterwards, and whether the loop
      ran to its end (only then are the flag reset and the queue cleared). */
  datatype Pass = Pass(mirror: Tree, finished: bool)

  function Replay(src: Tree, locked: set<Loc>, m: Tree, rs: seq<ItemsToChange>): Pass
    requires AllIngested(rs)
    decreases |rs|
  {
    if rs == [] then Pass(m, true)
    else
      match Apply(src, locked, m, rs[0])
      case Throw => Pass(m, false)
      case Next(m1) => Replay(src, locked, m1, rs[1..])
  }

  // ---------------------------------------------------------------------
  // The copy folder stays a well-formed tree

  lemma ApplyWellFormed(src: Tree, locked: set<Loc>, m: Tree, r: ItemsToChange)
    requires WellFormed(m) && Ingested(r)
    ensures Apply(src, locked, m, r).Next? ==> WellFormed(Apply(src, locked, m, r).mirror)
  {
    match r.changeType
    case Renamed =>
      if r.oldName.Some? && HasExtension(Join(r.newName.path)) {
        var prev := Combine(Mirror, Relative(r.oldName.value));
        var probe := Combine(Mirror, r.newName);
        if FileExists(src, m, probe) && DeleteFile(m, locked, prev).Some? {
          var m1 := DeleteFile(m, locked, prev).value;
          DeleteFileWellFormed(m, locked, prev);
          var from := Combine(Source, r.newName);
          if CopyFile(src, m1, locked, from, Replace(from)).Some? {
            CopyFileWellFormed(src, m1, locked, from, Replace(from));
          }
        }
      } else if !HasExtension(Join(r.newName.path)) && r.oldName.Some? {
        var prev := Combine(Mirror, Relative(r.oldName.value)).path;
        if RenameDirectory(m, prev, FileName(r.newName.path)).Some? {
          RenameDirectoryWellFormed(m, prev, FileName(r.newName.path));
        }
      }
    case Deleted =>
      var l := Combine(Mirror, r.newName);
      if DirExists(m, l.path) {
        RemoveSubtreeWellFormed(m, l.path);
      } else if DeleteFile(m, locked, l).Some? {
        DeleteFileWellFormed(m, locked, l);
      }
    case Created =>
      var from := Combine(Source, r.newName);
      if CopyFile(src, m, locked, from, Replace(from)).Some? {
        CopyFileWellFormed(src, m, locked, from, Replace(from));
      }
    case Changed =>
      var l := Combine(Mirror, r.newName);
      if DeleteFile(m, locked, l).Some? {
        var m1 := DeleteFile(m, locked, l).value;
        DeleteFileWellFormed(m, locked, l);
        var from := Combine(Source, r.newName);
        if CopyFile(src, m1, locked, from, Replace(from)).Some? {
          CopyFileWellFormed(src, m1, locked, from, Replace(from));
        }
      }
  }

  lemma {:induction false} ReplayWellFormed(src: Tree, locked: set<Loc>, m: Tree, rs: seq<ItemsToChange>)
    requires WellFormed(m) && AllIngested(rs)
    ensures WellFormed(Replay(src, locked, m, rs).mirror)
    decreases |rs|
  {
    if rs != [] {
      ApplyWellFormed(src, locked, m, rs[0]);
      if Apply(src, locked, m, rs[0]).Next? {
        ReplayWellFormed(src, locked, Apply(src, locked, m, rs[0]).mirror, rs[1..]);
      }
    }
  }

  // ---------------------------------------------------------------------
  // Queue order

  /** Records are replayed strictly in queue order: a pass over `a + b` is a
      pass over `a` followed, if it ran to its end, by a pass over `b`. */
  lemma {:induction false} ReplayInOrder(src: Tree, locked: set<Loc>, m: Tree, a: seq<ItemsToChange>, b: seq<ItemsToChange>)
    requires AllIngested(a) && AllIngested(b)
    ensures AllIngested(a + b)
    ensures var pa := Replay(src, locked, m, a);
      Replay(src, locked, m, a + b) == if pa.finished then Replay(src, locked, pa.mirror, b) else pa
    decreases |a|
  {
    assert forall i :: 0 <= i < |a + b| ==> (a + b)[i] == if i < |a| then a[i] else b[i - |a|];
    if a != [] {
      assert (a + b)[0] == a[0];
      assert (a + b)[1..] == a[1..] + b;
      match Apply(src, locked, m, a[0])
      case Throw =>
      case Next(m1) => ReplayInOrder(src, locked, m1, a[1..], b);
    } else {
      assert a + b == b;
    }
  }

  /** A record whose exception escapes ends the pass: no later record is
      applied and the pass does not finish. */
  lemma {:induction false} ReplayStopsAtThrow(src: Tree, locked: set<Loc>, m: Tree, a: seq<ItemsToChange>, r: ItemsToChange, b: seq<ItemsToChange>)
    requires AllIngested(a) && Ingested(r) && AllIngested(b)
    requires Replay(src, locked, m, a).finished
    requires Apply(src, locked, Replay(src, locked, m, a).mirror, r).Throw?
    ensures AllIngested(a + [r] + b)
    ensures Replay(src, locked, m, a + [r] + b) == Pass(Replay(src, locked, m, a).mirror, false)
  {
    ReplayInOrder(src, locked, m, a, [r] + b);
    assert a + [r] + b == a + ([r] + b);
    assert ([r] + b)[0] == r && ([r] + b)[1..] == b;
  }

  // ---------------------------------------------------------------------
  // Deleted

  function DeletedRecord(p: Path): ItemsToChange {
    ItemsToChange(Deleted, Relative(p), None)
  }

  /** A deleted name removes the copy's directory and all under it, else the
      copy's file alone; when neither exists nothing changes. Only a file held
      open makes the deletion throw. */
  lemma DeletedEffect(src: Tree, locked: set<Loc>, m: Tree, p: Path)
    requires WellFormed(m)
    ensures var s := Apply(src, locked, m, DeletedRecord(p));
      && (DirExists(m, p) ==> s == Next(RemoveSubtree(m, p)))
      && (!DirExists(m, p) && p in m.files ==>
            if Loc(Mirror, p) in locked then s == Throw
            else s == Next(m.(files := m.files - {p})))
      && (!DirExists(m, p) && p !in m.files ==> s == Next(m))
  {
  }

  /** Replaying a deletion twice has the effect of replaying it once. */
  lemma DeletedIdempotent(src: Tree, locked: set<Loc>, m: Tree, p: Path)
    requires Apply(src, locked, m, DeletedRecord(p)).Next?
    ensures var m1 := Apply(src, locked, m, DeletedRecord(p)).mirror;
      Apply(src, locked, m1, DeletedRecord(p)) == Next(m1)
  {
    var m1 := Apply(src, locked, m, DeletedRecord(p)).mirror;
    if p == [] {
      assert m1 == RemoveSubtree(m, p);
      assert m1.dirs == {} && m1.files == map[];
      var m2 := RemoveSubtree(m1, p);
      assert m2.dirs == {} && m2.files == map[];
    }
  }

  // ---------------------------------------------------------------------
  // Changed

  function ChangedRecord(p: Path): ItemsToChange {
    ItemsToChange(Changed, Relative(p), None)
  }

  /** Every failure of a change is caught: it never ends the pass. */
  lemma ChangedNeverThrows(src: Tree, locked: set<Loc>, m: Tree, p: Path)
    ensures Apply(src, locked, m, ChangedRecord(p)).Next?
  {
  }

  /** A change leaves the copy untouched when it holds no file of that name;
      otherwise the copy's file is replaced by the watched folder's file, or,
      when that file cannot be read, the copy's file is gone. */
  lemma ChangedEffect(src: Tree, locked: set<Loc>, m: Tree, p: Path)
    requires WellFormed(m)
    ensures Apply(src, locked, m, ChangedRecord(p)).Next?
    ensures var m' := Apply(src, locked, m, ChangedRecord(p)).mirror;
      && (p !in m.files ==> m' == m)
      && (p in m.files && Loc(Mirror, p) in locked ==> m' == m)
      && (p in m.files && Loc(Mirror, p) !in locked ==>
            && m'.dirs == m.dirs
            && (forall q :: q != p ==> (q in m'.files <==> q in m.files))
            && (forall q :: q != p && q in m.files ==> m'.files[q] == m.files[q])
            && (if p in src.files && Loc(Source, p) !in locked
                then p in m'.files && m'.files[p] == src.files[p]
                else p !in m'.files))
  {
    if p in m.files && Loc(Mirror, p) !in locked {
      var l := Loc(Mirror, p);
      var m1 := DeleteFile(m, locked, l).value;
      var from := Loc(Source, p);
      assert !CopyFails(src, m1, locked, from, Replace(from)) <==> p in src.files && from !in locked;
    }
  }

  // ---------------------------------------------------------------------
  // Created

  function CreatedRecord(p: Path): ItemsToChange {
    ItemsToChange(Created, Relative(p), None)
  }

  /** A creation overwrites the copy's file with the watched folder's file.
      Nothing catches its failure: a file that is gone again, held open, or a
      directory whose name holds a dot makes it throw. */
  lemma CreatedEffect(src: Tree, locked: set<Loc>, m: Tree, p: Path)
    ensures var s := Apply(src, locked, m, CreatedRecord(p));
      && (s.Throw? <==> CopyFails(src, m, locked, Loc(Source, p), Loc(Mirror, p)))
      && (p !in src.files ==> s.Throw?)
      && (s.Next? ==> s.mirror.dirs == m.dirs && p in s.mirror.files && s.mirror.files[p] == src.files[p])
      && (s.Next? ==> forall q :: q != p ==>
            (q in s.mirror.files <==> q in m.files) && (q in m.files ==> s.mirror.files[q] == m.files[q]))
  {
  }

  /** A file created and removed again between two passes stops the next pass
      at its creation record, whatever follows in the queue. */
  lemma CreatedThenGoneStopsPass(src: Tree, locked: set<Loc>, m: Tree, a: seq<ItemsToChange>, p: Path, b: seq<ItemsToChange>)
    requires AllIngested(a) && AllIngested(b)
    requires Replay(src, locked, m, a).finished
    requires p !in src.files
    ensures AllIngested(a + [CreatedRecord(p)] + b)
    ensures Replay(src, locked, m, a + [CreatedRecord(p)] + b) == Pass(Replay(src, locked, m, a).mirror, false)
  {
    CreatedEffect(src, locked, Replay(src, locked, m, a).mirror, p);
    ReplayStopsAtThrow(src, locked, m, a, CreatedRecord(p), b);
  }

  // ---------------------------------------------------------------------
  // Renamed

  function RenamedRecord(newPath: Path, oldPath: Option<Path>): ItemsToChange {
    ItemsToChange(Renamed, Rooted(newPath), oldPath)
  }

  /** A file rename whose new name is no file in the watched folder changes
      nothing, whatever the copy holds (the existence test resolves to the
      watched folder, because the stored new name is rooted); otherwise the old name is deleted from
      the copy and the new file copied, a failing copy being skipped. */
  lemma RenamedFileEffect(src: Tree, locked: set<Loc>, m: Tree, newPath: Path, oldPath: Path)
    requires WellFormed(m)
    requires HasExtension(Join(newPath))
    ensures var s := Apply(src, locked, m, RenamedRecord(newPath, Some(oldPath)));
      && (newPath !in src.files ==> s == Next(m))
      && (newPath in src.files && DeleteFile(m, locked, Loc(Mirror, oldPath)).None? ==> s == Throw)
      && (newPath in src.files && DeleteFile(m, locked, Loc(Mirror, oldPath)).Some? ==>
            var m1 := DeleteFile(m, locked, Loc(Mirror, oldPath)).value;
            && s.Next?
            && (oldPath != newPath ==> oldPath !in s.mirror.files)
            && (CopyFails(src, m1, locked, Loc(Source, newPath), Loc(Mirror, newPath)) ==> s.mirror == m1)
            && (!CopyFails(src, m1, locked, Loc(Source, newPath), Loc(Mirror, newPath)) ==>
                  && s.mirror.dirs == m1.dirs
                  && newPath in s.mirror.files && s.mirror.files[newPath] == src.files[newPath]
                  && (forall q :: q != newPath ==>
                        (q in s.mirror.files <==> q in m1.files) && (q in m1.files ==> s.mirror.files[q] == m1.files[q]))))
  {
  }

  /** A rename whose new name has no extension renames the copy's directory at
      the old name to the last segment of the new name, carrying everything
      under it along; it throws when there is no such directory or the new
      name is taken. Entries outside both names are left as they were. */
  lemma {:induction false} RenamedDirectoryEffect(src: Tree, locked: set<Loc>, m: Tree, newPath: Path, oldPath: Path, rest: Path, other: Path)
    requires !HasExtension(Join(newPath))
    ensures var s := Apply(src, locked, m, RenamedRecord(newPath, Some(oldPath)));
      var target := if oldPath == [] then [] else Parent(oldPath) + [FileName(newPath)];
      && (s.Throw? <==> RenameDirectory(m, oldPath, FileName(newPath)).None?)
      && (s.Next? ==> s.mirror == RenameDirectory(m, oldPath, FileName(newPath)).value)
      && (s.Next? ==>
            && (oldPath + rest in m.dirs <==> target + rest in s.mirror.dirs)
            && (oldPath + rest in m.files <==> target + rest in s.mirror.files)
            && (oldPath + rest in m.files ==> s.mirror.files[target + rest] == m.files[oldPath + rest])
            && oldPath + rest !in s.mirror.dirs && oldPath + rest !in s.mirror.files)
      && (s.Next? && !IsPrefix(oldPath, other) && !IsPrefix(target, other) ==>
            && (other in s.mirror.dirs <==> other in m.dirs)
            && (other in s.mirror.files <==> other in m.files)
            && (other in m.files ==> s.mirror.files[other] == m.files[other]))
  {
    if RenameDirectory(m, oldPath, FileName(newPath)).Some? {
      RenameDirectoryMovesContents(m, oldPath, FileName(newPath), rest);
      if !IsPrefix(oldPath, other) && !IsPrefix(Parent(oldPath) + [FileName(newPath)], other) {
        RenameDirectoryKeepsOthers(m, oldPath, FileName(newPath), other);
      }
    }
  }

  /** A rename without an old name throws when the new name has no extension
      and is skipped when it has one. */
  lemma RenamedWithoutOldName(src: Tree, locked: set<Loc>, m: Tree, newPath: Path)
    ensures Apply(src, locked, m, RenamedRecord(newPath, None))
      == if HasExtension(Join(newPath)) then Next(m) else Throw
  {
  }

  // ---------------------------------------------------------------------
  // Whole passes

  /** A change followed by a deletion of the same name, replayed in one pass,
      leaves the copy without that file and lets the pass finish, as long as
      the copy's file is not held open. */
  lemma ChangedThenDeleted(src: Tree, locked: set<Loc>, m: Tree, p: Path)
    requires WellFormed(m) && Loc(Mirror, p) !in locked
    ensures AllIngested([ChangedRecord(p), DeletedRecord(p)])
    ensures var pass := Replay(src, locked, m, [ChangedRecord(p), DeletedRecord(p)]);
      pass.finished && p !in pass.mirror.files
  {
    ChangedNeverThrows(src, locked, m, p);
    var m1 := Apply(src, locked, m, ChangedRecord(p)).mirror;
    ApplyWellFormed(src, locked, m, ChangedRecord(p));
    DeletedEffect(src, locked, m1, p);
    var m2 := Apply(src, locked, m1, DeletedRecord(p)).mirror;
    assert [ChangedRecord(p), DeletedRecord(p)][1..] == [DeletedRecord(p)];
    assert [DeletedRecord(p)][1..] == [];
    assert Replay(src, locked, m1, [DeletedRecord(p)]) == Pass(m2, true);
    assert Replay(src, locked, m, [ChangedRecord(p), DeletedRecord(p)]) == Pass(m2, true);
  }

  /** A deletion followed by a creation of the same name leaves the copy with
      the watched folder's content when the copy can be made. */
  lemma DeletedThenCreated(src: Tree, locked: set<Loc>, m: Tree, p: Path)
    requires WellFormed(m) && p != [] && Loc(Mirror, p) !in locked && Loc(Source, p) !in locked
    requires p in src.files && DirExists(m, Parent(p))
    ensures AllIngested([DeletedRecord(p), CreatedRecord(p)])
    ensures var pass := Replay(src, locked, m, [DeletedRecord(p), CreatedRecord(p)]);
      pass.finished && p in pass.mirror.files && pass.mirror.files[p] == src.files[p]
  {
    DeletedEffect(src, locked, m, p);
    var m1 := Apply(src, locked, m, DeletedRecord(p)).mirror;
    assert DirExists(m1, Parent(p)) && p !in m1.dirs;
    CreatedEffect(src, locked, m1, p);
    var m2 := Apply(src, locked, m1, CreatedRecord(p)).mirror;
    assert [DeletedRecord(p), CreatedRecord(p)][1..] == [CreatedRecord(p)];
    assert [CreatedRecord(p)][1..] == [];
    assert Replay(src, locked, m1, [CreatedRecord(p)]) == Pass(m2, true);
    assert Replay(src, locked, m, [DeletedRecord(p), CreatedRecord(p)]) == Pass(m2, true);
  }
}
