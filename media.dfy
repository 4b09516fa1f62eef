/**
  BulkActions.Media: scatter (MoveFilesIntoTargetDirectory) and gather
  (MoveFilesBackToOriginalDirectory). Both enumerate directories in an order
  .NET leaves unspecified; the methods pick each next entry arbitrarily, so
  what they promise holds whatever that order is.
 */
module Media {
  import opened Results
  import opened Text
  import opened Paths
  import opened Guard
  import opened Naming
  import opened FileSystems
  import opened BulkActions

  // ---------------------------------------------------------------------------
  // Scatter: Media.MoveFilesIntoTargetDirectory

  /** `p` is a file directly inside an immediate subfolder of `source`. */
  predicate InSubfolder(p: Path, source: Path) {
    |p| == |source| + 2 && p[..|source|] == source
  }

  /** Where scatter puts the file `p`: in `target`, named `<folder>_<file>`. */
  function ScatterDestination(target: Path, p: Path): (d: Path)
    requires |p| >= 2
    ensures IsChildOf(d, target)
  {
    target + [EncodeName(p[|p| - 2], p[|p| - 1])]
  }

  /** The files scatter moves: inside a subfolder of `source`, and passing the extension and size test. */
  function ScatterSelection(files: map<Path, Bytes>, source: Path, maxFileSize: int, fileExtensions: string): set<Path> {
    set p | p in files && InSubfolder(p, source) && Selects(maxFileSize, fileExtensions, p[|p| - 1], |files[p]|)
  }

  /** Each selected file with its destination. */
  function ScatterMoves(files: map<Path, Bytes>, source: Path, target: Path, maxFileSize: int, fileExtensions: string): map<Path, Path> {
    map p | p in ScatterSelection(files, source, maxFileSize, fileExtensions) :: ScatterDestination(target, p)
  }

  lemma EncodedNameIsName(folderName: string, fileName: string)
    requires IsName(folderName) && IsName(fileName)
    ensures IsName(EncodeName(folderName, fileName))
  {
    var n := EncodeName(folderName, fileName);
    assert n[|folderName|] == Underscore;
  }

  /** Directory.CreateDirectory(target) goes through: no location on the way down to `target` is a file. */
  predicate TargetCreatable(files: map<Path, Bytes>, target: Path) {
    forall i | 0 < i <= |target| :: target[..i] !in files
  }

  /**
    When scatter goes through, judged on the state it starts from: the
    target exists or can be created, and the selected files can all be moved
    (distinct destinations, none of them taken).
   */
  ghost predicate ScatterCanSucceed(s: Snapshot, source: Path, target: Path, maxFileSize: int, fileExtensions: string) {
    && (target in s.dirs || TargetCreatable(s.files, target))
    && CollisionFree(s, ScatterMoves(s.files, source, target, maxFileSize, fileExtensions))
  }

  /** Unless the target is an immediate subfolder of the source, no destination is a selected file. */
  lemma ScatterMovesLeaveSubfolders(files: map<Path, Bytes>, source: Path, target: Path, maxFileSize: int, fileExtensions: string)
    requires !IsChildOf(target, source)
    ensures var all := ScatterMoves(files, source, target, maxFileSize, fileExtensions);
      all.Values !! all.Keys
  {
    var all := ScatterMoves(files, source, target, maxFileSize, fileExtensions);
    forall p, q | p in all && q in all ensures all[q] != p {
      assert Parent(all[q]) == target;
      assert Parent(p)[..|source|] == source;
    }
  }

  /** Creating the target adds only locations above the destinations, so the destinations stay free. */
  lemma CreatedTargetKeepsCollisionFree(s: Snapshot, dirs: set<Path>, target: Path, moves: map<Path, Path>)
    requires CollisionFree(s, moves)
    requires dirs <= s.dirs + Ancestors(target)
    requires forall p | p in moves :: IsChildOf(moves[p], target)
    ensures CollisionFree(Snapshot(dirs, s.files), moves)
  {
    forall p | p in moves ensures moves[p] !in Ancestors(target) {
      assert |moves[p]| == |target| + 1;
    }
  }

  /** The moves scatter has made so far: selected files, each sent to its destination. */
  ghost predicate ScatterSoFar(before: map<Path, Bytes>, now: map<Path, Bytes>, moves: map<Path, Path>,
                               selection: set<Path>, target: Path) {
    && Relocated(before, now, moves)
    && forall p | p in moves :: p in selection && |p| >= 2 && moves[p] == ScatterDestination(target, p)
  }

  /**
    Progress through one subfolder: besides the moves made before (`moves0`)
    only files of `folder` have moved, none of them still to do, and every
    selected file of `folder` already done has moved.
   */
  ghost predicate FolderProgress(before: map<Path, Bytes>, now: map<Path, Bytes>, moves: map<Path, Path>,
                                 moves0: map<Path, Path>, selection: set<Path>, target: Path,
                                 folder: Path, todo: set<Path>) {
    && ScatterSoFar(before, now, moves, selection, target)
    && moves0.Keys <= moves.Keys
    && (forall p | p in moves && !IsChildOf(p, folder) :: p in moves0)
    && (forall p | p in moves && IsChildOf(p, folder) :: p !in todo)
    && (forall p | p in selection && IsChildOf(p, folder) && p !in todo :: p in moves)
  }

  /** Progress through the subfolders: exactly the selected files of the folders no longer pending have moved. */
  ghost predicate ScatterProgress(before: map<Path, Bytes>, now: map<Path, Bytes>, moves: map<Path, Path>,
                                  selection: set<Path>, source: Path, target: Path, pending: set<Path>) {
    && ScatterSoFar(before, now, moves, selection, target)
    && (forall p | p in selection :: InSubfolder(p, source))
    && (forall p | p in moves :: InSubfolder(p, source) && p[..|source| + 1] !in pending)
    && (forall p | p in selection && InSubfolder(p, source) && p[..|source| + 1] !in pending :: p in moves)
  }

  /** Finishing one file of the folder, moved if selected and left otherwise, keeps the folder's progress. */
  lemma FolderStep(before: map<Path, Bytes>, mid: map<Path, Bytes>, after: map<Path, Bytes>,
                   moves: map<Path, Path>, moves0: map<Path, Path>, selection: set<Path>, target: Path,
                   folder: Path, todo: set<Path>, file: Path)
    requires FolderProgress(before, mid, moves, moves0, selection, target, folder, todo)
    requires file in todo && IsChildOf(file, folder) && file in before && file in mid && |file| >= 2
    requires file !in selection ==> after == mid
    requires file in selection ==> ScatterDestination(target, file) !in mid
    requires file in selection ==>
      after.Keys == mid.Keys - {file} + {ScatterDestination(target, file)} && after[ScatterDestination(target, file)] == mid[file]
    requires file in selection ==> forall f | f in mid && f != file :: after[f] == mid[f]
    ensures FolderProgress(before, after,
                           if file in selection then moves[file := ScatterDestination(target, file)] else moves,
                           moves0, selection, target, folder, todo - {file})
  {
    if file in selection {
      FolderMoved(before, mid, after, moves, moves0, selection, target, folder, todo, file);
    }
  }

  /** Moving one selected file of the folder keeps the folder's progress. */
  lemma FolderMoved(before: map<Path, Bytes>, mid: map<Path, Bytes>, after: map<Path, Bytes>,
                    moves: map<Path, Path>, moves0: map<Path, Path>, selection: set<Path>, target: Path,
                    folder: Path, todo: set<Path>, file: Path)
    requires FolderProgress(before, mid, moves, moves0, selection, target, folder, todo)
    requires file in todo && IsChildOf(file, folder) && file in before && file in mid && |file| >= 2
    requires file in selection && ScatterDestination(target, file) !in mid
    requires after.Keys == mid.Keys - {file} + {ScatterDestination(target, file)}
    requires after[ScatterDestination(target, file)] == mid[file]
    requires forall f | f in mid && f != file :: after[f] == mid[f]
    ensures FolderProgress(before, after, moves[file := ScatterDestination(target, file)], moves0, selection, target,
                           folder, todo - {file})
  {
    RelocatedStep(before, mid, after, moves, file, ScatterDestination(target, file));
  }

  /** Finishing a pending folder moves the scatter forward by that folder. */
  lemma FolderDone(before: map<Path, Bytes>, now: map<Path, Bytes>, moves0: map<Path, Path>, moves: map<Path, Path>,
                   selection: set<Path>, source: Path, target: Path, pending: set<Path>, folder: Path)
    requires forall p | p in selection :: InSubfolder(p, source)
    requires forall p | p in moves0 :: InSubfolder(p, source) && p[..|source| + 1] !in pending
    requires forall p | p in selection && InSubfolder(p, source) && p[..|source| + 1] !in pending :: p in moves0
    requires folder in pending && IsChildOf(folder, source)
    requires FolderProgress(before, now, moves, moves0, selection, target, folder, {})
    ensures ScatterProgress(before, now, moves, selection, source, target, pending - {folder})
  {
    forall p | p in selection && InSubfolder(p, source) && p[..|source| + 1] !in pending - {folder}
      ensures p in moves
    {
      if p[..|source| + 1] == folder {
        assert p[..|folder|] == folder;
      }
    }
    forall p | p in moves
      ensures InSubfolder(p, source) && p[..|source| + 1] !in pending - {folder}
    {
      if IsChildOf(p, folder) {
        assert p[..|source|] == folder[..|source|];
      }
    }
  }

  /** A file moved earlier is not in a folder still pending. */
  lemma PendingFolderUntouched(moves: map<Path, Path>, source: Path, pending: set<Path>, folder: Path)
    requires forall p | p in moves :: InSubfolder(p, source) && p[..|source| + 1] !in pending
    requires folder in pending && IsChildOf(folder, source)
    ensures forall p | p in moves :: !IsChildOf(p, folder)
  {
  }

  /** Scatter's moves so far are part of all it would make, and are all of them once every selected file has moved. */
  lemma ScatterSoFarIsPart(before: map<Path, Bytes>, now: map<Path, Bytes>, moves: map<Path, Path>,
                           source: Path, target: Path, maxFileSize: int, fileExtensions: string)
    requires ScatterSoFar(before, now, moves, ScatterSelection(before, source, maxFileSize, fileExtensions), target)
    ensures IsPartOf(moves, ScatterMoves(before, source, target, maxFileSize, fileExtensions))
    ensures ScatterSelection(before, source, maxFileSize, fileExtensions) <= moves.Keys ==>
      moves == ScatterMoves(before, source, target, maxFileSize, fileExtensions)
  {
  }

  /** Before its turn, a subfolder of the source holds exactly the files it held at the start. */
  lemma FolderUntouched(before: map<Path, Bytes>, now: map<Path, Bytes>, moves: map<Path, Path>,
                        source: Path, target: Path, folder: Path)
    requires Relocated(before, now, moves)
    requires IsChildOf(folder, source) && !IsChildOf(target, source)
    requires forall p | p in moves :: |p| >= 2 && moves[p] == ScatterDestination(target, p) && !IsChildOf(p, folder)
    ensures forall f | IsChildOf(f, folder) :: (f in now <==> f in before) && (f in now ==> now[f] == before[f])
  {
    forall f | IsChildOf(f, folder)
      ensures (f in now <==> f in before) && (f in now ==> now[f] == before[f])
    {
      assert f !in moves;
      assert f[..|source|] == source;
    }
  }

  /**
    The move in scatter's inner loop: `file` goes to the target directory
    under the name `<folderName>_<name of file>`. The target path is admitted
    by the guard, so File.Move either succeeds or fails without changes.
   */
  method MoveIntoTarget(fs: FileSystem, env: Env, targetDirectory: string, folderName: string, file: Path,
                        ghost target: Path)
    returns (r: Result<()>)
    requires fs.Valid() && env.Valid()
    requires Authorized(env, targetDirectory) && target == Resolve(env.cwd, targetDirectory) && target in fs.dirs
    requires IsName(folderName) && file != [] && IsName(file[|file| - 1])
    modifies fs
    ensures fs.Valid() && fs.dirs == old(fs.dirs)
    ensures var d := target + [EncodeName(folderName, file[|file| - 1])];
      && (r.Ok? <==> file in old(fs.files) && d !in old(fs.files) && d !in old(fs.dirs))
      && (r.Err? ==> fs.files == old(fs.files) && (file in old(fs.files) ==> r.error == IO))
      && (r.Ok? ==> fs.files.Keys == old(fs.files).Keys - {file} + {d} && fs.files[d] == old(fs.files)[file])
      && (r.Ok? ==> forall f | f in old(fs.files) && f != file :: fs.files[f] == old(fs.files)[f])
  {
    var newFileName := EncodeName(folderName, file[|file| - 1]);
    var newFilePath := Combine(targetDirectory, newFileName);
    EncodedNameIsName(folderName, file[|file| - 1]);
    GuardAdmitsCombinedName(env, targetDirectory, newFileName);
    r := PerformFileOperation(fs, env, newFilePath, MoveFileTo(file, newFilePath));
  }

  /** A file directly inside `folder` carries the folder's name just before its own. */
  lemma FileInFolder(file: Path, folder: Path, source: Path)
    requires IsChildOf(file, folder) && folder != []
    ensures file[|file| - 2] == folder[|folder| - 1]
    ensures IsChildOf(folder, source) ==> InSubfolder(file, source)
  {
    assert file[..|folder|][|folder| - 1] == file[|folder| - 1];
    if IsChildOf(folder, source) {
      assert file[..|source|] == file[..|folder|][..|source|];
    }
  }

  /**
    The inner loop of scatter: every file directly inside `folder` (as
    Directory.GetFiles lists it when the loop starts) that passes the test
    moves to the target. `independent` says that the target is not itself an
    immediate subfolder of the source; only then can the files of one folder
    not be disturbed by the moves out of another, and only then does the
    method promise how the files are relocated.
   */
  method MoveFolderFiles(fs: FileSystem, env: Env, maxFileSize: int, fileExtensions: string,
                         targetDirectory: string, folder: Path,
                         ghost source: Path, ghost target: Path, ghost before: map<Path, Bytes>,
                         ghost selection: set<Path>, ghost moves0: map<Path, Path>, ghost independent: bool,
                         ghost free: bool)
    returns (r: Result<()>, ghost moves: map<Path, Path>)
    requires fs.Valid() && env.Valid()
    requires Authorized(env, targetDirectory) && target == Resolve(env.cwd, targetDirectory) && target in fs.dirs
    requires folder in fs.dirs && folder != []
    requires independent ==> IsChildOf(folder, source) && !IsChildOf(target, source)
    requires independent ==> selection == ScatterSelection(before, source, maxFileSize, fileExtensions)
    requires independent ==> ScatterSoFar(before, fs.files, moves0, selection, target)
    requires independent ==> forall p | p in moves0 :: !IsChildOf(p, folder)
    requires free ==> independent && CollisionFree(Snapshot(fs.dirs, before), ScatterMoves(before, source, target, maxFileSize, fileExtensions))
    modifies fs
    ensures fs.Valid() && fs.dirs == old(fs.dirs)
    ensures independent ==> ScatterSoFar(before, fs.files, moves, selection, target)
    ensures independent && r.Ok? ==> FolderProgress(before, fs.files, moves, moves0, selection, target, folder, {})
    ensures independent && r.Err? ==> r.error == IO
    ensures free ==> r.Ok?
  {
    var folderName := folder[|folder| - 1];
    var folderFiles := fs.FilesIn(folder);
    if independent {
      FolderUntouched(before, fs.files, moves0, source, target, folder);
    }
    moves := moves0;
    var todo := folderFiles;
    while todo != {}
      invariant fs.Valid() && fs.dirs == old(fs.dirs)
      invariant todo <= folderFiles
      invariant forall f | f in folderFiles :: IsChildOf(f, folder)
      invariant independent ==> forall f | f in folderFiles :: f in before
      invariant independent ==> FolderProgress(before, fs.files, moves, moves0, selection, target, folder, todo)
      decreases todo
    {
      var file :| file in todo;
      if independent {
        assert file !in moves && file in before;
      }
      var fileName := file[|file| - 1];
      FileInFolder(file, folder, source);
      var extensionPasses := IsNullOrWhiteSpace(fileExtensions) || ContainsIgnoreCase(fileExtensions, Extension(fileName));
      if extensionPasses && file !in fs.files {
        // FileInfo.Length of a file that is gone
        return Err(FileNotFound), moves;
      }
      var selected := extensionPasses && |fs.files[file]| >= Threshold(maxFileSize);
      assert file in fs.files ==> (selected <==> Selects(maxFileSize, fileExtensions, fileName, |fs.files[file]|));
      if independent {
        assert file in fs.files;
        assert file in selection <==> selected;
      }
      ghost var mid := fs.files;
      if selected {
        if free {
          ScatterSoFarIsPart(before, fs.files, moves, source, target, maxFileSize, fileExtensions);
          DestinationStillFree(Snapshot(fs.dirs, before), fs.files, moves,
                               ScatterMoves(before, source, target, maxFileSize, fileExtensions), file);
        }
        r := MoveIntoTarget(fs, env, targetDirectory, folderName, file, target);
        if r.Err? {
          return r, moves;
        }
      }
      if independent {
        FolderStep(before, mid, fs.files, moves, moves0, selection, target, folder, todo, file);
        if file in selection {
          moves := moves[file := ScatterDestination(target, file)];
        }
      }
      todo := todo - {file};
    }
    r := Ok(());
  }

  /** Every selected file sits in an immediate subfolder of the source that exists. */
  lemma SelectionInFolders(s: Snapshot, source: Path, maxFileSize: int, fileExtensions: string)
    requires WellFormed(s)
    ensures forall p | p in ScatterSelection(s.files, source, maxFileSize, fileExtensions) ::
      InSubfolder(p, source) && p[..|source| + 1] in s.dirs && IsChildOf(p[..|source| + 1], source)
  {
    forall p | p in ScatterSelection(s.files, source, maxFileSize, fileExtensions)
      ensures InSubfolder(p, source) && p[..|source| + 1] in s.dirs && IsChildOf(p[..|source| + 1], source)
    {
      assert Parent(p) == p[..|source| + 1];
    }
  }

  /**
    The outer loop of scatter, once the target exists: the files of every
    immediate subfolder of the source, one subfolder after another. Unless
    the target is itself such a subfolder, the loop goes through exactly
    when the selected files can all be moved, and then relocates each one.
   */
  method ScatterFolders(fs: FileSystem, env: Env, maxFileSize: int, fileExtensions: string,
                        targetDirectory: string, source: Path, ghost target: Path)
    returns (r: Result<()>)
    requires fs.Valid() && env.Valid()
    requires Authorized(env, targetDirectory) && target == Resolve(env.cwd, targetDirectory) && target in fs.dirs
    requires source in fs.dirs
    modifies fs
    ensures fs.Valid() && fs.dirs == old(fs.dirs)
    ensures !IsChildOf(target, source) ==>
      var all := ScatterMoves(old(fs.files), source, target, maxFileSize, fileExtensions);
      && (r.Ok? <==> CollisionFree(old(fs.State()), all))
      && (r.Ok? ==> Relocated(old(fs.files), fs.files, all))
      && (r.Err? ==> r.error == IO && exists done :: IsPartOf(done, all) && Relocated(old(fs.files), fs.files, done))
  {
    ghost var start := fs.State();
    ghost var before := fs.files;
    ghost var independent := !IsChildOf(target, source);
    ghost var selection := ScatterSelection(before, source, maxFileSize, fileExtensions);
    ghost var all := ScatterMoves(before, source, target, maxFileSize, fileExtensions);
    ghost var free := independent && CollisionFree(start, all);
    ghost var moves: map<Path, Path> := map[];
    RelocatedNothing(before);
    SelectionInFolders(start, source, maxFileSize, fileExtensions);

    var folders := fs.Subdirectories(source);
    var pending := folders;
    while pending != {}
      invariant fs.Valid() && fs.dirs == start.dirs
      invariant pending <= folders
      invariant forall d | d in folders :: IsChildOf(d, source) && d in start.dirs
      invariant independent ==> ScatterProgress(before, fs.files, moves, selection, source, target, pending)
      decreases pending
    {
      var folder :| folder in pending;
      if independent {
        PendingFolderUntouched(moves, source, pending, folder);
      }
      ghost var moves0 := moves;
      r, moves := MoveFolderFiles(fs, env, maxFileSize, fileExtensions, targetDirectory, folder,
                                  source, target, before, selection, moves, independent, free);
      if r.Err? {
        if independent {
          ScatterSoFarIsPart(before, fs.files, moves, source, target, maxFileSize, fileExtensions);
        }
        return;
      }
      if independent {
        FolderDone(before, fs.files, moves0, moves, selection, source, target, pending, folder);
      }
      pending := pending - {folder};
    }
    if independent {
      ScatterSoFarIsPart(before, fs.files, moves, source, target, maxFileSize, fileExtensions);
      ScatterMovesLeaveSubfolders(before, source, target, maxFileSize, fileExtensions);
      RelocationWasCollisionFree(start, fs.files, all);
    }
    r := Ok(());
  }

  /**
    Judged before or after the target is created, the selected files can be
    moved under the same conditions: creating the target adds only locations
    above the destinations.
   */
  lemma ScatterCanSucceedOnceCreated(start: Snapshot, created: set<Path>, source: Path, target: Path,
                                     maxFileSize: int, fileExtensions: string)
    requires start.dirs <= created <= start.dirs + Ancestors(target)
    requires target in start.dirs || TargetCreatable(start.files, target)
    ensures ScatterCanSucceed(start, source, target, maxFileSize, fileExtensions) <==>
      CollisionFree(Snapshot(created, start.files), ScatterMoves(start.files, source, target, maxFileSize, fileExtensions))
  {
    var all := ScatterMoves(start.files, source, target, maxFileSize, fileExtensions);
    if CollisionFree(start, all) {
      ScatterMovesShape(start.files, source, target, maxFileSize, fileExtensions);
      CreatedTargetKeepsCollisionFree(start, created, target, all);
    }
  }

  /**
    Media.MoveFilesIntoTargetDirectory. The source is checked first and a
    missing source ends the action; then the target is checked and created
    when missing; then every file directly inside each immediate subfolder
    of the source that passes the test moves to `target/<folder>_<file>`.
   */
  method MoveFilesIntoTargetDirectory(fs: FileSystem, env: Env, maxFileSize: int, fileExtensions: string,
                                      sourceDirectory: string, targetDirectory: string)
    returns (r: Result<()>)
    requires fs.Valid() && env.Valid()
    modifies fs
    ensures fs.Valid()
    ensures !Authorized(env, sourceDirectory) ==>
      r == Err(IsFilePathValid(env, sourceDirectory).error) && fs.State() == old(fs.State())
    ensures Authorized(env, sourceDirectory) && Resolve(env.cwd, sourceDirectory) !in old(fs.dirs) ==>
      r == Ok(()) && fs.State() == old(fs.State())
    ensures Authorized(env, sourceDirectory) && Resolve(env.cwd, sourceDirectory) in old(fs.dirs) && !Authorized(env, targetDirectory) ==>
      r == Err(IsFilePathValid(env, targetDirectory).error) && fs.State() == old(fs.State())
    ensures Authorized(env, sourceDirectory) && Resolve(env.cwd, sourceDirectory) in old(fs.dirs) && Authorized(env, targetDirectory) ==>
      var source, target := Resolve(env.cwd, sourceDirectory), Resolve(env.cwd, targetDirectory);
      && (r.Ok? ==> target in fs.dirs)
      && fs.dirs == old(fs.dirs) + (if target in old(fs.dirs) || !TargetCreatable(old(fs.files), target) then {} else Ancestors(target))
      && (!IsChildOf(target, source) ==>
            var all := ScatterMoves(old(fs.files), source, target, maxFileSize, fileExtensions);
            && (r.Ok? <==> ScatterCanSucceed(old(fs.State()), source, target, maxFileSize, fileExtensions))
            && (r.Ok? ==> Relocated(old(fs.files), fs.files, all))
            && (r.Err? ==> r.error == IO && exists done :: IsPartOf(done, all) && Relocated(old(fs.files), fs.files, done)))
  {
    var sourceValid := IsFilePathValid(env, sourceDirectory);
    if sourceValid.Err? {
      return Err(sourceValid.error);
    }
    var source := Resolve(env.cwd, sourceDirectory);
    if !fs.DirectoryExists(source) {
      // "Source directory does not exist."
      return Ok(());
    }

    var targetValid := IsFilePathValid(env, targetDirectory);
    if targetValid.Err? {
      return Err(targetValid.error);
    }
    var target := Resolve(env.cwd, targetDirectory);
    if !fs.DirectoryExists(target) {
      r := PerformFileOperation(fs, env, targetDirectory, CreateDirectoryAt(targetDirectory));
      if r.Err? {
        assert IsPartOf(map[], ScatterMoves(old(fs.files), source, target, maxFileSize, fileExtensions));
        RelocatedNothing(fs.files);
        return;
      }
    }

    ghost var start := old(fs.State());
    ScatterCanSucceedOnceCreated(start, fs.dirs, source, target, maxFileSize, fileExtensions);
    r := ScatterFolders(fs, env, maxFileSize, fileExtensions, targetDirectory, source, target);
  }

  // ---------------------------------------------------------------------------
  // Gather: Media.MoveFilesBackToOriginalDirectory

  /** A file whose name gather takes apart: an underscore, not in first position. */
  predicate IsEncoded(p: Path) {
    p != [] && DecodeName(p[|p| - 1]).Some?
  }

  /** `Path.Combine(originalDirectory, originalFolderName)` for the file `p`. */
  function OriginalFolderPath(originalDirectory: string, p: Path): string
    requires IsEncoded(p)
  {
    Combine(originalDirectory, DecodeName(p[|p| - 1]).value.0)
  }

  /** `Path.Combine(originalFolderPath, originalFileName)` for the file `p`. */
  function OriginalFilePath(originalDirectory: string, p: Path): string
    requires IsEncoded(p)
  {
    Combine(OriginalFolderPath(originalDirectory, p), DecodeName(p[|p| - 1]).value.1)
  }

  /**
    The files gather moves: directly inside `source`, with an encoded name,
    and whose original folder exists; a file whose folder is missing stays.
   */
  function GatherSelection(env: Env, s: Snapshot, source: Path, originalDirectory: string): set<Path>
    requires env.Valid()
  {
    set p | p in s.files && IsChildOf(p, source) && IsEncoded(p)
      && IsValidPath(OriginalFolderPath(originalDirectory, p))
      && IsValidPath(OriginalFilePath(originalDirectory, p))
      && Resolve(env.cwd, OriginalFolderPath(originalDirectory, p)) in s.dirs
  }

  /** Each file gather moves, with the location its original file path names. */
  function GatherMoves(env: Env, s: Snapshot, source: Path, originalDirectory: string): map<Path, Path>
    requires env.Valid()
  {
    map p | p in GatherSelection(env, s, source, originalDirectory) :: Resolve(env.cwd, OriginalFilePath(originalDirectory, p))
  }

  /**
    When gather is sure to go through, judged on the state it starts from:
    the guard admits the original folder path of every encoded file in the
    source and the original file path of every file that moves, and the
    destinations are distinct and not taken.
   */
  ghost predicate GatherCanSucceed(env: Env, s: Snapshot, source: Path, originalDirectory: string)
    requires env.Valid()
  {
    && (forall p | p in s.files && IsChildOf(p, source) && IsEncoded(p) :: Authorized(env, OriginalFolderPath(originalDirectory, p)))
    && (forall p | p in GatherMoves(env, s, source, originalDirectory) :: Authorized(env, OriginalFilePath(originalDirectory, p)))
    && CollisionFree(s, GatherMoves(env, s, source, originalDirectory))
  }

  /** Combining with a separator-free segment, possibly empty, walks that segment. */
  lemma ResolveCombineSegment(cwd: Path, a: string, seg: string)
    requires IsFull(cwd) && IsValidPath(a)
    requires Separator !in seg && '\0' !in seg
    ensures IsValidPath(Combine(a, seg))
    ensures Resolve(cwd, Combine(a, seg)) == Step(Resolve(cwd, a), seg)
  {
    if seg != "" {
      ResolveCombine(cwd, a, seg);
    }
  }

  /**
    The move in gather's loop, once the original folder exists: the guard
    checks the original file path, then File.Move runs. With the file still
    in place the move fails only when the guard refuses the path or the
    destination is taken (a file, the folder itself, or a directory that
    "." or ".." lead to).
   */
  method MoveBack(fs: FileSystem, env: Env, originalFolderPath: string, originalFileName: string, file: Path)
    returns (r: Result<()>)
    requires fs.Valid() && env.Valid()
    requires IsValidPath(originalFolderPath) && Resolve(env.cwd, originalFolderPath) in fs.dirs
    requires Separator !in originalFileName && '\0' !in originalFileName
    modifies fs
    ensures fs.Valid() && fs.dirs == old(fs.dirs)
    ensures IsValidPath(Combine(originalFolderPath, originalFileName))
    ensures var path := Combine(originalFolderPath, originalFileName);
      var d := Resolve(env.cwd, path);
      && (r.Ok? <==> Authorized(env, path) && file in old(fs.files) && d !in old(fs.files) && d !in old(fs.dirs))
      && (r.Err? ==> fs.files == old(fs.files))
      && (r.Err? && !Authorized(env, path) ==> r.error == IsFilePathValid(env, path).error)
      && (r.Err? && Authorized(env, path) && file in old(fs.files) ==> r.error == IO)
      && (r.Ok? ==> fs.files.Keys == old(fs.files).Keys - {file} + {d} && fs.files[d] == old(fs.files)[file])
      && (r.Ok? ==> forall f | f in old(fs.files) && f != file :: fs.files[f] == old(fs.files)[f])
  {
    var originalFilePath := Combine(originalFolderPath, originalFileName);
    ResolveCombineSegment(env.cwd, originalFolderPath, originalFileName);
    ghost var folder := Resolve(env.cwd, originalFolderPath);
    assert folder != [] ==> Parent(folder) in fs.dirs;
    r := PerformFileOperation(fs, env, originalFilePath, MoveFileTo(file, originalFilePath));
  }

  /**
    When gather's step for `file` is sure to go through, judged on the state
    it starts from: for an encoded name, the guard admits the original
    folder path, and if that folder exists, the guard admits the original
    file path and no file or directory is there.
   */
  ghost predicate GatherFileCanSucceedIn(env: Env, s: Snapshot, originalDirectory: string, file: Path)
    requires env.Valid()
  {
    IsEncoded(file) ==>
      && Authorized(env, OriginalFolderPath(originalDirectory, file))
      && (IsValidPath(OriginalFilePath(originalDirectory, file)) &&
          Resolve(env.cwd, OriginalFolderPath(originalDirectory, file)) in s.dirs ==>
            var d := Resolve(env.cwd, OriginalFilePath(originalDirectory, file));
            Authorized(env, OriginalFilePath(originalDirectory, file)) && d !in s.files && d !in s.dirs)
  }

  /**
    The body of gather's loop for one listed file: a name that does not
    decode is skipped; otherwise the guard must admit the original folder
    path, a missing original folder skips the file, and an existing one
    receives it.
   */
  method GatherFile(fs: FileSystem, env: Env, originalDirectory: string, file: Path) returns (r: Result<()>)
    requires fs.Valid() && env.Valid() && Authorized(env, originalDirectory)
    requires file in fs.files
    modifies fs
    ensures fs.Valid() && fs.dirs == old(fs.dirs)
    ensures !IsEncoded(file) ==> r.Ok? && fs.files == old(fs.files)
    ensures IsEncoded(file) ==>
      IsValidPath(OriginalFolderPath(originalDirectory, file)) && IsValidPath(OriginalFilePath(originalDirectory, file))
    ensures IsEncoded(file) && !Authorized(env, OriginalFolderPath(originalDirectory, file)) ==>
      r == Err(UnauthorizedAccess) && fs.files == old(fs.files)
    ensures (IsEncoded(file) && Authorized(env, OriginalFolderPath(originalDirectory, file)) &&
             Resolve(env.cwd, OriginalFolderPath(originalDirectory, file)) !in fs.dirs) ==>
      r.Ok? && fs.files == old(fs.files)
    ensures (IsEncoded(file) && Authorized(env, OriginalFolderPath(originalDirectory, file)) &&
             Resolve(env.cwd, OriginalFolderPath(originalDirectory, file)) in fs.dirs) ==>
      var path := OriginalFilePath(originalDirectory, file);
      var d := Resolve(env.cwd, path);
      && (r.Ok? <==> Authorized(env, path) && d !in old(fs.files) && d !in fs.dirs)
      && (r.Err? ==> fs.files == old(fs.files) && r.error == (if Authorized(env, path) then IO else UnauthorizedAccess))
      && (r.Ok? ==> fs.files.Keys == old(fs.files).Keys - {file} + {d} && fs.files[d] == old(fs.files)[file])
      && (r.Ok? ==> forall f | f in old(fs.files) && f != file :: fs.files[f] == old(fs.files)[f])
    ensures GatherFileCanSucceedIn(env, old(fs.State()), originalDirectory, file) ==> r.Ok?
  {
    assert IsFull(file) && file != [];
    var fileName := file[|file| - 1];
    match DecodeName(fileName) {
      case None =>
        r := Ok(());
      case Some((originalFolderName, originalFileName)) =>
        var originalFolderPath := Combine(originalDirectory, originalFolderName);
        ResolveCombineSegment(env.cwd, originalDirectory, originalFolderName);
        ResolveCombineSegment(env.cwd, originalFolderPath, originalFileName);
        var folderValid := IsFilePathValid(env, originalFolderPath);
        if folderValid.Err? {
          return Err(folderValid.error);
        }
        if !fs.DirectoryExists(Resolve(env.cwd, originalFolderPath)) {
          // "Original folder does not exist"
          return Ok(());
        }
        r := MoveBack(fs, env, originalFolderPath, originalFileName, file);
    }
  }

  /**
    Progress of gather's loop over the snapshot `listed` of the source: the
    moves so far are part of all gather makes and none of them is still to
    do, and every listed file done that gather moves has moved.
   */
  ghost predicate GatherProgress(before: map<Path, Bytes>, now: map<Path, Bytes>, moves: map<Path, Path>,
                                 all: map<Path, Path>, listed: set<Path>, todo: set<Path>) {
    && Relocated(before, now, moves)
    && IsPartOf(moves, all)
    && (forall p | p in moves :: p in listed && p !in todo)
    && (forall p | p in all && p in listed && p !in todo :: p in moves)
  }

  /**
    Gather's loop invariant: its progress, and the guard having admitted the
    original folder of every encoded file done and the original file path of
    every file moved.
   */
  ghost predicate GatherInvariant(env: Env, originalDirectory: string, before: map<Path, Bytes>, now: map<Path, Bytes>,
                                  moves: map<Path, Path>, all: map<Path, Path>, listed: set<Path>, todo: set<Path>)
    requires env.Valid()
  {
    && GatherProgress(before, now, moves, all, listed, todo)
    && (forall p | p in listed && p !in todo && IsEncoded(p) :: Authorized(env, OriginalFolderPath(originalDirectory, p)))
    && (forall p | p in moves :: IsEncoded(p) && Authorized(env, OriginalFilePath(originalDirectory, p)))
  }

  /** Moving one listed file to its original place keeps gather's progress. */
  lemma GatherMoved(before: map<Path, Bytes>, mid: map<Path, Bytes>, after: map<Path, Bytes>,
                    moves: map<Path, Path>, all: map<Path, Path>, listed: set<Path>, todo: set<Path>, file: Path)
    requires GatherProgress(before, mid, moves, all, listed, todo)
    requires file in todo && file in listed && file in all && file in before
    requires file in mid && all[file] !in mid
    requires after.Keys == mid.Keys - {file} + {all[file]} && after[all[file]] == mid[file]
    requires forall f | f in mid && f != file :: after[f] == mid[f]
    ensures GatherProgress(before, after, moves[file := all[file]], all, listed, todo - {file})
  {
    RelocatedStep(before, mid, after, moves, file, all[file]);
  }

  /** The guard's admissions gather's invariant records, one listed file further on. */
  lemma GatherAdmittedStep(env: Env, originalDirectory: string, moves: map<Path, Path>, next: map<Path, Path>,
                           listed: set<Path>, todo: set<Path>, file: Path)
    requires env.Valid()
    requires forall p | p in listed && p !in todo && IsEncoded(p) :: Authorized(env, OriginalFolderPath(originalDirectory, p))
    requires forall p | p in moves :: IsEncoded(p) && Authorized(env, OriginalFilePath(originalDirectory, p))
    requires IsEncoded(file) ==> Authorized(env, OriginalFolderPath(originalDirectory, file))
    requires forall p | p in next && p != file :: p in moves
    requires file in next ==> IsEncoded(file) && Authorized(env, OriginalFilePath(originalDirectory, file))
    ensures forall p | p in listed && p !in todo - {file} && IsEncoded(p) :: Authorized(env, OriginalFolderPath(originalDirectory, p))
    ensures forall p | p in next :: IsEncoded(p) && Authorized(env, OriginalFilePath(originalDirectory, p))
  {
  }

  /** Finishing one listed file, moved to its original place or left, keeps gather's invariant. */
  lemma GatherStep(env: Env, originalDirectory: string, before: map<Path, Bytes>, mid: map<Path, Bytes>,
                   after: map<Path, Bytes>, moves: map<Path, Path>, all: map<Path, Path>,
                   listed: set<Path>, todo: set<Path>, file: Path)
    requires env.Valid()
    requires GatherInvariant(env, originalDirectory, before, mid, moves, all, listed, todo)
    requires file in todo && file in listed && file in before
    requires IsEncoded(file) ==> Authorized(env, OriginalFolderPath(originalDirectory, file))
    requires file !in all ==> after == mid
    requires file in all ==> IsEncoded(file) && Authorized(env, OriginalFilePath(originalDirectory, file))
    requires file in all ==> file in mid && all[file] !in mid
    requires file in all ==> after.Keys == mid.Keys - {file} + {all[file]} && after[all[file]] == mid[file]
    requires file in all ==> forall f | f in mid && f != file :: after[f] == mid[f]
    ensures GatherInvariant(env, originalDirectory, before, after, if file in all then moves[file := all[file]] else moves,
                            all, listed, todo - {file})
  {
    var next := if file in all then moves[file := all[file]] else moves;
    if file in all {
      GatherMoved(before, mid, after, moves, all, listed, todo, file);
    }
    GatherAdmittedStep(env, originalDirectory, moves, next, listed, todo, file);
  }

  /**
    When gather is sure to go through, the next listed file passes the
    guard, and if it is to move, its destination is still free.
   */
  lemma GatherFileCanSucceed(env: Env, originalDirectory: string, start: Snapshot, now: map<Path, Bytes>,
                             moves: map<Path, Path>, all: map<Path, Path>, source: Path, todo: set<Path>, file: Path)
    requires env.Valid() && GatherCanSucceed(env, start, source, originalDirectory)
    requires all == GatherMoves(env, start, source, originalDirectory)
    requires Relocated(start.files, now, moves) && IsPartOf(moves, all)
    requires forall p | p in moves :: p !in todo
    requires file in todo && file in start.files && IsChildOf(file, source)
    ensures GatherFileCanSucceedIn(env, Snapshot(start.dirs, now), originalDirectory, file)
  {
    if file in all {
      DestinationStillFree(start, now, moves, all, file);
    }
  }

  /** Once every listed file is done, gather has made all its moves. */
  lemma GatherComplete(before: map<Path, Bytes>, now: map<Path, Bytes>, moves: map<Path, Path>,
                       all: map<Path, Path>, listed: set<Path>)
    requires GatherProgress(before, now, moves, all, listed, {})
    requires all.Keys <= listed
    ensures moves == all
  {
  }

  /**
    One turn of gather's loop: `file`, one of the listed files still to do,
    is handled as GatherFile says, and the loop's invariant moves one file
    on; a failure changes nothing.
   */
  method GatherNext(fs: FileSystem, env: Env, originalDirectory: string, file: Path,
                    ghost start: Snapshot, ghost source: Path, ghost all: map<Path, Path>,
                    ghost listed: set<Path>, ghost todo: set<Path>, ghost moves0: map<Path, Path>, ghost free: bool)
    returns (r: Result<()>, ghost moves: map<Path, Path>)
    requires fs.Valid() && env.Valid() && Authorized(env, originalDirectory)
    requires fs.dirs == start.dirs && all == GatherMoves(env, start, source, originalDirectory)
    requires forall f | f in listed :: f in start.files && IsChildOf(f, source)
    requires file in todo && todo <= listed
    requires GatherInvariant(env, originalDirectory, start.files, fs.files, moves0, all, listed, todo)
    requires free ==> GatherCanSucceed(env, start, source, originalDirectory)
    modifies fs
    ensures fs.Valid() && fs.dirs == old(fs.dirs)
    ensures r.Ok? ==> GatherInvariant(env, originalDirectory, start.files, fs.files, moves, all, listed, todo - {file})
    ensures r.Err? ==> (r.error == UnauthorizedAccess || r.error == IO) && fs.files == old(fs.files)
    ensures free ==> r.Ok?
  {
    ghost var mid := fs.files;
    if free {
      GatherFileCanSucceed(env, originalDirectory, start, mid, moves0, all, source, todo, file);
    }
    r := GatherFile(fs, env, originalDirectory, file);
    moves := moves0;
    if r.Err? {
      return;
    }
    GatherStep(env, originalDirectory, start.files, mid, fs.files, moves0, all, listed, todo, file);
    if file in all {
      moves := moves0[file := all[file]];
    }
  }

  /**
    Gather's loop over `listed`, the files Directory.GetFiles gave for the
    source when the loop starts.
   */
  method GatherListed(fs: FileSystem, env: Env, originalDirectory: string, listed: set<Path>,
                      ghost source: Path, ghost all: map<Path, Path>)
    returns (r: Result<()>)
    requires fs.Valid() && env.Valid() && Authorized(env, originalDirectory)
    requires listed == fs.FilesIn(source)
    requires all == GatherMoves(env, fs.State(), source, originalDirectory)
    modifies fs
    ensures fs.Valid() && fs.dirs == old(fs.dirs)
    ensures r.Ok? ==> Relocated(old(fs.files), fs.files, all)
    ensures r.Ok? ==> forall p | p in listed && IsEncoded(p) :: Authorized(env, OriginalFolderPath(originalDirectory, p))
    ensures r.Ok? ==> forall p | p in all :: Authorized(env, OriginalFilePath(originalDirectory, p))
    ensures r.Err? ==> r.error == UnauthorizedAccess || r.error == IO
    ensures r.Err? ==> exists done :: IsPartOf(done, all) && Relocated(old(fs.files), fs.files, done)
    ensures GatherCanSucceed(env, old(fs.State()), source, originalDirectory) ==> r.Ok?
  {
    ghost var start := fs.State();
    ghost var free := GatherCanSucceed(env, start, source, originalDirectory);
    ghost var before := fs.files;
    ghost var moves: map<Path, Path> := map[];
    RelocatedNothing(before);
    assert all.Keys <= listed;
    var todo := listed;
    while todo != {}
      invariant fs.Valid() && fs.dirs == old(fs.dirs)
      invariant todo <= listed
      invariant forall f | f in listed :: f in before
      invariant GatherInvariant(env, originalDirectory, before, fs.files, moves, all, listed, todo)
      decreases todo
    {
      var file :| file in todo;
      r, moves := GatherNext(fs, env, originalDirectory, file, start, source, all, listed, todo, moves, free);
      if r.Err? {
        return;
      }
      todo := todo - {file};
    }
    GatherComplete(before, fs.files, moves, all, listed);
    r := Ok(());
  }

  /**
    Media.MoveFilesBackToOriginalDirectory. Both directories are checked
    (source first) before a missing source ends the action; then every file
    directly inside the source whose name is `<folder>_<file>` moves to
    `original/<folder>/<file>`, after the guard has admitted
    `original/<folder>`, provided that folder exists (it is never created).
   */
  method MoveFilesBackToOriginalDirectory(fs: FileSystem, env: Env, sourceDirectory: string, originalDirectory: string)
    returns (r: Result<()>)
    requires fs.Valid() && env.Valid()
    modifies fs
    ensures fs.Valid() && fs.dirs == old(fs.dirs)
    ensures !Authorized(env, sourceDirectory) ==>
      r == Err(IsFilePathValid(env, sourceDirectory).error) && fs.files == old(fs.files)
    ensures Authorized(env, sourceDirectory) && !Authorized(env, originalDirectory) ==>
      r == Err(IsFilePathValid(env, originalDirectory).error) && fs.files == old(fs.files)
    ensures Authorized(env, sourceDirectory) && Authorized(env, originalDirectory) && Resolve(env.cwd, sourceDirectory) !in old(fs.dirs) ==>
      r == Ok(()) && fs.files == old(fs.files)
    ensures Authorized(env, sourceDirectory) && Authorized(env, originalDirectory) && Resolve(env.cwd, sourceDirectory) in old(fs.dirs) ==>
      var source := Resolve(env.cwd, sourceDirectory);
      var all := GatherMoves(env, old(fs.State()), source, originalDirectory);
      && (r.Ok? ==> Relocated(old(fs.files), fs.files, all))
      && (r.Ok? ==> forall p | p in old(fs.files) && IsChildOf(p, source) && IsEncoded(p) ::
            Authorized(env, OriginalFolderPath(originalDirectory, p)))
      && (r.Ok? ==> forall p | p in all :: Authorized(env, OriginalFilePath(originalDirectory, p)))
      && (r.Err? ==> r.error == UnauthorizedAccess || r.error == IO)
      && (r.Err? ==> exists done :: IsPartOf(done, all) && Relocated(old(fs.files), fs.files, done))
      && (GatherCanSucceed(env, old(fs.State()), source, originalDirectory) ==> r.Ok?)
  {
    var sourceValid := IsFilePathValid(env, sourceDirectory);
    if sourceValid.Err? {
      return Err(sourceValid.error);
    }
    var originalValid := IsFilePathValid(env, originalDirectory);
    if originalValid.Err? {
      return Err(originalValid.error);
    }
    var source := Resolve(env.cwd, sourceDirectory);
    if !fs.DirectoryExists(source) {
      // "Source directory does not exist."
      return Ok(());
    }
    var listed := fs.FilesIn(source);
    r := GatherListed(fs, env, originalDirectory, listed, source, GatherMoves(env, fs.State(), source, originalDirectory));
  }

  // ---------------------------------------------------------------------------
  // Scatter then gather

  /**
    Gather sends a scattered file back where it came from, provided the name
    of its folder holds no underscore: the original folder path resolves to
    that folder and the original file path to the file itself.
   */
  lemma GatherUndoesScatterPath(env: Env, sourceDirectory: string, target: Path, p: Path)
    requires env.Valid() && IsValidPath(sourceDirectory)
    requires IsFull(p) && InSubfolder(p, Resolve(env.cwd, sourceDirectory))
    requires Underscore !in p[|p| - 2]
    ensures IsEncoded(ScatterDestination(target, p))
    ensures IsValidPath(OriginalFolderPath(sourceDirectory, ScatterDestination(target, p)))
    ensures IsValidPath(OriginalFilePath(sourceDirectory, ScatterDestination(target, p)))
    ensures Resolve(env.cwd, OriginalFolderPath(sourceDirectory, ScatterDestination(target, p))) == Parent(p)
    ensures Resolve(env.cwd, OriginalFilePath(sourceDirectory, ScatterDestination(target, p))) == p
  {
    ScatteredNameDecodes(sourceDirectory, target, p);
    CombineTwice(env.cwd, sourceDirectory, p[|p| - 2], p[|p| - 1]);
    SubfolderFileNames(p, Resolve(env.cwd, sourceDirectory));
  }

  /** A file of a subfolder of `source` is `source`, then its folder's name, then its own. */
  lemma SubfolderFileNames(p: Path, source: Path)
    requires InSubfolder(p, source)
    ensures Parent(p) == source + [p[|p| - 2]]
    ensures p == source + [p[|p| - 2]] + [p[|p| - 1]]
  {
    assert Parent(p) + [p[|p| - 1]] == p;
  }

  /** Combining a folder name and then a file name onto a directory walks down those two names. */
  lemma CombineTwice(cwd: Path, dir: string, folderName: string, fileName: string)
    requires IsFull(cwd) && IsValidPath(dir) && IsName(folderName) && IsName(fileName)
    ensures IsValidPath(Combine(dir, folderName)) && IsValidPath(Combine(Combine(dir, folderName), fileName))
    ensures Resolve(cwd, Combine(dir, folderName)) == Resolve(cwd, dir) + [folderName]
    ensures Resolve(cwd, Combine(Combine(dir, folderName), fileName)) == Resolve(cwd, dir) + [folderName] + [fileName]
  {
    ResolveCombine(cwd, dir, folderName);
    ResolveCombine(cwd, Combine(dir, folderName), fileName);
  }

  /** The name scatter gives `p` decodes to its folder and file names, so gather's paths combine those names. */
  lemma ScatteredNameDecodes(originalDirectory: string, target: Path, p: Path)
    requires |p| >= 2 && p[|p| - 2] != "" && Underscore !in p[|p| - 2]
    ensures IsEncoded(ScatterDestination(target, p))
    ensures OriginalFolderPath(originalDirectory, ScatterDestination(target, p)) == Combine(originalDirectory, p[|p| - 2])
    ensures OriginalFilePath(originalDirectory, ScatterDestination(target, p)) ==
      Combine(Combine(originalDirectory, p[|p| - 2]), p[|p| - 1])
  {
    var d := ScatterDestination(target, p);
    DecodeEncode(p[|p| - 2], p[|p| - 1]);
    assert d[|d| - 1] == EncodeName(p[|p| - 2], p[|p| - 1]);
  }

  /** The guard, admitting the original directory, admits the way back of every file scatter moved out of it from a subfolder whose name holds no underscore. */
  lemma ScatteredFileGatherable(env: Env, sourceDirectory: string, target: Path, p: Path)
    requires env.Valid() && Authorized(env, sourceDirectory)
    requires IsFull(p) && InSubfolder(p, Resolve(env.cwd, sourceDirectory))
    requires Underscore !in p[|p| - 2]
    ensures IsEncoded(ScatterDestination(target, p))
    ensures Authorized(env, OriginalFolderPath(sourceDirectory, ScatterDestination(target, p)))
    ensures Authorized(env, OriginalFilePath(sourceDirectory, ScatterDestination(target, p)))
  {
    var d := ScatterDestination(target, p);
    GatherUndoesScatterPath(env, sourceDirectory, target, p);
    DecodeEncode(p[|p| - 2], p[|p| - 1]);
    GuardAdmitsCombinedName(env, sourceDirectory, p[|p| - 2]);
    GuardAdmitsCombinedName(env, OriginalFolderPath(sourceDirectory, d), p[|p| - 1]);
  }

  /** A relocation followed by one that sends every moved file back restores the files exactly. */
  lemma RelocatedUndone(a: map<Path, Bytes>, b: map<Path, Bytes>, c: map<Path, Bytes>,
                        there: map<Path, Path>, back: map<Path, Path>)
    requires Relocated(a, b, there)
    requires back.Keys == there.Values && forall p | p in there :: back[there[p]] == p
    requires Relocated(b, c, back)
    ensures c == a
  {
    assert back.Values == there.Keys by {
      forall x | x in back.Values ensures x in there.Keys {
        var d :| d in back && back[d] == x;
        var p :| p in there && there[p] == d;
      }
      forall p | p in there ensures p in back.Values {
        assert back[there[p]] == p;
      }
    }
    assert c.Keys == a.Keys;
    forall f | f in a ensures c[f] == a[f] {
      if f in there {
        assert c[back[there[f]]] == b[there[f]];
      } else {
        assert f !in back;
      }
    }
  }

  /** A file scatter moved out of `source` sits in `target` where gather picks it up and sends it back. */
  lemma ScatteredFileIsGathered(env: Env, before: Snapshot, dirs: set<Path>, scattered: map<Path, Bytes>,
                                sourceDirectory: string, target: Path, p: Path)
    requires env.Valid() && WellFormed(before) && before.dirs <= dirs && IsValidPath(sourceDirectory)
    requires p in before.files && InSubfolder(p, Resolve(env.cwd, sourceDirectory)) && Underscore !in p[|p| - 2]
    requires ScatterDestination(target, p) in scattered
    ensures ScatterDestination(target, p) in GatherMoves(env, Snapshot(dirs, scattered), target, sourceDirectory)
    ensures GatherMoves(env, Snapshot(dirs, scattered), target, sourceDirectory)[ScatterDestination(target, p)] == p
  {
    GatherUndoesScatterPath(env, sourceDirectory, target, p);
    assert Parent(p) in before.dirs;
  }

  /** Every file gather would move from `target` after the scatter is one scatter put there. */
  lemma GatheredFileWasScattered(before: map<Path, Bytes>, scattered: map<Path, Bytes>, there: map<Path, Path>,
                                 target: Path, d: Path)
    requires Relocated(before, scattered, there)
    requires forall f | f in before :: !IsChildOf(f, target)
    requires d in scattered && IsChildOf(d, target)
    ensures d in there.Values
  {
  }

  /** After a scatter, each file it moved is one gather moves back. */
  lemma GatherReversesEachMove(env: Env, before: Snapshot, dirs: set<Path>, scattered: map<Path, Bytes>,
                               sourceDirectory: string, target: Path, there: map<Path, Path>, back: map<Path, Path>)
    requires env.Valid() && WellFormed(before) && before.dirs <= dirs && IsValidPath(sourceDirectory)
    requires forall p | p in there :: p in before.files && InSubfolder(p, Resolve(env.cwd, sourceDirectory))
    requires forall p | p in there :: |p| >= 2 && Underscore !in p[|p| - 2] && there[p] == ScatterDestination(target, p)
    requires there.Values <= scattered.Keys
    requires back == GatherMoves(env, Snapshot(dirs, scattered), target, sourceDirectory)
    ensures forall p | p in there :: there[p] in back && back[there[p]] == p
  {
    forall p | p in there
      ensures there[p] in back && back[there[p]] == p
    {
      assert there[p] in scattered;
      ScatteredFileIsGathered(env, before, dirs, scattered, sourceDirectory, target, p);
    }
  }

  /** After a scatter into a target that held no files, gather moves only what scatter put there. */
  lemma GatherMovesOnlyScattered(env: Env, before: Snapshot, dirs: set<Path>, scattered: map<Path, Bytes>,
                                 sourceDirectory: string, target: Path, there: map<Path, Path>, back: map<Path, Path>)
    requires env.Valid()
    requires forall f | f in before.files :: !IsChildOf(f, target)
    requires Relocated(before.files, scattered, there)
    requires back == GatherMoves(env, Snapshot(dirs, scattered), target, sourceDirectory)
    ensures back.Keys <= there.Values
  {
    forall d | d in back ensures d in there.Values {
      GatheredFileWasScattered(before.files, scattered, there, target, d);
    }
  }

  /** What every entry of scatter's batch is: a file of a subfolder of `source` sent to its destination. */
  lemma ScatterMovesShape(files: map<Path, Bytes>, source: Path, target: Path, maxFileSize: int, fileExtensions: string)
    ensures var there := ScatterMoves(files, source, target, maxFileSize, fileExtensions);
      && there.Keys == ScatterSelection(files, source, maxFileSize, fileExtensions)
      && forall p | p in there :: p in files && InSubfolder(p, source) && there[p] == ScatterDestination(target, p)
  {
  }

  /** After such a scatter, gather's moves are exactly scatter's, reversed. */
  lemma GatherReversesScatter(env: Env, before: Snapshot, dirs: set<Path>, scattered: map<Path, Bytes>,
                              sourceDirectory: string, target: Path, there: map<Path, Path>, back: map<Path, Path>)
    requires env.Valid() && WellFormed(before) && before.dirs <= dirs && IsValidPath(sourceDirectory)
    requires forall f | f in before.files :: !IsChildOf(f, target)
    requires forall p | p in there :: p in before.files && InSubfolder(p, Resolve(env.cwd, sourceDirectory))
    requires forall p | p in there :: |p| >= 2 && Underscore !in p[|p| - 2] && there[p] == ScatterDestination(target, p)
    requires Relocated(before.files, scattered, there)
    requires back == GatherMoves(env, Snapshot(dirs, scattered), target, sourceDirectory)
    ensures back.Keys == there.Values && forall p | p in there :: back[there[p]] == p
  {
    GatherReversesEachMove(env, before, dirs, scattered, sourceDirectory, target, there, back);
    GatherMovesOnlyScattered(env, before, dirs, scattered, sourceDirectory, target, there, back);
  }

  /**
    The state a successful scatter leaves: its files relocated by all of
    scatter's moves, and its directories those it started with, plus the
    target and the directories above it when scatter created the target.
   */
  ghost predicate ScatteredState(before: Snapshot, after: Snapshot, source: Path, target: Path,
                                 maxFileSize: int, fileExtensions: string) {
    && Relocated(before.files, after.files, ScatterMoves(before.files, source, target, maxFileSize, fileExtensions))
    && (target in before.dirs || TargetCreatable(before.files, target))
    && after.dirs == before.dirs + (if target in before.dirs || !TargetCreatable(before.files, target) then {} else Ancestors(target))
  }

  /** Scatter's sources are not among the directories it may have created, nor among the files it left. */
  lemma ScatterSourcesFree(before: Snapshot, after: Snapshot, source: Path, target: Path,
                           maxFileSize: int, fileExtensions: string)
    requires WellFormed(before) && !IsChildOf(target, source)
    requires ScatteredState(before, after, source, target, maxFileSize, fileExtensions)
    ensures forall q | q in ScatterMoves(before.files, source, target, maxFileSize, fileExtensions) ::
      q !in after.files && q !in after.dirs
  {
    var there := ScatterMoves(before.files, source, target, maxFileSize, fileExtensions);
    ScatterMovesLeaveSubfolders(before.files, source, target, maxFileSize, fileExtensions);
    forall q | q in there ensures q !in after.files && q !in after.dirs {
      assert q in there.Keys && q !in there.Values;
      assert q !in before.dirs && q != [];
    }
  }

  /**
    After a successful scatter into a target that held no files, with no
    underscore in the name of a subfolder scatter drew from, gathering back
    into the source is sure to go through.
   */
  lemma ScatterLeavesGatherFree(env: Env, before: Snapshot, after: Snapshot, maxFileSize: int, fileExtensions: string,
                                sourceDirectory: string, target: Path)
    requires env.Valid() && WellFormed(before) && Authorized(env, sourceDirectory)
    requires var source := Resolve(env.cwd, sourceDirectory);
      && !IsChildOf(target, source)
      && (forall f | f in before.files :: !IsChildOf(f, target))
      && (forall p | p in ScatterSelection(before.files, source, maxFileSize, fileExtensions) :: Underscore !in p[|p| - 2])
      && ScatteredState(before, after, source, target, maxFileSize, fileExtensions)
    ensures GatherCanSucceed(env, after, target, sourceDirectory)
  {
    var source := Resolve(env.cwd, sourceDirectory);
    var there := ScatterMoves(before.files, source, target, maxFileSize, fileExtensions);
    var back := GatherMoves(env, after, target, sourceDirectory);
    ScatterMovesShape(before.files, source, target, maxFileSize, fileExtensions);
    GatherReversesScatter(env, before, after.dirs, after.files, sourceDirectory, target, there, back);
    ScatterSourcesFree(before, after, source, target, maxFileSize, fileExtensions);
    forall d | d in there.Values
      ensures IsEncoded(d)
      ensures Authorized(env, OriginalFolderPath(sourceDirectory, d))
      ensures Authorized(env, OriginalFilePath(sourceDirectory, d))
    {
      var q :| q in there && there[q] == d;
      ScatteredFileGatherable(env, sourceDirectory, target, q);
    }
    forall p | p in after.files && IsChildOf(p, target) && IsEncoded(p)
      ensures Authorized(env, OriginalFolderPath(sourceDirectory, p))
    {
      GatheredFileWasScattered(before.files, after.files, there, target, p);
    }
    forall d1, d2 | d1 in back && d2 in back && d1 != d2 ensures back[d1] != back[d2] {
      var q1 :| q1 in there && there[q1] == d1;
      var q2 :| q2 in there && there[q2] == d2;
    }
    forall d | d in back ensures back[d] !in after.files && back[d] !in after.dirs {
      var q :| q in there && there[q] == d;
    }
  }

  /**
    Gather undoes any relocation that sent files of subfolders of the
    original directory, none with an underscore in its folder name, to their
    scatter destinations in a target that held no files before.
   */
  lemma GatherUndoesRelocation(env: Env, before: Snapshot, dirs: set<Path>, scattered: map<Path, Bytes>,
                               gathered: map<Path, Bytes>, sourceDirectory: string, target: Path,
                               there: map<Path, Path>)
    requires env.Valid() && WellFormed(before) && before.dirs <= dirs && IsValidPath(sourceDirectory)
    requires forall f | f in before.files :: !IsChildOf(f, target)
    requires forall p | p in there :: p in before.files && InSubfolder(p, Resolve(env.cwd, sourceDirectory))
    requires forall p | p in there :: |p| >= 2 && Underscore !in p[|p| - 2] && there[p] == ScatterDestination(target, p)
    requires Relocated(before.files, scattered, there)
    requires Relocated(scattered, gathered, GatherMoves(env, Snapshot(dirs, scattered), target, sourceDirectory))
    ensures gathered == before.files
  {
    var back := GatherMoves(env, Snapshot(dirs, scattered), target, sourceDirectory);
    GatherReversesScatter(env, before, dirs, scattered, sourceDirectory, target, there, back);
    RelocatedUndone(before.files, scattered, gathered, there, back);
  }

  /**
    Gathering right after a scatter undoes it: if the target held no files
    of its own and no subfolder that scatter drew from has an underscore in
    its name, gather's moves send each scattered file back to where it was,
    so a gather that succeeds restores the files exactly.
   */
  lemma ScatterGatherRoundTrip(env: Env, before: Snapshot, dirs: set<Path>, scattered: map<Path, Bytes>,
                               gathered: map<Path, Bytes>, maxFileSize: int, fileExtensions: string,
                               sourceDirectory: string, targetDirectory: string)
    requires env.Valid() && WellFormed(before) && before.dirs <= dirs
    requires IsValidPath(sourceDirectory) && IsValidPath(targetDirectory)
    requires var source, target := Resolve(env.cwd, sourceDirectory), Resolve(env.cwd, targetDirectory);
      && (forall f | f in before.files :: !IsChildOf(f, target))
      && (forall p | p in ScatterSelection(before.files, source, maxFileSize, fileExtensions) :: Underscore !in p[|p| - 2])
      && Relocated(before.files, scattered, ScatterMoves(before.files, source, target, maxFileSize, fileExtensions))
      && Relocated(scattered, gathered, GatherMoves(env, Snapshot(dirs, scattered), target, sourceDirectory))
    ensures gathered == before.files
  {
    var source, target := Resolve(env.cwd, sourceDirectory), Resolve(env.cwd, targetDirectory);
    ScatterMovesShape(before.files, source, target, maxFileSize, fileExtensions);
    GatherUndoesRelocation(env, before, dirs, scattered, gathered, sourceDirectory, target,
                           ScatterMoves(before.files, source, target, maxFileSize, fileExtensions));
  }

  /**
    Each file on its own: a file scatter moved out of a subfolder whose name
    holds no underscore is back in place with its bytes once gather's moves
    are made, whatever the other subfolders are called and whatever the
    target held before.
   */
  lemma ScatteredFileRestored(env: Env, before: Snapshot, dirs: set<Path>, scattered: map<Path, Bytes>,
                              gathered: map<Path, Bytes>, maxFileSize: int, fileExtensions: string,
                              sourceDirectory: string, target: Path, p: Path)
    requires env.Valid() && WellFormed(before) && before.dirs <= dirs && IsValidPath(sourceDirectory)
    requires var source := Resolve(env.cwd, sourceDirectory);
      && p in ScatterSelection(before.files, source, maxFileSize, fileExtensions) && Underscore !in p[|p| - 2]
      && Relocated(before.files, scattered, ScatterMoves(before.files, source, target, maxFileSize, fileExtensions))
    requires Relocated(scattered, gathered, GatherMoves(env, Snapshot(dirs, scattered), target, sourceDirectory))
    ensures p in gathered && gathered[p] == before.files[p]
  {
    var source := Resolve(env.cwd, sourceDirectory);
    var there := ScatterMoves(before.files, source, target, maxFileSize, fileExtensions);
    ScatterMovesShape(before.files, source, target, maxFileSize, fileExtensions);
    assert there[p] in scattered && scattered[there[p]] == before.files[p];
    ScatteredFileIsGathered(env, before, dirs, scattered, sourceDirectory, target, p);
  }

  /** Scatter selects files only when its source directory exists. */
  lemma SelectionNeedsSource(s: Snapshot, source: Path, maxFileSize: int, fileExtensions: string)
    requires WellFormed(s)
    ensures forall p | p in ScatterSelection(s.files, source, maxFileSize, fileExtensions) :: source in s.dirs
  {
    SelectionInFolders(s, source, maxFileSize, fileExtensions);
    forall p | p in ScatterSelection(s.files, source, maxFileSize, fileExtensions) ensures source in s.dirs {
      assert Parent(p[..|source| + 1]) == source;
    }
  }

  /** Gather from a directory that holds no files moves nothing, so it is sure to go through. */
  lemma NothingToGather(env: Env, s: Snapshot, source: Path, originalDirectory: string)
    requires env.Valid()
    requires forall f | f in s.files :: !IsChildOf(f, source)
    ensures GatherCanSucceed(env, s, source, originalDirectory)
    ensures GatherMoves(env, s, source, originalDirectory) == map[]
  {
  }

  /** A relocation that moves nothing leaves the files as they were. */
  lemma RelocatedNothingUnchanged(before: map<Path, Bytes>, after: map<Path, Bytes>)
    requires Relocated(before, after, map[])
    ensures after == before
  {
  }

  /**
    Scatter from `sourceDirectory` into `targetDirectory`, then gather from
    `targetDirectory` back into `sourceDirectory`. Whenever scatter goes
    through, the guard admits the target, the target held no files and is
    not itself an immediate subfolder of the source, and no subfolder that
    scatter drew from has an underscore in its name, gather goes through
    too and every file is back where it was, with its contents. File by
    file, whenever both go through and the target is not an immediate
    subfolder of the source, every file scatter moved out of a subfolder
    whose name holds no underscore is back where it was, with its contents.
   */
  method ScatterThenGather(fs: FileSystem, env: Env, maxFileSize: int, fileExtensions: string,
                           sourceDirectory: string, targetDirectory: string)
    returns (scattered: Result<()>, gathered: Result<()>)
    requires fs.Valid() && env.Valid()
    modifies fs
    ensures fs.Valid()
    ensures Authorized(env, sourceDirectory) && Authorized(env, targetDirectory) ==>
      var source, target := Resolve(env.cwd, sourceDirectory), Resolve(env.cwd, targetDirectory);
      (&& scattered.Ok?
       && !IsChildOf(target, source)
       && (forall f | f in old(fs.files) :: !IsChildOf(f, target))
       && (forall p | p in ScatterSelection(old(fs.files), source, maxFileSize, fileExtensions) :: Underscore !in p[|p| - 2]))
      ==> gathered.Ok? && fs.files == old(fs.files)
    ensures Authorized(env, sourceDirectory) && Authorized(env, targetDirectory) ==>
      var source, target := Resolve(env.cwd, sourceDirectory), Resolve(env.cwd, targetDirectory);
      scattered.Ok? && gathered.Ok? && !IsChildOf(target, source) ==>
        forall p | p in ScatterSelection(old(fs.files), source, maxFileSize, fileExtensions) && Underscore !in p[|p| - 2] ::
          p in fs.files && fs.files[p] == old(fs.files)[p]
  {
    ghost var before := fs.State();
    scattered := MoveFilesIntoTargetDirectory(fs, env, maxFileSize, fileExtensions, sourceDirectory, targetDirectory);
    ghost var mid := fs.State();
    gathered := MoveFilesBackToOriginalDirectory(fs, env, targetDirectory, sourceDirectory);
    if Authorized(env, sourceDirectory) && Authorized(env, targetDirectory) {
      var source, target := Resolve(env.cwd, sourceDirectory), Resolve(env.cwd, targetDirectory);
      SelectionNeedsSource(before, source, maxFileSize, fileExtensions);
      if scattered.Ok? && gathered.Ok? && !IsChildOf(target, source) && source in before.dirs {
        forall p | p in ScatterSelection(before.files, source, maxFileSize, fileExtensions) && Underscore !in p[|p| - 2]
          ensures p in fs.files && fs.files[p] == before.files[p]
        {
          ScatteredFileRestored(env, before, mid.dirs, mid.files, fs.files, maxFileSize, fileExtensions,
                                sourceDirectory, target, p);
        }
      }
      if scattered.Ok? && !IsChildOf(target, source)
         && (forall f | f in before.files :: !IsChildOf(f, target))
         && (forall p | p in ScatterSelection(before.files, source, maxFileSize, fileExtensions) :: Underscore !in p[|p| - 2])
      {
        if source in before.dirs {
          ScatterLeavesGatherFree(env, before, mid, maxFileSize, fileExtensions, sourceDirectory, target);
          ScatterGatherRoundTrip(env, before, mid.dirs, mid.files, fs.files, maxFileSize, fileExtensions,
                                 sourceDirectory, targetDirectory);
        } else {
          NothingToGather(env, mid, target, sourceDirectory);
          if target in mid.dirs {
            RelocatedNothingUnchanged(mid.files, fs.files);
          }
        }
      }
    }
  }
}
