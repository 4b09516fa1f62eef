/**
  The file system the bulk actions work on: a set of directories and a map
  from file locations to their bytes. The .NET calls the core makes are
  Directory.Exists, Directory.GetDirectories, Directory.GetFiles,
  Directory.CreateDirectory and the two-argument File.Move; each is given
  here on resolved locations. The `Snapshot` functions define what each
  call does; the `FileSystem` class performs it in place.
 */
module FileSystems {
  import opened Results
  import opened Paths

  type Bytes = seq<bv8>

  /** The whole state of the file system at one moment. */
  datatype Snapshot = Snapshot(dirs: set<Path>, files: map<Path, Bytes>)

  /** A tree: "/" exists, every directory and file sits in an existing directory, and no location is both. */
  predicate WellFormed(s: Snapshot) {
    && [] in s.dirs
    && (forall d | d in s.dirs :: IsFull(d))
    && (forall d | d in s.dirs && d != [] :: Parent(d) in s.dirs)
    && (forall f | f in s.files :: f != [] && IsFull(f) && Parent(f) in s.dirs)
    && s.dirs !! s.files.Keys
  }

  /** `p` and every directory above it. */
  function Ancestors(p: Path): set<Path> {
    set i | 0 <= i <= |p| :: p[..i]
  }

  /**
    Directory.CreateDirectory(p): creates `p` and every missing directory
    above it; throws IOException when one of those locations is a file.
   */
  function CreateDirectoryEffect(s: Snapshot, p: Path): (res: (Result<()>, Snapshot))
    ensures res.0.Ok? <==> forall i | 0 < i <= |p| :: p[..i] !in s.files
    ensures res.0.Err? ==> res.0.error == IO && res.1 == s
    ensures res.0.Ok? ==> p in res.1.dirs && res.1.files == s.files && res.1.dirs == s.dirs + Ancestors(p)
    ensures WellFormed(s) && IsFull(p) ==> WellFormed(res.1)
  {
    if exists i | 0 < i <= |p| :: p[..i] in s.files then (Err(IO), s)
    else
      assert p[..|p|] == p;
      var s' := Snapshot(s.dirs + Ancestors(p), s.files);
      assert forall d | d in Ancestors(p) && d != [] :: Parent(d) in Ancestors(p) by {
        forall d | d in Ancestors(p) && d != [] ensures Parent(d) in Ancestors(p) {
          var i :| 0 <= i <= |p| && d == p[..i];
          assert Parent(d) == p[..i - 1];
        }
      }
      (Ok(()), s')
  }

  /**
    File.Move(src, dst) without overwrite: throws FileNotFoundException when
    there is no file `src`, IOException when `dst` already exists (file or
    directory), and DirectoryNotFoundException when the folder of `dst` is
    missing; otherwise the bytes leave `src` and appear at `dst`.
   */
  function MoveEffect(s: Snapshot, src: Path, dst: Path): (res: (Result<()>, Snapshot))
    ensures res.0.Ok? <==> src in s.files && dst !in s.files && dst !in s.dirs && dst != [] && Parent(dst) in s.dirs
    ensures res.0.Err? ==> res.1 == s
    ensures res.0.Ok? ==> res.1.dirs == s.dirs
    ensures res.0.Ok? ==> res.1.files.Keys == s.files.Keys - {src} + {dst}
    ensures res.0.Ok? ==> res.1.files[dst] == s.files[src]
    ensures res.0.Ok? ==> forall f | f in s.files && f != src :: res.1.files[f] == s.files[f]
    ensures WellFormed(s) && IsFull(dst) ==> WellFormed(res.1)
  {
    if src !in s.files then (Err(FileNotFound), s)
    else if dst in s.files || dst in s.dirs then (Err(IO), s)
    else if dst == [] || Parent(dst) !in s.dirs then (Err(DirectoryNotFound), s)
    else (Ok(()), Snapshot(s.dirs, (s.files - {src})[dst := s.files[src]]))
  }

  /** A mutable file system; its methods are the .NET calls the bulk actions make. */
  class FileSystem {
    var dirs: set<Path>
    var files: map<Path, Bytes>

    function State(): Snapshot
      reads this
    {
      Snapshot(dirs, files)
    }

    ghost predicate Valid()
      reads this
    {
      WellFormed(State())
    }

    /** An empty file system: only "/". */
    constructor ()
      ensures Valid() && dirs == {[]} && files == map[]
    {
      dirs := {[]};
      files := map[];
    }

    /** Directory.Exists on a resolved location. */
    predicate DirectoryExists(p: Path)
      reads this
    {
      p in dirs
    }

    /** Directory.GetDirectories(dir): its immediate subdirectories, in no particular order. */
    function Subdirectories(dir: Path): (ds: set<Path>)
      reads this
      ensures forall d :: d in ds <==> d in dirs && IsChildOf(d, dir)
    {
      set d | d in dirs && IsChildOf(d, dir)
    }

    /** Directory.GetFiles(dir): the files directly inside it, in no particular order. */
    function FilesIn(dir: Path): (fs: set<Path>)
      reads this
      ensures forall f :: f in fs <==> f in files && IsChildOf(f, dir)
    {
      set f | f in files && IsChildOf(f, dir)
    }

    /** Directory.CreateDirectory */
    method CreateDirectory(p: Path) returns (r: Result<()>)
      requires Valid() && IsFull(p)
      modifies this
      ensures Valid()
      ensures (r, State()) == CreateDirectoryEffect(old(State()), p)
    {
      ghost var effect := CreateDirectoryEffect(State(), p);
      if exists i | 0 < i <= |p| :: p[..i] in files {
        r := Err(IO);
      } else {
        dirs := dirs + Ancestors(p);
        r := Ok(());
      }
    }

    /** File.Move(src, dst) */
    method Move(src: Path, dst: Path) returns (r: Result<()>)
      requires Valid() && IsFull(dst)
      modifies this
      ensures Valid()
      ensures (r, State()) == MoveEffect(old(State()), src, dst)
    {
      if src !in files {
        r := Err(FileNotFound);
      } else if dst in files || dst in dirs {
        r := Err(IO);
      } else if dst == [] || Parent(dst) !in dirs {
        r := Err(DirectoryNotFound);
      } else {
        files := (files - {src})[dst := files[src]];
        r := Ok(());
      }
    }
  }
}
