/**
  BulkActions: the guarded file operation, and what a batch of moves does to
  the files (the vocabulary in which the media bulk actions are specified).
 */
module BulkActions {
  import opened Results
  import opened Paths
  import opened Guard
  import opened Naming
  import opened FileSystems

  // ---------------------------------------------------------------------------
  // PerformFileOperation

  /** The closures handed to PerformFileOperation: Directory.CreateDirectory and File.Move. */
  datatype Action =
    | CreateDirectoryAt(directory: string)
    | MoveFileTo(source: Path, destination: string)

  /** What invoking an action does; the path strings go through GetFullPath first. */
  function ActionEffect(env: Env, s: Snapshot, action: Action): (res: (Result<()>, Snapshot))
    requires env.Valid()
    ensures WellFormed(s) ==> WellFormed(res.1)
    ensures res.0.Err? ==> res.1 == s
    ensures action.CreateDirectoryAt? && !IsValidPath(action.directory) ==> res.0 == Err(Argument)
    ensures action.MoveFileTo? && !IsValidPath(action.destination) ==> res.0 == Err(Argument)
    ensures res.0 == Err(Argument) ==>
      !IsValidPath(if action.CreateDirectoryAt? then action.directory else action.destination)
  {
    match action
    case CreateDirectoryAt(d) =>
      if !IsValidPath(d) then (Err(Argument), s) else CreateDirectoryEffect(s, Resolve(env.cwd, d))
    case MoveFileTo(src, dst) =>
      if !IsValidPath(dst) then (Err(Argument), s) else MoveEffect(s, src, Resolve(env.cwd, dst))
  }

  method Invoke(fs: FileSystem, env: Env, action: Action) returns (r: Result<()>)
    requires fs.Valid() && env.Valid()
    modifies fs
    ensures fs.Valid()
    ensures (r, fs.State()) == ActionEffect(env, old(fs.State()), action)
  {
    match action
    case CreateDirectoryAt(d) =>
      if !IsValidPath(d) {
        r := Err(Argument);
      } else {
        r := fs.CreateDirectory(Resolve(env.cwd, d));
      }
    case MoveFileTo(src, dst) =>
      if !IsValidPath(dst) {
        r := Err(Argument);
      } else {
        r := fs.Move(src, Resolve(env.cwd, dst));
      }
  }

  /**
    BulkActions.PerformFileOperation: the action runs only when the guard
    admits `filePath`; otherwise the exception is thrown and nothing changes.
   */
  method PerformFileOperation(fs: FileSystem, env: Env, filePath: string, action: Action) returns (r: Result<()>)
    requires fs.Valid() && env.Valid()
    modifies fs
    ensures fs.Valid()
    ensures !Authorized(env, filePath) ==> r == Err(IsFilePathValid(env, filePath).error) && fs.State() == old(fs.State())
    ensures Authorized(env, filePath) ==> (r, fs.State()) == ActionEffect(env, old(fs.State()), action)
  {
    match IsPathWithinRootDirectory(env.cwd, env.root, filePath)
    case Err(e) =>
      r := Err(e);
    case Ok(within) =>
      if within {
        r := Invoke(fs, env, action);
      } else {
        r := Err(UnauthorizedAccess);
      }
  }

  // ---------------------------------------------------------------------------
  // Relocation: what a batch of moves does to the files

  /**
    `after` is `before` with each file `p` in `moves` moved to `moves[p]`:
    no two files went to the same place, no file landed on one that stayed,
    and every file not moved kept its place and its bytes.
   */
  ghost predicate Relocated(before: map<Path, Bytes>, after: map<Path, Bytes>, moves: map<Path, Path>) {
    && moves.Keys <= before.Keys
    && (forall p, q | p in moves && q in moves && p != q :: moves[p] != moves[q])
    && moves.Values !! (before.Keys - moves.Keys)
    && after.Keys == (before.Keys - moves.Keys) + moves.Values
    && (forall f | f in before && f !in moves :: after[f] == before[f])
    && (forall p | p in moves :: after[moves[p]] == before[p])
  }

  /** `some` is a part of the batch `all`. */
  ghost predicate IsPartOf(some: map<Path, Path>, all: map<Path, Path>) {
    some.Keys <= all.Keys && forall p | p in some :: some[p] == all[p]
  }

  lemma RelocatedNothing(files: map<Path, Bytes>)
    ensures Relocated(files, files, map[])
  {
  }

  /** Adding an entry to a map adds its value to the map's values. */
  lemma ValuesOfUpdate(moves: map<Path, Path>, p: Path, d: Path)
    requires p !in moves
    ensures moves[p := d].Values == moves.Values + {d}
  {
    var moves' := moves[p := d];
    forall x | x in moves'.Values ensures x in moves.Values + {d} {
      var q :| q in moves' && moves'[q] == x;
      if q != p {
        assert moves[q] == x;
      }
    }
    forall x | x in moves.Values ensures x in moves'.Values {
      var q :| q in moves && moves[q] == x;
      assert moves'[q] == x;
    }
    assert moves'[p] == d;
  }

  /** One more successful File.Move, of a file not moved before, extends a relocation by one entry. */
  lemma RelocatedStep(before: map<Path, Bytes>, mid: map<Path, Bytes>, after: map<Path, Bytes>,
                      moves: map<Path, Path>, p: Path, d: Path)
    requires Relocated(before, mid, moves)
    requires p in before && p !in moves && p in mid && d !in mid
    requires after.Keys == mid.Keys - {p} + {d} && after[d] == mid[p]
    requires forall f | f in mid && f != p :: after[f] == mid[f]
    ensures mid[p] == before[p]
    ensures Relocated(before, after, moves[p := d])
  {
    var moves' := moves[p := d];
    ValuesOfUpdate(moves, p, d);
    assert moves.Values <= mid.Keys;
    assert p !in moves.Values;
    forall q, q' | q in moves' && q' in moves' && q != q'
      ensures moves'[q] != moves'[q']
    {
      if q == p {
        assert moves'[q'] in moves.Values;
      } else if q' == p {
        assert moves'[q] in moves.Values;
      }
    }
    assert after.Keys == (before.Keys - moves'.Keys) + moves'.Values;
    forall q | q in moves' ensures after[moves'[q]] == before[q] {
      if q != p {
        assert moves[q] in mid && moves[q] != p;
      }
    }
  }

  /**
    Every move of the batch can be made in any order: no two files go to the
    same place, and no destination is a file or a directory at the start.
   */
  ghost predicate CollisionFree(s: Snapshot, moves: map<Path, Path>) {
    && (forall p, q | p in moves && q in moves && p != q :: moves[p] != moves[q])
    && (forall p | p in moves :: moves[p] !in s.files && moves[p] !in s.dirs)
  }

  /** Midway through a collision-free batch, a file not yet moved is still there and its destination is still free. */
  lemma DestinationStillFree(s: Snapshot, now: map<Path, Bytes>, moves: map<Path, Path>, all: map<Path, Path>, p: Path)
    requires CollisionFree(s, all) && IsPartOf(moves, all)
    requires Relocated(s.files, now, moves)
    requires p in all && p in s.files && p !in moves
    ensures p in now && all[p] !in now && all[p] !in s.dirs
  {
    forall q | q in moves ensures moves[q] != all[p] {
      assert moves[q] == all[q] && q != p;
    }
  }

  /**
    A batch that went through, with no destination among the files it moved
    and no directory at a place a file ended up, was collision-free.
   */
  lemma RelocationWasCollisionFree(s: Snapshot, after: map<Path, Bytes>, moves: map<Path, Path>)
    requires Relocated(s.files, after, moves)
    requires moves.Values !! moves.Keys
    requires s.dirs !! after.Keys
    ensures CollisionFree(s, moves)
  {
    forall p | p in moves ensures moves[p] !in s.files && moves[p] !in s.dirs {
      assert moves[p] in moves.Values;
    }
  }
}
