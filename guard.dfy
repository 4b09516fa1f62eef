/**
  The path guard of BulkActions: IsPathWithinRootDirectory and IsFilePathValid.
  Both paths are made absolute with GetFullPath, and the candidate must start
  with the root as a plain string, ignoring case. The application root,
  which the program reads from AppDomain.CurrentDomain.BaseDirectory, is a
  field of `Env` here, beside the working directory GetFullPath resolves
  relative paths against.
 */
module Guard {
  import opened Results
  import opened Text
  import opened Paths

  /** The process-wide facts the guard depends on. */
  datatype Env = Env(root: string, cwd: Path) {
    predicate Valid() {
      IsFull(cwd)
    }
  }

  /** BulkActions.IsPathWithinRootDirectory: Ok(b), or the ArgumentException GetFullPath throws. */
  function IsPathWithinRootDirectory(cwd: Path, rootDirectory: string, targetPath: string): (r: Result<bool>)
    requires IsFull(cwd)
    ensures r.Err? <==> !IsValidPath(targetPath) || !IsValidPath(rootDirectory)
    ensures r.Err? ==> r.error == Argument
  {
    match GetFullPath(cwd, targetPath)
    case Err(e) => Err(e)
    case Ok(fullPath) =>
      match GetFullPath(cwd, rootDirectory)
      case Err(e) => Err(e)
      case Ok(rootFullPath) => Ok(StartsWithIgnoreCase(fullPath, rootFullPath))
  }

  /** The guard lets `p` through. */
  predicate Authorized(env: Env, p: string)
    requires env.Valid()
  {
    IsPathWithinRootDirectory(env.cwd, env.root, p) == Ok(true)
  }

  /** BulkActions.IsFilePathValid: true, or an exception; it never answers false. */
  function IsFilePathValid(env: Env, filePath: string): (r: Result<bool>)
    requires env.Valid()
    ensures r != Ok(false)
    ensures r.Ok? <==> Authorized(env, filePath)
    ensures IsPathWithinRootDirectory(env.cwd, env.root, filePath) == Ok(false) ==> r == Err(UnauthorizedAccess)
    ensures !IsValidPath(filePath) ==> r == Err(Argument)
  {
    match IsPathWithinRootDirectory(env.cwd, env.root, filePath)
    case Err(e) => Err(e)
    case Ok(within) => if within then Ok(true) else Err(UnauthorizedAccess)
  }

  // ---------------------------------------------------------------------------
  // What the string-prefix test means for locations

  /** `p` lies at or beneath `dir`, comparing names without regard to case. */
  predicate IsBeneathIgnoringCase(p: Path, dir: Path) {
    |dir| <= |p| && forall i | 0 <= i < |dir| :: EqualsIgnoreCase(p[i], dir[i])
  }

  function FoldPath(p: Path): Path {
    seq(|p|, i requires 0 <= i < |p| => FoldStr(p[i]))
  }

  lemma FoldStrNoSeparator(s: string)
    requires Separator !in s
    ensures Separator !in FoldStr(s)
  {
    forall i | 0 <= i < |s| ensures FoldStr(s)[i] != Separator {
      FoldKeepsNonLetter(s[i], Separator);
    }
  }

  lemma {:induction false} FoldJoin(p: Path)
    ensures FoldStr(Join(p)) == Join(FoldPath(p))
  {
    if p != [] {
      FoldJoin(Parent(p));
      FoldStrAppend(Join(Parent(p)) + [Separator], p[|p| - 1]);
      FoldStrAppend(Join(Parent(p)), [Separator]);
      assert Parent(FoldPath(p)) == FoldPath(Parent(p));
    }
  }

  /** Splitting a folded rendered location: "", the folded names, and "" after a trailing separator. */
  lemma SplitFoldRender(p: Path, trailing: bool)
    requires NoSeparators(p)
    ensures Split(FoldStr(Render(p, trailing))) == [""] + (FoldPath(p) + (if p == [] || trailing then [""] else []))
  {
    var fp := FoldPath(p);
    forall i | 0 <= i < |fp| ensures Separator !in fp[i] {
      FoldStrNoSeparator(p[i]);
    }
    SplitJoin(fp);
    FoldJoin(p);
    if p == [] {
      assert FoldStr([Separator]) == "" + [Separator] + "";
      SplitAppend("", "");
    } else if trailing {
      FoldStrAppend(Join(p), [Separator]);
      assert FoldStr(Render(p, trailing)) == Join(fp) + [Separator] + "";
      SplitAppend(Join(fp), "");
      ConcatAssoc([""], fp, [""]);
    } else {
      assert Render(p, trailing) == Join(p);
    }
  }

  /** Folding a string that starts with `prefix` up to case: the folded prefix, then the folded rest. */
  lemma FoldAfterPrefix(s: string, prefix: string)
    requires StartsWithIgnoreCase(s, prefix)
    ensures FoldStr(s) == FoldStr(prefix) + FoldStr(s[|prefix|..])
  {
    assert s == s[..|prefix|] + s[|prefix|..];
    FoldStrAppend(s[..|prefix|], s[|prefix|..]);
  }

  /** A folded string that starts with a rendered directory splits into its names and the rest. */
  lemma SplitAfterPrefix(ts: string, r: Path)
    requires NoSeparators(r) && r != []
    requires StartsWithIgnoreCase(ts, Join(r) + [Separator])
    ensures Split(FoldStr(ts)) == [""] + (FoldPath(r) + Split(FoldStr(ts[|Join(r)| + 1..])))
  {
    var j := Join(r);
    var rest := FoldStr(ts[|j| + 1..]);
    FoldAfterPrefix(ts, j + [Separator]);
    FoldStrAppend(j, [Separator]);
    assert FoldStr([Separator]) == [Separator];
    assert |j + [Separator]| == |j| + 1;
    assert FoldStr(ts) == FoldStr(j) + [Separator] + rest;
    SplitAppend(FoldStr(j), rest);
    SplitFoldRender(r, false);
    assert Render(r, false) == j;
    assert Split(FoldStr(j)) == [""] + FoldPath(r);
    ConcatAssoc([""], FoldPath(r), Split(rest));
  }

  /** Equal folded name sequences, the first continuing at least as far: the second lies beneath the first. */
  lemma BeneathFromFolded(r: Path, t: Path, x: seq<string>, y: seq<string>)
    requires FoldPath(r) + x == FoldPath(t) + y
    requires |y| <= |x|
    ensures IsBeneathIgnoringCase(t, r)
  {
    assert |r| + |x| == |t| + |y|;
    forall i | 0 <= i < |r| ensures EqualsIgnoreCase(t[i], r[i]) {
      assert (FoldPath(r) + x)[i] == FoldPath(r)[i];
      assert (FoldPath(t) + y)[i] == FoldPath(t)[i];
    }
  }

  /** The string-level core of confinement: a prefix ending in a separator is a prefix of names. */
  lemma RenderedPrefixIsBeneath(r: Path, t: Path, trailing: bool)
    requires NoSeparators(r) && NoSeparators(t) && r != []
    requires StartsWithIgnoreCase(Render(t, trailing), Render(r, true))
    ensures IsBeneathIgnoringCase(t, r)
  {
    var ts := Render(t, trailing);
    var rest := Split(FoldStr(ts[|Join(r)| + 1..]));
    var e: seq<string> := if t == [] || trailing then [""] else [];
    SplitAfterPrefix(ts, r);
    SplitFoldRender(t, trailing);
    var parts := Split(FoldStr(ts));
    assert parts[1..] == FoldPath(r) + rest;
    assert parts[1..] == FoldPath(t) + e;
    BeneathFromFolded(r, t, rest, e);
  }

  /**
    Confinement: when the root's full path ends with a separator (as the
    application base directory does), every path the guard admits resolves
    to the root or beneath it, up to case. A `..` that climbs out of the
    root is therefore refused.
   */
  lemma GuardConfines(cwd: Path, rootDirectory: string, targetPath: string)
    requires IsFull(cwd)
    requires IsPathWithinRootDirectory(cwd, rootDirectory, targetPath) == Ok(true)
    requires Resolve(cwd, rootDirectory) == [] || EndsWithSeparator(rootDirectory)
    ensures IsBeneathIgnoringCase(Resolve(cwd, targetPath), Resolve(cwd, rootDirectory))
  {
    var r, t := Resolve(cwd, rootDirectory), Resolve(cwd, targetPath);
    if r != [] {
      RenderedPrefixIsBeneath(r, t, EndsWithSeparator(targetPath));
    }
  }

  lemma JoinStartsWithSeparator(p: Path)
    requires p != []
    ensures Join(p) != [] && Join(p)[0] == Separator
  {
    JoinAppend([p[0]], p[1..]);
    assert [p[0]] + p[1..] == p;
    assert Join([p[0]]) == [Separator] + p[0];
  }

  /**
    The guard admits every location beneath the root, and the root itself
    unless the root is written with a trailing separator and the candidate
    without one.
   */
  lemma GuardAdmitsBeneath(cwd: Path, rootDirectory: string, targetPath: string, below: Path)
    requires IsFull(cwd) && IsValidPath(rootDirectory) && IsValidPath(targetPath)
    requires Resolve(cwd, targetPath) == Resolve(cwd, rootDirectory) + below
    requires below != [] || Resolve(cwd, rootDirectory) == [] || !EndsWithSeparator(rootDirectory) || EndsWithSeparator(targetPath)
    ensures IsPathWithinRootDirectory(cwd, rootDirectory, targetPath) == Ok(true)
  {
    var r, t := Resolve(cwd, rootDirectory), Resolve(cwd, targetPath);
    var rs := Render(r, EndsWithSeparator(rootDirectory));
    var ts := Render(t, EndsWithSeparator(targetPath));
    if r == [] {
      if t != [] {
        JoinStartsWithSeparator(t);
      }
      assert rs <= ts;
    } else if below == [] {
      assert t == r;
      assert rs <= ts;
    } else {
      JoinAppend(r, below);
      JoinStartsWithSeparator(below);
      assert rs <= Join(r) + Join(below);
      assert rs <= ts;
    }
    PrefixStartsWithIgnoreCase(ts, rs);
  }

  /** With a trailing separator on the root, the root spelled without one is refused. */
  lemma GuardRefusesRootWithoutSeparator(cwd: Path, rootDirectory: string, targetPath: string)
    requires IsFull(cwd) && IsValidPath(rootDirectory) && IsValidPath(targetPath)
    requires Resolve(cwd, rootDirectory) != [] && EndsWithSeparator(rootDirectory)
    requires Resolve(cwd, targetPath) == Resolve(cwd, rootDirectory) && !EndsWithSeparator(targetPath)
    ensures IsPathWithinRootDirectory(cwd, rootDirectory, targetPath) == Ok(false)
  {
  }

  /**
    The test is on strings, not on path segments: with a root written
    without a trailing separator, a sibling whose name merely starts with the
    root's last name is admitted although it is not beneath the root.
   */
  lemma GuardAdmitsSiblingWithSamePrefix(cwd: Path, rootDirectory: string, targetPath: string, suffix: string, below: Path)
    requires IsFull(cwd) && IsValidPath(rootDirectory) && IsValidPath(targetPath)
    requires Resolve(cwd, rootDirectory) != [] && !EndsWithSeparator(rootDirectory)
    requires suffix != []
    requires var r := Resolve(cwd, rootDirectory);
      Resolve(cwd, targetPath) == Parent(r) + [r[|r| - 1] + suffix] + below
    ensures IsPathWithinRootDirectory(cwd, rootDirectory, targetPath) == Ok(true)
    ensures !IsBeneathIgnoringCase(Resolve(cwd, targetPath), Resolve(cwd, rootDirectory))
  {
    var r, t := Resolve(cwd, rootDirectory), Resolve(cwd, targetPath);
    var name := r[|r| - 1];
    JoinAppend(Parent(r) + [name + suffix], below);
    assert Join(Parent(r) + [name + suffix]) == Join(Parent(r)) + [Separator] + name + suffix;
    assert Render(r, false) == Join(Parent(r)) + [Separator] + name;
    assert Render(r, false) <= Render(t, EndsWithSeparator(targetPath));
    PrefixStartsWithIgnoreCase(Render(t, EndsWithSeparator(targetPath)), Render(r, false));
    assert t[|r| - 1] == name + suffix;
    assert |FoldStr(t[|r| - 1])| != |FoldStr(r[|r| - 1])|;
  }

  /** A directory the guard admits keeps admitting every entry name combined onto it. */
  lemma GuardAdmitsCombinedName(env: Env, dir: string, name: string)
    requires env.Valid() && Authorized(env, dir) && IsName(name)
    ensures IsValidPath(Combine(dir, name))
    ensures Resolve(env.cwd, Combine(dir, name)) == Resolve(env.cwd, dir) + [name]
    ensures Authorized(env, Combine(dir, name))
  {
    var cwd := env.cwd;
    ResolveCombine(cwd, dir, name);
    var d := Resolve(cwd, dir);
    var c := Combine(dir, name);
    var ds := Render(d, EndsWithSeparator(dir));
    var cs := Render(d + [name], false);
    assert Join(d + [name]) == Join(d) + [Separator] + name;
    assert ds <= cs;
    PrefixStartsWithIgnoreCase(cs, ds);
    var rs := Render(Resolve(cwd, env.root), EndsWithSeparator(env.root));
    StartsWithIgnoreCaseTrans(cs, ds, rs);
  }
}
