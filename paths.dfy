/**
  Paths as .NET sees them on a Unix host: caller-supplied paths are strings,
  Path.GetFullPath resolves them against the current directory into a
  location (a sequence of plain names), and renders that location back as a
  string. Path.Combine joins a directory string and a name.
 */
module Paths {
  import opened Results

  /** A resolved location: the names from the file-system root downwards. */
  type Path = seq<string>

  const Separator: char := '/'

  /** A name a directory entry can have: not empty, not "." or "..", no separator, no NUL. */
  predicate IsName(s: string) {
    s != "" && s != "." && s != ".." && Separator !in s && '\0' !in s
  }

  /** A location made of entry names only (what GetFullPath produces). */
  predicate IsFull(p: Path) {
    forall i | 0 <= i < |p| :: IsName(p[i])
  }

  function Parent(p: Path): Path
    requires p != []
  {
    p[..|p| - 1]
  }

  /** `p` is an entry directly inside the directory `dir`. */
  predicate IsChildOf(p: Path, dir: Path) {
    |p| == |dir| + 1 && p[..|dir|] == dir
  }

  lemma ConcatAssoc<T>(a: seq<T>, b: seq<T>, c: seq<T>)
    ensures a + b + c == a + (b + c)
  {
  }

  // ---------------------------------------------------------------------------
  // Splitting a path string at its separators

  /** The pieces of `s` between separators; "" pieces come from leading, doubled or trailing separators. */
  function Split(s: string): (parts: seq<string>)
    ensures |parts| >= 1
    ensures forall i | 0 <= i < |parts| :: Separator !in parts[i]
    ensures forall i | 0 <= i < |parts| :: forall c | c in parts[i] :: c in s
    decreases |s|
  {
    if s == [] then [""]
    else if s[0] == Separator then [""] + Split(s[1..])
    else
      var rest := Split(s[1..]);
      [[s[0]] + rest[0]] + rest[1..]
  }

  lemma SplitNoSeparator(s: string)
    requires Separator !in s
    ensures Split(s) == [s]
    decreases |s|
  {
    if s != [] {
      SplitNoSeparator(s[1..]);
      assert [s[0]] + s[1..] == s;
    }
  }

  /** Splitting at a separator splits the two sides independently. */
  lemma {:induction false} SplitAppend(a: string, b: string)
    ensures Split(a + [Separator] + b) == Split(a) + Split(b)
    decreases |a|
  {
    if a == [] {
      assert a + [Separator] + b == [Separator] + b;
      assert ([Separator] + b)[1..] == b;
    } else {
      assert (a + [Separator] + b)[1..] == a[1..] + [Separator] + b;
      SplitAppend(a[1..], b);
    }
  }

  // ---------------------------------------------------------------------------
  // Path.GetFullPath

  /** Path.GetFullPath throws ArgumentException on an empty path or one holding NUL. */
  predicate IsValidPath(p: string) {
    p != "" && '\0' !in p
  }

  predicate IsRooted(p: string) {
    p != "" && p[0] == Separator
  }

  predicate EndsWithSeparator(p: string) {
    p != "" && p[|p| - 1] == Separator
  }

  /** One segment of normalisation: "" and "." stay put, ".." climbs (never above "/"), a name descends. */
  function Step(at: Path, seg: string): Path {
    if seg == "" || seg == "." then at
    else if seg == ".." then (if at == [] then [] else Parent(at))
    else at + [seg]
  }

  /** Walks the segments `segs` from `base`, left to right. */
  function Normalize(base: Path, segs: seq<string>): Path
    decreases |segs|
  {
    if segs == [] then base
    else Step(Normalize(base, segs[..|segs| - 1]), segs[|segs| - 1])
  }

  /** Normalisation only ever produces locations made of names. */
  lemma {:induction false} NormalizeIsFull(base: Path, segs: seq<string>)
    requires IsFull(base)
    requires forall i | 0 <= i < |segs| :: Separator !in segs[i] && '\0' !in segs[i]
    ensures IsFull(Normalize(base, segs))
    decreases |segs|
  {
    if segs != [] {
      NormalizeIsFull(base, segs[..|segs| - 1]);
    }
  }

  /** The location a valid path string names, relative paths being taken from `cwd`. */
  function Resolve(cwd: Path, p: string): (r: Path)
    requires IsFull(cwd) && IsValidPath(p)
    ensures IsFull(r)
  {
    NormalizeIsFull(if IsRooted(p) then [] else cwd, Split(p));
    Normalize(if IsRooted(p) then [] else cwd, Split(p))
  }

  /** "/a/b" for ["a", "b"]: a separator before each name. */
  function Join(p: Path): string {
    if p == [] then "" else Join(Parent(p)) + [Separator] + p[|p| - 1]
  }

  /** The string GetFullPath returns for location `p`; a trailing separator of the input is kept. */
  function Render(p: Path, trailing: bool): string {
    if p == [] then [Separator] else Join(p) + (if trailing then [Separator] else "")
  }

  /** Path.GetFullPath(p) */
  function GetFullPath(cwd: Path, p: string): (r: Result<string>)
    requires IsFull(cwd)
    ensures r.Err? <==> !IsValidPath(p)
  {
    if !IsValidPath(p) then Err(Argument)
    else Ok(Render(Resolve(cwd, p), EndsWithSeparator(p)))
  }

  /** None of the names holds a separator (true of every location, and of every location folded to lower case). */
  predicate NoSeparators(p: Path) {
    forall i | 0 <= i < |p| :: Separator !in p[i]
  }

  /** Splitting a rendered location gives back its names, after the "" before the leading separator. */
  lemma {:induction false} SplitJoin(p: Path)
    requires NoSeparators(p)
    ensures Split(Join(p)) == [""] + p
  {
    if p != [] {
      SplitJoin(Parent(p));
      SplitAppend(Join(Parent(p)), p[|p| - 1]);
      SplitNoSeparator(p[|p| - 1]);
      assert Parent(p) + [p[|p| - 1]] == p;
    }
  }

  lemma {:induction false} JoinAppend(p: Path, q: Path)
    ensures Join(p + q) == Join(p) + Join(q)
    decreases |q|
  {
    if q != [] {
      assert Parent(p + q) == p + Parent(q);
      JoinAppend(p, Parent(q));
      assert (p + q)[|p + q| - 1] == q[|q| - 1];
      calc {
        Join(p + q);
        Join(p + Parent(q)) + [Separator] + q[|q| - 1];
        Join(p) + Join(Parent(q)) + [Separator] + q[|q| - 1];
        Join(p) + (Join(Parent(q)) + [Separator] + q[|q| - 1]);
      }
    } else {
      assert p + q == p;
    }
  }

  // ---------------------------------------------------------------------------
  // Path.Combine

  /** Path.Combine(a, b) for non-null arguments. */
  function Combine(a: string, b: string): string {
    if IsRooted(b) || a == "" then b
    else if b == "" then a
    else if EndsWithSeparator(a) then a + b
    else a + [Separator] + b
  }

  /** Normalising one more segment takes one more step. */
  lemma NormalizeSnoc(base: Path, segs: seq<string>, seg: string)
    ensures Normalize(base, segs + [seg]) == Step(Normalize(base, segs), seg)
  {
    assert (segs + [seg])[..|segs|] == segs;
  }

  /** Resolving `a + "/" + seg` walks `seg` from where `a` leads. */
  lemma ResolveAppendSegment(cwd: Path, a: string, seg: string)
    requires IsFull(cwd) && IsValidPath(a)
    requires seg != "" && Separator !in seg && '\0' !in seg
    ensures IsValidPath(a + [Separator] + seg)
    ensures Resolve(cwd, a + [Separator] + seg) == Step(Resolve(cwd, a), seg)
  {
    var c := a + [Separator] + seg;
    assert c[0] == a[0];
    SplitNoSeparator(seg);
    SplitAppend(a, seg);
    NormalizeSnoc(if IsRooted(a) then [] else cwd, Split(a), seg);
  }

  /** A trailing separator does not change where a path leads. */
  lemma ResolveTrailingSeparator(cwd: Path, a: string)
    requires IsFull(cwd) && IsValidPath(a + [Separator])
    requires a != ""
    ensures IsValidPath(a)
    ensures Resolve(cwd, a + [Separator]) == Resolve(cwd, a)
  {
    assert (a + [Separator])[0] == a[0];
    assert a + [Separator] == a + [Separator] + "";
    SplitNoSeparator("");
    SplitAppend(a, "");
    NormalizeSnoc(if IsRooted(a) then [] else cwd, Split(a), "");
  }

  /** From "/" a segment leads to the entry of that name at the top. */
  lemma ResolveRootSegment(cwd: Path, seg: string)
    requires IsFull(cwd)
    requires seg != "" && Separator !in seg && '\0' !in seg
    ensures Resolve(cwd, [Separator]) == []
    ensures Resolve(cwd, [Separator] + seg) == Step([], seg)
  {
    assert [Separator] == "" + [Separator] + "";
    assert [Separator] + seg == "" + [Separator] + seg;
    SplitNoSeparator("");
    SplitNoSeparator(seg);
    SplitAppend("", "");
    SplitAppend("", seg);
    NormalizeSnoc([], [], "");
    NormalizeSnoc([], [""], "");
    NormalizeSnoc([], [""], seg);
  }

  /** Combining a valid directory path with a separator-free segment walks one more step from it. */
  lemma ResolveCombine(cwd: Path, a: string, seg: string)
    requires IsFull(cwd) && IsValidPath(a)
    requires seg != "" && Separator !in seg && '\0' !in seg
    ensures IsValidPath(Combine(a, seg))
    ensures !EndsWithSeparator(Combine(a, seg))
    ensures Resolve(cwd, Combine(a, seg)) == Step(Resolve(cwd, a), seg)
  {
    if EndsWithSeparator(a) {
      var a' := a[..|a| - 1];
      if a' == "" {
        assert a == [Separator];
        ResolveRootSegment(cwd, seg);
      } else {
        assert a == a' + [Separator];
        assert Combine(a, seg) == a' + [Separator] + seg;
        ResolveTrailingSeparator(cwd, a');
        ResolveAppendSegment(cwd, a', seg);
      }
    } else {
      ResolveAppendSegment(cwd, a, seg);
    }
  }
}
