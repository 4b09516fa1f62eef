/**
  The .NET string operations the core relies on: ordinal case-insensitive
  comparison (StartsWith and Contains with StringComparison.OrdinalIgnoreCase),
  IndexOf, LastIndexOf and string.IsNullOrWhiteSpace.
 */
module Text {

  /** Case folding of one character; OrdinalIgnoreCase is abstracted to ASCII letters. */
  function Fold(c: char): char {
    if 'A' <= c <= 'Z' then (c as int + 32) as char else c
  }

  function FoldStr(s: string): string {
    seq(|s|, i requires 0 <= i < |s| => Fold(s[i]))
  }

  /** A character that is not an ASCII letter is folded from itself only. */
  lemma FoldKeepsNonLetter(c: char, d: char)
    requires !('a' <= d <= 'z') && !('A' <= d <= 'Z')
    ensures Fold(c) == d <==> c == d
  {
  }

  lemma FoldStrAppend(a: string, b: string)
    ensures FoldStr(a + b) == FoldStr(a) + FoldStr(b)
  {
    assert forall i | 0 <= i < |a + b| :: FoldStr(a + b)[i] == (FoldStr(a) + FoldStr(b))[i];
  }

  lemma FoldStrSlice(s: string, i: nat, j: nat)
    requires i <= j <= |s|
    ensures FoldStr(s[i..j]) == FoldStr(s)[i..j]
  {
  }

  /** a.Equals(b, StringComparison.OrdinalIgnoreCase) */
  predicate EqualsIgnoreCase(a: string, b: string) {
    FoldStr(a) == FoldStr(b)
  }

  /** s.StartsWith(prefix, StringComparison.OrdinalIgnoreCase) */
  predicate StartsWithIgnoreCase(s: string, prefix: string) {
    |prefix| <= |s| && EqualsIgnoreCase(s[..|prefix|], prefix)
  }

  /** s.Contains(sub, StringComparison.OrdinalIgnoreCase): some position of `s` starts with `sub`. */
  predicate ContainsIgnoreCase(s: string, sub: string)
    decreases |s|
  {
    StartsWithIgnoreCase(s, sub) || (s != [] && ContainsIgnoreCase(s[1..], sub))
  }

  /** The prefix relation up to case is transitive. */
  lemma {:induction false} StartsWithIgnoreCaseTrans(s: string, t: string, u: string)
    requires StartsWithIgnoreCase(s, t) && StartsWithIgnoreCase(t, u)
    ensures StartsWithIgnoreCase(s, u)
  {
    FoldStrSlice(s, 0, |t|);
    FoldStrSlice(s, 0, |u|);
    FoldStrSlice(t, 0, |u|);
    assert FoldStr(s)[..|u|] == FoldStr(s)[..|t|][..|u|];
  }

  /** An exact prefix is a prefix up to case. */
  lemma PrefixStartsWithIgnoreCase(s: string, prefix: string)
    requires prefix <= s
    ensures StartsWithIgnoreCase(s, prefix)
  {
    assert s[..|prefix|] == prefix;
  }

  /** Contains means: at some position i, the rest of `s` starts with `sub`. */
  lemma {:induction false} ContainsIgnoreCaseAt(s: string, sub: string)
    ensures ContainsIgnoreCase(s, sub) <==> exists i :: 0 <= i <= |s| && StartsWithIgnoreCase(s[i..], sub)
    decreases |s|
  {
    if ContainsIgnoreCase(s, sub) {
      if StartsWithIgnoreCase(s, sub) {
        assert s[0..] == s;
      } else {
        ContainsIgnoreCaseAt(s[1..], sub);
        var i :| 0 <= i <= |s[1..]| && StartsWithIgnoreCase(s[1..][i..], sub);
        assert s[1..][i..] == s[i + 1..];
      }
    }
    if exists i :: 0 <= i <= |s| && StartsWithIgnoreCase(s[i..], sub) {
      var i :| 0 <= i <= |s| && StartsWithIgnoreCase(s[i..], sub);
      if i == 0 {
        assert s[0..] == s;
      } else {
        assert s[1..][i - 1..] == s[i..];
        ContainsIgnoreCaseAt(s[1..], sub);
      }
    }
  }

  /** Every string contains the empty string, whatever the case rules. */
  lemma ContainsEmpty(s: string)
    ensures ContainsIgnoreCase(s, "")
  {
  }

  /** s.IndexOf(c): the first position of `c`, or -1. */
  function IndexOf(s: string, c: char): (i: int)
    ensures -1 <= i < |s|
    ensures i == -1 <==> c !in s
    ensures 0 <= i ==> s[i] == c && c !in s[..i]
  {
    if s == [] then -1
    else if s[0] == c then 0
    else
      var j := IndexOf(s[1..], c);
      if j == -1 then -1
      else
        assert s[1..][..j] == s[1..j + 1];
        j + 1
  }

  /** s.LastIndexOf(c): the last position of `c`, or -1. */
  function LastIndexOf(s: string, c: char): (i: int)
    ensures -1 <= i < |s|
    ensures i == -1 <==> c !in s
    ensures 0 <= i ==> s[i] == c && c !in s[i + 1..]
  {
    if s == [] then -1
    else if s[|s| - 1] == c then |s| - 1
    else
      var j := LastIndexOf(s[..|s| - 1], c);
      assert j >= 0 ==> s[..|s| - 1][j + 1..] + [s[|s| - 1]] == s[j + 1..];
      assert s == s[..|s| - 1] + [s[|s| - 1]];
      j
  }

  /** char.IsWhiteSpace, restricted to the Latin-1 white-space characters. */
  predicate IsWhiteSpace(c: char) {
    c == ' ' || '\t' <= c <= '\r' || c == '\U{85}' || c == '\U{A0}'
  }

  /** string.IsNullOrWhiteSpace for a non-null string: empty or white space only. */
  predicate IsNullOrWhiteSpace(s: string) {
    forall i | 0 <= i < |s| :: IsWhiteSpace(s[i])
  }
}
