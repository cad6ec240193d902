/**
 * Host (Windows-style) wildcard matching of file names: '*' stands for any
 * run of characters, '?' for any one character, and letters compare without
 * regard to case. The matcher is the usual two-pointer loop that remembers
 * the last star; it is proved against a recursive definition of the
 * wildcard language.
 */
module FsMatch {
  import Rad50

  /** One pattern character against one name character. */
  predicate CharMatch(pc: char, nc: char)
  {
    pc == '?' || Rad50.ToUpper(pc) == Rad50.ToUpper(nc)
  }

  /** name[i..] is in the language of pattern[j..]. */
  predicate Glob(name: string, pattern: string, i: nat, j: nat)
    requires i <= |name| && j <= |pattern|
    decreases |name| - i + |pattern| - j
  {
    if j == |pattern| then i == |name|
    else if pattern[j] == '*' then
      Glob(name, pattern, i, j + 1) || (i < |name| && Glob(name, pattern, i + 1, j))
    else i < |name| && CharMatch(pattern[j], name[i]) && Glob(name, pattern, i + 1, j + 1)
  }

  predicate GlobMatch(name: string, pattern: string)
  {
    Glob(name, pattern, 0, 0)
  }

  /** A star that matches from one place in the name matches from every earlier place. */
  lemma {:induction false} StarReachesBack(name: string, pattern: string, i: nat, k: nat, j: nat)
    requires i <= k <= |name| && j < |pattern| && pattern[j] == '*'
    requires Glob(name, pattern, k, j)
    ensures Glob(name, pattern, i, j)
    decreases k - i
  {
    if i < k {
      StarReachesBack(name, pattern, i + 1, k, j);
    }
  }

  /**
   * Across a star-free stretch pattern[a..b], a match from name position i
   * uses exactly b - a name characters.
   */
  lemma {:induction false} AcrossLiterals(name: string, pattern: string, i: nat, a: nat, b: nat)
    requires i <= |name| && a <= b <= |pattern|
    requires forall t :: a <= t < b ==> pattern[t] != '*'
    requires Glob(name, pattern, i, a)
    ensures i + (b - a) <= |name| && Glob(name, pattern, i + (b - a), b)
    decreases b - a
  {
    if a < b {
      AcrossLiterals(name, pattern, i + 1, a + 1, b);
    }
  }

  /**
   * A match that starts at a star s, from a name position k, passes a
   * star-free stretch up to position p: it needs at least p - s - 1 name
   * characters, and when pattern[p] is a star it reaches that star from
   * position k + (p - s - 1) or later.
   */
  lemma {:induction false} PastEarlierStar(name: string, pattern: string, k: nat, s: nat, p: nat)
    requires k <= |name| && s < p <= |pattern| && pattern[s] == '*'
    requires forall t :: s < t < p ==> pattern[t] != '*'
    requires Glob(name, pattern, k, s)
    ensures k + (p - s - 1) <= |name|
    ensures p < |pattern| && pattern[p] == '*' ==> Glob(name, pattern, k + (p - s - 1), p)
    decreases |name| - k
  {
    if Glob(name, pattern, k, s + 1) {
      AcrossLiterals(name, pattern, k, s + 1, p);
    } else {
      PastEarlierStar(name, pattern, k + 1, s, p);
      if p < |pattern| && pattern[p] == '*' {
        StarReachesBack(name, pattern, k + (p - s - 1), k + 1 + (p - s - 1), p);
      }
    }
  }

  /** At the end of the name, only a run of stars is matched. */
  lemma {:induction false} OnlyStarsLeft(name: string, pattern: string, j: nat)
    requires j <= |pattern|
    ensures Glob(name, pattern, |name|, j) <==> forall t :: j <= t < |pattern| ==> pattern[t] == '*'
    decreases |pattern| - j
  {
    if j < |pattern| {
      OnlyStarsLeft(name, pattern, j + 1);
    }
  }

  /**
   * matchFsName. The contract covers names without '*', which host file
   * names cannot contain; for them the loop decides exactly GlobMatch.
   */
  method MatchFsName(name: string, pattern: string) returns (b: bool)
    ensures '*' !in name ==> b == GlobMatch(name, pattern)
  {
    var n: nat := 0;
    var p: nat := 0;
    var star: int := -1;
    var mark: nat := 0;
    ghost var g := GlobMatch(name, pattern);
    while n < |name|
      invariant n <= |name| && p <= |pattern| && mark <= n
      invariant '*' !in name && star == -1 ==> g == Glob(name, pattern, n, p)
      invariant star != -1 ==> 0 <= star < p && pattern[star] == '*' && n - mark == p - star - 1
      invariant '*' !in name && star != -1 ==> forall t :: star < t < p ==> pattern[t] != '*'
      invariant '*' !in name && star != -1 ==>
        g == (Glob(name, pattern, n, p) || (mark < |name| && Glob(name, pattern, mark + 1, star)))
      decreases |name| + 1 - mark, |name| - n, |pattern| - p
    {
      if p < |pattern| && (pattern[p] == '?' || Rad50.ToUpper(pattern[p]) == Rad50.ToUpper(name[n])) {
        assert name[n] in name;
        n := n + 1;
        p := p + 1;
      } else if p < |pattern| && pattern[p] == '*' {
        if '*' !in name && star != -1 && mark < |name| && Glob(name, pattern, mark + 1, star) {
          PastEarlierStar(name, pattern, mark + 1, star, p);
          StarReachesBack(name, pattern, n, mark + 1 + (p - star - 1), p);
        }
        star := p;
        p := p + 1;
        mark := n;
      } else if star != -1 {
        p := star + 1;
        mark := mark + 1;
        n := mark;
      } else {
        return false;
      }
    }
    if '*' !in name && star != -1 && mark < |name| && Glob(name, pattern, mark + 1, star) {
      PastEarlierStar(name, pattern, mark + 1, star, p);
    }
    OnlyStarsLeft(name, pattern, p);
    while p < |pattern| && pattern[p] == '*'
      invariant p <= |pattern|
      invariant '*' !in name ==> g == Glob(name, pattern, |name|, p)
    {
      OnlyStarsLeft(name, pattern, p);
      OnlyStarsLeft(name, pattern, p + 1);
      p := p + 1;
    }
    OnlyStarsLeft(name, pattern, p);
    return p == |pattern|;
  }

  /** A pattern without wildcards matches the names that equal it up to letter case. */
  lemma {:induction false} LiteralPattern(name: string, pattern: string, i: nat)
    requires i <= |name| && i <= |pattern|
    requires forall t :: i <= t < |pattern| ==> pattern[t] != '*' && pattern[t] != '?'
    ensures Glob(name, pattern, i, i) <==>
      |name| == |pattern| && forall t :: i <= t < |pattern| ==> Rad50.ToUpper(pattern[t]) == Rad50.ToUpper(name[t])
    decreases |pattern| - i
  {
    if i < |pattern| && i < |name| {
      LiteralPattern(name, pattern, i + 1);
    }
  }
}
