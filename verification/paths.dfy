/** Strings and paths as the kernel-spec registry uses them: `str.lower()`,
    `os.path.join` and `os.path.basename`. */
module Paths {

  type Path = string

  /** `str.lower()` on one character; only the ASCII letters A-Z are folded. */
  function LowerChar(c: char): (r: char)
    ensures 'A' <= c <= 'Z' ==> r as int == c as int + 32
    ensures !('A' <= c <= 'Z') ==> r == c
    ensures !('A' <= r <= 'Z')
  {
    if 'A' <= c <= 'Z' then (c as int + 32) as char else c
  }

  /** `s.lower()`: every character folded, in place. */
  function Lower(s: string): (r: string)
    ensures |r| == |s|
    ensures forall i :: 0 <= i < |s| ==> r[i] == LowerChar(s[i])
  {
    if s == [] then [] else [LowerChar(s[0])] + Lower(s[1..])
  }

  /** A string `lower()` leaves as it is. */
  predicate IsLower(s: string)
  {
    forall i :: 0 <= i < |s| ==> !('A' <= s[i] <= 'Z')
  }

  /** Folding twice folds no further, and a folded string has no capital left. */
  lemma LowerIdempotent(s: string)
    ensures IsLower(Lower(s))
    ensures Lower(Lower(s)) == Lower(s)
  {
    var t := Lower(s);
    forall i | 0 <= i < |t|
      ensures Lower(t)[i] == t[i]
    {
      assert t[i] == LowerChar(s[i]);
    }
  }

  /** Names that differ only in the case of their ASCII letters fold to one name. */
  lemma {:induction false} LowerIgnoresCase(a: string, b: string)
    requires |a| == |b|
    requires forall i :: 0 <= i < |a| ==> LowerChar(a[i]) == LowerChar(b[i])
    ensures Lower(a) == Lower(b)
  {
    if a != [] {
      LowerIgnoresCase(a[1..], b[1..]);
    }
  }

  /** Folding touches letters only, so separators stay where they are. */
  lemma LowerKeepsSeparators(s: string)
    ensures '/' in Lower(s) <==> '/' in s
  {
    var t := Lower(s);
    if '/' in t {
      var i :| 0 <= i < |t| && t[i] == '/';
      assert s[i] == '/';
    }
    if '/' in s {
      var i :| 0 <= i < |s| && s[i] == '/';
      assert t[i] == '/';
    }
  }

  /** `os.path.join(a, b)` for a relative `b`: the two parts with one separator. */
  function Join(a: Path, b: string): (r: Path)
    ensures |r| == |a| + 1 + |b|
    ensures r[..|a|] == a && r[|a|] == '/' && r[|a| + 1..] == b
  {
    a + "/" + b
  }

  /** `os.path.basename(p)`: the longest suffix of `p` holding no separator. */
  function Basename(p: Path): (r: string)
    ensures '/' !in r
    ensures |r| <= |p| && r == p[|p| - |r|..]
    ensures |r| < |p| ==> p[|p| - |r| - 1] == '/'
  {
    if p == [] || p[|p| - 1] == '/' then []
    else Basename(p[..|p| - 1]) + [p[|p| - 1]]
  }

  /** The basename of a joined path is the part that was joined on. */
  lemma BasenameOfJoin(a: Path, b: string)
    requires '/' !in b
    ensures Basename(Join(a, b)) == b
  {
  }
}
