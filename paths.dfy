/** POSIX path joining, as `os.path.join` does it for relative parts. */
module Paths {
  import opened Text

  /** `os.path.join(a, b)` when `b` is relative: a `/` is inserted unless
      `a` is empty or already ends with one. */
  function Join(a: string, b: string): (r: string)
    ensures |a| + |b| <= |r| <= |a| + |b| + 1
    ensures a == "" ==> r == b
    ensures a != "" && a[|a| - 1] == '/' ==> r == a + b
  {
    if a == "" || a[|a| - 1] == '/' then a + b else a + "/" + b
  }

  /** The segments of a joined path are the segments of its two parts,
      when the left part is not empty and has no trailing `/`. */
  lemma JoinSegments(a: string, b: string)
    requires a != "" && a[|a| - 1] != '/'
    ensures SplitOn(Join(a, b), "/") == SplitOn(a, "/") + SplitOn(b, "/")
  {
    SplitAround(a, b, '/');
  }
}
