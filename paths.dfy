/** Node addresses in the storage tree: dot-separated paths below the root path. */
module Paths {
  /** The path whose children fill the first column at startup. */
  const Root: string := "published"

  /** `p` is the root path itself or a path below it. */
  predicate UnderRoot(p: string) {
    p == Root || Root + "." <= p
  }

  /**
   * The path a column entry selects: its parent's path, a dot, its label.
   * The contract says how to take the result apart again.
   */
  function ChildPath(path: string, child: string): (r: string)
    ensures |r| == |path| + 1 + |child|
    ensures r[..|path|] == path && r[|path|] == '.' && r[|path| + 1..] == child
  {
    path + "." + child
  }

  /** Every child path of the root, or of a path below it, starts with the root path and a dot. */
  lemma ChildPathBelowRoot(path: string, child: string)
    requires UnderRoot(path)
    ensures Root + "." <= ChildPath(path, child)
    ensures UnderRoot(ChildPath(path, child))
  {
  }

  /** A child path determines its child label, given the parent. */
  lemma ChildPathInjective(path: string, c1: string, c2: string)
    requires ChildPath(path, c1) == ChildPath(path, c2)
    ensures c1 == c2
  {
  }
}
