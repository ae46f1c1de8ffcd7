/**
 * The file system as the cleaner sees it: which paths exist, and whether each is a
 * file or a directory. Paths are Windows paths with '\' as separator.
 */
module FileSystem {

  type Path = string

  datatype Node = File | Dir

  /** Every existing path, with its kind. */
  type Tree = map<Path, Node>

  const Separator: char := '\\'

  /** `File.Exists(p)`. */
  predicate IsFile(fs: Tree, p: Path) {
    p in fs && fs[p] == File
  }

  /** `Directory.Exists(p)`. */
  predicate IsDir(fs: Tree, p: Path) {
    p in fs && fs[p] == Dir
  }

  /** `p` lies strictly inside the directory `dir`. */
  predicate Within(p: Path, dir: Path) {
    |dir| < |p| && p[..|dir|] == dir && p[|dir|] == Separator
  }

  /** The tree after `File.Delete(p)`: only `p` is gone. */
  function RemoveFile(fs: Tree, p: Path): (r: Tree)
    ensures p !in r
    ensures forall q :: q in r <==> q in fs && q != p
    ensures forall q :: q in r ==> r[q] == fs[q]
  {
    fs - {p}
  }

  /** The tree after `Directory.Delete(dir, true)`: the directory and everything within
      it are gone, every other path is untouched. */
  function RemoveTree(fs: Tree, dir: Path): (r: Tree)
    ensures dir !in r
    ensures forall q :: q in r <==> q in fs && q != dir && !Within(q, dir)
    ensures forall q :: q in r ==> r[q] == fs[q]
  {
    map q | q in fs && q != dir && !Within(q, dir) :: fs[q]
  }
}
