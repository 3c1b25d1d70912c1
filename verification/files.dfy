/**
 * The served filesystem as the handler observes it: a map from absolute
 * path to what is there.  A path absent from the map does not exist
 * (`os.path.exists` is false); a file whose size cannot be read is
 * modelled by leaving it out of the map while its directory still lists it.
 */
module Files {
  import opened Common
  import PosixPath

  datatype Node =
    | Directory(children: seq<string>)   // the names `os.listdir` returns, in its order
    | RegularFile(content: seq<byte>)

  type Tree = map<string, Node>

  predicate IsDirectory(tree: Tree, path: string) {
    path in tree && tree[path].Directory?
  }

  predicate IsFile(tree: Tree, path: string) {
    path in tree && tree[path].RegularFile?
  }

  /**
   * What `os.listdir` guarantees of the names it returns: each is a single
   * non-empty path component, never `.` or `..`.
   */
  predicate ListedNamesAreComponents(tree: Tree) {
    forall p :: p in tree && tree[p].Directory? ==> PosixPath.AllComponents(tree[p].children)
  }
}
