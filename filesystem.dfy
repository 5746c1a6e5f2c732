/** An abstract, finite file system standing in for the calls the locator
    makes on the real one: `os.Stat` through `isFile` (main.go:164-167),
    `os.Lstat` on a walk's root and `os.Open` followed by `Readdir` in
    `readdir` (main.go:179-189). Symbolic links are not modelled. */
module FileSystem {

  /** A node of a directory tree. A directory may be unreadable, in which
      case listing it fails. */
  datatype Node = File | Dir(readable: bool, entries: seq<Entry>)

  /** A directory entry as `Readdir` reports it: a name and what it names. */
  datatype Entry = Entry(name: string, node: Node)

  /** What a stat call tells the walk's visitor about a path: the call
      failed, or it found a non-directory, or a directory. */
  datatype Info = Failed | Regular | Directory

  /** The file system as the locator sees it: `files` are the paths for
      which `os.Stat` succeeds and reports a non-directory, and `trees`
      gives the tree found at each path a recursive search starts from. */
  datatype FS = FS(files: set<string>, trees: map<string, Node>)

  /** `isFile(path)` (main.go:164-167). */
  predicate IsFile(fs: FS, path: string) {
    path in fs.files
  }

  /** `os.Lstat(root)` as the walk uses it (main.go:197-198). */
  function Lstat(fs: FS, root: string): Info {
    if root !in fs.trees then Failed
    else if fs.trees[root].Dir? then Directory
    else Regular
  }

  /** `readdir` with its error dropped (main.go:214): the entries of a
      readable directory, and none for an unreadable one or a file. */
  function Listing(n: Node): seq<Entry> {
    if n.Dir? && n.readable then n.entries else []
  }

  /** The number of nodes of a tree, the measure that makes the walk end. */
  function Size(n: Node): (k: nat)
    ensures k >= 1
  {
    match n
    case File => 1
    case Dir(_, es) => 1 + EntriesSize(es)
  }

  function EntriesSize(es: seq<Entry>): nat {
    if es == [] then 0 else EntriesSize(es[..|es| - 1]) + Size(es[|es| - 1].node)
  }

  /** The entries a directory lists are a strictly smaller tree than it. */
  lemma ListingSmaller(n: Node)
    ensures EntriesSize(Listing(n)) < Size(n)
  {
  }
}
