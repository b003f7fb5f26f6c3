/**
 * The directory tree the tool scans, held in memory: what `os.listdir`,
 * `os.path.isdir`, `os.walk`, `os.path.getsize` and `open` would observe.
 */
module FileSystem {
  import opened Ordering

  /** What stating and then opening a file yields. */
  datatype Access =
      /** the size query and the read both succeed; `text` is the decoded content */
    | Readable(text: string)
      /** the size query raises (the file vanished, ...): `message` is `str(e)` */
    | StatFails(message: string)
      /** the size is known but opening or reading raises */
    | OpenFails(message: string)

  datatype Node =
    | File(name: string, size: nat, access: Access)
      /** `readable` is false when listing the directory raises `PermissionError` */
    | Dir(name: string, children: seq<Node>, readable: bool)

  function NameOf(n: Node): string
  {
    n.name
  }

  predicate IsDir(n: Node)
  {
    n.Dir?
  }

  predicate IsFile(n: Node)
  {
    n.File?
  }

  /** `name not in exclude_dirs` */
  function Unexcluded(excl: set<string>): Node -> bool
  {
    (n: Node) => n.name !in excl
  }

  /**
   * What a real directory tree guarantees: no name contains the path
   * separator and no two entries of one directory share a name.
   */
  ghost predicate WellFormed(n: Node)
  {
    '/' !in n.name &&
    (n.Dir? ==>
      DistinctBy(n.children, NameOf) &&
      forall c :: c in n.children ==> WellFormed(c))
  }

  /**
   * `e` is an entry of the directory reached from `n` by descending through
   * the directories named `via`; every directory on the way (including `n`)
   * can be listed, and none below `n` has a name in `excl`.
   */
  ghost predicate Reachable(n: Node, via: seq<string>, e: Node, excl: set<string>)
    decreases n
  {
    n.Dir? && n.readable &&
    if via == [] then e in n.children
    else exists c :: c in n.children && c.Dir? && c.name == via[0] && c.name !in excl
                     && Reachable(c, via[1..], e, excl)
  }
}
