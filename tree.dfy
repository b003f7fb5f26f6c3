/**
 * `get_directory_structure` and its nested `build_tree`: the tree drawing
 * with `├── ` / `└── ` connectors, depth limit and exclusions.
 */
module TreeRender {
  import opened Ordering
  import opened FileSystem

  /** A directory on the way down to an entry, and whether its own line was drawn with `└── `. */
  datatype Step = Step(dir: string, wasLast: bool)

  /** One line of the drawing before it becomes text. */
  datatype Row = Row(trail: seq<Step>, name: string, isDir: bool, last: bool)

  const Tee := "├── "
  const Elbow := "└── "
  const Pipe := "│   "
  const Blank := "    "

  /** The indentation carried down a trail: four spaces under a last entry, a bar otherwise. */
  function Prefix(trail: seq<Step>): string
  {
    if trail == [] then ""
    else Prefix(trail[..|trail| - 1]) + (if trail[|trail| - 1].wasLast then Blank else Pipe)
  }

  /** `f"{prefix}{connector}{name}/"` for a directory, without the `/` for a file. */
  function Render(r: Row): string
  {
    Prefix(r.trail) + (if r.last then Elbow else Tee) + r.name + (if r.isDir then "/" else "")
  }

  function Lines(rows: seq<Row>): seq<string>
  {
    seq(|rows|, i requires 0 <= i < |rows| => Render(rows[i]))
  }

  lemma LinesConcat(a: seq<Row>, b: seq<Row>)
    ensures Lines(a + b) == Lines(a) + Lines(b)
  {
  }

  /** The directory names along a trail. */
  function Dirs(trail: seq<Step>): seq<string>
  {
    seq(|trail|, i requires 0 <= i < |trail| => trail[i].dir)
  }

  function ListedDir(excl: set<string>): Node -> bool
  {
    (n: Node) => n.Dir? && n.name !in excl
  }

  function ListedFile(excl: set<string>): Node -> bool
  {
    (n: Node) => !n.Dir? && n.name !in excl
  }

  /** The listing keeps exactly the unexcluded directories and the unexcluded files of `n`. */
  lemma ListedMembers(n: Node, excl: set<string>)
    requires n.Dir?
    ensures forall d :: d in ListedDirs(n, excl) <==> d in n.children && d.Dir? && d.name !in excl
    ensures forall f :: f in ListedFiles(n, excl) <==> f in n.children && !f.Dir? && f.name !in excl
  {
  }

  /** `sorted(os.listdir(path))` */
  function Contents(n: Node): seq<Node>
    requires n.Dir?
  {
    SortBy(n.children, NameOf)
  }

  /** The `dirs` list `build_tree` collects. */
  function ListedDirs(n: Node, excl: set<string>): seq<Node>
    requires n.Dir?
  {
    Filter(Contents(n), ListedDir(excl))
  }

  /** The `files` list `build_tree` collects. */
  function ListedFiles(n: Node, excl: set<string>): seq<Node>
    requires n.Dir?
  {
    Filter(Contents(n), ListedFile(excl))
  }

  /**
   * The rows `build_tree(n, Prefix(trail), |trail|)` appends: nothing past the
   * depth limit or for a directory that cannot be listed; otherwise each
   * directory's line followed by its own rows, then the files' lines.
   */
  function TreeRows(n: Node, trail: seq<Step>, excl: set<string>, maxDepth: int): seq<Row>
    decreases n, 1
  {
    if |trail| > maxDepth || !n.Dir? || !n.readable then []
    else
      var dirs := ListedDirs(n, excl);
      var files := ListedFiles(n, excl);
      DirRows(n, dirs, |dirs|, files == [], trail, excl, maxDepth) + FileRows(files, |files|, trail)
  }

  /** The rows for `dirs[..k]`; the last directory gets `└── ` only when there are no files. */
  function DirRows(parent: Node, dirs: seq<Node>, k: nat, noFiles: bool, trail: seq<Step>,
                   excl: set<string>, maxDepth: int): seq<Row>
    requires parent.Dir? && k <= |dirs|
    requires forall d :: d in dirs ==> d in parent.children
    decreases parent, 0, k
  {
    if k == 0 then []
    else
      var d := dirs[k - 1];
      assert d in parent.children by { assert d in dirs; }
      var last := k == |dirs| && noFiles;
      DirRows(parent, dirs, k - 1, noFiles, trail, excl, maxDepth)
      + [Row(trail, d.name, true, last)]
      + TreeRows(d, trail + [Step(d.name, last)], excl, maxDepth)
  }

  /** The rows for `files[..k]`; the last file gets `└── `. */
  function FileRows(files: seq<Node>, k: nat, trail: seq<Step>): seq<Row>
    requires k <= |files|
  {
    if k == 0 then []
    else FileRows(files, k - 1, trail) + [Row(trail, files[k - 1].name, false, k == |files|)]
  }

  lemma PrefixSnoc(trail: seq<Step>, s: Step)
    ensures Prefix(trail + [s]) == Prefix(trail) + (if s.wasLast then Blank else Pipe)
  {
    assert (trail + [s])[..|trail|] == trail;
  }

  /**
   * The first loop of `build_tree`: lists the directory, sorts the names and
   * splits the entries that are not excluded into directories and files.
   */
  method SplitListing(n: Node, excl: set<string>) returns (dirs: seq<Node>, files: seq<Node>)
    requires n.Dir?
    ensures dirs == ListedDirs(n, excl) && files == ListedFiles(n, excl)
  {
    var contents := SortBy(n.children, NameOf);
    dirs := [];
    files := [];
    for i := 0 to |contents|
      invariant dirs == Filter(contents[..i], ListedDir(excl))
      invariant files == Filter(contents[..i], ListedFile(excl))
    {
      var item := contents[i];
      TakeSnoc(contents, i);
      FilterSnoc(contents[..i], item, ListedDir(excl));
      FilterSnoc(contents[..i], item, ListedFile(excl));
      if item.name in excl {
        continue;
      }
      if item.Dir? {
        dirs := dirs + [item];
      } else {
        files := files + [item];
      }
    }
    assert contents[..|contents|] == contents;
  }

  /** The last loop of `build_tree`: one line per file, `└── ` on the final one. */
  method AppendFiles(files: seq<Node>, prefix: string, structure: seq<string>, ghost trail: seq<Step>)
    returns (out: seq<string>)
    requires prefix == Prefix(trail)
    ensures out == structure + Lines(FileRows(files, |files|, trail))
  {
    out := structure;
    for i := 0 to |files|
      invariant out == structure + Lines(FileRows(files, i, trail))
    {
      var isLast := i == |files| - 1;
      var connector := if isLast then Elbow else Tee;
      ghost var before := FileRows(files, i, trail);
      ghost var row := Row(trail, files[i].name, false, isLast);
      out := out + [prefix + connector + files[i].name];
      assert Render(row) == prefix + connector + files[i].name;
      LinesConcat(before, [row]);
      assert FileRows(files, i + 1, trail) == before + [row];
    }
  }

  /**
   * `build_tree`: appends to `structure` the lines for the contents of `n`,
   * drawn with `prefix` at nesting `depth`.
   */
  method BuildTree(n: Node, prefix: string, depth: int, excl: set<string>, maxDepth: int,
                   structure: seq<string>, ghost trail: seq<Step>)
    returns (out: seq<string>)
    requires n.Dir?
    requires prefix == Prefix(trail) && depth == |trail|
    ensures out == structure + Lines(TreeRows(n, trail, excl, maxDepth))
    decreases n, 1
  {
    if depth > maxDepth {
      return structure;
    }
    if !n.readable {
      // os.listdir raises PermissionError
      return structure;
    }
    var dirs, files := SplitListing(n, excl);
    TreeRowsLines(n, dirs, files, trail, excl, maxDepth);
    out := AppendDirs(n, dirs, files == [], prefix, depth, excl, maxDepth, structure, trail);
    out := AppendFiles(files, prefix, out, trail);
    Regroup(structure, Lines(DirRows(n, dirs, |dirs|, files == [], trail, excl, maxDepth)),
            Lines(FileRows(files, |files|, trail)), []);
  }

  /**
   * The middle loop of `build_tree`: each directory's line, then its own
   * drawing one level deeper, with `└── ` and four spaces for the final
   * directory when no files follow it.
   */
  method AppendDirs(n: Node, dirs: seq<Node>, noFiles: bool, prefix: string, depth: int,
                    excl: set<string>, maxDepth: int, structure: seq<string>, ghost trail: seq<Step>)
    returns (out: seq<string>)
    requires n.Dir? && forall d :: d in dirs ==> d in n.children && d.Dir?
    requires prefix == Prefix(trail) && depth == |trail|
    ensures out == structure + Lines(DirRows(n, dirs, |dirs|, noFiles, trail, excl, maxDepth))
    decreases n, 0
  {
    out := structure;
    for i := 0 to |dirs|
      invariant out == structure + Lines(DirRows(n, dirs, i, noFiles, trail, excl, maxDepth))
    {
      var directory := dirs[i];
      var isLastDir := i == |dirs| - 1 && noFiles;
      var connector := if isLastDir then Elbow else Tee;
      DirRowsStep(n, dirs, i, noFiles, trail, excl, maxDepth);
      ghost var step := Step(directory.name, isLastDir);
      ghost var before := Lines(DirRows(n, dirs, i, noFiles, trail, excl, maxDepth));
      ghost var sub := Lines(TreeRows(directory, trail + [step], excl, maxDepth));
      var line := prefix + connector + directory.name + "/";
      out := out + [line];
      var newPrefix := prefix + (if isLastDir then Blank else Pipe);
      PrefixSnoc(trail, step);
      ghost var mid := out;
      out := BuildTree(directory, newPrefix, depth + 1, excl, maxDepth, out, trail + [step]);
      assert out == mid + sub;
      assert mid == structure + before + [line];
      assert Lines(DirRows(n, dirs, i + 1, noFiles, trail, excl, maxDepth)) == before + [line] + sub;
      Regroup(structure, before, [line], sub);
    }
  }

  lemma Regroup(a: seq<string>, b: seq<string>, c: seq<string>, d: seq<string>)
    ensures a + (b + c + d) == a + b + c + d
  {
  }

  lemma DirRowsStep(parent: Node, dirs: seq<Node>, i: nat, noFiles: bool, trail: seq<Step>,
                    excl: set<string>, maxDepth: int)
    requires parent.Dir? && i < |dirs|
    requires forall d :: d in dirs ==> d in parent.children
    ensures dirs[i] < parent
    ensures var last := i == |dirs| - 1 && noFiles;
      Lines(DirRows(parent, dirs, i + 1, noFiles, trail, excl, maxDepth))
      == Lines(DirRows(parent, dirs, i, noFiles, trail, excl, maxDepth))
         + [Prefix(trail) + (if last then Elbow else Tee) + dirs[i].name + "/"]
         + Lines(TreeRows(dirs[i], trail + [Step(dirs[i].name, last)], excl, maxDepth))
  {
    assert dirs[i] in dirs;
    var last := i == |dirs| - 1 && noFiles;
    var row := Row(trail, dirs[i].name, true, last);
    DirRowsUnfold(parent, dirs, i, noFiles, trail, excl, maxDepth);
    LinesAround(DirRows(parent, dirs, i, noFiles, trail, excl, maxDepth), row,
                TreeRows(dirs[i], trail + [Step(dirs[i].name, last)], excl, maxDepth));
  }

  lemma DirRowsUnfold(parent: Node, dirs: seq<Node>, i: nat, noFiles: bool, trail: seq<Step>,
                      excl: set<string>, maxDepth: int)
    requires parent.Dir? && i < |dirs|
    requires forall d :: d in dirs ==> d in parent.children
    ensures var last := i == |dirs| - 1 && noFiles;
      DirRows(parent, dirs, i + 1, noFiles, trail, excl, maxDepth)
      == DirRows(parent, dirs, i, noFiles, trail, excl, maxDepth)
         + [Row(trail, dirs[i].name, true, last)]
         + TreeRows(dirs[i], trail + [Step(dirs[i].name, last)], excl, maxDepth)
  {
  }

  lemma LinesAround(before: seq<Row>, row: Row, after: seq<Row>)
    ensures Lines(before + [row] + after) == Lines(before) + [Render(row)] + Lines(after)
  {
    LinesConcat(before, [row]);
    LinesConcat(before + [row], after);
  }

  lemma TreeRowsLines(n: Node, dirs: seq<Node>, files: seq<Node>, trail: seq<Step>, excl: set<string>, maxDepth: int)
    requires n.Dir? && n.readable && |trail| <= maxDepth
    requires dirs == ListedDirs(n, excl) && files == ListedFiles(n, excl)
    ensures forall d :: d in dirs ==> d in n.children && d.Dir?
    ensures Lines(TreeRows(n, trail, excl, maxDepth))
      == Lines(DirRows(n, dirs, |dirs|, files == [], trail, excl, maxDepth)) + Lines(FileRows(files, |files|, trail))
  {
    ListedMembers(n, excl);
    LinesConcat(DirRows(n, dirs, |dirs|, files == [], trail, excl, maxDepth), FileRows(files, |files|, trail));
  }

  /**
   * `get_directory_structure`: the start directory's name with a `/`, then
   * the lines `build_tree` draws for it at depth 0 with an empty prefix.
   */
  method GetDirectoryStructure(root: Node, excl: set<string>, maxDepth: int)
    returns (structure: seq<string>)
    requires root.Dir?
    ensures |structure| >= 1 && structure[0] == root.name + "/"
    ensures structure[1..] == Lines(TreeRows(root, [], excl, maxDepth))
  {
    structure := [root.name + "/"];
    structure := BuildTree(root, "", 0, excl, maxDepth, structure, []);
  }
}
