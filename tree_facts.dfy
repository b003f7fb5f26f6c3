/**
 * What the drawing of `get_directory_structure` shows: every line is an
 * entry reachable within the depth limit (soundness), every such entry has a
 * line (completeness), each listing puts directories before files with
 * `└── ` only on its final entry, and the carried prefix has one column per
 * ancestor.
 */
module TreeFacts {
  import opened Ordering
  import opened FileSystem
  import opened TreeRender

  /**
   * `r` is the line of an entry that is not excluded, reached from `n` through
   * the directories of `r.trail` below `trail`, with the right kind, and no
   * deeper than the limit.
   */
  ghost predicate Describes(n: Node, trail: seq<Step>, excl: set<string>, maxDepth: int, r: Row)
  {
    |trail| <= |r.trail| <= maxDepth && r.trail[..|trail|] == trail && r.name !in excl &&
    exists e :: Reachable(n, Dirs(r.trail[|trail|..]), e, excl) && e.name == r.name && e.Dir? == r.isDir
  }

  /** The file rows written out one by one. */
  lemma {:induction false} FileRowsExplicit(files: seq<Node>, k: nat, trail: seq<Step>)
    requires k <= |files|
    ensures FileRows(files, k, trail)
      == seq(k, i requires 0 <= i < k => Row(trail, files[i].name, false, i == |files| - 1))
  {
    if k > 0 {
      FileRowsExplicit(files, k - 1, trail);
    }
  }

  lemma DirsAfter(t: seq<Step>, trail: seq<Step>, step: Step)
    requires |trail| + 1 <= |t| && t[..|trail| + 1] == trail + [step]
    ensures t[..|trail|] == trail
    ensures Dirs(t[|trail|..]) == [step.dir] + Dirs(t[|trail| + 1..])
  {
    assert t[..|trail|] == t[..|trail| + 1][..|trail|];
    assert t[|trail|..] == [step] + t[|trail| + 1..];
  }

  /** Soundness: every line of the drawing describes a reachable, listed entry. */
  lemma {:induction false} RowsSound(n: Node, trail: seq<Step>, excl: set<string>, maxDepth: int)
    ensures forall r :: r in TreeRows(n, trail, excl, maxDepth) ==> Describes(n, trail, excl, maxDepth, r)
    decreases n, 1
  {
    if |trail| <= maxDepth && n.Dir? && n.readable {
      var dirs := ListedDirs(n, excl);
      var files := ListedFiles(n, excl);
      ListedMembers(n, excl);
      DirRowsSound(n, dirs, |dirs|, files == [], trail, excl, maxDepth);
      FileRowsExplicit(files, |files|, trail);
      forall r | r in FileRows(files, |files|, trail)
        ensures Describes(n, trail, excl, maxDepth, r)
      {
        var j :| 0 <= j < |files| && r == Row(trail, files[j].name, false, j == |files| - 1);
        assert files[j] in files;
        assert r.trail[|trail|..] == [];
        assert Reachable(n, [], files[j], excl);
      }
    }
  }

  lemma {:induction false} DirRowsSound(parent: Node, dirs: seq<Node>, k: nat, noFiles: bool, trail: seq<Step>,
                                        excl: set<string>, maxDepth: int)
    requires parent.Dir? && parent.readable && k <= |dirs| && |trail| <= maxDepth
    requires forall d :: d in dirs ==> d in parent.children && d.Dir? && d.name !in excl
    ensures forall r :: r in DirRows(parent, dirs, k, noFiles, trail, excl, maxDepth) ==>
              Describes(parent, trail, excl, maxDepth, r)
    decreases parent, 0, k
  {
    if k > 0 {
      DirRowsSound(parent, dirs, k - 1, noFiles, trail, excl, maxDepth);
      var d := dirs[k - 1];
      assert d in dirs;
      var last := k == |dirs| && noFiles;
      var step := Step(d.name, last);
      var t' := trail + [step];
      var row := Row(trail, d.name, true, last);
      assert row.trail[|trail|..] == [];
      assert Reachable(parent, [], d, excl);
      assert Describes(parent, trail, excl, maxDepth, row);
      RowsSound(d, t', excl, maxDepth);
      forall r | r in TreeRows(d, t', excl, maxDepth)
        ensures Describes(parent, trail, excl, maxDepth, r)
      {
        assert Describes(d, t', excl, maxDepth, r);
        var e :| Reachable(d, Dirs(r.trail[|t'|..]), e, excl) && e.name == r.name && e.Dir? == r.isDir;
        DirsAfter(r.trail, trail, step);
        var via := Dirs(r.trail[|trail|..]);
        assert via[1..] == Dirs(r.trail[|t'|..]);
        assert Reachable(parent, via, e, excl);
      }
    }
  }

  /** The `j`th directory's line and its whole sub-drawing are among the rows for `dirs[..k]`. */
  lemma {:induction false} DirRowsContain(parent: Node, dirs: seq<Node>, k: nat, j: nat, noFiles: bool,
                                          trail: seq<Step>, excl: set<string>, maxDepth: int)
    requires parent.Dir? && j < k <= |dirs|
    requires forall d :: d in dirs ==> d in parent.children
    ensures var last := j == |dirs| - 1 && noFiles;
      var rows := DirRows(parent, dirs, k, noFiles, trail, excl, maxDepth);
      Row(trail, dirs[j].name, true, last) in rows &&
      forall r :: r in TreeRows(dirs[j], trail + [Step(dirs[j].name, last)], excl, maxDepth) ==> r in rows
  {
    DirRowsUnfold(parent, dirs, k - 1, noFiles, trail, excl, maxDepth);
    var rows := DirRows(parent, dirs, k, noFiles, trail, excl, maxDepth);
    var before := DirRows(parent, dirs, k - 1, noFiles, trail, excl, maxDepth);
    var d := dirs[k - 1];
    var last := k - 1 == |dirs| - 1 && noFiles;
    var sub := TreeRows(d, trail + [Step(d.name, last)], excl, maxDepth);
    assert rows == before + [Row(trail, d.name, true, last)] + sub;
    var lastJ := j == |dirs| - 1 && noFiles;
    var subJ := TreeRows(dirs[j], trail + [Step(dirs[j].name, lastJ)], excl, maxDepth);
    if j < k - 1 {
      DirRowsContain(parent, dirs, k - 1, j, noFiles, trail, excl, maxDepth);
      AroundMembers(before, Row(trail, d.name, true, last), sub);
      assert Row(trail, dirs[j].name, true, lastJ) in before;
      assert forall r :: r in subJ ==> r in before;
    } else {
      AroundMembers(before, Row(trail, d.name, true, last), sub);
      assert subJ == sub;
    }
  }

  lemma TreeRowsUnfold(n: Node, trail: seq<Step>, excl: set<string>, maxDepth: int)
    requires n.Dir? && n.readable && |trail| <= maxDepth
    ensures var dirs := ListedDirs(n, excl); var files := ListedFiles(n, excl);
      TreeRows(n, trail, excl, maxDepth)
      == DirRows(n, dirs, |dirs|, files == [], trail, excl, maxDepth) + FileRows(files, |files|, trail)
  {
  }

  /** An unexcluded entry of a listed directory has its line at that directory's own level. */
  lemma RowsCompleteHere(n: Node, trail: seq<Step>, e: Node, excl: set<string>, maxDepth: int)
    requires n.Dir? && n.readable && e in n.children && e.name !in excl && |trail| <= maxDepth
    ensures Row(trail, e.name, e.Dir?, false) in TreeRows(n, trail, excl, maxDepth)
         || Row(trail, e.name, e.Dir?, true) in TreeRows(n, trail, excl, maxDepth)
  {
    var dirs := ListedDirs(n, excl);
    var files := ListedFiles(n, excl);
    var noFiles := files == [];
    ListedMembers(n, excl);
    TreeRowsUnfold(n, trail, excl, maxDepth);
    if e.Dir? {
      assert e in dirs;
      var j := IndexOf(dirs, e);
      DirRowsContain(n, dirs, |dirs|, j, noFiles, trail, excl, maxDepth);
    } else {
      assert e in files;
      var j := IndexOf(files, e);
      FileRowsExplicit(files, |files|, trail);
      assert FileRows(files, |files|, trail)[j] == Row(trail, e.name, false, j == |files| - 1);
    }
  }

  /** `r` is a line for `e`, reached through the directories `via` below `trail`. */
  ghost predicate Locates(r: Row, trail: seq<Step>, via: seq<string>, e: Node)
  {
    r.name == e.name && r.isDir == e.Dir? && |r.trail| == |trail| + |via|
    && r.trail[..|trail|] == trail && Dirs(r.trail[|trail|..]) == via
  }

  /**
   * Completeness: an entry that is not excluded, reached through unexcluded
   * directories no deeper than the limit, has a line of the right kind at
   * the right place.
   */
  lemma {:induction false} RowsComplete(n: Node, trail: seq<Step>, via: seq<string>, e: Node,
                                        excl: set<string>, maxDepth: int)
    requires Reachable(n, via, e, excl) && e.name !in excl && |trail| + |via| <= maxDepth
    ensures exists r :: r in TreeRows(n, trail, excl, maxDepth) && Locates(r, trail, via, e)
    decreases n
  {
    if via == [] {
      RowsCompleteHere(n, trail, e, excl, maxDepth);
      var r :| r in TreeRows(n, trail, excl, maxDepth) && r.trail == trail && r.name == e.name && r.isDir == e.Dir?;
      assert r.trail[|trail|..] == [];
      assert Locates(r, trail, via, e);
    } else {
      var c :| c in n.children && c.Dir? && c.name == via[0] && c.name !in excl && Reachable(c, via[1..], e, excl);
      RowsCompleteBelow(n, c, trail, via, e, excl, maxDepth);
    }
  }

  lemma {:induction false} RowsCompleteBelow(n: Node, c: Node, trail: seq<Step>, via: seq<string>, e: Node,
                                             excl: set<string>, maxDepth: int)
    requires n.Dir? && n.readable && via != [] && |trail| + |via| <= maxDepth && e.name !in excl
    requires c in n.children && c.Dir? && c.name == via[0] && c.name !in excl && Reachable(c, via[1..], e, excl)
    ensures exists r :: r in TreeRows(n, trail, excl, maxDepth) && Locates(r, trail, via, e)
    decreases n, 0
  {
    var dirs := ListedDirs(n, excl);
    var files := ListedFiles(n, excl);
    var noFiles := files == [];
    ListedMembers(n, excl);
    TreeRowsUnfold(n, trail, excl, maxDepth);
    assert c in dirs;
    var j := IndexOf(dirs, c);
    var step := Step(c.name, j == |dirs| - 1 && noFiles);
    var t' := trail + [step];
    RowsComplete(c, t', via[1..], e, excl, maxDepth);
    var r :| r in TreeRows(c, t', excl, maxDepth) && Locates(r, t', via[1..], e);
    DirRowsContain(n, dirs, |dirs|, j, noFiles, trail, excl, maxDepth);
    assert r in TreeRows(n, trail, excl, maxDepth);
    LocatesBelow(r, trail, step, via, e);
  }

  lemma LocatesBelow(r: Row, trail: seq<Step>, step: Step, via: seq<string>, e: Node)
    requires via != [] && step.dir == via[0] && Locates(r, trail + [step], via[1..], e)
    ensures Locates(r, trail, via, e)
  {
    DirsAfter(r.trail, trail, step);
    assert via == [via[0]] + via[1..];
  }

  /** Rows drawn at nesting `d`, the entries of one listing when `d` is that listing's depth. */
  function AtDepth(d: nat): Row -> bool
  {
    (r: Row) => |r.trail| == d
  }

  /**
   * How one listing is drawn: its directories, then its files, each entry
   * with `├── ` except the final one, which gets `└── `.
   */
  function Level(dirs: seq<Node>, files: seq<Node>, trail: seq<Step>): (rows: seq<Row>)
    ensures |rows| == |dirs| + |files|
  {
    seq(|dirs| + |files|, i requires 0 <= i < |dirs| + |files| =>
      Row(trail, if i < |dirs| then dirs[i].name else files[i - |dirs|].name, i < |dirs|,
          i == |dirs| + |files| - 1))
  }

  /** The directory lines of one listing, written out one by one. */
  function DirHeads(dirs: seq<Node>, k: nat, noFiles: bool, trail: seq<Step>): (rows: seq<Row>)
    requires k <= |dirs|
    ensures |rows| == k
  {
    seq(k, i requires 0 <= i < k => Row(trail, dirs[i].name, true, i == |dirs| - 1 && noFiles))
  }

  lemma DirHeadsSnoc(dirs: seq<Node>, k: nat, noFiles: bool, trail: seq<Step>)
    requires 0 < k <= |dirs|
    ensures DirHeads(dirs, k, noFiles, trail)
      == DirHeads(dirs, k - 1, noFiles, trail) + [Row(trail, dirs[k - 1].name, true, k == |dirs| && noFiles)]
  {
  }

  /** Every row below `trail` is nested deeper than `trail` itself. */
  lemma RowsDeeper(n: Node, trail: seq<Step>, excl: set<string>, maxDepth: int)
    ensures forall r :: r in TreeRows(n, trail, excl, maxDepth) ==> |r.trail| >= |trail|
  {
    RowsSound(n, trail, excl, maxDepth);
  }

  lemma {:induction false} DirRowsTop(parent: Node, dirs: seq<Node>, k: nat, noFiles: bool, trail: seq<Step>,
                                      excl: set<string>, maxDepth: int)
    requires parent.Dir? && k <= |dirs|
    requires forall d :: d in dirs ==> d in parent.children
    ensures Filter(DirRows(parent, dirs, k, noFiles, trail, excl, maxDepth), AtDepth(|trail|))
      == DirHeads(dirs, k, noFiles, trail)
  {
    if k > 0 {
      DirRowsTop(parent, dirs, k - 1, noFiles, trail, excl, maxDepth);
      var d := dirs[k - 1];
      var last := k == |dirs| && noFiles;
      var before := DirRows(parent, dirs, k - 1, noFiles, trail, excl, maxDepth);
      var row := Row(trail, d.name, true, last);
      var t' := trail + [Step(d.name, last)];
      var sub := TreeRows(d, t', excl, maxDepth);
      DirRowsUnfold(parent, dirs, k - 1, noFiles, trail, excl, maxDepth);
      RowsDeeper(d, t', excl, maxDepth);
      FilterNone(sub, AtDepth(|trail|));
      FilterConcat(before + [row], sub, AtDepth(|trail|));
      FilterSnoc(before, row, AtDepth(|trail|));
      DirHeadsSnoc(dirs, k, noFiles, trail);
      assert AtDepth(|trail|)(row);
      assert Filter(before + [row] + sub, AtDepth(|trail|)) == Filter(before, AtDepth(|trail|)) + [row];
    } else {
      assert DirRows(parent, dirs, k, noFiles, trail, excl, maxDepth) == [];
      assert DirHeads(dirs, k, noFiles, trail) == [];
    }
  }

  /**
   * The entries drawn at a directory's own level are exactly its listing,
   * directories first, with `└── ` on the final entry only.
   */
  lemma LevelShape(n: Node, trail: seq<Step>, excl: set<string>, maxDepth: int)
    requires n.Dir? && n.readable && |trail| <= maxDepth
    ensures Filter(TreeRows(n, trail, excl, maxDepth), AtDepth(|trail|))
      == Level(ListedDirs(n, excl), ListedFiles(n, excl), trail)
  {
    var dirs := ListedDirs(n, excl);
    var files := ListedFiles(n, excl);
    var noFiles := files == [];
    ListedMembers(n, excl);
    TreeRowsUnfold(n, trail, excl, maxDepth);
    var dirRows := DirRows(n, dirs, |dirs|, noFiles, trail, excl, maxDepth);
    var fileRows := FileRows(files, |files|, trail);
    FilterConcat(dirRows, fileRows, AtDepth(|trail|));
    DirRowsTop(n, dirs, |dirs|, noFiles, trail, excl, maxDepth);
    FileRowsExplicit(files, |files|, trail);
    FilterAll(fileRows, AtDepth(|trail|));
    LevelSplit(dirs, files, trail);
  }

  lemma LevelSplit(dirs: seq<Node>, files: seq<Node>, trail: seq<Step>)
    ensures Level(dirs, files, trail)
      == DirHeads(dirs, |dirs|, files == [], trail)
         + seq(|files|, i requires 0 <= i < |files| => Row(trail, files[i].name, false, i == |files| - 1))
  {
  }

  /**
   * `sorted(os.listdir(path))` keeps both groups in name order; names in a
   * directory are distinct, so the order is strict.
   */
  lemma ListingSorted(n: Node, excl: set<string>)
    requires n.Dir?
    ensures SortedBy(ListedDirs(n, excl), NameOf) && SortedBy(ListedFiles(n, excl), NameOf)
    ensures WellFormed(n) ==>
      StrictlySortedBy(ListedDirs(n, excl), NameOf) && StrictlySortedBy(ListedFiles(n, excl), NameOf)
  {
    var contents := SortBy(n.children, NameOf);
    SortBySorted(n.children, NameOf);
    FilterSorted(contents, ListedDir(excl), NameOf);
    FilterSorted(contents, ListedFile(excl), NameOf);
    if WellFormed(n) {
      SortByDistinct(n.children, NameOf);
      FilterDistinct(contents, ListedDir(excl), NameOf);
      FilterDistinct(contents, ListedFile(excl), NameOf);
      SortedDistinctStrict(ListedDirs(n, excl), NameOf);
      SortedDistinctStrict(ListedFiles(n, excl), NameOf);
    }
  }

  /**
   * The carried prefix has one four-character column per ancestor: a bar
   * under an ancestor that had later siblings, blank under a last one.
   */
  lemma {:induction false} PrefixColumns(trail: seq<Step>)
    ensures |Prefix(trail)| == 4 * |trail|
    ensures forall j :: 0 <= j < |trail| ==>
      Prefix(trail)[4 * j..4 * j + 4] == (if trail[j].wasLast then Blank else Pipe)
  {
    if trail != [] {
      var t := trail[..|trail| - 1];
      PrefixColumns(t);
      var col := if trail[|trail| - 1].wasLast then Blank else Pipe;
      assert Prefix(trail) == Prefix(t) + col;
      forall j | 0 <= j < |trail|
        ensures Prefix(trail)[4 * j..4 * j + 4] == (if trail[j].wasLast then Blank else Pipe)
      {
        if j < |t| {
          assert t[j] == trail[j];
          SliceOfLeft(Prefix(t), col, 4 * j, 4 * j + 4);
        } else {
          assert 4 * j == |Prefix(t)| && |col| == 4;
          SliceOfRight(Prefix(t), col);
        }
      }
    }
  }

  lemma SliceOfRight(a: string, b: string)
    ensures (a + b)[|a|..|a| + |b|] == b
  {
  }

  lemma SliceOfLeft(a: string, b: string, i: int, j: int)
    requires 0 <= i <= j <= |a|
    ensures (a + b)[i..j] == a[i..j]
  {
  }
}
