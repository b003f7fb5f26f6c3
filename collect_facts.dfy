/**
 * What the collector returns: exactly the matching files reachable without
 * entering an excluded directory, each under its relative path, and for a
 * real directory tree no two records share a path, so the sorted output is
 * strictly increasing.
 */
module CollectorFacts {
  import opened Wrappers
  import opened PyText
  import opened Ordering
  import opened FileSystem
  import opened Collector

  /** `r` is the record of a matching file reachable from `n` through `via`. */
  ghost predicate RecordOf(n: Node, rel: string, scan: Scan, r: FileRecord)
  {
    exists via, f :: Reachable(n, via, f, scan.excludeDirs) && f.File? && MatchesExtension(f.name, scan.extensions)
                     && r == MakeRecord(f, rel + DirPath(via), scan)
  }

  /** The records of one directory's files, written out by index. */
  lemma {:induction false} FileRecordsMembers(files: seq<Node>, k: nat, rel: string, scan: Scan)
    requires k <= |files| && forall f :: f in files ==> f.File?
    ensures forall r :: r in FileRecords(files, k, rel, scan) <==>
              exists i :: 0 <= i < k && MatchesExtension(files[i].name, scan.extensions)
                          && r == MakeRecord(files[i], rel, scan)
  {
    if k > 0 {
      FileRecordsMembers(files, k - 1, rel, scan);
    }
  }

  /** Soundness: every record is that of a matching, reachable file, at its relative path. */
  lemma {:induction false} CollectedSound(n: Node, rel: string, scan: Scan)
    ensures forall r :: r in Collected(n, rel, scan) ==> RecordOf(n, rel, scan, r)
    decreases n, 1
  {
    if n.Dir? && n.readable {
      var files := WalkedFiles(n);
      var dirs := WalkedDirs(n, scan.excludeDirs);
      WalkedMembers(n, scan.excludeDirs);
      CollectedUnfold(n, rel, scan);
      FilesSound(n, rel, scan);
      SubtreeSound(n, dirs, |dirs|, rel, scan);
    }
  }

  lemma CollectedUnfold(n: Node, rel: string, scan: Scan)
    requires n.Dir? && n.readable
    ensures var files := WalkedFiles(n); var dirs := WalkedDirs(n, scan.excludeDirs);
      Collected(n, rel, scan)
      == FileRecords(files, |files|, rel, scan) + SubtreeRecords(n, dirs, |dirs|, rel, scan)
  {
  }

  lemma FilesSound(n: Node, rel: string, scan: Scan)
    requires n.Dir? && n.readable
    ensures forall r :: r in FileRecords(WalkedFiles(n), |WalkedFiles(n)|, rel, scan) ==> RecordOf(n, rel, scan, r)
  {
    var files := WalkedFiles(n);
    WalkedMembers(n, scan.excludeDirs);
    FileRecordsMembers(files, |files|, rel, scan);
    assert rel + DirPath([]) == rel;
    forall r | r in FileRecords(files, |files|, rel, scan)
      ensures RecordOf(n, rel, scan, r)
    {
      var i :| 0 <= i < |files| && MatchesExtension(files[i].name, scan.extensions)
               && r == MakeRecord(files[i], rel, scan);
      assert files[i] in files;
      assert Reachable(n, [], files[i], scan.excludeDirs);
    }
  }

  lemma {:induction false} SubtreeSound(parent: Node, dirs: seq<Node>, k: nat, rel: string, scan: Scan)
    requires parent.Dir? && parent.readable && k <= |dirs|
    requires forall d :: d in dirs ==> d in parent.children && d.Dir? && d.name !in scan.excludeDirs
    ensures forall r :: r in SubtreeRecords(parent, dirs, k, rel, scan) ==> RecordOf(parent, rel, scan, r)
    decreases parent, 0, k
  {
    if k > 0 {
      SubtreeSound(parent, dirs, k - 1, rel, scan);
      var d := dirs[k - 1];
      assert d in dirs;
      var rel' := rel + d.name + "/";
      CollectedSound(d, rel', scan);
      forall r | r in Collected(d, rel', scan)
        ensures RecordOf(parent, rel, scan, r)
      {
        var via, f :| Reachable(d, via, f, scan.excludeDirs) && f.File? && MatchesExtension(f.name, scan.extensions)
                      && r == MakeRecord(f, rel' + DirPath(via), scan);
        OneLevelUp(parent, d, via, f, scan.excludeDirs);
        DirPathCons(rel, d.name, via);
      }
    }
  }

  lemma OneLevelUp(parent: Node, d: Node, via: seq<string>, f: Node, excl: set<string>)
    requires parent.Dir? && parent.readable && d in parent.children && d.Dir? && d.name !in excl
    requires Reachable(d, via, f, excl)
    ensures Reachable(parent, [d.name] + via, f, excl)
  {
    assert ([d.name] + via)[1..] == via;
  }

  lemma DirPathCons(rel: string, name: string, via: seq<string>)
    ensures rel + name + "/" + DirPath(via) == rel + DirPath([name] + via)
  {
    assert ([name] + via)[1..] == via;
  }

  lemma {:induction false} FileRecordsContain(files: seq<Node>, k: nat, i: nat, rel: string, scan: Scan)
    requires i < k <= |files| && forall f :: f in files ==> f.File?
    requires MatchesExtension(files[i].name, scan.extensions)
    ensures MakeRecord(files[i], rel, scan) in FileRecords(files, k, rel, scan)
  {
    FileRecordsMembers(files, k, rel, scan);
  }

  lemma {:induction false} SubtreeContain(parent: Node, dirs: seq<Node>, k: nat, j: nat, rel: string, scan: Scan)
    requires parent.Dir? && j < k <= |dirs| && forall d :: d in dirs ==> d in parent.children
    ensures forall r :: r in Collected(dirs[j], rel + dirs[j].name + "/", scan) ==>
              r in SubtreeRecords(parent, dirs, k, rel, scan)
  {
    if j < k - 1 {
      SubtreeContain(parent, dirs, k - 1, j, rel, scan);
    }
  }

  /** Completeness: every matching file reachable without entering an excluded directory has its record. */
  lemma {:induction false} CollectedComplete(n: Node, rel: string, scan: Scan, via: seq<string>, f: Node)
    requires Reachable(n, via, f, scan.excludeDirs) && f.File? && MatchesExtension(f.name, scan.extensions)
    ensures MakeRecord(f, rel + DirPath(via), scan) in Collected(n, rel, scan)
    decreases n
  {
    var files := WalkedFiles(n);
    var dirs := WalkedDirs(n, scan.excludeDirs);
    WalkedMembers(n, scan.excludeDirs);
    CollectedUnfold(n, rel, scan);
    if via == [] {
      assert f in files;
      var i := IndexOf(files, f);
      FileRecordsContain(files, |files|, i, rel, scan);
      assert rel + DirPath(via) == rel;
    } else {
      var c :| c in n.children && c.Dir? && c.name == via[0] && c.name !in scan.excludeDirs
               && Reachable(c, via[1..], f, scan.excludeDirs);
      assert c in dirs;
      var j := IndexOf(dirs, c);
      CollectedComplete(c, rel + c.name + "/", scan, via[1..], f);
      SubtreeContain(n, dirs, |dirs|, j, rel, scan);
      DirPathCons(rel, c.name, via[1..]);
      SplitFirst(via);
    }
  }

  predicate StartsWith(s: string, prefix: string)
  {
    |prefix| <= |s| && s[..|prefix|] == prefix
  }

  /** Every record lies under the relative directory it was collected from. */
  lemma CollectedUnder(n: Node, rel: string, scan: Scan)
    ensures forall r :: r in Collected(n, rel, scan) ==> StartsWith(r.path, rel)
  {
    CollectedSound(n, rel, scan);
    forall r | r in Collected(n, rel, scan)
      ensures StartsWith(r.path, rel)
    {
      RecordUnder(n, rel, scan, r);
    }
  }

  lemma RecordUnder(n: Node, rel: string, scan: Scan, r: FileRecord)
    requires RecordOf(n, rel, scan, r)
    ensures StartsWith(r.path, rel)
  {
    var via, f :| Reachable(n, via, f, scan.excludeDirs) && f.File? && MatchesExtension(f.name, scan.extensions)
                  && r == MakeRecord(f, rel + DirPath(via), scan);
    RecordPathUnder(f, rel, DirPath(via), scan);
  }

  lemma RecordPathUnder(f: Node, rel: string, dir: string, scan: Scan)
    requires f.File?
    ensures StartsWith(MakeRecord(f, rel + dir, scan).path, rel)
  {
    RecordPath(f, rel + dir, scan);
    StartsWithAppend(rel, dir, f.name);
  }

  lemma RecordPath(f: Node, rel: string, scan: Scan)
    requires f.File?
    ensures MakeRecord(f, rel, scan).path == rel + f.name
  {
  }

  lemma StartsWithAppend(s: string, t: string, u: string)
    ensures StartsWith(s + t + u, s)
  {
    assert (s + t + u)[..|s|] == s;
  }

  /** Paths under two different slash-free directory names differ. */
  lemma SlashSeparates(rel: string, a: string, b: string, p1: string, p2: string)
    requires '/' !in a && '/' !in b && a != b
    requires StartsWith(p1, rel + a + "/") && StartsWith(p2, rel + b + "/")
    ensures p1 != p2
  {
    if |a| < |b| {
      assert p1[|rel| + |a|] == '/';
      assert p2[|rel| + |a|] == b[|a|];
      assert b[|a|] in b;
    } else if |b| < |a| {
      assert p2[|rel| + |b|] == '/';
      assert p1[|rel| + |b|] == a[|b|];
      assert a[|b|] in a;
    } else {
      assert p1[|rel|..|rel| + |a|] == a;
      assert p2[|rel|..|rel| + |b|] == b;
    }
  }

  lemma SiblingPaths(rel: string, a: string, b: string)
    requires a != b
    ensures rel + a != rel + b
  {
    assert (rel + a)[|rel|..] == a;
    assert (rel + b)[|rel|..] == b;
  }

  /** A file directly in a directory and a path below one of its subdirectories differ. */
  lemma FileBesideDir(rel: string, name: string, d: string, p: string)
    requires '/' !in name && StartsWith(p, rel + d + "/")
    ensures rel + name != p
  {
    if |name| > |d| {
      assert p[|rel| + |d|] == '/';
      assert (rel + name)[|rel| + |d|] == name[|d|];
      assert name[|d|] in name;
    }
  }

  lemma {:induction false} FileRecordsDistinct(files: seq<Node>, k: nat, rel: string, scan: Scan)
    requires k <= |files| && forall f :: f in files ==> f.File?
    requires DistinctBy(files, NameOf)
    ensures DistinctBy(FileRecords(files, k, rel, scan), PathOf)
  {
    if k > 0 {
      FileRecordsDistinct(files, k - 1, rel, scan);
      var before := FileRecords(files, k - 1, rel, scan);
      var f := files[k - 1];
      assert f in files;
      if MatchesExtension(f.name, scan.extensions) {
        var x := MakeRecord(f, rel, scan);
        LaterFileRecord(files, k - 1, rel, scan);
      }
    }
  }

  /** The record of `files[k]` has a path different from every record of `files[..k]`. */
  lemma LaterFileRecord(files: seq<Node>, k: nat, rel: string, scan: Scan)
    requires k < |files| && forall f :: f in files ==> f.File?
    requires DistinctBy(files, NameOf) && DistinctBy(FileRecords(files, k, rel, scan), PathOf)
    ensures DistinctBy(FileRecords(files, k, rel, scan) + [MakeRecord(files[k], rel, scan)], PathOf)
  {
    var f := files[k];
    assert f in files;
    RecordPath(f, rel, scan);
    forall y | y in FileRecords(files, k, rel, scan)
      ensures PathOf(y) != PathOf(MakeRecord(f, rel, scan))
    {
      var i := FileRecordIndex(files, k, rel, scan, y);
      RecordPath(files[i], rel, scan);
      assert NameOf(files[i]) != NameOf(files[k]);
      SiblingPaths(rel, files[i].name, f.name);
    }
    DistinctSnoc(FileRecords(files, k, rel, scan), MakeRecord(f, rel, scan), PathOf);
  }

  /**
   * In a real directory tree (names free of `/`, distinct within a
   * directory) no two records share a path.
   */
  lemma {:induction false} CollectedDistinct(n: Node, rel: string, scan: Scan)
    requires WellFormed(n)
    ensures DistinctBy(Collected(n, rel, scan), PathOf)
    decreases n, 1
  {
    if n.Dir? && n.readable {
      var files := WalkedFiles(n);
      var dirs := WalkedDirs(n, scan.excludeDirs);
      WalkedMembers(n, scan.excludeDirs);
      CollectedUnfold(n, rel, scan);
      FilterDistinct(n.children, IsFile, NameOf);
      FilterDistinct(n.children, IsDir, NameOf);
      FilterDistinct(Filter(n.children, IsDir), Unexcluded(scan.excludeDirs), NameOf);
      FileRecordsDistinct(files, |files|, rel, scan);
      SubtreeDistinct(n, dirs, |dirs|, rel, scan);
      FilesBesideSubtrees(n, rel, scan);
      DistinctConcat(FileRecords(files, |files|, rel, scan), SubtreeRecords(n, dirs, |dirs|, rel, scan), PathOf);
    }
  }

  /** No record of a directory's own files shares its path with a record from below a subdirectory. */
  lemma FilesBesideSubtrees(n: Node, rel: string, scan: Scan)
    requires WellFormed(n) && n.Dir?
    ensures var files := WalkedFiles(n); var dirs := WalkedDirs(n, scan.excludeDirs);
      forall x, y :: x in FileRecords(files, |files|, rel, scan) && y in SubtreeRecords(n, dirs, |dirs|, rel, scan)
        ==> PathOf(x) != PathOf(y)
  {
    var files := WalkedFiles(n);
    var dirs := WalkedDirs(n, scan.excludeDirs);
    forall x, y | x in FileRecords(files, |files|, rel, scan) && y in SubtreeRecords(n, dirs, |dirs|, rel, scan)
      ensures PathOf(x) != PathOf(y)
    {
      var i := FileRecordIndex(files, |files|, rel, scan, x);
      var j := SubtreeIndex(n, dirs, |dirs|, rel, scan, y);
      WalkedMembers(n, scan.excludeDirs);
      assert files[i] in files;
      RecordBesideDir(n, files[i], rel, dirs[j].name, scan, y.path);
    }
  }

  /** The position of the file a record of `files[..k]` was made from. */
  lemma FileRecordIndex(files: seq<Node>, k: nat, rel: string, scan: Scan, x: FileRecord) returns (i: nat)
    requires k <= |files| && forall f :: f in files ==> f.File?
    requires x in FileRecords(files, k, rel, scan)
    ensures i < k && x == MakeRecord(files[i], rel, scan)
  {
    FileRecordsMembers(files, k, rel, scan);
    i :| 0 <= i < k && MatchesExtension(files[i].name, scan.extensions) && x == MakeRecord(files[i], rel, scan);
  }

  /** The position of the directory a record from below `dirs[..k]` lies under. */
  lemma SubtreeIndex(parent: Node, dirs: seq<Node>, k: nat, rel: string, scan: Scan, y: FileRecord) returns (j: nat)
    requires parent.Dir? && k <= |dirs| && forall d :: d in dirs ==> d in parent.children
    requires y in SubtreeRecords(parent, dirs, k, rel, scan)
    ensures j < k && StartsWith(y.path, rel + dirs[j].name + "/")
  {
    SubtreeUnder(parent, dirs, k, rel, scan);
    j :| 0 <= j < k && StartsWith(y.path, rel + dirs[j].name + "/");
  }

  /** The record of a file of `n` is not at a path below a directory of `n`. */
  lemma RecordBesideDir(n: Node, f: Node, rel: string, d: string, scan: Scan, p: string)
    requires WellFormed(n) && n.Dir? && f in n.children && f.File? && StartsWith(p, rel + d + "/")
    ensures MakeRecord(f, rel, scan).path != p
  {
    RecordPath(f, rel, scan);
    FileBesideDir(rel, f.name, d, p);
  }

  /** Every record from below `dirs[..k]` lies under one of those directories. */
  lemma {:induction false} SubtreeUnder(parent: Node, dirs: seq<Node>, k: nat, rel: string, scan: Scan)
    requires parent.Dir? && k <= |dirs| && forall d :: d in dirs ==> d in parent.children
    ensures forall r :: r in SubtreeRecords(parent, dirs, k, rel, scan) ==>
              exists j :: 0 <= j < k && StartsWith(r.path, rel + dirs[j].name + "/")
  {
    if k > 0 {
      SubtreeUnder(parent, dirs, k - 1, rel, scan);
      CollectedUnder(dirs[k - 1], rel + dirs[k - 1].name + "/", scan);
    }
  }

  lemma {:induction false} SubtreeDistinct(parent: Node, dirs: seq<Node>, k: nat, rel: string, scan: Scan)
    requires parent.Dir? && k <= |dirs| && forall d :: d in dirs ==> d in parent.children
    requires forall d :: d in dirs ==> WellFormed(d)
    requires DistinctBy(dirs, NameOf)
    ensures DistinctBy(SubtreeRecords(parent, dirs, k, rel, scan), PathOf)
    decreases parent, 0, k
  {
    if k > 0 {
      SubtreeDistinct(parent, dirs, k - 1, rel, scan);
      SubtreeUnder(parent, dirs, k - 1, rel, scan);
      var d := dirs[k - 1];
      assert d in dirs;
      var rel' := rel + d.name + "/";
      var before := SubtreeRecords(parent, dirs, k - 1, rel, scan);
      var below := Collected(d, rel', scan);
      CollectedDistinct(d, rel', scan);
      CollectedUnder(d, rel', scan);
      forall x, y | x in before && y in below
        ensures PathOf(x) != PathOf(y)
      {
        var j :| 0 <= j < k - 1 && StartsWith(x.path, rel + dirs[j].name + "/");
        assert dirs[j] in dirs;
        assert dirs[j].name != d.name;
        SlashSeparates(rel, dirs[j].name, d.name, x.path, y.path);
      }
      DistinctConcat(before, below, PathOf);
    }
  }

  /** For a real directory tree the sorted output is strictly increasing by path. */
  lemma OutputStrictlySorted(root: Node, scan: Scan)
    requires WellFormed(root)
    ensures StrictlySortedBy(SortBy(Collected(root, "", scan), PathOf), PathOf)
  {
    CollectedDistinct(root, "", scan);
    SortByStrict(Collected(root, "", scan), PathOf);
  }

  /**
   * For extensions without `/`, testing the whole path string (as
   * `get_single_file_info` does) agrees with testing the file name (as the
   * walk does).
   */
  lemma MatchesByName(dir: string, name: string, exts: set<string>)
    requires forall e :: e in exts ==> '/' !in e
    ensures MatchesExtension(dir + "/" + name, exts) <==> MatchesExtension(name, exts)
  {
    var full := dir + "/" + name;
    if MatchesExtension(full, exts) {
      var e :| e in exts && EndsWith(full, e);
      if |e| > |name| {
        SlashInLongSuffix(dir, name, e);
        assert false;
      }
      assert name[|name| - |e|..] == full[|full| - |e|..];
      assert EndsWith(name, e);
    }
    if MatchesExtension(name, exts) {
      var e :| e in exts && EndsWith(name, e);
      assert full[|full| - |e|..] == name[|name| - |e|..];
      assert EndsWith(full, e);
    }
  }

  /** A suffix of `dir/name` longer than `name` takes in the separating `/`. */
  lemma SlashInLongSuffix(dir: string, name: string, e: string)
    requires EndsWith(dir + "/" + name, e) && |e| > |name|
    ensures '/' in e
  {
    var full := dir + "/" + name;
    assert full[|full| - |name| - 1] == '/';
    assert e[|e| - |name| - 1] == full[|full| - |name| - 1];
  }

  /**
   * A file directly in the start directory, named by its full path, gets a
   * record exactly when the walk would collect it, and then the same record.
   */
  lemma SingleFileAgreesWithWalk(root: Node, dir: string, f: Node, scan: Scan)
    requires root.Dir? && root.readable && f in root.children && f.File?
    requires forall e :: e in scan.extensions ==> '/' !in e
    ensures var info := GetSingleFileInfo(dir + "/" + f.name, f, scan);
      (info.Some? <==> MatchesExtension(f.name, scan.extensions))
      && (info.Some? ==> info.value in Collected(root, "", scan))
  {
    MatchesByName(dir, f.name, scan.extensions);
    if MatchesExtension(f.name, scan.extensions) {
      assert Reachable(root, [], f, scan.excludeDirs);
      CollectedComplete(root, "", scan, [], f);
      assert "" + DirPath([]) == "";
    }
  }
}
