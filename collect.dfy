/** `get_code_files_with_content` and `get_single_file_info`. */
module Collector {
  import opened Wrappers
  import opened PyText
  import opened Ordering
  import opened FileSystem
  import opened Content
  import opened Language

  /** The per-file dictionary (`full_path` is not modelled: nothing reads it). */
  datatype FileRecord = FileRecord(path: string, language: string, content: Option<string>,
                                   error: Option<string>, size: nat)

  /** The arguments of one scan once the defaults are filled in, and the extension map of the configuration. */
  datatype Scan = Scan(extensions: set<string>, maxFileSize: int, excludeDirs: set<string>,
                       extensionMap: map<string, string>)

  function PathOf(r: FileRecord): string
  {
    r.path
  }

  /** `any(name.endswith(ext) for ext in extensions)` */
  predicate MatchesExtension(name: string, exts: set<string>)
  {
    exists e :: e in exts && EndsWith(name, e)
  }

  /** A name matches exactly when it is some stem, possibly empty, followed by one of the extensions. */
  lemma MatchesStemAndExtension(name: string, exts: set<string>)
    ensures MatchesExtension(name, exts) <==> exists stem, e :: e in exts && name == stem + e
  {
    if MatchesExtension(name, exts) {
      var e :| e in exts && EndsWith(name, e);
      assert name == name[..|name| - |e|] + e;
    }
    if exists stem, e :: e in exts && name == stem + e {
      var stem, e :| e in exts && name == stem + e;
      assert name[|stem|..] == e;
    }
  }

  /**
   * The record for file `f` found in the directory at relative path `rel`
   * (`""` for the start directory, otherwise ending in `/`); the size is 0
   * when the file cannot be stat'ed.
   */
  function MakeRecord(f: Node, rel: string, scan: Scan): (r: FileRecord)
    requires f.File?
    ensures r.path == rel + f.name && r.language == LanguageOf(f.name, scan.extensionMap)
    ensures r.content.Some? != r.error.Some?
    ensures r.content.Some? <==> f.access.Readable? && f.size <= scan.maxFileSize
    ensures r.content.Some? ==> r.content.value == f.access.text
    ensures r.size == if f.access.StatFails? then 0 else f.size
  {
    var read := ReadFileContent(f, scan.maxFileSize);
    FileRecord(rel + f.name, LanguageOf(f.name, scan.extensionMap), read.content, read.error,
               if f.access.StatFails? then 0 else f.size)
  }

  /** The directory part `a/b/` of a relative path for the directories `via`. */
  function DirPath(via: seq<string>): string
  {
    if via == [] then "" else via[0] + "/" + DirPath(via[1..])
  }

  /** The subdirectories `os.walk` descends into once `dirs[:]` is pruned. */
  function WalkedDirs(n: Node, excl: set<string>): seq<Node>
    requires n.Dir?
  {
    Filter(Filter(n.children, IsDir), Unexcluded(excl))
  }

  /** The files `os.walk` reports for `n`. */
  function WalkedFiles(n: Node): seq<Node>
    requires n.Dir?
  {
    Filter(n.children, IsFile)
  }

  /**
   * The records the walk appends below `n`, in walk order: the matching files
   * of `n` itself, then everything below each subdirectory that is not
   * excluded; a directory that cannot be listed contributes nothing.
   */
  function Collected(n: Node, rel: string, scan: Scan): seq<FileRecord>
    decreases n, 1
  {
    if !n.Dir? || !n.readable then []
    else
      var files := WalkedFiles(n);
      var dirs := WalkedDirs(n, scan.excludeDirs);
      FileRecords(files, |files|, rel, scan) + SubtreeRecords(n, dirs, |dirs|, rel, scan)
  }

  /** The records for the matching files among `files[..k]`. */
  function FileRecords(files: seq<Node>, k: nat, rel: string, scan: Scan): seq<FileRecord>
    requires k <= |files| && forall f :: f in files ==> f.File?
  {
    if k == 0 then []
    else
      var f := files[k - 1];
      assert f in files;
      FileRecords(files, k - 1, rel, scan)
      + if MatchesExtension(f.name, scan.extensions) then [MakeRecord(f, rel, scan)] else []
  }

  /** The records below `dirs[..k]`. */
  function SubtreeRecords(parent: Node, dirs: seq<Node>, k: nat, rel: string, scan: Scan): seq<FileRecord>
    requires parent.Dir? && k <= |dirs| && forall d :: d in dirs ==> d in parent.children
    decreases parent, 0, k
  {
    if k == 0 then []
    else
      var d := dirs[k - 1];
      assert d in dirs;
      SubtreeRecords(parent, dirs, k - 1, rel, scan) + Collected(d, rel + d.name + "/", scan)
  }

  lemma WalkedMembers(n: Node, excl: set<string>)
    requires n.Dir?
    ensures forall d :: d in WalkedDirs(n, excl) <==> d in n.children && d.Dir? && d.name !in excl
    ensures forall f :: f in WalkedFiles(n) <==> f in n.children && f.File?
  {
  }

  /**
   * The `for root, dirs, files in os.walk(...)` loop from directory `n` on:
   * appends to `acc` the record of every matching file, in walk order.
   */
  method Walk(n: Node, rel: string, scan: Scan, acc: seq<FileRecord>) returns (out: seq<FileRecord>)
    ensures out == acc + Collected(n, rel, scan)
    decreases n, 1
  {
    if !n.Dir? || !n.readable {
      // os.walk skips a directory it cannot list
      return acc;
    }
    var files := WalkedFiles(n);
    var dirs := WalkedDirs(n, scan.excludeDirs);
    WalkedMembers(n, scan.excludeDirs);
    out := AppendFiles(files, rel, scan, acc);
    out := WalkSubdirs(n, dirs, rel, scan, out);
    AppendAssoc(acc, FileRecords(files, |files|, rel, scan), SubtreeRecords(n, dirs, |dirs|, rel, scan));
  }

  /** `for file in files:` one record per file whose name ends with a wanted extension. */
  method AppendFiles(files: seq<Node>, rel: string, scan: Scan, acc: seq<FileRecord>)
    returns (out: seq<FileRecord>)
    requires forall f :: f in files ==> f.File?
    ensures out == acc + FileRecords(files, |files|, rel, scan)
  {
    out := acc;
    for i := 0 to |files|
      invariant out == acc + FileRecords(files, i, rel, scan)
    {
      var file := files[i];
      assert file in files;
      ghost var before := FileRecords(files, i, rel, scan);
      if MatchesExtension(file.name, scan.extensions) {
        var record := MakeRecord(file, rel, scan);
        out := out + [record];
        AppendAssoc(acc, before, [record]);
      } else {
        assert FileRecords(files, i + 1, rel, scan) == before;
      }
    }
  }

  /** The walk's descent into the pruned `dirs`, in order. */
  method WalkSubdirs(n: Node, dirs: seq<Node>, rel: string, scan: Scan, acc: seq<FileRecord>)
    returns (out: seq<FileRecord>)
    requires n.Dir? && forall d :: d in dirs ==> d in n.children
    ensures out == acc + SubtreeRecords(n, dirs, |dirs|, rel, scan)
    decreases n, 0
  {
    out := acc;
    for i := 0 to |dirs|
      invariant out == acc + SubtreeRecords(n, dirs, i, rel, scan)
    {
      var d := dirs[i];
      assert d in dirs;
      ghost var before := SubtreeRecords(n, dirs, i, rel, scan);
      out := Walk(d, rel + d.name + "/", scan, out);
      AppendAssoc(acc, before, Collected(d, rel + d.name + "/", scan));
    }
  }

  /**
   * `get_code_files_with_content`: the records of the walk, sorted by their
   * relative path.
   */
  method GetCodeFilesWithContent(root: Node, scan: Scan) returns (records: seq<FileRecord>)
    ensures records == SortBy(Collected(root, "", scan), PathOf)
    ensures multiset(records) == multiset(Collected(root, "", scan))
    ensures SortedBy(records, PathOf)
  {
    var codeFiles := Walk(root, "", scan, []);
    assert codeFiles == Collected(root, "", scan) by {
      assert [] + Collected(root, "", scan) == Collected(root, "", scan);
    }
    records := SortBy(codeFiles, PathOf);
    SortBySorted(codeFiles, PathOf);
  }

  /**
   * `get_single_file_info`: `None` unless the whole path string ends with a
   * wanted extension; the record is named after the file alone.
   */
  function GetSingleFileInfo(fullPath: string, f: Node, scan: Scan): (r: Option<FileRecord>)
    requires f.File?
    ensures r.Some? <==> MatchesExtension(fullPath, scan.extensions)
    ensures r.Some? ==> r.value.path == f.name && r.value == MakeRecord(f, "", scan)
  {
    if !MatchesExtension(fullPath, scan.extensions) then None
    else Some(MakeRecord(f, "", scan))
  }
}
