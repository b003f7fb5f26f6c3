/**
 * The older top-level copy of the tool. It shares the algorithms of the
 * packaged module but has its own fixed configuration: nine excluded
 * directories, thirteen extensions and an extension map without `.toml`; the
 * tree depth defaults to 3, the collector always prunes with the fixed
 * exclusion set, and a file block read in full ends with a purpose line.
 */
module Legacy {
  import opened Wrappers
  import opened PyText
  import opened Ordering
  import opened FileSystem
  import opened Content
  import opened Language
  import opened TreeRender
  import opened Collector
  import opened Formatting
  import Settings

  const LegacyMaxSize := 600000

  const LegacyMaxDepth := 3

  const LegacyExcludeDirs: set<string> := {".git", "__pycache__", "node_modules", ".vscode", ".idea", "venv",
                                            "env", ".venv", ".ruff_cache"}

  const LegacyExtensions: set<string> := {".py", ".js", ".jsx", ".ts", ".tsx", ".html", ".css", ".json",
                                           ".xml", ".yaml", ".yml", ".md", ".txt"}

  const LegacyExtensionMap: map<string, string> := map[
    ".py" := "python", ".js" := "javascript", ".jsx" := "jsx", ".ts" := "typescript", ".tsx" := "tsx",
    ".html" := "html", ".css" := "css", ".json" := "json", ".xml" := "xml", ".yaml" := "yaml",
    ".yml" := "yaml", ".md" := "markdown", ".txt" := "text", ".sh" := "bash", ".bash" := "bash",
    ".php" := "php", ".java" := "java", ".cpp" := "cpp", ".c" := "c", ".h" := "c", ".cs" := "csharp",
    ".rb" := "ruby", ".go" := "go", ".rs" := "rust", ".sql" := "sql"]

  /** The scan the top-level collector runs: its exclusion set cannot be overridden. */
  function LegacyScan(extensions: Option<set<string>>, maxFileSize: int): (s: Scan)
    ensures s.excludeDirs == LegacyExcludeDirs && s.extensionMap == LegacyExtensionMap
    ensures extensions.None? ==> s.extensions == LegacyExtensions
  {
    Scan(if extensions.Some? then extensions.value else LegacyExtensions, maxFileSize, LegacyExcludeDirs,
         LegacyExtensionMap)
  }

  /**
   * The top-level `get_directory_structure`: the exclusion set defaults to the
   * fixed one and the depth, when not passed, to 3.
   */
  method LegacyDirectoryStructure(root: Node, excl: Option<set<string>>, maxDepth: Option<int>)
    returns (structure: seq<string>)
    requires root.Dir?
    ensures |structure| >= 1 && structure[0] == root.name + "/"
    ensures structure[1..] == Lines(TreeRows(root, [], if excl.Some? then excl.value else LegacyExcludeDirs,
                                             if maxDepth.Some? then maxDepth.value else LegacyMaxDepth))
  {
    var exclude := if excl.Some? then excl.value else LegacyExcludeDirs;
    var depth := if maxDepth.Some? then maxDepth.value else LegacyMaxDepth;
    structure := GetDirectoryStructure(root, exclude, depth);
  }

  /**
   * The top-level `get_code_files_with_content`: always pruned with the fixed
   * exclusion set; the size ceiling defaults to 600000 bytes.
   */
  method LegacyCodeFiles(root: Node, extensions: Option<set<string>>, maxFileSize: Option<int>)
    returns (records: seq<FileRecord>)
    ensures records == SortBy(Collected(root, "", LegacyScan(extensions,
                                if maxFileSize.Some? then maxFileSize.value else LegacyMaxSize)), PathOf)
    ensures maxFileSize.None? ==> records == SortBy(Collected(root, "", LegacyScan(extensions, 600000)), PathOf)
    ensures SortedBy(records, PathOf)
  {
    var limit := if maxFileSize.Some? then maxFileSize.value else LegacyMaxSize;
    records := GetCodeFilesWithContent(root, LegacyScan(extensions, limit));
  }

  /** The top-level `format_file_for_ai`: the block of a file read in full ends with the purpose line. */
  method LegacyFormatFileForAi(info: FileRecord, framework: Option<string>) returns (text: string)
    ensures text == Join(FileBlock(info, framework, true), "\n")
  {
    text := FormatFileForAi(info, framework, true);
  }

  /** `.toml` is neither an extension nor a key of the map in the top-level copy. */
  lemma TomlMissing()
    ensures ".toml" !in LegacyExtensions && ".toml" !in LegacyExtensionMap
  {
  }

  /** `.toml` is both an extension and a key of the map in the packaged copy. */
  lemma TomlPresent()
    ensures ".toml" in Settings.ExtensionNames
    ensures ".toml" in Settings.DefaultExtensionMap && Settings.DefaultExtensionMap[".toml"] == "toml"
  {
    assert Settings.ExtensionNames[11] == ".toml";
  }

  /** `.toml` is a lower-case extension with a single dot. */
  lemma TomlShape()
    ensures |".toml"| >= 2 && ".toml"[0] == '.' && '.' !in ".toml"[1..] && Lower(".toml") == ".toml"
  {
    LowerWithoutCapitals(".toml");
  }

  /** No top-level extension is longer than `.toml` or a suffix of it. */
  lemma LegacyExtensionsNotTomlSuffix()
    ensures forall e :: e in LegacyExtensions ==> |e| <= 5 && !EndsWith(".toml", e)
  {
  }

  /** A string no longer than `t` that does not end `t` does not end `s + t` either. */
  lemma NotSuffixOfLonger(s: string, t: string, e: string)
    requires |e| <= |t| && !EndsWith(t, e)
    ensures !EndsWith(s + t, e)
  {
    assert (s + t)[|s + t| - |e|..] == t[|t| - |e|..];
  }

  /** The top-level collector skips a `.toml` file. */
  lemma TomlNotCollectedByLegacy(stem: string)
    ensures !MatchesExtension(stem + ".toml", LegacyExtensions)
  {
    LegacyExtensionsNotTomlSuffix();
    forall e | e in LegacyExtensions
      ensures !EndsWith(stem + ".toml", e)
    {
      NotSuffixOfLonger(stem, ".toml", e);
    }
  }

  /** The top-level copy tags a `.toml` file as plain text. */
  lemma TomlUntaggedByLegacy(stem: string)
    requires stem != [] && '.' !in stem
    ensures LanguageOf(stem + ".toml", LegacyExtensionMap) == "text"
  {
    TomlShape();
    TomlMissing();
    LanguageOfUnknownExtension(stem, ".toml", LegacyExtensionMap);
  }

  /** The packaged defaults collect a `.toml` file and tag it "toml". */
  lemma TomlCollectedByPackaged(stem: string)
    requires stem != [] && '.' !in stem
    ensures MatchesExtension(stem + ".toml", set x | x in Settings.ExtensionNames)
    ensures LanguageOf(stem + ".toml", Settings.DefaultExtensionMap) == "toml"
  {
    TomlPresent();
    assert EndsWith(stem + ".toml", ".toml");
    TomlShape();
    SuffixOfStemAndExtension(stem, ".toml");
  }
}
