/**
 * The configuration of the packaged tool: its defaults and the validators
 * that turn the comma-separated environment values into sets and the size
 * value into an integer.
 */
module Settings {
  import opened Wrappers
  import opened PyText
  import opened Collector

  /** The names in `EXCLUDE_DIRS`, in the order the constant lists them. */
  const ExcludeDirNames: seq<string> := [".git", "__pycache__", "node_modules", ".vscode", ".idea", "venv",
                                         "env", ".venv", ".ruff_cache", "htmlcov", ".pytest_cache"]

  /** The extensions in `EXTENSIONS`, in the order the constant lists them. */
  const ExtensionNames: seq<string> := [".py", ".js", ".jsx", ".ts", ".tsx", ".html", ".css", ".json",
                                        ".xml", ".yaml", ".yml", ".toml", ".md", ".txt"]

  /** `EXCLUDE_DIRS`: the names joined with commas. */
  const ExcludeDirsText := Join(ExcludeDirNames, ",")

  /** `EXTENSIONS`: the extensions joined with commas. */
  const ExtensionsText := Join(ExtensionNames, ",")

  /** `MAX_SIZE` */
  const MaxSize := 600000

  const DefaultMaxDepth := 3

  /** The default `extension_map`. */
  const DefaultExtensionMap: map<string, string> := map[
    ".py" := "python", ".js" := "javascript", ".jsx" := "jsx", ".ts" := "typescript", ".tsx" := "tsx",
    ".html" := "html", ".css" := "css", ".json" := "json", ".xml" := "xml", ".yaml" := "yaml",
    ".toml" := "toml", ".yml" := "yaml", ".md" := "markdown", ".txt" := "text", ".sh" := "bash",
    ".bash" := "bash", ".php" := "php", ".java" := "java", ".cpp" := "cpp", ".c" := "c", ".h" := "c",
    ".cs" := "csharp", ".rb" := "ruby", ".go" := "go", ".rs" := "rust", ".sql" := "sql"]

  /** The settings object once validated. */
  datatype Config = Config(maxSize: int, excludeDirs: set<string>, extensions: set<string>,
                           extensionMap: map<string, string>, maxDepth: int)

  /** A raw `max_size` value: an integer passed as such, or text from the environment. */
  datatype RawValue = IntValue(i: int) | TextValue(text: string)

  /** `{x.strip() for x in source.split(',')}` */
  function Pieces(source: string): (r: set<string>)
    ensures r != {}
    ensures forall x :: x in r ==> Stripped(x) && ',' !in x
  {
    var pieces := Split(source, ',');
    var r := set x | x in pieces :: Strip(x);
    assert Strip(pieces[0]) in r;
    StrippedPieces(pieces);
    r
  }

  /** Stripping comma-free pieces gives stripped, comma-free names. */
  lemma StrippedPieces(pieces: seq<string>)
    requires forall i :: 0 <= i < |pieces| ==> ',' !in pieces[i]
    ensures forall x :: x in (set p | p in pieces :: Strip(p)) ==> Stripped(x) && ',' !in x
  {
    forall p | p in pieces
      ensures ',' !in Strip(p)
    {
      if ',' in Strip(p) {
        StripKeepsChars(p, ',');
      }
    }
  }

  /**
   * The shared shape of `decode_exclude_dirs` and `decode_extensions`: a blank
   * value falls back to `fallback`; the value is split at commas and every
   * piece stripped.
   */
  function DecodeList(v: string, fallback: string): (r: set<string>)
    ensures r != {} && forall x :: x in r ==> Stripped(x) && ',' !in x
    ensures Strip(v) == "" ==> r == Pieces(fallback)
    ensures Strip(v) != "" ==> r == set p | p in Split(v, ',') :: Strip(p)
  {
    Pieces(if Strip(v) == "" then fallback else v)
  }

  /** `decode_exclude_dirs`: a blank value gives the eleven names of `EXCLUDE_DIRS`. */
  function DecodeExcludeDirs(v: string): (r: set<string>)
    ensures Strip(v) == "" ==> r == set x | x in ExcludeDirNames
    ensures Strip(v) != "" ==> r == Pieces(v)
  {
    ExcludeDirNamesClean();
    PiecesOfNames(ExcludeDirNames);
    DecodeList(v, ExcludeDirsText)
  }

  /** `decode_extensions`: a blank value gives the fourteen extensions of `EXTENSIONS`. */
  function DecodeExtensions(v: string): (r: set<string>)
    ensures Strip(v) == "" ==> r == set x | x in ExtensionNames
    ensures Strip(v) != "" ==> r == Pieces(v)
  {
    ExtensionNamesClean();
    PiecesOfNames(ExtensionNames);
    DecodeList(v, ExtensionsText)
  }

  /**
   * `decode_max_size`: an integer passes through; blank text gives
   * `MAX_SIZE`; other text goes through `int()`, where `None` stands for the
   * `ValueError` it raises.
   */
  function DecodeMaxSize(v: RawValue): (r: Option<int>)
    ensures v.IntValue? ==> r == Some(v.i)
    ensures v.TextValue? && Strip(v.text) == "" ==> r == Some(MaxSize)
    ensures v.TextValue? && Strip(v.text) != "" ==> r == ParseInt(v.text)
  {
    match v
    case IntValue(i) => Some(i)
    case TextValue(text) => if Strip(text) == "" then Some(MaxSize) else ParseInt(text)
  }

  /** Every character of a piece appears in the joined string. */
  lemma {:induction false} JoinKeepsChars(parts: seq<string>, sep: string, i: nat, c: char)
    requires i < |parts| && c in parts[i]
    ensures c in Join(parts, sep)
  {
    if i > 0 {
      JoinKeepsChars(parts[1..], sep, i - 1, c);
    }
  }

  /** Splitting a comma-joined list at its commas and stripping gives the stripped pieces. */
  lemma PiecesOfJoin(pieces: seq<string>)
    requires |pieces| >= 1
    requires forall i :: 0 <= i < |pieces| ==> ',' !in pieces[i]
    ensures Pieces(Join(pieces, ",")) == set x | x in pieces :: Strip(x)
  {
    SplitJoin(pieces, ',');
  }

  /**
   * A value that is not blank is decoded on its own: a comma-joined list gives
   * back the set of its stripped pieces.
   */
  lemma DecodeJoined(pieces: seq<string>, fallback: string)
    requires |pieces| >= 1
    requires forall i :: 0 <= i < |pieces| ==> ',' !in pieces[i]
    requires exists i :: 0 <= i < |pieces| && Strip(pieces[i]) != ""
    ensures DecodeList(Join(pieces, ","), fallback) == set x | x in pieces :: Strip(x)
  {
    var i :| 0 <= i < |pieces| && Strip(pieces[i]) != "";
    var k :| 0 <= k < |pieces[i]| && !IsSpace(pieces[i][k]);
    JoinKeepsChars(pieces, ",", i, pieces[i][k]);
    PiecesOfJoin(pieces);
  }

  /** Names without commas or surrounding blanks come back as exactly those names. */
  lemma PiecesOfNames(names: seq<string>)
    requires |names| >= 1
    requires forall i :: 0 <= i < |names| ==> ',' !in names[i] && Stripped(names[i])
    ensures Pieces(Join(names, ",")) == set x | x in names
  {
    PiecesOfJoin(names);
    forall x | x in names
      ensures Strip(x) == x
    {
      StripStable(x);
    }
  }

  /** A list of clean names, not all empty, decodes to exactly those names whatever the fallback. */
  lemma DecodeNames(names: seq<string>, fallback: string)
    requires |names| >= 1 && names[0] != ""
    requires forall i :: 0 <= i < |names| ==> ',' !in names[i] && Stripped(names[i])
    ensures DecodeList(Join(names, ","), fallback) == set x | x in names
  {
    StripStable(names[0]);
    assert Strip(names[0]) != "";
    DecodeJoined(names, fallback);
    PiecesOfJoin(names);
    assert DecodeList(Join(names, ","), fallback) == Pieces(Join(names, ","));
    PiecesOfNames(names);
  }

  /** Names made of ASCII letters, `_` and `.` need no stripping and hold no comma. */
  lemma CleanNames(names: seq<string>)
    requires forall i, k :: 0 <= i < |names| && 0 <= k < |names[i]| ==>
               'a' <= names[i][k] <= 'z' || names[i][k] == '_' || names[i][k] == '.'
    ensures forall i :: 0 <= i < |names| ==> ',' !in names[i] && Stripped(names[i])
  {
  }

  lemma ExcludeDirNamesClean()
    ensures forall i :: 0 <= i < |ExcludeDirNames| ==> ',' !in ExcludeDirNames[i] && Stripped(ExcludeDirNames[i])
  {
    CleanNames(ExcludeDirNames);
  }

  lemma ExtensionNamesClean()
    ensures forall i :: 0 <= i < |ExtensionNames| ==> ',' !in ExtensionNames[i] && Stripped(ExtensionNames[i])
  {
    CleanNames(ExtensionNames);
  }

  /** An integer written out in decimal decodes back to itself. */
  lemma DecodeMaxSizeRoundTrip(n: int)
    ensures DecodeMaxSize(TextValue(IntDecimal(n))) == Some(n)
    ensures DecodeMaxSize(IntValue(n)) == Some(n)
  {
    ParseIntRoundTrip(n);
  }

  /** The configuration when no environment variable is set. */
  function DefaultConfig(): (c: Config)
    ensures c.maxSize == 600000 && c.maxDepth == 3
    ensures c.excludeDirs == set x | x in ExcludeDirNames
    ensures c.extensions == set x | x in ExtensionNames
  {
    ExcludeDirNamesClean();
    ExtensionNamesClean();
    DecodeNames(ExcludeDirNames, ExcludeDirsText);
    DecodeNames(ExtensionNames, ExtensionsText);
    Config(MaxSize, DecodeExcludeDirs(ExcludeDirsText), DecodeExtensions(ExtensionsText),
           DefaultExtensionMap, DefaultMaxDepth)
  }

  /**
   * The arguments of `get_code_files_with_content` once every argument left
   * as `None` takes the configuration's value.
   */
  function ScanArguments(config: Config, extensions: Option<set<string>>, maxFileSize: Option<int>,
                         excludeDirs: Option<set<string>>): (s: Scan)
    ensures s.extensions == (if extensions.Some? then extensions.value else config.extensions)
    ensures s.maxFileSize == (if maxFileSize.Some? then maxFileSize.value else config.maxSize)
    ensures s.excludeDirs == (if excludeDirs.Some? then excludeDirs.value else config.excludeDirs)
    ensures s.extensionMap == config.extensionMap
  {
    Scan(if extensions.Some? then extensions.value else config.extensions,
         if maxFileSize.Some? then maxFileSize.value else config.maxSize,
         if excludeDirs.Some? then excludeDirs.value else config.excludeDirs,
         config.extensionMap)
  }

  /** With no environment variable and no argument, a scan uses the packaged defaults. */
  lemma DefaultScan()
    ensures ScanArguments(DefaultConfig(), None, None, None)
            == Scan((set x | x in ExtensionNames), 600000, (set x | x in ExcludeDirNames), DefaultExtensionMap)
  {
  }
}
