/**
 * The text the tool hands to an assistant: the cleaned-up question, one
 * Markdown block per file, and the command's filter that drops files whose
 * content was skipped for being too large.
 */
module Formatting {
  import opened Wrappers
  import opened PyText
  import opened Ordering
  import opened FileSystem
  import opened Content
  import opened Collector

  /** Python truthiness of an optional string: present and non-empty. */
  predicate Truthy(s: Option<string>)
  {
    s.Some? && s.value != ""
  }

  /** The characters that already end a question. */
  predicate EndsSentence(s: string)
  {
    s != [] && s[|s| - 1] in ".!?:"
  }

  /**
   * `format_question_for_output`: no question gives the empty string;
   * otherwise the stripped question, with a full stop added when it does not
   * already end in `.`, `!`, `?` or `:`.
   */
  function FormatQuestion(q: Option<string>): (r: string)
    ensures r == "" <==> q.None? || Strip(q.value) == ""
    ensures r != "" ==> EndsSentence(r) && Stripped(r)
    ensures q.Some? && EndsSentence(Strip(q.value)) ==> r == Strip(q.value)
    ensures q.Some? && Strip(q.value) != "" && !EndsSentence(Strip(q.value)) ==>
              r[..|r| - 1] == Strip(q.value) && r[|r| - 1] == '.'
  {
    if !Truthy(q) then ""
    else
      var t := Strip(q.value);
      if t != "" && !EndsSentence(t) then t + "." else t
  }

  /** Formatting an already formatted question changes nothing. */
  lemma FormatQuestionIdempotent(q: Option<string>)
    ensures FormatQuestion(Some(FormatQuestion(q))) == FormatQuestion(q)
  {
    var r := FormatQuestion(q);
    if r != "" {
      StripStable(r);
    }
  }

  /** The closing line of the block for a file read in full, in the top-level copy only. */
  const PurposeLine := "**Purpose:** [Brief description of what this file does]"

  const NoContentLine := "*No content available*"

  const Fence := "```"

  /** The line starts with three backticks, as both fence lines do. */
  predicate OpensFence(line: string)
  {
    |line| >= 3 && line[..3] == Fence
  }

  function FrameworkLine(framework: string): string
  {
    "**Framework:** " + framework
  }

  function FileLine(path: string): string
  {
    "**File:** " + path
  }

  function NoteLine(error: string): string
  {
    "*Note: " + error + "*"
  }

  /** Lines of the file block before its body: the framework when given, the path and a blank line. */
  function Header(info: FileRecord, framework: Option<string>): (r: seq<string>)
    ensures |r| == if Truthy(framework) then 3 else 2
  {
    (if Truthy(framework) then [FrameworkLine(framework.value)] else []) + [FileLine(info.path), ""]
  }

  /**
   * The body of a file block: the error note when there is an error, otherwise
   * the fenced content tagged with the language (and, with `withPurpose`, the
   * purpose line), otherwise the no-content marker.
   */
  function Body(info: FileRecord, withPurpose: bool): seq<string>
  {
    if Truthy(info.error) then [NoteLine(info.error.value), ""]
    else if info.content.Some? then
      [Fence + info.language, info.content.value, Fence, ""] + (if withPurpose then [PurposeLine] else [])
    else [NoContentLine]
  }

  /** The lines of the block that `format_file_for_ai` joins with newlines. */
  function FileBlock(info: FileRecord, framework: Option<string>, withPurpose: bool): seq<string>
  {
    Header(info, framework) + Body(info, withPurpose)
  }

  /**
   * `format_file_for_ai`: appends the block's lines to `output` one by one and
   * joins them with newlines; `withPurpose` selects the top-level copy's
   * purpose line.
   */
  method FormatFileForAi(info: FileRecord, framework: Option<string>, withPurpose: bool)
    returns (text: string)
    ensures text == Join(FileBlock(info, framework, withPurpose), "\n")
  {
    var output: seq<string> := [];
    if framework.Some? && framework.value != "" {
      output := output + [FrameworkLine(framework.value)];
    }
    output := output + [FileLine(info.path)];
    output := output + [""];
    ghost var header := output;
    assert header == Header(info, framework);
    if info.error.Some? && info.error.value != "" {
      output := output + [NoteLine(info.error.value)];
      output := output + [""];
      assert output == header + Body(info, withPurpose);
    } else if info.content.Some? {
      output := output + [Fence + info.language];
      output := output + [info.content.value];
      output := output + [Fence];
      output := output + [""];
      if withPurpose {
        output := output + [PurposeLine];
      }
      assert output == header + Body(info, withPurpose);
    } else {
      output := output + [NoContentLine];
      assert output == header + Body(info, withPurpose);
    }
    text := Join(output, "\n");
  }

  /**
   * The block opens with the framework line exactly when a framework is given,
   * and then names the file's path followed by a blank line.
   */
  lemma BlockHeader(info: FileRecord, framework: Option<string>, withPurpose: bool)
    ensures var b := FileBlock(info, framework, withPurpose);
      var h := if Truthy(framework) then 1 else 0;
      |b| >= h + 3
      && (Truthy(framework) ==> b[0] == FrameworkLine(framework.value))
      && b[h] == FileLine(info.path) && b[h + 1] == ""
  {
  }

  /**
   * An error wins over content: with a non-empty error the block shows the note
   * and is the same whatever the content is; no line of it starts with a fence.
   */
  lemma ErrorWins(info: FileRecord, framework: Option<string>, withPurpose: bool, other: Option<string>)
    requires Truthy(info.error)
    ensures var b := FileBlock(info, framework, withPurpose);
      b == FileBlock(info.(content := other), framework, withPurpose)
      && NoteLine(info.error.value) in b
      && forall i :: 0 <= i < |b| ==> b[i] != Fence && !OpensFence(b[i])
  {
    var b := FileBlock(info, framework, withPurpose);
    assert b == Header(info, framework) + [NoteLine(info.error.value), ""];
    forall i | 0 <= i < |b|
      ensures b[i] != Fence && !OpensFence(b[i])
    {
      if b[i] != "" {
        assert b[i][0] == '*';
      }
    }
  }

  /**
   * The content is shown, verbatim between a language-tagged opening fence and
   * a closing fence, exactly when there is no error and the file was read.
   */
  lemma ContentFenced(info: FileRecord, framework: Option<string>, withPurpose: bool)
    ensures var b := FileBlock(info, framework, withPurpose);
      var h := |Header(info, framework)|;
      (!Truthy(info.error) && info.content.Some?) <==>
        (|b| >= h + 4 && b[h] == Fence + info.language && b[h + 2] == Fence)
    ensures var b := FileBlock(info, framework, withPurpose);
      var h := |Header(info, framework)|;
      !Truthy(info.error) && info.content.Some? ==> b[h + 1] == info.content.value
  {
    var b := FileBlock(info, framework, withPurpose);
    var h := |Header(info, framework)|;
    assert b[h..] == Body(info, withPurpose);
    if Truthy(info.error) {
      assert b[h] == NoteLine(info.error.value);
      assert NoteLine(info.error.value)[0] == '*';
    } else if info.content.None? {
      assert |b| == h + 1;
    }
  }

  /**
   * The block ends in the purpose line exactly in the top-level copy's
   * content branch.
   */
  lemma PurposeOnlyWithContent(info: FileRecord, framework: Option<string>, withPurpose: bool)
    ensures var b := FileBlock(info, framework, withPurpose);
      b[|b| - 1] == PurposeLine <==> withPurpose && !Truthy(info.error) && info.content.Some?
  {
    var b := FileBlock(info, framework, withPurpose);
    var h := |Header(info, framework)|;
    assert b[h..] == Body(info, withPurpose);
    if Truthy(info.error) {
      assert b[|b| - 1] == "";
    } else if info.content.Some? && !withPurpose {
      assert b[|b| - 1] == "";
    } else if info.content.None? {
      assert b[|b| - 1] == NoContentLine;
      assert |NoContentLine| != |PurposeLine|;
    }
  }

  /** `c * n` for a one-character string `c`. */
  function Repeat(c: char, n: nat): (s: string)
    ensures |s| == n && forall i :: 0 <= i < n ==> s[i] == c
  {
    if n == 0 then "" else Repeat(c, n - 1) + [c]
  }

  /** `"-" * 80`, the rule printed after each file block. */
  const Rule := Repeat('-', 80)

  /**
   * The command's filter: without `--include-large`, a file whose error
   * mentions "too large" is skipped.
   */
  predicate Shown(info: FileRecord, includeLarge: bool): (b: bool)
    ensures includeLarge || info.error.None? || info.error.value == "" ==> b
    ensures !includeLarge && info.error.Some? ==> (b <==> !Contains(info.error.value, "too large"))
  {
    includeLarge || !(Truthy(info.error) && Contains(info.error.value, "too large"))
  }

  function ShownWith(includeLarge: bool): FileRecord -> bool
  {
    info => Shown(info, includeLarge)
  }

  /** The three output lines for one shown file: its joined block, the rule and a blank line. */
  function Section(info: FileRecord, framework: Option<string>, withPurpose: bool): seq<string>
  {
    [Join(FileBlock(info, framework, withPurpose), "\n"), Rule, ""]
  }

  function SectionOf(framework: Option<string>, withPurpose: bool): FileRecord -> seq<string>
  {
    info => Section(info, framework, withPurpose)
  }

  /** The sections of `files`, in order. */
  function Sections(files: seq<FileRecord>, framework: Option<string>, withPurpose: bool): seq<string>
  {
    ConcatMap(files, SectionOf(framework, withPurpose))
  }

  /**
   * The output for a list of files is the outputs for its parts, one after the
   * other.
   */
  lemma SectionsConcat(a: seq<FileRecord>, b: seq<FileRecord>, framework: Option<string>, withPurpose: bool)
    ensures Sections(a + b, framework, withPurpose)
            == Sections(a, framework, withPurpose) + Sections(b, framework, withPurpose)
  {
    ConcatMapAppend(a, b, SectionOf(framework, withPurpose));
  }

  /** Each shown file contributes exactly three lines. */
  lemma {:induction false} SectionsLength(files: seq<FileRecord>, framework: Option<string>, withPurpose: bool)
    ensures |Sections(files, framework, withPurpose)| == 3 * |files|
  {
    if files != [] {
      SectionsLength(files[..|files| - 1], framework, withPurpose);
    }
  }

  /**
   * The loop over the collected files: each file that passes the filter adds its
   * formatted block, a rule and a blank line to `output`, in order.
   */
  method AppendFileSections(files: seq<FileRecord>, includeLarge: bool, framework: Option<string>,
                            withPurpose: bool, output: seq<string>)
    returns (out: seq<string>)
    ensures out == output + Sections(Filter(files, ShownWith(includeLarge)), framework, withPurpose)
  {
    out := output;
    for i := 0 to |files|
      invariant out == output + Sections(Filter(files[..i], ShownWith(includeLarge)), framework, withPurpose)
    {
      var info := files[i];
      ghost var shown := ShownWith(includeLarge);
      ghost var kept := Filter(files[..i], shown);
      FilterSnoc(files[..i], info, shown);
      TakeSnoc(files, i);
      if !includeLarge && info.error.Some? && info.error.value != "" && Contains(info.error.value, "too large") {
        assert !shown(info);
        assert Filter(files[..i + 1], shown) == kept;
        continue;
      }
      assert shown(info);
      assert Filter(files[..i + 1], shown) == kept + [info];
      var formatted := FormatFileForAi(info, framework, withPurpose);
      ConcatMapSnoc(kept, info, SectionOf(framework, withPurpose));
      AppendAssoc(output, Sections(kept, framework, withPurpose), Section(info, framework, withPurpose));
      out := out + [formatted, Rule, ""];
    }
    assert files[..|files|] == files;
  }

  /** With `--include-large` every collected file is shown. */
  lemma IncludeLargeKeepsAll(files: seq<FileRecord>)
    ensures Filter(files, ShownWith(true)) == files
  {
    FilterAll(files, ShownWith(true));
  }

  /**
   * Without `--include-large`, a collected file that could be stat'ed and is
   * over the ceiling is dropped, and one read in full is kept.
   */
  lemma TooLargeDropped(f: Node, rel: string, scan: Scan)
    requires f.File?
    ensures !f.access.StatFails? && f.size > scan.maxFileSize ==> !Shown(MakeRecord(f, rel, scan), false)
    ensures f.access.Readable? && f.size <= scan.maxFileSize ==> Shown(MakeRecord(f, rel, scan), false)
  {
    if !f.access.StatFails? && f.size > scan.maxFileSize {
      TooLargeMessageReportsSize(f.size);
    }
  }

  /** The filter keeps the collector's order by path. */
  lemma FilterKeepsOrder(files: seq<FileRecord>, includeLarge: bool)
    requires SortedBy(files, PathOf)
    ensures SortedBy(Filter(files, ShownWith(includeLarge)), PathOf)
  {
    FilterSorted(files, ShownWith(includeLarge), PathOf);
  }
}
