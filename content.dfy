/** `read_file_content`: the size ceiling and the captured errors. */
module Content {
  import opened Wrappers
  import opened PyText
  import opened FileSystem

  /** The `(content, error)` pair the Python function returns. */
  datatype ReadResult = ReadResult(content: Option<string>, error: Option<string>)

  const ErrorPrefix := "Error reading file: "

  /** The message for a file over the ceiling; it carries the file's real size. */
  function TooLargeMessage(size: nat): string
  {
    "File too large (" + Decimal(size) + " bytes), skipping content"
  }

  /**
   * Stat the file; over `maxSize` bytes gives the too-large message, otherwise
   * read it; any exception on the way becomes an "Error reading file" message.
   */
  function ReadFileContent(f: Node, maxSize: int): (r: ReadResult)
    requires f.File?
    ensures r.content.Some? != r.error.Some?
    ensures r.content.Some? <==> f.access.Readable? && f.size <= maxSize
    ensures r.content.Some? ==> r.content.value == f.access.text
    ensures r.error.Some? ==>
              (!f.access.StatFails? && f.size > maxSize && r.error.value == TooLargeMessage(f.size))
              || (!f.access.Readable? && r.error.value == ErrorPrefix + f.access.message)
    // The size is checked before the file is opened: over the ceiling wins over an open failure.
    ensures !f.access.StatFails? && f.size > maxSize ==> r == ReadResult(None, Some(TooLargeMessage(f.size)))
    ensures f.access.StatFails? || (f.access.OpenFails? && f.size <= maxSize) ==>
              r == ReadResult(None, Some(ErrorPrefix + f.access.message))
  {
    match f.access
    case StatFails(message) => ReadResult(None, Some(ErrorPrefix + message))
    case _ =>
      if f.size > maxSize then ReadResult(None, Some(TooLargeMessage(f.size)))
      else match f.access
        case OpenFails(message) => ReadResult(None, Some(ErrorPrefix + message))
        case Readable(text) => ReadResult(Some(text), None)
  }

  /** The ceiling is inclusive: a readable file of exactly `maxSize` bytes is read, one byte more is not. */
  lemma LimitBoundary(f: Node, maxSize: nat)
    requires f.File? && f.access.Readable?
    ensures f.size == maxSize ==> ReadFileContent(f, maxSize) == ReadResult(Some(f.access.text), None)
    ensures f.size == maxSize + 1 ==>
              ReadFileContent(f, maxSize) == ReadResult(None, Some(TooLargeMessage(maxSize + 1)))
  {
  }

  /** The digits in the too-large message read back as the file's size, and the message says "too large". */
  lemma TooLargeMessageReportsSize(size: nat)
    ensures var m := TooLargeMessage(size);
            var digits := m[16..|m| - 25];
            AllDigits(digits) && DigitsValue(digits) == size
    ensures Contains(TooLargeMessage(size), "too large")
  {
    var m := TooLargeMessage(size);
    assert m[16..|m| - 25] == Decimal(size);
    DecimalRoundTrip(size);
    assert OccursAt(m, "too large", 5);
  }
}
