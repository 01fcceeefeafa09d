/** The document records of `document/document.go` and the pagedata file
    format: one template name per page, one per line, with a final newline.
    JSON (the `.content` file) and zip archives are not modelled; a record's
    fields other than the page count and the page ids are carried as an
    opaque map. */
module Documents {
  import opened Wrappers
  import opened GoStrings

  /** The `.content` record: `PageCount`, `Pages` (one id per page) and every
      other field, which no operation here changes. */
  datatype Content = Content(pageCount: int, pages: seq<string>, fields: map<string, string>)

  /** A document read from its archive: its uuid, its `.content`, its
      pagedata lines and its annotation files (`<uuid>/<name>` stored under
      `<name>`). The PDF bytes are not modelled. */
  datatype Document = Document(uuid: string, content: Content, pagedata: seq<string>, rmFiles: map<string, seq<bv8>>)

  /** The page count agrees with the page list. */
  predicate Consistent(c: Content)
  {
    c.pageCount == |c.pages|
  }

  /** `getPagedataFromReader`: drops the file's last byte and splits the
      rest at newlines. An empty file makes the slice bound `-1`. */
  function ParsePagedata(raw: string): Result<seq<string>>
  {
    if |raw| == 0 then Panic(IndexOutOfRange) else Ok(Split(raw[..|raw| - 1], '\n'))
  }

  /** How `WriteToFile` writes the pagedata: lines joined by newlines, plus a
      final newline. */
  function SerializePagedata(lines: seq<string>): string
  {
    Join(lines, '\n') + "\n"
  }

  /** Reading fails exactly on an empty file; otherwise there is one line more
      than there are newlines before the last byte, and no line holds a
      newline. */
  lemma ParseShape(raw: string)
    ensures ParsePagedata(raw).Ok? <==> |raw| > 0
    ensures ParsePagedata(raw).Panic? ==> ParsePagedata(raw).cause == IndexOutOfRange
    ensures ParsePagedata(raw).Ok? ==>
      && |ParsePagedata(raw).value| == CountChar(raw[..|raw| - 1], '\n') + 1
      && forall k :: 0 <= k < |ParsePagedata(raw).value| ==> '\n' !in ParsePagedata(raw).value[k]
  {
    if |raw| > 0 {
      SplitCount(raw[..|raw| - 1], '\n');
    }
  }

  /** Writing then reading gives the lines back, provided there is at least one
      and none holds a newline. */
  lemma ParseSerialize(lines: seq<string>)
    requires |lines| >= 1 && forall k :: 0 <= k < |lines| ==> '\n' !in lines[k]
    ensures ParsePagedata(SerializePagedata(lines)) == Ok(lines)
  {
    var raw := SerializePagedata(lines);
    assert raw[..|raw| - 1] == Join(lines, '\n');
    SplitJoin(lines, '\n');
  }

  /** The empty list is written as a lone newline, which reads back as one
      empty line: a document without pages does not round-trip. */
  lemma EmptyPagedata()
    ensures SerializePagedata([]) == "\n"
    ensures ParsePagedata("\n") == Ok([""])
  {
    assert "\n"[..0] == "";
  }

  /** Reading then writing gives back the file with its last byte replaced
      by a newline: the same file exactly when it ends in one. */
  lemma SerializeParse(raw: string)
    requires |raw| > 0
    ensures ParsePagedata(raw).Ok?
    ensures SerializePagedata(ParsePagedata(raw).value) == raw[..|raw| - 1] + "\n"
    ensures SerializePagedata(ParsePagedata(raw).value) == raw <==> raw[|raw| - 1] == '\n'
  {
    var body := raw[..|raw| - 1];
    JoinSplit(body, '\n');
    assert raw == body + [raw[|raw| - 1]];
    var out := body + "\n";
    assert out[|out| - 1] == '\n';
  }

  /** A file `aé` without a final newline is the bytes `a`, 0xC3, 0xA9: only
      the last byte is dropped, leaving the line `a` 0xC3. */
  lemma MultiBytePagedata()
    ensures ParsePagedata("a\U{C3}\U{A9}") == Ok(["a\U{C3}"])
  {
    var raw := "a\U{C3}\U{A9}";
    assert raw[..|raw| - 1] == "a\U{C3}";
    SplitNoSep("a\U{C3}", '\n');
  }

  /** In a well-formed file (one ending in a newline) there is one line per
      newline. */
  lemma ParsedLineCount(raw: string)
    requires |raw| > 0 && raw[|raw| - 1] == '\n'
    ensures |ParsePagedata(raw).value| == CountChar(raw, '\n')
  {
    var body := raw[..|raw| - 1];
    SplitCount(body, '\n');
    assert raw == body + "\n";
    CountCharConcat(body, "\n", '\n');
  }
}
