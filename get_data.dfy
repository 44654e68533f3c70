/** The sentence extractor (`get_sentences`): read a text file, strip every
    line, and deduplicate. The file system is a parameter that maps a path to
    the file's lines (`file.readlines()`), or to `None` when opening or
    reading fails. */
module GetData {
  import opened Collections
  import opened Text

  /** The path used when the caller gives none. */
  const DefaultPath: string := "data/contact_data.txt"

  /** `[line.strip() for line in lines]`. */
  function StripLines(raw: seq<string>): (r: seq<string>)
  {
    seq(|raw|, k requires 0 <= k < |raw| => Strip(raw[k]))
  }

  /** The `lines` result: the stripped lines of the file at the resolved path,
      or no lines at all when the read fails. */
  function LinesRead(filePath: Option<string>, readLines: string -> Option<seq<string>>): seq<string>
  {
    var path := if filePath.None? then DefaultPath else filePath.value;
    match readLines(path)
    case None => []
    case Some(raw) => StripLines(raw)
  }

  /** `get_sentences`: `lines` holds the stripped lines of the file, and
      `sentences` each distinct stripped line exactly once (`list(set(lines))`;
      Python gives the list no particular order, and nothing here depends on
      the order this loop happens to produce). A failed read yields two empty
      lists instead of an exception. */
  method GetSentences(filePath: Option<string>, readLines: string -> Option<seq<string>>)
    returns (sentences: seq<string>, lines: seq<string>)
    ensures lines == LinesRead(filePath, readLines)
    ensures forall k :: 0 <= k < |lines| ==> IsStripped(lines[k])
    ensures NoDup(sentences)
    ensures Elems(sentences) == Elems(lines)
    ensures |sentences| == |Elems(lines)| <= |lines|
    ensures readLines(if filePath.None? then DefaultPath else filePath.value).None? ==>
      sentences == [] && lines == []
  {
    var path := filePath;
    if path.None? {
      path := Some(DefaultPath);
    }
    lines := [];
    match readLines(path.value) {
      case Some(raw) =>
        lines := raw;
        lines := StripLines(lines);
      case None =>
    }
    sentences := Deduplicate(lines);
  }

  /** `list(set(lines))`: every distinct line exactly once. Python gives the
      list no particular order; this loop keeps first occurrences, and nothing
      stated here depends on that choice. */
  method Deduplicate(lines: seq<string>) returns (sentences: seq<string>)
    ensures NoDup(sentences)
    ensures Elems(sentences) == Elems(lines)
    ensures |sentences| == |Elems(lines)| <= |lines|
  {
    sentences := [];
    for i := 0 to |lines|
      invariant NoDup(sentences)
      invariant Elems(sentences) == Elems(lines[..i])
    {
      assert lines[..i + 1] == lines[..i] + [lines[i]];
      ElemsAppend(lines[..i], lines[i]);
      if lines[i] !in sentences {
        ElemsAppend(sentences, lines[i]);
        sentences := sentences + [lines[i]];
      }
    }
    assert lines[..|lines|] == lines;
    ElemsCard(sentences);
    ElemsCard(lines);
  }

  /** A file of identical lines (five copies of "call me back", say) keeps
      every copy in `lines` and yields a single distinct sentence. */
  lemma IdenticalLines(raw: seq<string>, x: string)
    requires |raw| > 0
    requires forall k :: 0 <= k < |raw| ==> raw[k] == x
    ensures |StripLines(raw)| == |raw|
    ensures Elems(StripLines(raw)) == {Strip(x)}
    ensures |Elems(StripLines(raw))| == 1
  {
    var r := StripLines(raw);
    var t := Strip(x);
    assert forall k :: 0 <= k < |r| ==> r[k] == t;
    ElemsConstant(r, t);
  }
}
