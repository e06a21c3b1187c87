/** extract_code.py: the code blocks of a DataCamp page are optionally run
    through the `black` formatter and joined with a fixed separator, and the
    output file is named after the last segment of the page's URL. The web
    driver, the HTML parser and the syntax highlighter are not modelled;
    `black.format_str` is the parameter `format`. */
module ExtractCode {
  import opened Wrappers
  import opened PyBuiltins
  import opened Strings

  /** How `black.format_str(block, mode=...)` ends: formatted text, the
      `InvalidInput` exception `format_blocks` catches, or any other
      exception, which it lets through. */
  datatype FormatOutcome = Formatted(text: string) | InvalidInput | Crashed

  /** `black.format_str` under `black.Mode(line_length=..., string_normalization=True)`. */
  type Formatter = (string, int) -> FormatOutcome

  /** The text placed between two blocks. */
  const BlockSeparator: string := "\n\n\n### ### ### ### ### ### ### ###\n"

  /** The block `format_blocks` keeps for one input block; `None` when the
      formatter raised something other than `InvalidInput`. */
  function FormatOrKeep(format: Formatter, block: string, lineLength: int): (r: Option<string>)
    ensures r.None? <==> format(block, lineLength).Crashed?
    ensures format(block, lineLength).Formatted? ==> r == Some(format(block, lineLength).text)
    ensures format(block, lineLength).InvalidInput? ==> r == Some(block)
  {
    match format(block, lineLength)
    case Formatted(text) => Some(text)
    case InvalidInput => Some(block)
    case Crashed => None
  }

  /** A formatter that leaves its own output as it is (as `black` does)
      makes formatting a second time change nothing. */
  lemma FormatOrKeepIdempotent(format: Formatter, block: string, lineLength: int)
    requires forall x, y :: format(x, lineLength) == Formatted(y) ==> format(y, lineLength) == Formatted(y)
    requires FormatOrKeep(format, block, lineLength).Some?
    ensures FormatOrKeep(format, FormatOrKeep(format, block, lineLength).value, lineLength)
         == FormatOrKeep(format, block, lineLength)
  {
  }

  /** `format_blocks`: the blocks in the same order, each formatted, or
      unchanged when `black` rejects it; `None` when `black` fails in any
      other way. */
  method FormatBlocks(format: Formatter, blocks: seq<string>, lineLength: int) returns (r: Option<seq<string>>)
    ensures r.Some? <==> forall i :: 0 <= i < |blocks| ==> !format(blocks[i], lineLength).Crashed?
    ensures r.Some? ==> |r.value| == |blocks|
    ensures r.Some? ==> forall i :: 0 <= i < |blocks| ==> Some(r.value[i]) == FormatOrKeep(format, blocks[i], lineLength)
  {
    var formattedBlocks: seq<string> := [];
    for k := 0 to |blocks|
      invariant |formattedBlocks| == k
      invariant forall i :: 0 <= i < k ==> !format(blocks[i], lineLength).Crashed?
      invariant forall i :: 0 <= i < k ==> Some(formattedBlocks[i]) == FormatOrKeep(format, blocks[i], lineLength)
    {
      var block := blocks[k];
      match format(block, lineLength)
      case Formatted(text) =>
        formattedBlocks := formattedBlocks + [text];
      case InvalidInput =>
        formattedBlocks := formattedBlocks + [block];
      case Crashed =>
        return None;
    }
    return Some(formattedBlocks);
  }

  /** The text `get_extracted_page` hands to the highlighter: the blocks,
      formatted only when a line length is given, joined by the separator. */
  method ExtractedText(format: Formatter, blocks: seq<string>, lineLength: Option<int>) returns (r: Option<string>)
    ensures lineLength.None? ==> r == Some(Join(blocks, BlockSeparator))
    ensures lineLength.Some? ==> (r.Some? <==> forall i :: 0 <= i < |blocks| ==> !format(blocks[i], lineLength.value).Crashed?)
    ensures lineLength.Some? && r.Some? ==> exists formatted: seq<string> ::
      && |formatted| == |blocks|
      && (forall i :: 0 <= i < |blocks| ==> Some(formatted[i]) == FormatOrKeep(format, blocks[i], lineLength.value))
      && r.value == Join(formatted, BlockSeparator)
  {
    var toJoin := blocks;
    if lineLength.Some? {
      var formatted := FormatBlocks(format, blocks, lineLength.value);
      if formatted.None? {
        return None;
      }
      toJoin := formatted.value;
    }
    return Some(Join(toJoin, BlockSeparator));
  }

  /** The total length of a list of strings. */
  function TotalLength(parts: seq<string>): nat
  {
    if parts == [] then 0 else TotalLength(parts[..|parts| - 1]) + |parts[|parts| - 1]|
  }

  /** Joining N pieces adds N - 1 separators and nothing else. */
  lemma {:induction false} JoinLength(parts: seq<string>, sep: string)
    requires |parts| >= 1
    ensures |Join(parts, sep)| == TotalLength(parts) + (|parts| - 1) * |sep|
  {
    if |parts| > 1 {
      var front := parts[..|parts| - 1];
      JoinLength(front, sep);
      assert TotalLength(front) == TotalLength(parts) - |parts[|parts| - 1]|;
    }
  }

  /** Each piece appears in the joined text right after the separator that
      follows the joined earlier pieces. */
  lemma JoinAppend(parts: seq<string>, sep: string, p: string)
    requires |parts| >= 1
    ensures Join(parts + [p], sep) == Join(parts, sep) + sep + p
  {
    assert (parts + [p])[..|parts|] == parts;
  }

  /** `url.split('/')[-1]`: the text after the last '/', empty exactly
      when the URL is empty or ends in '/'. */
  function LastSegment(url: string): (seg: string)
    ensures seg == url[RFind(url, '/') + 1..]
    ensures '/' !in seg
    ensures |seg| == 0 <==> |url| == 0 || url[|url| - 1] == '/'
  {
    var parts := Split(url, '/');
    SplitLast(url, '/');
    SplitPiecesWithout(url, '/');
    NothingAfterLast(url, '/');
    parts[|parts| - 1]
  }

  /** A name without '/' with ".html" added ends in ".html" and holds no
      '/'. */
  lemma WithHtml(name: string)
    requires '/' !in name
    ensures var r := name + ".html"; |r| >= 5 && r[|r| - 5..] == ".html" && '/' !in r
  {
    var r := name + ".html";
    assert r[|r| - 5..] == ".html";
    assert forall i :: 0 <= i < 5 ==> ".html"[i] != '/';
  }

  /** The fallback name ends in ".html" and holds no '/'. */
  lemma DefaultTitle()
    ensures var r := "blocks.html"; |r| >= 5 && r[|r| - 5..] == ".html" && '/' !in r
  {
  }

  /** `get_title_from_url`: the URL's last '/'-separated segment with
      ".html" added, or "blocks.html" when that segment is empty. */
  function GetTitleFromUrl(url: string): (r: string)
    ensures |r| >= 5 && r[|r| - 5..] == ".html"
    ensures '/' !in r
    ensures |url| == 0 || url[|url| - 1] == '/' ==> r == "blocks.html"
    ensures !(|url| == 0 || url[|url| - 1] == '/') ==> r == url[RFind(url, '/') + 1..] + ".html"
  {
    var urlTitle := LastSegment(url);
    if |urlTitle| > 0 then
      WithHtml(urlTitle);
      urlTitle + ".html"
    else
      DefaultTitle();
      "blocks.html"
  }

  /** A URL ending in a non-empty segment names the file after that
      segment. */
  lemma TitleNamesLastSegment(url: string, segment: string)
    requires |segment| > 0 && '/' !in segment
    ensures GetTitleFromUrl(url + "/" + segment) == segment + ".html"
  {
    var u := url + "/" + segment;
    assert u[|u| - |segment|..] == segment;
    assert u[|url|] == '/';
  }
}
