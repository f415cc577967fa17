/** Reading a text file page by page. A page is cut only between physical lines, except that a first
    line too long for a page is shown by its beginning. */
module FileReading {
  import opened Wrappers
  import opened Utf8
  import opened TextTruncation

  const DEFAULT_MAX_LINES: nat := 2000

  datatype ReadError = RangeMismatch | StartBeforeFirstLine

  /** `parts` are the selected lines, joined without separator since each carries its own ending. */
  datatype Page = Page(
    parts: seq<string>, endLine: int, totalLines: nat, truncatedBy: Option<Cause>,
    firstLineExceedsLimit: bool, nextStartLine: Option<int>)

  function Min(a: int, b: int): int {
    if a <= b then a else b
  }

  /** The line after the last one asked for. */
  function Stop(lines: seq<string>, end: Option<int>): (r: int)
    ensures r <= |lines|
  {
    if end.Some? then Min(end.value, |lines|) else |lines|
  }

  /** The requested lines that exist, counting from 1. */
  function Requested(lines: seq<string>, start: int, end: Option<int>): seq<string>
    requires start >= 1
  {
    if start <= Stop(lines, end) then lines[start - 1..Stop(lines, end)] else []
  }

  function TotalSize(lines: seq<string>): nat {
    if lines == [] then 0 else TotalSize(lines[..|lines| - 1]) + Size(lines[|lines| - 1])
  }

  /** What a page shows of a line: the line, or the beginning of one that exceeds a whole page. */
  ghost predicate Shown(line: string, part: string, maxBytes: int) {
    if Size(line) <= maxBytes then part == line
    else exists t :: IsHead(t, line, DEFAULT_MAX_LINES, AtLeastOne(maxBytes)) && part == t.content
  }

  /** The page's parts are as many of the requested lines as the limits allow, at least one if there
      is one. */
  ghost predicate Fills(asked: seq<string>, parts: seq<string>, cause: Option<Cause>, exceeds: bool, maxBytes: int) {
    var k := |parts|;
    && k <= |asked| && k <= DEFAULT_MAX_LINES
    && (forall i | 0 <= i < k :: Shown(asked[i], parts[i], maxBytes))
    && if exceeds then
         k == 1 && Size(asked[0]) > maxBytes && cause == Some(ByBytes)
       else
         && parts == asked[..k] && (k > 0 ==> TotalSize(parts) <= maxBytes)
         && match cause
            case None => k == |asked|
            case Some(ByLines) => k < |asked| && k == DEFAULT_MAX_LINES
            case Some(ByBytes) => 0 < k < |asked| && TotalSize(asked[..k + 1]) > maxBytes
  }

  /** What a page is, whatever loop computes it. */
  ghost predicate IsPage(lines: seq<string>, start: int, end: Option<int>, maxBytes: int, p: Page)
    requires start >= 1
  {
    var asked := Requested(lines, start, end);
    && p.totalLines == |lines|
    && Fills(asked, p.parts, p.truncatedBy, p.firstLineExceedsLimit, maxBytes)
    && p.nextStartLine == (if |p.parts| < |asked| then Some(start + |p.parts|) else None)
    && p.endLine == if asked != [] then start + |p.parts| - 1 else Stop(lines, end)
  }

  /** `max_lines` bounds the lines that are asked for, and so the lines of the page. */
  lemma MaxLinesBounds(lines: seq<string>, start: int, maxLines: int, maxBytes: int, p: Page)
    requires start >= 1 && IsPage(lines, start, Some(start + maxLines - 1), maxBytes, p)
    ensures |p.parts| <= |Requested(lines, start, Some(start + maxLines - 1))| <= Max(0, maxLines)
    ensures start - 1 + maxLines <= |lines| ==>
              |Requested(lines, start, Some(start + maxLines - 1))| == Max(0, maxLines)
  {
  }

  function Max(a: int, b: int): int {
    if a >= b then a else b
  }

  method ReadFile(lines: seq<string>, start: int, endLine: Option<int>, maxLines: Option<int>, maxBytes: int)
    returns (r: Result<Page, ReadError>)
    ensures endLine.Some? && maxLines.Some? && endLine.value != start + maxLines.value - 1 <==> r == Err(RangeMismatch)
    ensures r != Err(RangeMismatch) ==> (start < 1 <==> r == Err(StartBeforeFirstLine)) && (start >= 1 ==> r.Ok?)
    ensures r.Ok? && maxLines.Some? ==> IsPage(lines, start, Some(start + maxLines.value - 1), maxBytes, r.value)
    ensures r.Ok? && maxLines.None? ==> IsPage(lines, start, endLine, maxBytes, r.value)
  {
    if endLine.Some? && maxLines.Some? && endLine.value != start + maxLines.value - 1 {
      return Err(RangeMismatch);
    }
    var end := endLine;
    if endLine.None? && maxLines.Some? {
      end := Some(start + maxLines.value - 1);
    }
    if start < 1 {
      return Err(StartBeforeFirstLine);
    }
    assert maxLines.Some? ==> end == Some(start + maxLines.value - 1);
    assert maxLines.None? ==> end == endLine;
    var page := ReadRange(lines, start, end, maxBytes);
    return Ok(page);
  }

  method ReadRange(lines: seq<string>, start: int, end: Option<int>, maxBytes: int) returns (p: Page)
    requires start >= 1
    ensures IsPage(lines, start, end, maxBytes, p)
  {
    var parts, cause, exceeds := SelectLines(lines, start, end, maxBytes);
    p := Continuation(lines, start, end, parts, cause, exceeds);
    PageAssembled(lines, start, end, maxBytes, p);
  }

  /** The end of the page, and where to go on. */
  method Continuation(lines: seq<string>, start: int, end: Option<int>, parts: seq<string>, cause: Option<Cause>,
                      exceeds: bool)
    returns (p: Page)
    ensures p.parts == parts && p.truncatedBy == cause && p.firstLineExceedsLimit == exceeds && p.totalLines == |lines|
    ensures p.endLine == if cause.Some? && parts != [] then Min(|lines|, start + |parts| - 1) else Stop(lines, end)
    ensures p.nextStartLine == if cause.Some? && p.endLine < Stop(lines, end) then Some(p.endLine + 1) else None
  {
    var last := if end.Some? then end.value else |lines|;
    var actualEnd := Min(last, |lines|);
    if cause.Some? && parts != [] {
      actualEnd := Min(|lines|, start + |parts| - 1);
    }
    var next := if cause.Some? && actualEnd < Min(last, |lines|) then Some(actualEnd + 1) else None;
    return Page(parts, actualEnd, |lines|, cause, exceeds, next);
  }

  lemma PageAssembled(lines: seq<string>, start: int, end: Option<int>, maxBytes: int, p: Page)
    requires start >= 1 && p.totalLines == |lines|
    requires Fills(Requested(lines, start, end), p.parts, p.truncatedBy, p.firstLineExceedsLimit, maxBytes)
    requires p.endLine == if p.truncatedBy.Some? && p.parts != [] then Min(|lines|, start + |p.parts| - 1)
                          else Stop(lines, end)
    requires p.nextStartLine
             == if p.truncatedBy.Some? && p.endLine < Stop(lines, end) then Some(p.endLine + 1) else None
    ensures IsPage(lines, start, end, maxBytes, p)
  {
  }

  /** The loop over the file's lines. */
  method SelectLines(lines: seq<string>, start: int, end: Option<int>, maxBytes: int)
    returns (parts: seq<string>, cause: Option<Cause>, exceeds: bool)
    requires start >= 1
    ensures Fills(Requested(lines, start, end), parts, cause, exceeds, maxBytes)
  {
    parts, cause, exceeds := [], None, false;
    var selectedBytes, total, complete := 0, 0, false;
    ghost var asked: seq<string> := [];
    while total < |lines|
      invariant 0 <= total <= |lines|
      invariant asked == Requested(lines[..total], start, end)
      invariant complete == cause.Some?
      invariant Fills(asked, parts, cause, exceeds, maxBytes)
      invariant !complete ==> selectedBytes == TotalSize(parts)
    {
      var line := lines[total];
      total := total + 1;
      RequestedGrows(lines, total, start, end);
      if total < start || (end.Some? && total > end.value) {
        continue;
      }
      ghost var before := asked;
      asked := asked + [line];
      if complete {
        FilledStays(before, line, parts, cause, exceeds, maxBytes);
        continue;
      }
      assert !exceeds;
      parts, selectedBytes, cause, exceeds := SelectLine(before, line, parts, selectedBytes, maxBytes);
      complete := cause.Some?;
    }
    WholeFile(lines);
  }

  lemma WholeFile(lines: seq<string>)
    ensures lines[..|lines|] == lines
  {
  }

  /** One requested line, while the selection is not complete. */
  method SelectLine(ghost asked: seq<string>, line: string, parts: seq<string>, selectedBytes: int, maxBytes: int)
    returns (next: seq<string>, bytes: int, cause: Option<Cause>, exceeds: bool)
    requires Fills(asked, parts, None, false, maxBytes) && selectedBytes == TotalSize(parts)
    ensures Fills(asked + [line], next, cause, exceeds, maxBytes)
    ensures cause.None? ==> bytes == TotalSize(next) && !exceeds
  {
    next, bytes, cause, exceeds := parts, selectedBytes, None, false;
    var lineBytes := |Encode(line)|;
    if |parts| >= DEFAULT_MAX_LINES {
      StopByCount(asked, line, parts, maxBytes);
      cause := Some(ByLines);
    } else if selectedBytes + lineBytes > maxBytes {
      cause := Some(ByBytes);
      if parts == [] {
        var preview := TruncateTextHead(line, DEFAULT_MAX_LINES, maxBytes);
        ShowBeginning(asked, line, preview, maxBytes);
        next, exceeds := [preview.content], true;
      } else {
        StopBySize(asked, line, parts, maxBytes);
      }
    } else {
      TakeLine(asked, line, parts, maxBytes);
      next, bytes := parts + [line], selectedBytes + lineBytes;
    }
  }

  lemma TakeLine(before: seq<string>, line: string, parts: seq<string>, maxBytes: int)
    requires Fills(before, parts, None, false, maxBytes) && |parts| < DEFAULT_MAX_LINES
    requires TotalSize(parts) + Size(line) <= maxBytes
    ensures Fills(before + [line], parts + [line], None, false, maxBytes)
    ensures TotalSize(parts + [line]) == TotalSize(parts) + Size(line)
  {
    assert parts == before && (parts + [line])[..|parts|] == parts;
    assert (before + [line])[..|before| + 1] == before + [line];
  }

  lemma StopByCount(before: seq<string>, line: string, parts: seq<string>, maxBytes: int)
    requires Fills(before, parts, None, false, maxBytes) && |parts| >= DEFAULT_MAX_LINES
    ensures Fills(before + [line], parts, Some(ByLines), false, maxBytes)
  {
    assert (before + [line])[..|before|] == before == parts;
  }

  lemma StopBySize(before: seq<string>, line: string, parts: seq<string>, maxBytes: int)
    requires Fills(before, parts, None, false, maxBytes) && parts != []
    requires TotalSize(parts) + Size(line) > maxBytes
    ensures Fills(before + [line], parts, Some(ByBytes), false, maxBytes)
  {
    var all := before + [line];
    assert all[..|before|] == before == parts && all[..|parts| + 1] == all;
  }

  lemma ShowBeginning(before: seq<string>, line: string, t: Truncation, maxBytes: int)
    requires Fills(before, [], None, false, maxBytes) && Size(line) > maxBytes
    requires IsHead(t, line, DEFAULT_MAX_LINES, AtLeastOne(maxBytes))
    ensures Fills(before + [line], [t.content], Some(ByBytes), true, maxBytes)
  {
    assert before == [];
    assert Shown(line, t.content, maxBytes);
  }

  lemma RequestedGrows(lines: seq<string>, total: nat, start: int, end: Option<int>)
    requires start >= 1 && 1 <= total <= |lines|
    ensures var before, after := Requested(lines[..total - 1], start, end), Requested(lines[..total], start, end);
            after == if total < start || (end.Some? && total > end.value) then before else before + [lines[total - 1]]
  {
    var shorter, longer := lines[..total - 1], lines[..total];
    if total >= start && !(end.Some? && total > end.value) {
      assert longer[start - 1..total] == shorter[start - 1..total - 1] + [lines[total - 1]];
    } else if total >= start && start <= end.value {
      assert longer[start - 1..end.value] == lines[start - 1..end.value] == shorter[start - 1..end.value];
    }
  }

  lemma FilledStays(before: seq<string>, line: string, parts: seq<string>, cause: Option<Cause>, exceeds: bool,
                    maxBytes: int)
    requires Fills(before, parts, cause, exceeds, maxBytes) && cause.Some?
    ensures Fills(before + [line], parts, cause, exceeds, maxBytes)
  {
    var k := |parts|;
    assert forall i | 0 <= i <= |before| :: (before + [line])[..i] == before[..i];
  }

  // ---------------------------------------------------------------- following next_start_line

  /** The pages a reader gets by following `next_start_line`, until there is none. */
  ghost predicate Follows(lines: seq<string>, start: int, end: Option<int>, maxBytes: int, pages: seq<Page>)
    decreases |pages|
  {
    && start >= 1 && pages != []
    && IsPage(lines, start, end, maxBytes, pages[0])
    && if pages[0].nextStartLine.Some? then Follows(lines, pages[0].nextStartLine.value, end, maxBytes, pages[1..])
       else |pages| == 1
  }

  function AllParts(pages: seq<Page>): seq<string> {
    if pages == [] then [] else pages[0].parts + AllParts(pages[1..])
  }

  /** A page leaves fewer lines to read than there were, so following pages terminates. */
  lemma PageAdvances(lines: seq<string>, start: int, end: Option<int>, maxBytes: int, p: Page)
    requires start >= 1 && IsPage(lines, start, end, maxBytes, p)
    ensures p.nextStartLine.Some? ==>
              && start < p.nextStartLine.value <= Stop(lines, end)
              && Requested(lines, p.nextStartLine.value, end) == Requested(lines, start, end)[|p.parts|..]
    ensures p.nextStartLine.None? ==> |p.parts| == |Requested(lines, start, end)|
  {
    var asked, k := Requested(lines, start, end), |p.parts|;
    if k < |asked| {
      assert asked[k..] == lines[start - 1 + k..Stop(lines, end)];
    }
  }

  /** The pages together show every requested line exactly once and in order. */
  lemma {:induction false} PagesCoverRange(lines: seq<string>, start: int, end: Option<int>, maxBytes: int,
                                           pages: seq<Page>)
    requires Follows(lines, start, end, maxBytes, pages)
    ensures |AllParts(pages)| == |Requested(lines, start, end)|
    ensures forall i | 0 <= i < |AllParts(pages)| ::
              Shown(Requested(lines, start, end)[i], AllParts(pages)[i], maxBytes)
    ensures |pages| <= |Requested(lines, start, end)| + 1
    decreases |pages|
  {
    var p := pages[0];
    PageAdvances(lines, start, end, maxBytes, p);
    if p.nextStartLine.Some? {
      PagesCoverRange(lines, p.nextStartLine.value, end, maxBytes, pages[1..]);
    } else {
      assert pages[1..] == [];
    }
  }

  /** If no requested line exceeds a page, the pages concatenate to exactly the requested lines. */
  lemma PagesEqualRange(lines: seq<string>, start: int, end: Option<int>, maxBytes: int, pages: seq<Page>)
    requires Follows(lines, start, end, maxBytes, pages)
    requires forall line <- Requested(lines, start, end) :: Size(line) <= maxBytes
    ensures AllParts(pages) == Requested(lines, start, end)
  {
    PagesCoverRange(lines, start, end, maxBytes, pages);
    var asked := Requested(lines, start, end);
    forall i | 0 <= i < |asked| ensures AllParts(pages)[i] == asked[i] {
      assert asked[i] in asked && Shown(asked[i], AllParts(pages)[i], maxBytes);
    }
  }

  /** Following pages from any valid start comes to an end. */
  method ReadToEnd(lines: seq<string>, start: int, end: Option<int>, maxBytes: int) returns (pages: seq<Page>)
    requires start >= 1
    ensures Follows(lines, start, end, maxBytes, pages)
    decreases |lines| - start
  {
    var first := ReadFile(lines, start, end, None, maxBytes);
    PageAdvances(lines, start, end, maxBytes, first.value);
    if first.value.nextStartLine.None? {
      return [first.value];
    }
    var rest := ReadToEnd(lines, first.value.nextStartLine.value, end, maxBytes);
    pages := [first.value] + rest;
    assert pages[1..] == rest;
  }
}
