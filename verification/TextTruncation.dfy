/** Cutting text to a number of lines and a number of UTF-8 octets, keeping its beginning or its end. */
module TextTruncation {
  import opened ByteStrings
  import opened Wrappers
  import opened Lines
  import opened Utf8

  datatype Cause = ByLines | ByBytes

  datatype Truncation = Truncation(
    content: string,
    truncatedBy: Option<Cause>,
    totalLines: nat,
    totalBytes: nat,
    outputLines: nat,
    outputBytes: nat,
    lastLinePartial: bool,
    firstLineExceedsLimit: bool)

  function Size(text: string): nat {
    |Encode(text)|
  }

  predicate IsSuffix(part: string, text: string) {
    |part| <= |text| && text[|text| - |part|..] == part
  }

  function AtLeastOne(n: int): (r: nat)
    ensures r >= 1 && (n >= 1 ==> r == n) && (n < 1 ==> r == 1)
  {
    if n <= 0 then 1 else n
  }

  // ---------------------------------------------------------------- cutting within a line

  /** The longest prefix of the text that fits, in whole characters. */
  ghost predicate LongestPrefix(part: string, text: string, maxBytes: int) {
    && part <= text
    && (part == "" || Size(part) <= maxBytes)
    && (forall k | |part| < k <= |text| :: Size(text[..k]) > maxBytes)
    && (part != text && maxBytes >= 0 ==> maxBytes - Size(part) <= 3)
  }

  ghost predicate LongestSuffix(part: string, text: string, maxBytes: nat) {
    && IsSuffix(part, text)
    && Size(part) <= maxBytes
    && (forall m | 0 <= m < |text| - |part| :: Size(text[m..]) > maxBytes)
    && (part != text ==> maxBytes - Size(part) <= 3)
  }

  lemma {:induction false} SizeGrows(text: string, j: nat, k: nat)
    requires j <= k <= |text|
    ensures Size(text[..j]) <= Size(text[..k]) && Size(text[j..]) >= Size(text[k..])
    ensures j < k ==> Size(text[..j]) < Size(text[..k]) && Size(text[j..]) > Size(text[k..])
  {
    assert text[..k] == text[..j] + text[j..k] && text[j..] == text[j..k] + text[k..];
    EncodeConcat(text[..j], text[j..k]);
    EncodeConcat(text[j..k], text[k..]);
    if j < k {
      assert text[j..k] != "";
    }
  }

  lemma PrefixIsLongest(text: string, maxBytes: nat, end: nat, k: nat)
    requires maxBytes < Size(text) && end <= maxBytes && k <= |text|
    requires Size(text[..k]) == end
    requires forall i | end < i <= maxBytes :: IsContinuation(Encode(text)[i])
    ensures LongestPrefix(text[..k], text, maxBytes)
  {
    forall m | k < m <= |text| ensures Size(text[..m]) > maxBytes {
      SizeGrows(text, k, m);
      BoundaryOfPrefix(text, m);
    }
    if maxBytes - end > 3 {
      ShortRuns(text, end + 1);
    }
  }

  method TruncateFromStart(text: string, maxBytes: int) returns (part: string)
    ensures LongestPrefix(part, text, maxBytes)
  {
    var data := Encode(text);
    if |data| <= maxBytes {
      assert text[..|text|] == text;
      return text;
    }
    var end: nat := if maxBytes < 0 then 0 else maxBytes;
    while end > 0 && end < |data| && IsContinuation(data[end])
      invariant end <= |data| && end <= (if maxBytes < 0 then 0 else maxBytes)
      invariant forall i | end < i <= maxBytes :: IsContinuation(data[i])
    {
      end := end - 1;
    }
    BoundaryIsPrefix(text, 0);
    assert IsBoundary(data, end) by {
      assert text[..0] == "" && Size(text[..0]) == 0;
    }
    ghost var k := CutAtBoundary(text, end);
    if maxBytes >= 0 {
      PrefixIsLongest(text, maxBytes, end, k);
    } else {
      assert text[..0] == "" && Size("") == 0;
    }
    return Decode(data[..end]);
  }

  lemma SuffixIsLongest(text: string, maxBytes: nat, start: nat, k: nat)
    requires maxBytes < Size(text) && Size(text) - maxBytes <= start <= Size(text) && k <= |text|
    requires Size(text[..k]) == start
    requires forall i | Size(text) - maxBytes <= i < start :: IsContinuation(Encode(text)[i])
    ensures LongestSuffix(text[k..], text, maxBytes)
  {
    SplitSize(text, k);
    forall m | 0 <= m < k ensures Size(text[m..]) > maxBytes {
      SplitSize(text, m);
      SizeGrows(text, m, k);
      BoundaryOfPrefix(text, m);
    }
    if maxBytes - Size(text[k..]) > 3 {
      ShortRuns(text, Size(text) - maxBytes);
    }
  }

  lemma SplitSize(text: string, k: nat)
    requires k <= |text|
    ensures Size(text) == Size(text[..k]) + Size(text[k..])
  {
    EncodeConcat(text[..k], text[k..]);
    assert text[..k] + text[k..] == text;
  }

  method TruncateFromEnd(text: string, maxBytes: nat) returns (part: string)
    ensures LongestSuffix(part, text, maxBytes)
  {
    var data := Encode(text);
    if |data| <= maxBytes {
      return text;
    }
    var start: nat := |data| - maxBytes;
    while start < |data| && IsContinuation(data[start])
      invariant |data| - maxBytes <= start <= |data|
      invariant forall i | |data| - maxBytes <= i < start :: IsContinuation(data[i])
    {
      start := start + 1;
    }
    ghost var k := CutAtBoundary(text, start);
    SuffixIsLongest(text, maxBytes, start, k);
    return Decode(data[start..]);
  }

  // ---------------------------------------------------------------- whole lines

  predicate Fits(text: string, maxLines: nat, maxBytes: nat) {
    |Split(text)| <= maxLines && Size(text) <= maxBytes
  }

  /** The first `n` lines are the most that fit in both limits. */
  ghost predicate MostFirstLines(lines: seq<string>, n: nat, maxLines: nat, maxBytes: nat) {
    && 1 <= n <= |lines| && n <= maxLines
    && Size(Join(lines[..n])) <= maxBytes
    && (n < |lines| && n < maxLines ==> Size(Join(lines[..n + 1])) > maxBytes)
  }

  /** The last `n` lines are the most that fit in both limits. */
  ghost predicate MostLastLines(lines: seq<string>, n: nat, maxLines: nat, maxBytes: nat) {
    && 1 <= n <= |lines| && n <= maxLines
    && Size(Join(lines[|lines| - n..])) <= maxBytes
    && (n < |lines| && n < maxLines ==> Size(Join(lines[|lines| - n - 1..])) > maxBytes)
  }

  lemma SizeOfLf(a: string, b: string)
    ensures Size(a + "\n" + b) == Size(a) + 1 + Size(b)
  {
    EncodeConcat(a + "\n", b);
    EncodeConcat(a, "\n");
    assert "\n"[1..] == "" && EncodeChar('\n') + Encode("") == EncodeChar('\n');
  }

  lemma JoinOneMore(lines: seq<string>, n: nat)
    requires n < |lines|
    ensures Size(Join(lines[..n + 1])) == Size(Join(lines[..n])) + Size(lines[n]) + if n > 0 then 1 else 0
  {
    assert lines[..n + 1] == lines[..n] + [lines[n]];
    if n > 0 {
      JoinConcat(lines[..n], [lines[n]]);
      SizeOfLf(Join(lines[..n]), lines[n]);
    }
  }

  lemma JoinOfFirst(lines: seq<string>, n: nat)
    requires 1 <= n <= |lines|
    ensures Join(lines[..n]) <= Join(lines)
  {
    if n < |lines| {
      assert lines == lines[..n] + lines[n..];
      JoinConcat(lines[..n], lines[n..]);
      BeginsWith(Join(lines[..n]), "\n", Join(lines[n..]));
    } else {
      assert lines[..n] == lines;
    }
  }

  lemma BeginsWith(a: string, b: string, c: string)
    ensures a <= a + b + c
  {
  }

  lemma JoinOneMoreInFront(lines: seq<string>, k: nat)
    requires k < |lines|
    ensures Size(Join(lines[k..]))
            == Size(lines[k]) + if k + 1 < |lines| then 1 + Size(Join(lines[k + 1..])) else 0
    ensures IsSuffix(Join(lines[k..]), Join(lines))
  {
    assert lines[k..][1..] == lines[k + 1..];
    if k + 1 < |lines| {
      SizeOfLf(lines[k], Join(lines[k + 1..]));
    }
    if k > 0 {
      assert lines == lines[..k] + lines[k..];
      JoinConcat(lines[..k], lines[k..]);
    }
  }

  /** Keeping the beginning: everything if it fits; else as many whole lines as fit; and if not
      even the first line fits, as much of it as fits. */
  ghost predicate IsHead(t: Truncation, text: string, maxLines: nat, maxBytes: nat) {
    var lines := Split(text);
    && t.totalLines == |lines| && t.totalBytes == Size(text)
    && t.content <= text && t.outputBytes == Size(t.content) <= maxBytes && t.outputLines <= maxLines
    && !t.lastLinePartial
    && if Fits(text, maxLines, maxBytes) then
         t.truncatedBy.None? && t.content == text && t.outputLines == |lines| && !t.firstLineExceedsLimit
       else if Size(lines[0]) > maxBytes then
         && t.firstLineExceedsLimit && t.truncatedBy == Some(ByBytes)
         && LongestPrefix(t.content, lines[0], maxBytes)
         && t.outputLines == if t.content == "" then 0 else 1
       else
         && !t.firstLineExceedsLimit && t.truncatedBy.Some?
         && MostFirstLines(lines, t.outputLines, maxLines, maxBytes)
         && t.outputLines < |lines| && t.content == Join(lines[..t.outputLines])
         && (t.truncatedBy == Some(ByLines) <==> t.outputLines == maxLines)
  }

  method TruncateTextHead(text: string, maxLines: int, maxBytes: int) returns (t: Truncation)
    ensures IsHead(t, text, AtLeastOne(maxLines), AtLeastOne(maxBytes))
  {
    var lineLimit, byteLimit := AtLeastOne(maxLines), AtLeastOne(maxBytes);
    var totalBytes := |Encode(text)|;
    var lines := Split(text);
    if |lines| <= lineLimit && totalBytes <= byteLimit {
      return Truncation(text, None, |lines|, totalBytes, |lines|, totalBytes, false, false);
    }
    if |Encode(lines[0])| > byteLimit {
      var prefix := TruncateFromStart(lines[0], byteLimit);
      FirstLineTooLong(text, byteLimit, prefix);
      return Truncation(prefix, Some(ByBytes), |lines|, totalBytes, if prefix == "" then 0 else 1,
                        |Encode(prefix)|, false, true);
    }
    JoinOfSplit(text);
    var count, cause := FirstLines(lines, lineLimit, byteLimit);
    assert count < |lines| by {
      assert lines[..|lines|] == lines;
    }
    JoinOfFirst(lines, count);
    var content := Join(lines[..count]);
    return Truncation(content, Some(cause), |lines|, totalBytes, count, |Encode(content)|, false, false);
  }

  /** The loop of the head truncation: how many lines are kept. */
  method FirstLines(lines: seq<string>, lineLimit: nat, byteLimit: nat) returns (count: nat, cause: Cause)
    requires lines != [] && lineLimit >= 1 && Size(lines[0]) <= byteLimit
    ensures MostFirstLines(lines, count, lineLimit, byteLimit)
    ensures count < |lines| ==> (cause == ByLines <==> count == lineLimit)
  {
    var output: seq<string>, outputBytes := [], 0;
    cause := ByLines;
    var index := 0;
    while index < |lines|
      invariant 0 <= index <= |lines| && index <= lineLimit
      invariant output == lines[..index] && outputBytes == Size(Join(output)) <= byteLimit
      invariant cause == ByLines
    {
      if |output| >= lineLimit {
        break;
      }
      JoinOneMore(lines, index);
      var lineBytes := |Encode(lines[index])| + if index > 0 then 1 else 0;
      if outputBytes + lineBytes > byteLimit {
        cause := ByBytes;
        break;
      }
      output := output + [lines[index]];
      outputBytes := outputBytes + lineBytes;
      index := index + 1;
    }
    count := |output|;
  }

  lemma FirstLineIsPrefix(text: string)
    ensures Split(text)[0] <= text && Size(Split(text)[0]) <= Size(text)
  {
    var lines := Split(text);
    JoinOfSplit(text);
    if |lines| > 1 {
      SizeOfLf(lines[0], Join(lines[1..]));
    }
  }

  lemma FirstLineTooLong(text: string, maxBytes: nat, prefix: string)
    requires maxBytes < Size(Split(text)[0]) && LongestPrefix(prefix, Split(text)[0], maxBytes)
    ensures !Fits(text, 1, maxBytes) && prefix <= text && Size(prefix) <= maxBytes
  {
    FirstLineIsPrefix(text);
    assert Size("") == 0;
  }

  /** The text without a final line feed. */
  function Chomp(text: string): string {
    if text != "" && text[|text| - 1] == '\n' then text[..|text| - 1] else text
  }

  function CandidateLines(lines: seq<string>): seq<string> {
    if lines != [] && lines[|lines| - 1] == "" then lines[..|lines| - 1] else lines
  }

  lemma {:induction false} CandidatesAreChomped(text: string)
    requires text != ""
    ensures var c := CandidateLines(Split(text)); c != [] && Join(c) == Chomp(text)
  {
    var lines := Split(text);
    var n := |lines| - 1;
    JoinOfSplit(text);
    SplitChars(text);
    if n > 0 {
      assert lines == lines[..n] + [lines[n]];
      JoinConcat(lines[..n], [lines[n]]);
      assert text == Join(lines[..n]) + "\n" + lines[n];
    }
    if lines[n] == "" {
      assert text == Join(lines[..n]) + "\n";
    } else {
      assert lines[n] in lines;
      assert text[|text| - 1] == lines[n][|lines[n]| - 1];
      assert lines[n][|lines[n]| - 1] in lines[n];
    }
  }

  /** Keeping the end: everything if it fits; else, without a final line feed, as many whole lines
      from the end as fit; and if not even the last line fits, as much of its end as fits. */
  ghost predicate IsTail(t: Truncation, text: string, maxLines: nat, maxBytes: nat) {
    var candidates := CandidateLines(Split(text));
    && t.totalLines == |Split(text)| && t.totalBytes == Size(text)
    && t.outputBytes == Size(t.content) <= maxBytes && t.outputLines <= maxLines
    && !t.firstLineExceedsLimit
    && if Fits(text, maxLines, maxBytes) then
         t.truncatedBy.None? && t.content == text && t.outputLines == t.totalLines && !t.lastLinePartial
       else
         && candidates != [] && t.truncatedBy.Some? && IsSuffix(t.content, Chomp(text))
         && AreLast(candidates, t.content, t.outputLines, t.truncatedBy.value, t.lastLinePartial, maxLines, maxBytes)
  }

  ghost predicate AreLast(candidates: seq<string>, content: string, count: nat, cause: Cause, partial: bool,
                          maxLines: nat, maxBytes: nat)
    requires candidates != []
  {
    var last := candidates[|candidates| - 1];
    if Size(last) > maxBytes then
      partial && cause == ByBytes && count == 1 && LongestSuffix(content, last, maxBytes)
    else
      && !partial
      && MostLastLines(candidates, count, maxLines, maxBytes)
      && content == Join(candidates[|candidates| - count..])
      && (cause == ByLines <==> count == maxLines || count == |candidates|)
  }

  method TruncateTextTail(text: string, maxLines: int, maxBytes: int) returns (t: Truncation)
    ensures IsTail(t, text, AtLeastOne(maxLines), AtLeastOne(maxBytes))
  {
    var lineLimit, byteLimit := AtLeastOne(maxLines), AtLeastOne(maxBytes);
    var totalBytes := |Encode(text)|;
    var lines := Split(text);
    if |lines| <= lineLimit && totalBytes <= byteLimit {
      return Truncation(text, None, |lines|, totalBytes, |lines|, totalBytes, false, false);
    }
    assert text != "" by { assert Split("") == [""] && Size("") == 0; }
    CandidatesAreChomped(text);
    var candidates := CandidateLines(lines);
    var content, count, cause, partial := LastLines(candidates, lineLimit, byteLimit);
    t := Truncation(content, Some(cause), |lines|, totalBytes, count, |Encode(content)|, partial, false);
  }

  /** The loop of the tail truncation over the candidate lines, last one first. */
  method LastLines(candidates: seq<string>, lineLimit: nat, byteLimit: nat)
    returns (content: string, count: nat, cause: Cause, partial: bool)
    requires candidates != [] && lineLimit >= 1
    ensures IsSuffix(content, Join(candidates)) && Size(content) <= byteLimit && count <= lineLimit
    ensures AreLast(candidates, content, count, cause, partial, lineLimit, byteLimit)
  {
    var output: seq<string>, outputBytes := [], 0;
    var m, index := |candidates|, 0;
    while index < m
      invariant index <= m && outputBytes >= 0 && Kept(candidates, index, output, outputBytes, lineLimit, byteLimit)
    {
      if |output| >= lineLimit {
        break;
      }
      var line := candidates[m - 1 - index];
      var lineBytes := |Encode(line)| + if index > 0 then 1 else 0;
      KeepOneMore(candidates, index, output, outputBytes, lineLimit, byteLimit);
      if outputBytes + lineBytes > byteLimit {
        if output == [] {
          var end := TruncateFromEnd(line, byteLimit);
          LastLineSuffix(candidates, end);
          return end, 1, ByBytes, true;
        }
        KeptIsLast(candidates, index, output, outputBytes, ByBytes, lineLimit, byteLimit);
        return Join(output), index, ByBytes, false;
      }
      output := [line] + output;
      outputBytes := outputBytes + lineBytes;
      index := index + 1;
    }
    KeptIsLast(candidates, index, output, outputBytes, ByLines, lineLimit, byteLimit);
    return Join(output), index, ByLines, false;
  }

  /** The loop has kept the last `index` lines. */
  ghost predicate Kept(candidates: seq<string>, index: nat, output: seq<string>, outputBytes: nat,
                       lineLimit: nat, byteLimit: nat)
  {
    && candidates != [] && index <= |candidates| && index <= lineLimit
    && output == candidates[|candidates| - index..]
    && outputBytes == Size(Join(output)) <= byteLimit
    && (index > 0 ==> Size(candidates[|candidates| - 1]) <= byteLimit)
  }

  lemma KeepOneMore(candidates: seq<string>, index: nat, output: seq<string>, outputBytes: nat,
                    lineLimit: nat, byteLimit: nat)
    requires Kept(candidates, index, output, outputBytes, lineLimit, byteLimit)
    requires index < |candidates| && index < lineLimit
    ensures var line := candidates[|candidates| - 1 - index];
            var bytes := outputBytes + Size(line) + if index > 0 then 1 else 0;
            && Size(Join(candidates[|candidates| - index - 1..])) == bytes
            && (bytes <= byteLimit ==> Kept(candidates, index + 1, [line] + output, bytes, lineLimit, byteLimit))
  {
    var k := |candidates| - 1 - index;
    JoinOneMoreInFront(candidates, k);
    assert candidates[k..] == [candidates[k]] + output;
  }

  lemma KeptIsLast(candidates: seq<string>, index: nat, output: seq<string>, outputBytes: nat, cause: Cause,
                   lineLimit: nat, byteLimit: nat)
    requires Kept(candidates, index, output, outputBytes, lineLimit, byteLimit) && index > 0
    requires index < |candidates| && index < lineLimit ==>
               Size(Join(candidates[|candidates| - index - 1..])) > byteLimit
    requires cause == ByLines <==> index == lineLimit || index == |candidates|
    ensures AreLast(candidates, Join(output), index, cause, false, lineLimit, byteLimit)
    ensures IsSuffix(Join(output), Join(candidates))
  {
    JoinOneMoreInFront(candidates, |candidates| - index);
  }

  lemma SuffixOfSuffix(a: string, b: string, c: string)
    requires IsSuffix(a, b) && IsSuffix(b, c)
    ensures IsSuffix(a, c)
  {
  }

  lemma LastLineSuffix(lines: seq<string>, end: string)
    requires lines != [] && IsSuffix(end, lines[|lines| - 1])
    ensures IsSuffix(end, Join(lines))
  {
    var last := lines[|lines| - 1];
    JoinOneMoreInFront(lines, |lines| - 1);
    assert lines[|lines| - 1..] == [last] && Join([last]) == last;
    SuffixOfSuffix(end, last, Join(lines));
  }
}
