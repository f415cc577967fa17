/** Text as lines: the byte-order mark, the three line-ending helpers of the patch engine,
    and the `split("\n")` / `"\n".join` pair it works between. */
module Lines {

  const BOM: char := '\U{FEFF}'

  datatype LineEnding = LF | CRLF

  // ---------------------------------------------------------------- split and join

  /** Python's `text.split("\n")`: never empty, and no other character breaks a line. */
  function Split(text: string): (lines: seq<string>)
    ensures |lines| >= 1
  {
    if text == "" then [""]
    else if text[0] == '\n' then [""] + Split(text[1..])
    else
      var rest := Split(text[1..]);
      [[text[0]] + rest[0]] + rest[1..]
  }

  /** Python's `"\n".join(lines)`. */
  function Join(lines: seq<string>): string {
    if |lines| == 0 then ""
    else if |lines| == 1 then lines[0]
    else lines[0] + "\n" + Join(lines[1..])
  }

  /** A line as the patch engine knows it: neither CR nor LF occurs in it. */
  predicate IsLine(line: string) {
    '\n' !in line && '\r' !in line
  }

  predicate AllLines(lines: seq<string>) {
    forall line <- lines :: IsLine(line)
  }

  lemma {:induction false} JoinOfSplit(text: string)
    ensures Join(Split(text)) == text
  {
    if text != "" {
      JoinOfSplit(text[1..]);
      var rest := Split(text[1..]);
      if text[0] == '\n' {
        assert Split(text)[1..] == rest;
      } else {
        assert Split(text)[1..] == rest[1..];
      }
    }
  }

  lemma {:induction false} SplitHead(line: string, tail: string)
    requires '\n' !in line
    ensures Split(line + "\n" + tail) == [line] + Split(tail)
  {
    if line == "" {
      assert line + "\n" + tail == "\n" + tail;
      assert ("\n" + tail)[1..] == tail;
    } else {
      assert line[0] in line;
      SplitHead(line[1..], tail);
      assert line == [line[0]] + line[1..];
      assert (line + "\n" + tail)[1..] == line[1..] + "\n" + tail;
    }
  }

  lemma {:induction false} SplitSingle(line: string)
    requires '\n' !in line
    ensures Split(line) == [line]
  {
    if line != "" {
      assert line[0] in line;
      SplitSingle(line[1..]);
      assert line == [line[0]] + line[1..];
    }
  }

  lemma {:induction false} SplitOfJoin(lines: seq<string>)
    requires |lines| >= 1
    requires forall line <- lines :: '\n' !in line
    ensures Split(Join(lines)) == lines
  {
    if |lines| == 1 {
      SplitSingle(lines[0]);
    } else {
      SplitOfJoin(lines[1..]);
      SplitHead(lines[0], Join(lines[1..]));
    }
  }

  /** Splitting invents no character and leaves no line feed inside a line. */
  lemma {:induction false} SplitChars(text: string)
    ensures forall line <- Split(text) :: '\n' !in line && (forall c <- line :: c in text)
  {
    if text != "" {
      SplitChars(text[1..]);
      assert text[0] in text;
      assert forall c <- text[1..] :: c in text;
      if text[0] != '\n' {
        var rest := Split(text[1..]);
        assert rest[0] in rest;
        assert forall line <- rest[1..] :: line in rest;
      }
    }
  }

  lemma {:induction false} JoinChars(lines: seq<string>)
    ensures forall c <- Join(lines) :: c == '\n' || exists line <- lines :: c in line
  {
    if |lines| == 1 {
      assert lines[0] in lines;
    } else if |lines| > 1 {
      JoinChars(lines[1..]);
      assert lines[0] in lines;
    }
  }

  /** Join after appending one more line, used when lines are collected front to back. */
  lemma {:induction false} JoinConcat(left: seq<string>, right: seq<string>)
    requires |left| >= 1 && |right| >= 1
    ensures Join(left + right) == Join(left) + "\n" + Join(right)
  {
    if |left| == 1 {
      assert (left + right)[1..] == right;
    } else {
      JoinConcat(left[1..], right);
      assert (left + right)[1..] == left[1..] + right;
    }
  }

  // ---------------------------------------------------------------- byte-order mark

  datatype Marked = Marked(bom: string, text: string)

  /** `strip_bom`: at most one leading mark is set aside. */
  function StripBom(content: string): (m: Marked)
    ensures m.bom + m.text == content
    ensures m.bom == "" || m.bom == [BOM]
    ensures m.bom == "" ==> content == "" || content[0] != BOM
  {
    if content != "" && content[0] == BOM then Marked([BOM], content[1..]) else Marked("", content)
  }

  // ---------------------------------------------------------------- line endings

  /** `text.replace("\r\n", "\n")`. */
  function CollapseCrLf(text: string): string {
    if text == "" then ""
    else if text[0] == '\r' && |text| > 1 && text[1] == '\n' then "\n" + CollapseCrLf(text[2..])
    else [text[0]] + CollapseCrLf(text[1..])
  }

  /** `text.replace("\r", "\n")`. */
  function CollapseCr(text: string): string {
    if text == "" then ""
    else [if text[0] == '\r' then '\n' else text[0]] + CollapseCr(text[1..])
  }

  function NormalizeToLf(text: string): string {
    CollapseCr(CollapseCrLf(text))
  }

  /** `text.replace("\n", "\r\n")`. */
  function ExpandLf(text: string): string {
    if text == "" then ""
    else (if text[0] == '\n' then "\r\n" else [text[0]]) + ExpandLf(text[1..])
  }

  function RestoreLineEndings(text: string, ending: LineEnding): string {
    if ending == CRLF then ExpandLf(text) else text
  }

  /** `text.find("\n")`. */
  function FindLf(text: string): (at: int)
    ensures -1 <= at < |text|
  {
    if text == "" then -1
    else if text[0] == '\n' then 0
    else var rest := FindLf(text[1..]); if rest < 0 then -1 else rest + 1
  }

  /** `text.find("\r\n")`. */
  function FindCrLf(text: string): (at: int)
    ensures -1 <= at < |text|
  {
    if text == "" then -1
    else if text[0] == '\r' && |text| > 1 && text[1] == '\n' then 0
    else var rest := FindCrLf(text[1..]); if rest < 0 then -1 else rest + 1
  }

  function DetectLineEnding(text: string): LineEnding {
    var crlf, lf := FindCrLf(text), FindLf(text);
    if lf < 0 || crlf < 0 then LF else if crlf <= lf then CRLF else LF
  }

  /** No carriage return at all: the file uses LF throughout (or has a single line). */
  predicate UsesLf(text: string) {
    '\r' !in text
  }

  /** CR and LF occur only as the pair CR LF. */
  predicate UsesCrLf(text: string) {
    text == ""
    || (text[0] == '\r' && |text| > 1 && text[1] == '\n' && UsesCrLf(text[2..]))
    || (text[0] != '\r' && text[0] != '\n' && UsesCrLf(text[1..]))
  }

  predicate Paired(text: string, i: nat)
    requires i < |text|
  {
    (text[i] == '\r' ==> i + 1 < |text| && text[i + 1] == '\n')
    && (text[i] == '\n' ==> 0 < i && text[i - 1] == '\r')
  }

  /** The recursive definition says what it should: every CR is followed and every LF preceded
      by its partner. */
  lemma {:induction false} UsesCrLfMeansPairs(text: string)
    ensures UsesCrLf(text) <==> forall i: nat | i < |text| :: Paired(text, i)
  {
    if text == "" {
    } else if text[0] == '\r' && |text| > 1 && text[1] == '\n' {
      UsesCrLfMeansPairs(text[2..]);
      assert forall i: nat | i < |text| - 2 :: Paired(text, i + 2) <==> Paired(text[2..], i);
      assert Paired(text, 0) && Paired(text, 1);
      assert forall i: nat | 2 <= i < |text| :: Paired(text, i) <==> Paired(text[2..], i - 2);
    } else if text[0] != '\r' && text[0] != '\n' {
      UsesCrLfMeansPairs(text[1..]);
      assert forall i: nat | i < |text| - 1 :: Paired(text, i + 1) <==> Paired(text[1..], i);
      assert Paired(text, 0);
      assert forall i: nat | 1 <= i < |text| :: Paired(text, i) <==> Paired(text[1..], i - 1);
    } else {
      assert !Paired(text, 0);
    }
  }

  lemma {:induction false} NormalizedHasNoCr(text: string)
    ensures '\r' !in CollapseCr(text)
  {
    if text != "" {
      NormalizedHasNoCr(text[1..]);
    }
  }

  lemma {:induction false} NormalizeKeepsLf(text: string)
    requires UsesLf(text)
    ensures CollapseCrLf(text) == text && CollapseCr(text) == text
  {
    if text != "" {
      NormalizeKeepsLf(text[1..]);
    }
  }

  lemma {:induction false} ExpandedUsesCrLf(text: string)
    requires UsesLf(text)
    ensures UsesCrLf(ExpandLf(text))
  {
    if text != "" {
      ExpandedUsesCrLf(text[1..]);
      if text[0] == '\n' {
        assert ExpandLf(text)[2..] == ExpandLf(text[1..]);
      } else {
        assert ExpandLf(text)[1..] == ExpandLf(text[1..]);
      }
    }
  }

  lemma {:induction false} ExpandUndoesCollapse(text: string)
    requires UsesCrLf(text)
    ensures ExpandLf(NormalizeToLf(text)) == text
    ensures NormalizeToLf(text) == CollapseCrLf(text)
  {
    if text == "" {
    } else if text[0] == '\r' {
      ExpandUndoesCollapse(text[2..]);
      assert CollapseCrLf(text) == "\n" + CollapseCrLf(text[2..]);
      assert text == "\r\n" + text[2..];
    } else {
      ExpandUndoesCollapse(text[1..]);
      assert text == [text[0]] + text[1..];
    }
  }

  lemma {:induction false} CollapseUndoesExpand(text: string)
    requires UsesLf(text)
    ensures CollapseCrLf(ExpandLf(text)) == text
  {
    if text != "" {
      CollapseUndoesExpand(text[1..]);
      if text[0] == '\n' {
        assert ExpandLf(text)[2..] == ExpandLf(text[1..]);
      } else {
        assert ExpandLf(text)[1..] == ExpandLf(text[1..]);
      }
    }
  }

  /** Different texts stay different when their line endings are restored. */
  lemma RestoreIsInjective(a: string, b: string, ending: LineEnding)
    requires UsesLf(a) && UsesLf(b)
    ensures RestoreLineEndings(a, ending) == RestoreLineEndings(b, ending) <==> a == b
  {
    CollapseUndoesExpand(a);
    CollapseUndoesExpand(b);
  }

  /** Different lists of as many lines are different texts. */
  lemma JoinIsInjective(a: seq<string>, b: seq<string>)
    requires |a| == |b| && AllLines(a) && AllLines(b)
    ensures Join(a) == Join(b) <==> a == b
  {
    if a != [] {
      SplitOfJoin(a);
      SplitOfJoin(b);
    }
  }

  lemma {:induction false} DetectsCrLf(text: string)
    requires UsesCrLf(text)
    ensures DetectLineEnding(text) == (if '\n' in text then CRLF else LF)
    ensures '\n' in text ==> 0 <= FindCrLf(text) && FindLf(text) == FindCrLf(text) + 1
    ensures '\n' !in text ==> FindLf(text) == -1 && '\r' !in text
  {
    if text != "" && text[0] != '\r' {
      DetectsCrLf(text[1..]);
    } else if text != "" {
      assert FindLf(text[1..]) == 0;
      assert text[1] in text;
    }
  }

  lemma {:induction false} NoCrLfWithoutCr(text: string)
    requires UsesLf(text)
    ensures FindCrLf(text) == -1
  {
    if text != "" {
      NoCrLfWithoutCr(text[1..]);
    }
  }

  lemma DetectsLf(text: string)
    requires UsesLf(text)
    ensures DetectLineEnding(text) == LF
  {
    NoCrLfWithoutCr(text);
  }

  /** The ending detected is the one of the first line break that ends in LF. */
  lemma {:induction false} DetectsFirstBreak(text: string)
    ensures DetectLineEnding(text) == CRLF <==>
              exists i | 0 < i < |text| :: text[i] == '\n' && text[i - 1] == '\r' && '\n' !in text[..i]
  {
    FirstBreakFound(text);
    var f := FindLf(text);
    if f >= 0 {
      forall i | f < i <= |text| ensures '\n' in text[..i] {
        assert text[..i][f] == '\n';
      }
      forall i | 0 <= i < f ensures text[i] != '\n' {
        assert text[..f][i] == text[i];
      }
    }
  }

  lemma {:induction false} FirstBreakFound(text: string)
    ensures FindLf(text) < 0 <==> '\n' !in text
    ensures FindLf(text) >= 0 ==> text[FindLf(text)] == '\n' && '\n' !in text[..FindLf(text)]
    ensures 0 <= FindCrLf(text) <= FindLf(text) <==>
              FindLf(text) > 0 && text[FindLf(text) - 1] == '\r'
    ensures FindCrLf(text) >= 0 ==> 0 <= FindLf(text) <= FindCrLf(text) + 1
  {
    if text != "" {
      FirstBreakFound(text[1..]);
      var f := FindLf(text[1..]);
      if text[0] != '\n' && f >= 0 {
        assert text[..f + 1] == [text[0]] + text[1..][..f];
      }
    }
  }

  /** Every CR LF, every other CR and every other LF become one LF. */
  function OneBreakEach(text: string): string {
    if text == "" then ""
    else if text[0] == '\r' then
      "\n" + OneBreakEach(if |text| > 1 && text[1] == '\n' then text[2..] else text[1..])
    else [text[0]] + OneBreakEach(text[1..])
  }

  /** The two replacements in a row treat every kind of line break once. */
  lemma {:induction false} NormalizesEveryBreak(text: string)
    ensures NormalizeToLf(text) == OneBreakEach(text)
  {
    if text != "" {
      if text[0] == '\r' && |text| > 1 && text[1] == '\n' {
        NormalizesEveryBreak(text[2..]);
        assert ("\n" + CollapseCrLf(text[2..]))[1..] == CollapseCrLf(text[2..]);
      } else {
        NormalizesEveryBreak(text[1..]);
        assert ([text[0]] + CollapseCrLf(text[1..]))[1..] == CollapseCrLf(text[1..]);
      }
    }
  }

  /** Normalizing to LF and restoring the detected ending gives the text back exactly when the
      text uses one line ending throughout. */
  lemma EndingsRoundTrip(text: string)
    ensures RestoreLineEndings(NormalizeToLf(text), DetectLineEnding(text)) == text
            <==> UsesLf(text) || UsesCrLf(text)
  {
    var normal := NormalizeToLf(text);
    NormalizedHasNoCr(CollapseCrLf(text));
    if UsesLf(text) {
      DetectsLf(text);
      NormalizeKeepsLf(text);
    } else if UsesCrLf(text) {
      DetectsCrLf(text);
      ExpandUndoesCollapse(text);
    } else if DetectLineEnding(text) == CRLF {
      ExpandedUsesCrLf(normal);
    }
  }
}
