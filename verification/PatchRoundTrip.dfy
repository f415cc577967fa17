/** The inverse of the patch parser: printing operations and parsing the printed patch. */
module PatchRoundTrip {
  import opened Wrappers
  import opened Lines
  import opened PatchParser
  import HunkRewriter

  // ---------------------------------------------------------------- the printable operations

  predicate PrintablePath(path: string) {
    Trimmed(path) && IsLine(path)
  }

  predicate PrintableHunk(hunk: seq<string>) {
    hunk != [] && forall line <- hunk :: IsLine(line) && !StartsSection(line) && !IsHunkMark(line)
  }

  predicate Printable(op: PatchOperation) {
    match op
    case Add(path, content) =>
      PrintablePath(path) && content != "" && content[|content| - 1] == '\n' && '\r' !in content
    case Delete(path) => PrintablePath(path)
    case Update(path, moveTo, hunks) =>
      PrintablePath(path)
      && (moveTo.Some? ==> PrintablePath(moveTo.value))
      && forall hunk <- hunks :: PrintableHunk(hunk)
  }

  predicate AllPrintable(ops: seq<PatchOperation>) {
    forall op <- ops :: Printable(op)
  }

  // ---------------------------------------------------------------- the printer

  function Plus(line: string): string {
    "+" + line
  }

  function PrintHunks(hunks: seq<seq<string>>): seq<string> {
    if hunks == [] then [] else [HUNK_MARK] + hunks[0] + PrintHunks(hunks[1..])
  }

  function Header(op: PatchOperation): string {
    match op
    case Add(path, _) => ADD_FILE + path
    case Delete(path) => DELETE_FILE + path
    case Update(path, _, _) => UPDATE_FILE + path
  }

  function MoveLines(moveTo: Option<string>): seq<string> {
    if moveTo.Some? then [MOVE_TO + moveTo.value] else []
  }

  /** The lines of an operation after its header. */
  function Section(op: PatchOperation): seq<string>
    requires Printable(op)
  {
    match op
    case Add(_, content) => HunkRewriter.Map(Plus, Split(content[..|content| - 1]))
    case Delete(_) => []
    case Update(_, moveTo, hunks) =>
      MoveLines(moveTo) + PrintHunks(hunks)
  }

  function PrintOps(ops: seq<PatchOperation>): seq<string>
    requires AllPrintable(ops)
  {
    if ops == [] then []
    else
      assert Printable(ops[0]);
      [Header(ops[0])] + Section(ops[0]) + PrintOps(ops[1..])
  }

  function Print(ops: seq<PatchOperation>): string
    requires AllPrintable(ops)
  {
    Join([BEGIN_PATCH] + PrintOps(ops) + [END_PATCH])
  }

  // ---------------------------------------------------------------- sections read back

  /** What follows a section: nothing, or the next header. */
  predicate AtHeader(lines: seq<string>) {
    lines == [] || (StartsSection(lines[0]) && !(MOVE_TO <= lines[0]))
  }

  lemma {:induction false} RunOf(run: seq<string>, rest: seq<string>)
    requires forall line <- run :: !StartsSection(line)
    requires AtHeader(rest)
    ensures RunLength(run + rest) == |run|
    ensures (run + rest)[..|run|] == run && (run + rest)[|run|..] == rest
  {
    if run == [] {
      assert run + rest == rest;
    } else {
      assert run[0] in run && (run + rest)[1..] == run[1..] + rest;
      RunOf(run[1..], rest);
    }
  }

  lemma {:induction false} GroupPrintedHunk(hunk: seq<string>, rest: seq<string>, current: seq<string>)
    requires forall line <- hunk :: !IsHunkMark(line)
    requires rest == [] || IsHunkMark(rest[0])
    ensures GroupHunks(hunk + rest, current) == Flush(current + hunk) + GroupHunks(rest, [])
    decreases hunk
  {
    if hunk == [] {
      assert hunk + rest == rest && current + hunk == current;
      if rest != [] {
        assert GroupHunks(rest, []) == Flush([]) + GroupHunks(rest[1..], []);
      }
    } else {
      assert hunk[0] in hunk && (hunk + rest)[1..] == hunk[1..] + rest;
      assert (current + [hunk[0]]) + hunk[1..] == current + hunk;
      GroupPrintedHunk(hunk[1..], rest, current + [hunk[0]]);
    }
  }

  lemma {:induction false} GroupPrintedHunks(hunks: seq<seq<string>>)
    requires forall hunk <- hunks :: PrintableHunk(hunk)
    ensures GroupHunks(PrintHunks(hunks), []) == hunks
  {
    if hunks != [] {
      assert hunks[0] in hunks;
      GroupPrintedHunks(hunks[1..]);
      var rest := PrintHunks(hunks[1..]);
      GroupPrintedHunk(hunks[0], rest, []);
      assert PrintHunks(hunks)[1..] == hunks[0] + rest;
      assert [] + hunks[0] == hunks[0];
      assert hunks == [hunks[0]] + hunks[1..];
    }
  }

  lemma {:induction false} PrintedHunkLines(hunks: seq<seq<string>>)
    requires forall hunk <- hunks :: PrintableHunk(hunk)
    ensures forall line <- PrintHunks(hunks) :: IsLine(line) && !StartsSection(line)
  {
    if hunks != [] {
      assert hunks[0] in hunks;
      PrintedHunkLines(hunks[1..]);
    }
  }

  lemma PrintedPath(header: string, path: string)
    requires Trimmed(path)
    ensures header <= header + path && Path(header + path, header) == path
  {
    assert (header + path)[|header|..] == path;
    StripTrims(path);
  }

  lemma HeaderShape(op: PatchOperation)
    ensures Header(op) != "" && StartsSection(Header(op)) && !(MOVE_TO <= Header(op))
    ensures op.Add? ==> ADD_FILE <= Header(op)
    ensures op.Delete? ==> DELETE_FILE <= Header(op) && !(ADD_FILE <= Header(op))
    ensures op.Update? ==> UPDATE_FILE <= Header(op) && !(ADD_FILE <= Header(op)) && !(DELETE_FILE <= Header(op))
  {
    assert MOVE_TO[4] == 'M' && ADD_FILE[4] == 'A' && DELETE_FILE[4] == 'D' && UPDATE_FILE[4] == 'U';
  }

  lemma PrintedContent(content: string)
    requires content != "" && content[|content| - 1] == '\n' && '\r' !in content
    ensures var lines := Split(content[..|content| - 1]);
            && Join(HunkRewriter.Map(Tail, HunkRewriter.Map(Plus, lines))) + "\n" == content
            && forall line <- HunkRewriter.Map(Plus, lines) :: IsAddedLine(line) && IsLine(line) && !StartsSection(line)
  {
    var text := content[..|content| - 1];
    var lines := Split(text);
    JoinOfSplit(text);
    SplitChars(text);
    assert HunkRewriter.Map(Tail, HunkRewriter.Map(Plus, lines)) == lines;
    assert text + "\n" == content;
    forall line <- HunkRewriter.Map(Plus, lines) ensures IsAddedLine(line) && IsLine(line) && !StartsSection(line) {
      var i :| 0 <= i < |lines| && line == Plus(lines[i]);
      assert lines[i] in lines;
      assert forall c <- lines[i] :: c in content;
      assert STARS[0] == '*' && line[0] == '+';
    }
  }

  /** One printed operation in front of others is read back, and the rest is left to be read. */
  lemma ParseOfSection(op: PatchOperation, rest: seq<string>)
    requires Printable(op) && AtHeader(rest)
    ensures ParseBody([Header(op)] + Section(op) + rest) == Prepend([op], ParseBody(rest))
  {
    match op
    case Add(_, _) => AddReadBack(op, rest);
    case Delete(_) => DeleteReadBack(op, rest);
    case Update(_, _, _) => UpdateReadBack(op, rest);
  }

  lemma AddReadBack(op: PatchOperation, rest: seq<string>)
    requires op.Add? && Printable(op) && AtHeader(rest)
    ensures ParseBody([Header(op)] + Section(op) + rest) == Prepend([op], ParseBody(rest))
  {
    var lines := [Header(op)] + Section(op) + rest;
    HeadAndTail(Header(op), Section(op), rest);
    HeaderShape(op);
    PrintedHeader(op);
    ParseOfAdd(lines, op.content, rest);
  }

  lemma DeleteReadBack(op: PatchOperation, rest: seq<string>)
    requires op.Delete? && Printable(op) && AtHeader(rest)
    ensures ParseBody([Header(op)] + Section(op) + rest) == Prepend([op], ParseBody(rest))
  {
    var lines := [Header(op)] + Section(op) + rest;
    HeadAndTail(Header(op), Section(op), rest);
    HeaderShape(op);
    PrintedHeader(op);
    ParseOfDelete(lines, rest);
  }

  lemma UpdateReadBack(op: PatchOperation, rest: seq<string>)
    requires op.Update? && Printable(op) && AtHeader(rest)
    ensures ParseBody([Header(op)] + Section(op) + rest) == Prepend([op], ParseBody(rest))
  {
    var lines := [Header(op)] + Section(op) + rest;
    HeadAndTail(Header(op), Section(op), rest);
    UpdateHeader(op.path);
    ParseOfUpdate(lines, op.moveTo, op.hunks, rest);
  }

  lemma HeadAndTail(head: string, section: seq<string>, rest: seq<string>)
    ensures ([head] + section + rest)[0] == head && ([head] + section + rest)[1..] == section + rest
  {
  }

  lemma UpdateHeader(path: string)
    requires PrintablePath(path)
    ensures var line := UPDATE_FILE + path;
            && line != "" && !(ADD_FILE <= line) && !(DELETE_FILE <= line) && UPDATE_FILE <= line
            && Path(line, UPDATE_FILE) == path
  {
    assert ADD_FILE[4] == 'A' && DELETE_FILE[4] == 'D' && UPDATE_FILE[4] == 'U';
    PrintedPath(UPDATE_FILE, path);
  }

  lemma PrintedHeader(op: PatchOperation)
    requires Printable(op)
    ensures match op
            case Add(path, _) => ADD_FILE <= Header(op) && Path(Header(op), ADD_FILE) == path
            case Delete(path) => DELETE_FILE <= Header(op) && Path(Header(op), DELETE_FILE) == path
            case Update(path, _, _) => UPDATE_FILE <= Header(op) && Path(Header(op), UPDATE_FILE) == path
  {
    match op
    case Add(path, _) => PrintedPath(ADD_FILE, path);
    case Delete(path) => PrintedPath(DELETE_FILE, path);
    case Update(path, _, _) => PrintedPath(UPDATE_FILE, path);
  }

  lemma ParseOfDelete(lines: seq<string>, rest: seq<string>)
    requires lines != [] && lines[0] != "" && !(ADD_FILE <= lines[0]) && DELETE_FILE <= lines[0]
    requires lines[1..] == [] + rest
    ensures ParseBody(lines) == Prepend([Delete(Path(lines[0], DELETE_FILE))], ParseBody(rest))
  {
    assert lines[1..] == rest;
  }

  lemma ParseOfAdd(lines: seq<string>, content: string, rest: seq<string>)
    requires content != "" && content[|content| - 1] == '\n' && '\r' !in content
    requires lines != [] && lines[0] != "" && ADD_FILE <= lines[0] && AtHeader(rest)
    requires lines[1..] == HunkRewriter.Map(Plus, Split(content[..|content| - 1])) + rest
    ensures ParseBody(lines) == Prepend([Add(Path(lines[0], ADD_FILE), content)], ParseBody(rest))
  {
    var run := HunkRewriter.Map(Plus, Split(content[..|content| - 1]));
    PrintedContent(content);
    RunOf(run, rest);
  }

  lemma ParseOfUpdate(lines: seq<string>, moveTo: Option<string>, hunks: seq<seq<string>>, rest: seq<string>)
    requires forall hunk <- hunks :: PrintableHunk(hunk)
    requires moveTo.Some? ==> PrintablePath(moveTo.value)
    requires lines != [] && lines[0] != "" && AtHeader(rest)
    requires !(ADD_FILE <= lines[0]) && !(DELETE_FILE <= lines[0]) && UPDATE_FILE <= lines[0]
    requires lines[1..] == MoveLines(moveTo) + PrintHunks(hunks) + rest
    ensures ParseBody(lines) == Prepend([Update(Path(lines[0], UPDATE_FILE), moveTo, hunks)], ParseBody(rest))
  {
    GroupPrintedHunks(hunks);
    PrintedHunkLines(hunks);
    RunOf(PrintHunks(hunks), rest);
    MoveReadBack(moveTo, hunks, rest);
  }

  lemma MoveReadBack(moveTo: Option<string>, hunks: seq<seq<string>>, rest: seq<string>)
    requires AtHeader(rest) && (moveTo.Some? ==> PrintablePath(moveTo.value))
    ensures MoveTarget(MoveLines(moveTo) + PrintHunks(hunks) + rest)
            == (moveTo, PrintHunks(hunks) + rest)
  {
    var lines := MoveLines(moveTo) + PrintHunks(hunks) + rest;
    if moveTo.Some? {
      PrintedPath(MOVE_TO, moveTo.value);
      assert lines[1..] == PrintHunks(hunks) + rest;
    } else {
      assert lines == PrintHunks(hunks) + rest;
      if hunks != [] {
        assert lines[0] == HUNK_MARK && MOVE_TO[0] == '*';
      }
    }
  }

  lemma {:induction false} ParseOfPrintedOps(ops: seq<PatchOperation>)
    requires AllPrintable(ops)
    ensures ParseBody(PrintOps(ops)) == Ok(ops)
    ensures AtHeader(PrintOps(ops))
  {
    if ops != [] {
      assert Printable(ops[0]);
      ParseOfPrintedOps(ops[1..]);
      HeaderShape(ops[0]);
      ParseOfSection(ops[0], PrintOps(ops[1..]));
      assert ops == [ops[0]] + ops[1..];
    }
  }

  // ---------------------------------------------------------------- the whole text

  lemma SectionLines(op: PatchOperation)
    requires Printable(op)
    ensures IsLine(Header(op)) && AllLines(Section(op))
  {
    match op
    case Add(path, content) => PrintedContent(content);
    case Delete(path) =>
    case Update(path, moveTo, hunks) => PrintedHunkLines(hunks);
  }

  lemma {:induction false} PrintedLines(ops: seq<PatchOperation>)
    requires AllPrintable(ops)
    ensures AllLines(PrintOps(ops))
  {
    if ops != [] {
      assert Printable(ops[0]);
      SectionLines(ops[0]);
      PrintedLines(ops[1..]);
    }
  }

  lemma EnvelopeMarks()
    ensures IsLine(BEGIN_PATCH) && IsLine(END_PATCH) && END_PATCH != ""
    ensures Strip(BEGIN_PATCH) == BEGIN_PATCH && Strip(END_PATCH) == END_PATCH
  {
    BeginMark();
    EndMark();
    TrimmedMark(BEGIN_PATCH);
    TrimmedMark(END_PATCH);
  }

  lemma BeginMark()
    ensures IsLine(BEGIN_PATCH) && Trimmed(BEGIN_PATCH)
  {
  }

  lemma EndMark()
    ensures IsLine(END_PATCH) && Trimmed(END_PATCH) && END_PATCH != ""
  {
  }

  lemma TrimmedMark(mark: string)
    requires Trimmed(mark)
    ensures Strip(mark) == mark
  {
    StripTrims(mark);
  }

  lemma EnvelopeLines(body: seq<string>)
    requires AllLines(body)
    ensures var lines := [BEGIN_PATCH] + body + [END_PATCH];
            && DropTrailingBlanks(Split(NormalizeToLf(Join(lines)))) == lines
            && InEnvelope(lines)
  {
    var lines := [BEGIN_PATCH] + body + [END_PATCH];
    EnvelopeMarks();
    assert AllLines(lines);
    JoinChars(lines);
    NormalizeKeepsLf(Join(lines));
    SplitOfJoin(lines);
  }

  /** Every printable operation list is what its printed patch parses to. */
  lemma ParseOfPrint(ops: seq<PatchOperation>)
    requires AllPrintable(ops)
    ensures Parse(Print(ops)) == Ok(ops)
  {
    var body := PrintOps(ops);
    PrintedLines(ops);
    EnvelopeLines(body);
    var lines := [BEGIN_PATCH] + body + [END_PATCH];
    assert lines[1..|lines| - 1] == body;
    ParseOfPrintedOps(ops);
  }

  // ---------------------------------------------------------------- nothing else is parsed

  lemma PathIsPrintable(line: string, header: string)
    requires header <= line && IsLine(line)
    ensures PrintablePath(Path(line, header))
  {
    StripTrims(line[|header|..]);
  }

  lemma {:induction false} GroupedArePrintable(lines: seq<string>, current: seq<string>)
    requires forall line <- lines :: IsLine(line) && !StartsSection(line)
    requires current == [] || PrintableHunk(current)
    ensures forall hunk <- GroupHunks(lines, current) :: PrintableHunk(hunk)
    decreases lines
  {
    if lines != [] {
      assert lines[0] in lines;
      if IsHunkMark(lines[0]) {
        GroupedArePrintable(lines[1..], []);
      } else {
        GroupedArePrintable(lines[1..], current + [lines[0]]);
      }
    }
  }

  lemma AddedIsPrintable(run: seq<string>)
    requires AllLines(run)
    ensures '\r' !in Join(HunkRewriter.Map(Tail, run)) + "\n"
  {
    var tails := HunkRewriter.Map(Tail, run);
    JoinChars(tails);
    forall tail <- tails ensures '\r' !in tail {
      var i :| 0 <= i < |run| && tail == Tail(run[i]);
      assert run[i] in run;
    }
  }

  lemma UpdateIsPrintable(lines: seq<string>)
    requires AllLines(lines)
    ensures var (moveTo, rest) := MoveTarget(lines);
            && AllLines(rest)
            && (moveTo.Some? ==> PrintablePath(moveTo.value))
            && forall hunk <- GroupHunks(rest[..RunLength(rest)], []) :: PrintableHunk(hunk)
  {
    if lines != [] && MOVE_TO <= lines[0] {
      assert lines[0] in lines;
      PathIsPrintable(lines[0], MOVE_TO);
    }
    var (moveTo, rest) := MoveTarget(lines);
    GroupedArePrintable(rest[..RunLength(rest)], []);
  }

  lemma {:induction false} ParsedBodyIsPrintable(lines: seq<string>)
    requires AllLines(lines)
    ensures ParseBody(lines).Ok? ==> AllPrintable(ParseBody(lines).value)
    decreases |lines|
  {
    if lines != [] {
      assert lines[0] in lines;
      var rest := lines[1..];
      if lines[0] == "" {
        ParsedBodyIsPrintable(rest);
      } else if ADD_FILE <= lines[0] {
        PathIsPrintable(lines[0], ADD_FILE);
        AddedIsPrintable(rest[..RunLength(rest)]);
        ParsedBodyIsPrintable(rest[RunLength(rest)..]);
      } else if DELETE_FILE <= lines[0] {
        PathIsPrintable(lines[0], DELETE_FILE);
        ParsedBodyIsPrintable(rest);
      } else if UPDATE_FILE <= lines[0] {
        PathIsPrintable(lines[0], UPDATE_FILE);
        UpdateIsPrintable(rest);
        var (moveTo, section) := MoveTarget(rest);
        ParsedBodyIsPrintable(section[RunLength(section)..]);
      }
    }
  }

  lemma {:induction false} DropKeepsLines(lines: seq<string>)
    requires AllLines(lines)
    ensures AllLines(DropTrailingBlanks(lines))
  {
    if lines != [] && lines[|lines| - 1] == "" {
      DropKeepsLines(lines[..|lines| - 1]);
    }
  }

  /** Whatever text is parsed, only printable operations come out, so printing and parsing them
      again changes nothing. */
  lemma ParsedIsPrintable(patch: string)
    requires Parse(patch).Ok?
    ensures AllPrintable(Parse(patch).value)
    ensures Parse(Print(Parse(patch).value)) == Parse(patch)
  {
    var split := Split(NormalizeToLf(patch));
    NormalizedHasNoCr(CollapseCrLf(patch));
    SplitChars(NormalizeToLf(patch));
    assert AllLines(split);
    DropKeepsLines(split);
    var lines := DropTrailingBlanks(split);
    ParsedBodyIsPrintable(lines[1..|lines| - 1]);
    ParseOfPrint(Parse(patch).value);
  }

  /** The printable operation lists are exactly the lists patch texts describe. */
  lemma PrintableExactly(ops: seq<PatchOperation>)
    ensures AllPrintable(ops) <==> exists patch :: Parse(patch) == Ok(ops)
  {
    if AllPrintable(ops) {
      ParseOfPrint(ops);
    }
    forall patch | Parse(patch) == Ok(ops) ensures AllPrintable(ops) {
      ParsedIsPrintable(patch);
    }
  }

  // ---------------------------------------------------------------- which texts are accepted

  /** Where a reader of the patch, one line at a time, stands. */
  datatype Place = Between | InAdd | AtUpdate | InUpdate

  /** The place after a section header, if the line is one. */
  function AfterHeader(line: string): Option<Place> {
    if ADD_FILE <= line then Some(InAdd)
    else if DELETE_FILE <= line then Some(Between)
    else if UPDATE_FILE <= line then Some(AtUpdate)
    else None
  }

  /** The place after one line, or None where the line is not allowed. */
  function AfterLine(place: Place, line: string): Option<Place> {
    if place == AtUpdate && MOVE_TO <= line then Some(InUpdate)
    else if StartsSection(line) then AfterHeader(line)
    else match place
      case Between => if line == "" then Some(Between) else None
      case InAdd => if IsAddedLine(line) then Some(InAdd) else None
      case AtUpdate => Some(InUpdate)
      case InUpdate => Some(InUpdate)
  }

  predicate Accepts(lines: seq<string>, place: Place) {
    lines == [] || (var next := AfterLine(place, lines[0]); next.Some? && Accepts(lines[1..], next.value))
  }

  /** Inside a section, a line that starts no section keeps the reader in it, if it is allowed. */
  lemma AfterBodyLine(place: Place, line: string)
    requires place != Between && !StartsSection(line)
    ensures AfterLine(place, line)
            == if place != InAdd then Some(InUpdate) else if IsAddedLine(line) then Some(InAdd) else None
  {
    assert STARS <= MOVE_TO;
    assert MOVE_TO <= line ==> STARS <= line;
  }

  lemma AfterSectionLine(place: Place, line: string)
    requires StartsSection(line) && (place == AtUpdate ==> !(MOVE_TO <= line))
    ensures AfterLine(place, line) == AfterHeader(line) == AfterLine(Between, line)
  {
  }

  lemma {:induction false} AcceptsRun(lines: seq<string>, place: Place)
    requires place != Between
    requires place == AtUpdate ==> lines == [] || !(MOVE_TO <= lines[0])
    ensures var n := RunLength(lines);
            Accepts(lines, place) <==>
              (place == InAdd ==> forall i | 0 <= i < n :: IsAddedLine(lines[i])) && Accepts(lines[n..], Between)
    decreases lines
  {
    if lines == [] {
    } else if StartsSection(lines[0]) {
      AfterSectionLine(place, lines[0]);
      assert lines[0..] == lines;
    } else {
      AfterBodyLine(place, lines[0]);
      AcceptsRun(lines[1..], if place == InAdd then InAdd else InUpdate);
      RunOneMore(lines);
    }
  }

  lemma RunOneMore(lines: seq<string>)
    requires lines != [] && !StartsSection(lines[0])
    ensures RunLength(lines) == 1 + RunLength(lines[1..])
    ensures lines[RunLength(lines)..] == lines[1..][RunLength(lines[1..])..]
    ensures forall i | 1 <= i < RunLength(lines) :: lines[i] == lines[1..][i - 1]
  {
  }

  lemma RunIsAdded(lines: seq<string>)
    ensures (exists line <- lines[..RunLength(lines)] :: !IsAddedLine(line))
            <==> !(forall i | 0 <= i < RunLength(lines) :: IsAddedLine(lines[i]))
  {
    var run := lines[..RunLength(lines)];
    assert forall i | 0 <= i < |run| :: run[i] == lines[i] && run[i] in run;
  }

  lemma HeaderPlace(line: string)
    ensures AfterHeader(line).Some? ==> StartsSection(line) && line != "" && !(MOVE_TO <= line)
    ensures StartsSection(line) ==> line != ""
  {
    assert MOVE_TO[4] == 'M' && ADD_FILE[4] == 'A' && DELETE_FILE[4] == 'D' && UPDATE_FILE[4] == 'U';
  }

  /** The body of a patch is parsed exactly when every line is allowed where it stands: blank lines
      between sections, plus lines in an added file, anything in an updated one. */
  lemma {:induction false} BodyAcceptedExactly(lines: seq<string>)
    ensures ParseBody(lines).Ok? <==> Accepts(lines, Between)
    decreases |lines|
  {
    if lines != [] {
      var rest := lines[1..];
      HeaderPlace(lines[0]);
      if lines[0] == "" {
        BodyAcceptedExactly(rest);
      } else if ADD_FILE <= lines[0] {
        AcceptsRun(rest, InAdd);
        RunIsAdded(rest);
        BodyAcceptedExactly(rest[RunLength(rest)..]);
      } else if DELETE_FILE <= lines[0] {
        BodyAcceptedExactly(rest);
      } else if UPDATE_FILE <= lines[0] {
        UpdateAcceptedExactly(rest);
        var section := MoveTarget(rest).1;
        BodyAcceptedExactly(section[RunLength(section)..]);
      }
    }
  }

  lemma UpdateAcceptedExactly(lines: seq<string>)
    ensures var section := MoveTarget(lines).1;
            Accepts(lines, AtUpdate) <==> Accepts(section[RunLength(section)..], Between)
  {
    if lines != [] && MOVE_TO <= lines[0] {
      AcceptsRun(lines[1..], InUpdate);
    } else {
      AcceptsRun(lines, AtUpdate);
    }
  }
}
