/** The grammar of patch texts, written out line by line, and the theorem that the parser accepts
    exactly the texts of the grammar and gives each its meaning. */
module PatchGrammar {
  import opened Wrappers
  import opened Lines
  import opened PatchParser
  import PatchRoundTrip
  import HunkRewriter

  /** A mark, which may carry a heading, and the lines after it. */
  datatype Chunk = Chunk(heading: string, lines: seq<string>)

  datatype Item =
    | Blank
    | AddItem(path: string, lines: seq<string>)
    | DeleteItem(path: string)
    | UpdateItem(path: string, moveTo: Option<string>, first: seq<string>, chunks: seq<Chunk>)

  function Plus(line: string): string {
    "+" + line
  }

  function ChunkLines(chunks: seq<Chunk>): seq<string> {
    if chunks == [] then [] else ["@@" + chunks[0].heading] + chunks[0].lines + ChunkLines(chunks[1..])
  }

  function MoveLines(moveTo: Option<string>): seq<string> {
    if moveTo.Some? then ["*** Move to: " + moveTo.value] else []
  }

  /** How an item is written. */
  function ItemLines(item: Item): seq<string> {
    match item
    case Blank => [""]
    case AddItem(path, lines) => ["*** Add File: " + path] + HunkRewriter.Map(Plus, lines)
    case DeleteItem(path) => ["*** Delete File: " + path]
    case UpdateItem(path, moveTo, first, chunks) =>
      ["*** Update File: " + path] + (MoveLines(moveTo) + (first + ChunkLines(chunks)))
  }

  function BodyLines(items: seq<Item>): seq<string> {
    if items == [] then [] else ItemLines(items[0]) + BodyLines(items[1..])
  }

  /** A line of a hunk: neither a mark nor the beginning of a section. */
  predicate IsText(line: string) {
    !("@@" <= line) && !("*** " <= line)
  }

  predicate AreTexts(lines: seq<string>) {
    forall line <- lines :: IsText(line)
  }

  /** Blank lines stand before sections and after deletions; inside the other sections they would belong
      to the section. */
  predicate WellFormed(items: seq<Item>) {
    items != [] ==>
      && (items[0].UpdateItem? ==> AreTexts(items[0].first) && forall c <- items[0].chunks :: AreTexts(c.lines))
      && (items[0].UpdateItem? || items[0].AddItem? ==> |items| > 1 ==> !items[1].Blank?)
      && WellFormed(items[1..])
  }

  // ---------------------------------------------------------------- what a patch means

  /** Hunks without a line do not count. */
  function NonEmpty(hunks: seq<seq<string>>): seq<seq<string>> {
    if hunks == [] then [] else (if hunks[0] == [] then [] else [hunks[0]]) + NonEmpty(hunks[1..])
  }

  function Texts(chunks: seq<Chunk>): seq<seq<string>> {
    if chunks == [] then [] else [chunks[0].lines] + Texts(chunks[1..])
  }

  function Meaning(item: Item): seq<PatchOperation> {
    match item
    case Blank => []
    case AddItem(path, lines) => [Add(Strip(path), Join(lines) + "\n")]
    case DeleteItem(path) => [Delete(Strip(path))]
    case UpdateItem(path, moveTo, first, chunks) =>
      [Update(Strip(path), if moveTo.Some? then Some(Strip(moveTo.value)) else None,
              NonEmpty([first] + Texts(chunks)))]
  }

  function Meanings(items: seq<Item>): seq<PatchOperation> {
    if items == [] then [] else Meaning(items[0]) + Meanings(items[1..])
  }

  // ---------------------------------------------------------------- items are read back

  lemma {:induction false} GroupText(lines: seq<string>, rest: seq<string>, current: seq<string>)
    requires AreTexts(lines)
    ensures GroupHunks(lines + rest, current) == GroupHunks(rest, current + lines)
    decreases lines
  {
    if lines == [] {
      assert lines + rest == rest && current + lines == current;
    } else {
      assert lines[0] in lines && (lines + rest)[1..] == lines[1..] + rest;
      GroupText(lines[1..], rest, current + [lines[0]]);
      assert current + [lines[0]] + lines[1..] == current + lines;
    }
  }

  /** A mark ends a hunk, whatever its heading. */
  lemma GroupAtMark(heading: string, rest: seq<string>, current: seq<string>)
    ensures GroupHunks(["@@" + heading] + rest, current) == Flush(current) + GroupHunks(rest, [])
  {
    assert (["@@" + heading] + rest)[1..] == rest;
  }

  lemma {:induction false} GroupsOfChunks(first: seq<string>, chunks: seq<Chunk>)
    requires AreTexts(first) && forall c <- chunks :: AreTexts(c.lines)
    ensures GroupHunks(first + ChunkLines(chunks), []) == NonEmpty([first] + Texts(chunks))
    decreases chunks
  {
    GroupText(first, ChunkLines(chunks), []);
    assert [] + first == first && ([first] + Texts(chunks))[1..] == Texts(chunks);
    if chunks != [] {
      var rest := chunks[0].lines + ChunkLines(chunks[1..]);
      assert ChunkLines(chunks) == ["@@" + chunks[0].heading] + rest;
      GroupAtMark(chunks[0].heading, rest, first);
      GroupsOfChunks(chunks[0].lines, chunks[1..]);
    } else {
      assert first + [] == first;
    }
  }

  /** Anywhere among hunk lines, the heading of a mark makes no difference. */
  lemma {:induction false} HeadingIsIgnored(a: seq<string>, heading: string, b: seq<string>, current: seq<string>)
    ensures GroupHunks(a + ["@@" + heading] + b, current) == GroupHunks(a + ["@@"] + b, current)
    decreases a
  {
    if a == [] {
      GroupAtMark(heading, b, current);
      GroupAtMark("", b, current);
      assert "@@" + "" == "@@";
      assert a + ["@@" + heading] + b == ["@@" + heading] + b && a + ["@@"] + b == ["@@" + ""] + b;
    } else {
      assert (a + ["@@" + heading] + b)[1..] == a[1..] + ["@@" + heading] + b;
      assert (a + ["@@"] + b)[1..] == a[1..] + ["@@"] + b;
      HeadingIsIgnored(a[1..], heading, b, []);
      HeadingIsIgnored(a[1..], heading, b, current + [a[0]]);
    }
  }

  lemma {:induction false} ChunksStartNoSection(chunks: seq<Chunk>)
    requires forall c <- chunks :: AreTexts(c.lines)
    ensures forall line <- ChunkLines(chunks) :: !StartsSection(line)
  {
    if chunks != [] {
      ChunksStartNoSection(chunks[1..]);
      assert ("@@" + chunks[0].heading)[0] == '@';
    }
  }

  lemma ItemStarts(items: seq<Item>)
    ensures BodyLines(items) == [] <==> items == []
    ensures items != [] && !items[0].Blank? ==>
              StartsSection(BodyLines(items)[0]) && !("*** Move to: " <= BodyLines(items)[0])
    ensures items != [] && items[0].Blank? ==> BodyLines(items)[0] == ""
  {
    if items != [] {
      var line := ItemLines(items[0])[0];
      assert BodyLines(items)[0] == line;
      if !items[0].Blank? {
        assert line[4] == 'A' || line[4] == 'D' || line[4] == 'U';
      }
    }
  }

  lemma HeaderPath(header: string, path: string)
    ensures header <= header + path && Path(header + path, header) == Strip(path)
  {
    assert (header + path)[|header|..] == path;
  }

  lemma AddSection(lines: seq<string>, added: seq<string>, rest: seq<string>)
    requires lines != [] && lines[0] != "" && ADD_FILE <= lines[0]
    requires lines[1..] == HunkRewriter.Map(Plus, added) + rest && PatchRoundTrip.AtHeader(rest)
    ensures ParseBody(lines) == Prepend([Add(Path(lines[0], ADD_FILE), Join(added) + "\n")], ParseBody(rest))
  {
    var run := HunkRewriter.Map(Plus, added);
    forall line <- run ensures IsAddedLine(line) && !StartsSection(line) {
      assert line[0] == '+';
    }
    PatchRoundTrip.RunOf(run, rest);
    assert HunkRewriter.Map(Tail, run) == added;
  }

  lemma AddItemReadBack(path: string, lines: seq<string>, rest: seq<string>)
    requires PatchRoundTrip.AtHeader(rest)
    ensures ParseBody(ItemLines(AddItem(path, lines)) + rest)
            == Prepend([Add(Strip(path), Join(lines) + "\n")], ParseBody(rest))
  {
    PatchRoundTrip.HeadAndTail("*** Add File: " + path, HunkRewriter.Map(Plus, lines), rest);
    HeaderPath(ADD_FILE, path);
    AddSection(ItemLines(AddItem(path, lines)) + rest, lines, rest);
  }

  lemma DeleteItemReadBack(path: string, rest: seq<string>)
    ensures ParseBody(ItemLines(DeleteItem(path)) + rest) == Prepend([Delete(Strip(path))], ParseBody(rest))
  {
    var all := ItemLines(DeleteItem(path)) + rest;
    HeaderPath(DELETE_FILE, path);
    assert all[0] == DELETE_FILE + path && all[1..] == rest;
    assert all[0][4] == 'D' && ADD_FILE[4] == 'A';
  }

  lemma UpdateSection(lines: seq<string>, moveTo: Option<string>, run: seq<string>, rest: seq<string>)
    requires lines != [] && lines[0] != ""
    requires !(ADD_FILE <= lines[0]) && !(DELETE_FILE <= lines[0]) && UPDATE_FILE <= lines[0]
    requires MoveTarget(lines[1..]) == (moveTo, run + rest)
    requires PatchRoundTrip.AtHeader(rest) && forall line <- run :: !StartsSection(line)
    ensures ParseBody(lines)
            == Prepend([Update(Path(lines[0], UPDATE_FILE), moveTo, GroupHunks(run, []))], ParseBody(rest))
  {
    PatchRoundTrip.RunOf(run, rest);
  }

  lemma UpdateHeader(path: string)
    ensures var line := "*** Update File: " + path;
            && line != "" && !(ADD_FILE <= line) && !(DELETE_FILE <= line) && UPDATE_FILE <= line
            && Path(line, UPDATE_FILE) == Strip(path)
  {
    HeaderPath(UPDATE_FILE, path);
    assert (UPDATE_FILE + path)[4] == 'U' && ADD_FILE[4] == 'A' && DELETE_FILE[4] == 'D';
  }

  lemma UpdateItemReadBack(item: Item, rest: seq<string>)
    requires item.UpdateItem? && AreTexts(item.first) && forall c <- item.chunks :: AreTexts(c.lines)
    requires PatchRoundTrip.AtHeader(rest)
    ensures ParseBody(ItemLines(item) + rest) == Prepend(Meaning(item), ParseBody(rest))
  {
    var run := item.first + ChunkLines(item.chunks);
    PatchRoundTrip.HeadAndTail("*** Update File: " + item.path, MoveLines(item.moveTo) + run, rest);
    assert MoveLines(item.moveTo) + run + rest == MoveLines(item.moveTo) + (run + rest);
    UpdateHeader(item.path);
    ChunksStartNoSection(item.chunks);
    MoveReadBack(item.moveTo, run, rest);
    var moveTo := if item.moveTo.Some? then Some(Strip(item.moveTo.value)) else None;
    UpdateSection(ItemLines(item) + rest, moveTo, run, rest);
    GroupsOfChunks(item.first, item.chunks);
  }

  lemma MoveReadBack(moveTo: Option<string>, run: seq<string>, rest: seq<string>)
    requires forall line <- run :: !StartsSection(line)
    requires PatchRoundTrip.AtHeader(rest)
    ensures MoveTarget(MoveLines(moveTo) + (run + rest))
            == (if moveTo.Some? then Some(Strip(moveTo.value)) else None, run + rest)
  {
    var lines := MoveLines(moveTo) + (run + rest);
    if moveTo.Some? {
      assert lines[0] == "*** Move to: " + moveTo.value && lines[0][13..] == moveTo.value && lines[1..] == run + rest;
    } else {
      assert lines == run + rest;
      if run != [] {
        assert lines[0] == run[0] && run[0] in run;
        assert MOVE_TO[..4] == STARS;
      }
    }
  }

  /** What follows the items begins a section, where the last of them would otherwise take it in. */
  ghost predicate CanFollow(items: seq<Item>, rest: seq<string>) {
    items != [] && (items[|items| - 1].AddItem? || items[|items| - 1].UpdateItem?) ==> PatchRoundTrip.AtHeader(rest)
  }

  lemma ItemReadBack(item: Item, later: seq<Item>, rest: seq<string>)
    requires WellFormed([item] + later) && CanFollow([item] + later, rest)
    ensures ParseBody(ItemLines(item) + (BodyLines(later) + rest))
            == Prepend(Meaning(item), ParseBody(BodyLines(later) + rest))
  {
    var after := BodyLines(later) + rest;
    assert ([item] + later)[0] == item && (later != [] ==> ([item] + later)[1] == later[0]);
    ItemStarts(later);
    if later == [] {
      assert after == rest && ([item] + later)[|[item] + later| - 1] == item;
    } else {
      assert after[0] == BodyLines(later)[0];
    }
    match item
    case Blank =>
      assert ([""] + after)[1..] == after;
      PrependNothing(ParseBody(after));
    case AddItem(path, lines) => AddItemReadBack(path, lines, after);
    case DeleteItem(path) => DeleteItemReadBack(path, after);
    case UpdateItem(_, _, _, _) => UpdateItemReadBack(item, after);
  }

  /** Items at the beginning of a body are read as what they mean, whatever follows. */
  lemma {:induction false} ItemsReadBack(items: seq<Item>, rest: seq<string>)
    requires WellFormed(items) && CanFollow(items, rest)
    ensures ParseBody(BodyLines(items) + rest) == Prepend(Meanings(items), ParseBody(rest))
  {
    if items == [] {
      assert BodyLines(items) + rest == rest;
      PrependNothing(ParseBody(rest));
    } else {
      assert [items[0]] + items[1..] == items;
      assert BodyLines(items) + rest == ItemLines(items[0]) + (BodyLines(items[1..]) + rest);
      ItemReadBack(items[0], items[1..], rest);
      ItemsReadBack(items[1..], rest);
      PrependTwice(Meaning(items[0]), Meanings(items[1..]), ParseBody(rest));
    }
  }

  /** Every body of the grammar is read as what it means. */
  lemma ParseOfItems(items: seq<Item>)
    requires WellFormed(items)
    ensures ParseBody(BodyLines(items)) == Ok(Meanings(items))
  {
    ItemsReadBack(items, []);
    assert BodyLines(items) + [] == BodyLines(items) && Meanings(items) + [] == Meanings(items);
  }

  /** The first line that fits nowhere is reported, after any items. */
  lemma UnrecognizedIsReported(items: seq<Item>, line: string, more: seq<string>)
    requires WellFormed(items) && CanFollow(items, [line] + more) && line != ""
    requires !("*** Add File: " <= line) && !("*** Delete File: " <= line) && !("*** Update File: " <= line)
    ensures ParseBody(BodyLines(items) + ([line] + more)) == Err(UnrecognizedLine(line))
  {
    ItemsReadBack(items, [line] + more);
  }

  /** And so is a line without a plus sign in the content of an added file. */
  lemma MissingPlusIsReported(items: seq<Item>, path: string, added: seq<string>, line: string, more: seq<string>)
    requires WellFormed(items) && !("+" <= line) && !("*** " <= line)
    ensures ParseBody(BodyLines(items) + (ItemLines(AddItem(path, added)) + ([line] + more))) == Err(AddLineWithoutPlus)
  {
    var section := ItemLines(AddItem(path, added)) + ([line] + more);
    PatchRoundTrip.HeadAndTail("*** Add File: " + path, HunkRewriter.Map(Plus, added), [line] + more);
    AddHeader(path);
    MissingPlus(section, added, line, more);
    ItemsReadBack(items, section);
  }

  lemma AddHeader(path: string)
    ensures var line := "*** Add File: " + path;
            line != "" && ADD_FILE <= line && StartsSection(line) && !(MOVE_TO <= line)
  {
    assert ("*** Add File: " + path)[4] == 'A' && MOVE_TO[4] == 'M';
  }

  lemma MissingPlus(section: seq<string>, added: seq<string>, line: string, more: seq<string>)
    requires section != [] && section[0] != "" && ADD_FILE <= section[0]
    requires section[1..] == HunkRewriter.Map(Plus, added) + ([line] + more)
    requires !IsAddedLine(line) && !StartsSection(line)
    ensures ParseBody(section) == Err(AddLineWithoutPlus)
  {
    PlusRun(added, line, more);
    var run := section[1..][..RunLength(section[1..])];
    assert run[|added|] == line && line in run;
  }

  lemma {:induction false} PlusRun(added: seq<string>, line: string, more: seq<string>)
    requires !StartsSection(line)
    ensures RunLength(HunkRewriter.Map(Plus, added) + ([line] + more)) > |added|
  {
    var all := HunkRewriter.Map(Plus, added) + ([line] + more);
    if added != [] {
      PlusRun(added[1..], line, more);
      assert all[0][0] == '+' && all[1..] == HunkRewriter.Map(Plus, added[1..]) + ([line] + more);
    }
  }

  // ---------------------------------------------------------------- whatever is read is an item

  lemma MarkedChunk(mark: string, lines: seq<string>, later: seq<Chunk>)
    requires "@@" <= mark
    ensures ChunkLines([Chunk(mark[2..], lines)] + later) == [mark] + (lines + ChunkLines(later))
  {
    var chunks := [Chunk(mark[2..], lines)] + later;
    assert mark == "@@" + mark[2..] && chunks[1..] == later;
  }

  /** Lines of an update section, cut at their marks. */
  lemma {:induction false} ChunksOf(run: seq<string>) returns (first: seq<string>, chunks: seq<Chunk>)
    requires forall line <- run :: !("*** " <= line)
    ensures run == first + ChunkLines(chunks)
    ensures AreTexts(first) && forall c <- chunks :: AreTexts(c.lines)
  {
    first, chunks := [], [];
    if run != [] {
      assert forall line <- run[1..] :: line in run;
      var lines, later := ChunksOf(run[1..]);
      assert run == [run[0]] + run[1..] && run[0] in run;
      if "@@" <= run[0] {
        chunks := [Chunk(run[0][2..], lines)] + later;
        MarkedChunk(run[0], lines, later);
        assert run == first + ChunkLines(chunks);
      } else {
        first, chunks := [run[0]] + lines, later;
      }
    }
  }

  lemma AddedLines(run: seq<string>) returns (lines: seq<string>)
    requires forall line <- run :: IsAddedLine(line)
    ensures run == HunkRewriter.Map(Plus, lines)
  {
    lines := HunkRewriter.Map(Tail, run);
    forall i | 0 <= i < |run| ensures run[i] == Plus(lines[i]) {
      assert run[i] in run && run[i] == [run[i][0]] + run[i][1..];
    }
  }

  lemma OneItem(lines: seq<string>) returns (item: Item, n: nat)
    requires lines != [] && ParseBody(lines).Ok?
    ensures 0 < n <= |lines| && ItemLines(item) == lines[..n] && ParseBody(lines[n..]).Ok?
    ensures item.UpdateItem? ==> AreTexts(item.first) && forall c <- item.chunks :: AreTexts(c.lines)
    ensures item.UpdateItem? || item.AddItem? ==> n == |lines| || StartsSection(lines[n])
  {
    if lines[0] == "" {
      item, n := Blank, 1;
    } else if ADD_FILE <= lines[0] {
      item, n := OneAddition(lines);
    } else if DELETE_FILE <= lines[0] {
      item, n := DeleteItem(lines[0][17..]), 1;
      assert lines[0] == DELETE_FILE + lines[0][17..];
    } else {
      item, n := OneUpdate(lines);
    }
  }

  lemma OneAddition(lines: seq<string>) returns (item: Item, n: nat)
    requires lines != [] && lines[0] != "" && ADD_FILE <= lines[0] && ParseBody(lines).Ok?
    ensures item.AddItem? && 0 < n <= |lines| && ItemLines(item) == lines[..n] && ParseBody(lines[n..]).Ok?
    ensures n == |lines| || StartsSection(lines[n])
  {
    var rest := lines[1..];
    var k := RunLength(rest);
    var added := AddedLines(rest[..k]);
    item, n := AddItem(lines[0][14..], added), k + 1;
    assert lines[0] == ADD_FILE + lines[0][14..];
    assert lines[..n] == [lines[0]] + rest[..k] && rest[k..] == lines[n..];
  }

  lemma OneUpdate(lines: seq<string>) returns (item: Item, n: nat)
    requires lines != [] && lines[0] != "" && !(ADD_FILE <= lines[0]) && !(DELETE_FILE <= lines[0])
    requires ParseBody(lines).Ok?
    ensures item.UpdateItem? && 0 < n <= |lines| && ItemLines(item) == lines[..n] && ParseBody(lines[n..]).Ok?
    ensures AreTexts(item.first) && forall c <- item.chunks :: AreTexts(c.lines)
    ensures n == |lines| || StartsSection(lines[n])
  {
    assert UPDATE_FILE <= lines[0];
    var moveTo, m := OneMove(lines[1..]);
    var rest := lines[1..][m..];
    var k := RunLength(rest);
    var first, chunks := ChunksOf(rest[..k]);
    item, n := UpdateItem(lines[0][17..], moveTo, first, chunks), 1 + m + k;
    assert lines[0] == UPDATE_FILE + lines[0][17..];
    CutThree(lines, m, k);
  }

  lemma OneMove(lines: seq<string>) returns (moveTo: Option<string>, m: nat)
    ensures m <= |lines| && lines[..m] == MoveLines(moveTo) && MoveTarget(lines).1 == lines[m..]
  {
    moveTo, m := None, 0;
    if lines != [] && MOVE_TO <= lines[0] {
      moveTo, m := Some(lines[0][13..]), 1;
      assert lines[0] == MOVE_TO + lines[0][13..];
    }
  }

  lemma CutThree(lines: seq<string>, m: nat, k: nat)
    requires 1 + m + k <= |lines|
    ensures lines[..1 + m + k] == [lines[0]] + (lines[1..][..m] + lines[1..][m..][..k])
    ensures lines[1..][m..][k..] == lines[1 + m + k..]
    ensures 1 + m + k < |lines| ==> lines[1..][m..][k] == lines[1 + m + k]
  {
  }

  /** Every body that is read is one of the grammar. */
  lemma {:induction false} ItemsOfParsed(lines: seq<string>) returns (items: seq<Item>)
    requires ParseBody(lines).Ok?
    ensures WellFormed(items) && BodyLines(items) == lines
    decreases |lines|
  {
    items := [];
    if lines != [] {
      var item, n := OneItem(lines);
      var later := ItemsOfParsed(lines[n..]);
      items := [item] + later;
      assert items[1..] == later && lines == lines[..n] + lines[n..];
      ItemStarts(later);
      if later != [] {
        assert BodyLines(later)[0] == lines[n];
      }
    }
  }

  // ---------------------------------------------------------------- whole patch texts

  function Blanks(n: nat): (r: seq<string>)
    ensures |r| == n && forall line <- r :: line == ""
  {
    seq(n, i => "")
  }

  lemma {:induction false} DropsBlanks(lines: seq<string>, n: nat)
    requires lines != [] && lines[|lines| - 1] != ""
    ensures DropTrailingBlanks(lines + Blanks(n)) == lines
  {
    var all := lines + Blanks(n);
    if n == 0 {
      assert all == lines;
    } else {
      DropsBlanks(lines, n - 1);
      assert all[..|all| - 1] == lines + Blanks(n - 1) && all[|all| - 1] == "";
    }
  }

  lemma {:induction false} BlanksDropped(lines: seq<string>) returns (n: nat)
    ensures lines == DropTrailingBlanks(lines) + Blanks(n)
  {
    n := 0;
    if lines != [] && lines[|lines| - 1] == "" {
      n := BlanksDropped(lines[..|lines| - 1]);
      n := n + 1;
      assert lines == lines[..|lines| - 1] + [""] && Blanks(n) == Blanks(n - 1) + [""];
    } else {
      assert lines == lines + Blanks(0);
    }
  }

  /** The lines of the text, whatever its line breaks: an opening line, items, a closing line, and blank
      lines at most after it. */
  ghost predicate Describes(patch: string, begin: string, items: seq<Item>, end: string, n: nat) {
    && Opens(begin) && Closes(end) && WellFormed(items)
    && Split(OneBreakEach(patch)) == Enveloped(begin, BodyLines(items), end, n)
  }

  predicate Opens(line: string) {
    Strip(line) == "*** Begin Patch"
  }

  predicate Closes(line: string) {
    Strip(line) == "*** End Patch"
  }

  function Enveloped(begin: string, body: seq<string>, end: string, n: nat): seq<string> {
    [begin] + body + [end] + Blanks(n)
  }

  lemma DescribedIsParsed(patch: string, begin: string, items: seq<Item>, end: string, n: nat)
    requires Describes(patch, begin, items, end, n)
    ensures Parse(patch) == Ok(Meanings(items))
  {
    var lines := [begin] + BodyLines(items) + [end];
    NormalizesEveryBreak(patch);
    StripTrims(end);
    assert Strip("") == "";
    DropsBlanks(lines, n);
    assert lines[0] == begin && lines[|lines| - 1] == end && lines[1..|lines| - 1] == BodyLines(items);
    ParseOfItems(items);
  }

  lemma ParsedIsDescribed(patch: string) returns (begin: string, items: seq<Item>, end: string, n: nat)
    requires Parse(patch).Ok?
    ensures Describes(patch, begin, items, end, n)
  {
    var lines := ParsedLines(patch);
    n := BlanksDropped(Split(OneBreakEach(patch)));
    begin, end := lines[0], lines[|lines| - 1];
    items := ItemsOfParsed(lines[1..|lines| - 1]);
    CutEnvelope(lines, n);
  }

  lemma CutEnvelope(lines: seq<string>, n: nat)
    requires |lines| >= 2
    ensures lines + Blanks(n) == Enveloped(lines[0], lines[1..|lines| - 1], lines[|lines| - 1], n)
  {
    assert lines == [lines[0]] + lines[1..|lines| - 1] + [lines[|lines| - 1]];
  }

  lemma ParsedLines(patch: string) returns (lines: seq<string>)
    requires Parse(patch).Ok?
    ensures lines == DropTrailingBlanks(Split(OneBreakEach(patch))) && |lines| >= 2
    ensures Opens(lines[0]) && Closes(lines[|lines| - 1])
    ensures ParseBody(lines[1..|lines| - 1]).Ok?
  {
    NormalizesEveryBreak(patch);
    lines := DropTrailingBlanks(Split(OneBreakEach(patch)));
    assert BEGIN_PATCH[4] != END_PATCH[4];
  }

  /** The parser accepts exactly the texts of the grammar, and gives each its meaning. */
  lemma ParsesExactly(patch: string, ops: seq<PatchOperation>)
    ensures Parse(patch) == Ok(ops) <==>
              exists begin, items, end, n :: Describes(patch, begin, items, end, n) && ops == Meanings(items)
  {
    if Parse(patch) == Ok(ops) {
      var begin, items, end, n := ParsedIsDescribed(patch);
      DescribedIsParsed(patch, begin, items, end, n);
    }
    forall begin, items, end, n | Describes(patch, begin, items, end, n) && ops == Meanings(items)
      ensures Parse(patch) == Ok(ops)
    {
      DescribedIsParsed(patch, begin, items, end, n);
    }
  }

  // ---------------------------------------------------------------- headings

  function WithoutHeadings(item: Item): Item {
    if item.UpdateItem? then item.(chunks := HunkRewriter.Map((c: Chunk) => Chunk("", c.lines), item.chunks)) else item
  }

  lemma {:induction false} TextsWithoutHeadings(chunks: seq<Chunk>)
    ensures Texts(HunkRewriter.Map((c: Chunk) => Chunk("", c.lines), chunks)) == Texts(chunks)
  {
    if chunks != [] {
      TextsWithoutHeadings(chunks[1..]);
      assert HunkRewriter.Map((c: Chunk) => Chunk("", c.lines), chunks)[1..]
          == HunkRewriter.Map((c: Chunk) => Chunk("", c.lines), chunks[1..]);
    }
  }

  lemma {:induction false} HeadingsMeanNothing(items: seq<Item>)
    requires WellFormed(items)
    ensures var bare := HunkRewriter.Map(WithoutHeadings, items);
            WellFormed(bare) && Meanings(bare) == Meanings(items)
  {
    if items != [] {
      var bare := HunkRewriter.Map(WithoutHeadings, items);
      HeadingsMeanNothing(items[1..]);
      assert bare[1..] == HunkRewriter.Map(WithoutHeadings, items[1..]);
      if items[0].UpdateItem? {
        TextsWithoutHeadings(items[0].chunks);
      }
    }
  }

  /** Two patch texts that differ only in the headings of their marks are parsed alike. */
  lemma HeadingsDoNotMatter(patch: string, bare: string, begin: string, items: seq<Item>, end: string, n: nat)
    requires Describes(patch, begin, items, end, n)
    requires Split(OneBreakEach(bare))
             == Enveloped(begin, BodyLines(HunkRewriter.Map(WithoutHeadings, items)), end, n)
    ensures Parse(bare) == Parse(patch)
  {
    HeadingsMeanNothing(items);
    DescribedIsParsed(patch, begin, items, end, n);
    DescribedIsParsed(bare, begin, HunkRewriter.Map(WithoutHeadings, items), end, n);
  }

  /** No line of a parsed hunk is a mark or the beginning of a section. */
  lemma ParsedHunkLines(patch: string, op: PatchOperation, hunk: seq<string>, line: string)
    requires Parse(patch).Ok? && op in Parse(patch).value && op.Update? && hunk in op.hunks && line in hunk
    ensures !("@@" <= line) && !("*** " <= line)
  {
    var begin, items, end, n := ParsedIsDescribed(patch);
    DescribedIsParsed(patch, begin, items, end, n);
    MeaningsHoldTexts(items, op, hunk);
  }

  lemma {:induction false} MeaningsHoldTexts(items: seq<Item>, op: PatchOperation, hunk: seq<string>)
    requires WellFormed(items) && op in Meanings(items) && op.Update? && hunk in op.hunks
    ensures AreTexts(hunk)
  {
    if op in Meaning(items[0]) {
      NonEmptyMembers([items[0].first] + Texts(items[0].chunks), hunk);
      if hunk != items[0].first {
        TextsMembers(items[0].chunks, hunk);
      }
    } else {
      MeaningsHoldTexts(items[1..], op, hunk);
    }
  }

  lemma {:induction false} NonEmptyMembers(hunks: seq<seq<string>>, hunk: seq<string>)
    requires hunk in NonEmpty(hunks)
    ensures hunk in hunks && hunk != []
  {
    if hunk != hunks[0] || hunks[0] == [] {
      NonEmptyMembers(hunks[1..], hunk);
    }
  }

  lemma {:induction false} TextsMembers(chunks: seq<Chunk>, hunk: seq<string>)
    requires hunk in Texts(chunks)
    ensures exists c <- chunks :: c.lines == hunk
  {
    if hunk == chunks[0].lines {
      assert chunks[0] in chunks;
    } else {
      TextsMembers(chunks[1..], hunk);
    }
  }
}
