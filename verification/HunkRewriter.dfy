/** The multi-hunk rewriter: every hunk must match the file in exactly one place, matches may not
    overlap, and replacements are spliced in from the bottom of the file upwards.

    The reference is `Substitute`, which walks the file once from the top, copies the lines between
    matches and puts each replacement where its match was. */
module HunkRewriter {
  import opened Wrappers
  import opened Lines

  datatype ParsedHunk = ParsedHunk(before: seq<string>, after: seq<string>)

  /** Lines `start..end` of the file are to become `text`. */
  datatype Block = Block(start: nat, end: nat, text: seq<string>)

  datatype MatchedHunk = MatchedHunk(index: nat, block: Block)

  datatype HunkError =
    | BadHunkLine
    | ContextNotFound(hunk: nat)
    | ContextAmbiguous(hunk: nat, count: nat)
    | HunksOverlap(first: nat, second: nat)

  // ---------------------------------------------------------------- one hunk's text

  const END_OF_FILE := "*** End of File"

  /** One patch line added to the two sides of a hunk. */
  function AddHunkLine(hunk: ParsedHunk, raw: string): Result<ParsedHunk, HunkError> {
    if raw == END_OF_FILE then Ok(hunk)
    else if raw == "" then Ok(ParsedHunk(hunk.before + [""], hunk.after + [""]))
    else if raw[0] == ' ' then Ok(ParsedHunk(hunk.before + [raw[1..]], hunk.after + [raw[1..]]))
    else if raw[0] == '-' then Ok(ParsedHunk(hunk.before + [raw[1..]], hunk.after))
    else if raw[0] == '+' then Ok(ParsedHunk(hunk.before, hunk.after + [raw[1..]]))
    else Err(BadHunkLine)
  }

  function ParseHunk(hunk: seq<string>): Result<ParsedHunk, HunkError> {
    if hunk == [] then Ok(ParsedHunk([], []))
    else
      var init := ParseHunk(hunk[..|hunk| - 1]);
      if init.Err? then init else AddHunkLine(init.value, hunk[|hunk| - 1])
  }

  method ParseUpdateHunk(hunk: seq<string>) returns (r: Result<ParsedHunk, HunkError>)
    ensures r == ParseHunk(hunk)
  {
    var sides := ParsedHunk([], []);
    for i := 0 to |hunk|
      invariant ParseHunk(hunk[..i]) == Ok(sides)
    {
      assert hunk[..i + 1][..i] == hunk[..i];
      var added := AddHunkLine(sides, hunk[i]);
      if added.Err? {
        ParseHunkStops(hunk, i + 1);
        return Err(added.error);
      }
      sides := added.value;
    }
    assert hunk[..|hunk|] == hunk;
    return Ok(sides);
  }

  /** The first bad line decides: what follows it is not looked at. */
  lemma {:induction false} ParseHunkStops(hunk: seq<string>, n: nat)
    requires n <= |hunk| && ParseHunk(hunk[..n]).Err?
    ensures ParseHunk(hunk) == ParseHunk(hunk[..n])
    decreases |hunk|
  {
    if n == |hunk| {
      assert hunk[..n] == hunk;
    } else {
      var init := hunk[..|hunk| - 1];
      assert init[..n] == hunk[..n];
      ParseHunkStops(init, n);
    }
  }

  /** What the lines of a hunk stand for. */
  datatype Edit = Keep(line: string) | Remove(line: string) | Insert(line: string)

  function Render(edit: Edit): string {
    match edit
    case Keep(line) => " " + line
    case Remove(line) => "-" + line
    case Insert(line) => "+" + line
  }

  /** Lines the edits expect to find. */
  function Before(edits: seq<Edit>): seq<string> {
    if edits == [] then []
    else
      var last := edits[|edits| - 1];
      Before(edits[..|edits| - 1]) + if last.Insert? then [] else [last.line]
  }

  /** Lines the edits leave behind. */
  function After(edits: seq<Edit>): seq<string> {
    if edits == [] then []
    else
      var last := edits[|edits| - 1];
      After(edits[..|edits| - 1]) + if last.Remove? then [] else [last.line]
  }

  /** How a patch line may be written: the end-of-file note stands for nothing, an empty line for an
      empty context line, and every other edit is written with its marker. */
  predicate Spells(raw: string, edits: seq<Edit>) {
    || (raw == "*** End of File" && edits == [])
    || (raw == "" && edits == [Keep("")])
    || (|edits| == 1 && raw == Render(edits[0]))
  }

  function Concat(spelled: seq<seq<Edit>>): seq<Edit> {
    if spelled == [] then [] else Concat(spelled[..|spelled| - 1]) + spelled[|spelled| - 1]
  }

  /** However the edits of a hunk are written, its two sides are the ones the edits describe. */
  lemma {:induction false} ParseOfSpelledHunk(raws: seq<string>, spelled: seq<seq<Edit>>)
    requires |raws| == |spelled| && forall i | 0 <= i < |raws| :: Spells(raws[i], spelled[i])
    ensures ParseHunk(raws) == Ok(ParsedHunk(Before(Concat(spelled)), After(Concat(spelled))))
  {
    if raws != [] {
      var n := |raws| - 1;
      ParseOfSpelledHunk(raws[..n], spelled[..n]);
      var before := Concat(spelled[..n]);
      SpelledLine(ParsedHunk(Before(before), After(before)), raws[n], spelled[n]);
      if spelled[n] == [] {
        assert Concat(spelled) == before;
      } else {
        assert Concat(spelled)[..|before|] == before && Concat(spelled)[|before|] == spelled[n][0];
      }
    }
  }

  lemma SpelledLine(hunk: ParsedHunk, raw: string, edits: seq<Edit>)
    requires Spells(raw, edits)
    ensures edits == [] ==> AddHunkLine(hunk, raw) == Ok(hunk)
    ensures edits != [] ==>
              |edits| == 1
              && AddHunkLine(hunk, raw)
                 == Ok(ParsedHunk(hunk.before + if edits[0].Insert? then [] else [edits[0].line],
                                  hunk.after + if edits[0].Remove? then [] else [edits[0].line]))
  {
    assert hunk.before + [] == hunk.before && hunk.after + [] == hunk.after;
    if edits != [] && raw != "" {
      assert raw[1..] == edits[0].line;
    }
  }

  /** A line is accepted exactly when it spells something. */
  lemma AcceptedLineSpells(hunk: ParsedHunk, raw: string)
    ensures AddHunkLine(hunk, raw).Ok? <==> exists edits :: Spells(raw, edits)
  {
    if AddHunkLine(hunk, raw).Ok? {
      if raw == END_OF_FILE {
        assert Spells(raw, []);
      } else if raw == "" {
        assert Spells(raw, [Keep("")]);
      } else {
        assert raw == [raw[0]] + raw[1..];
        assert Spells(raw, [if raw[0] == ' ' then Keep(raw[1..]) else if raw[0] == '-' then Remove(raw[1..])
                            else Insert(raw[1..])]);
      }
    }
    forall edits | Spells(raw, edits) ensures AddHunkLine(hunk, raw).Ok? {
      SpelledLine(hunk, raw, edits);
    }
  }

  /** What is made of later lines depends on the earlier ones only through the two sides so far. */
  lemma {:induction false} SameContinuation(a: seq<string>, c: seq<string>, b: seq<string>)
    requires ParseHunk(a) == ParseHunk(c)
    ensures ParseHunk(a + b) == ParseHunk(c + b)
  {
    if b == [] {
      assert a + b == a && c + b == c;
    } else {
      var n := |b| - 1;
      SameContinuation(a, c, b[..n]);
      assert (a + b)[..|a + b| - 1] == a + b[..n] && (c + b)[..|c + b| - 1] == c + b[..n];
    }
  }

  /** An empty line may be written without its space, and the end-of-file note anywhere or nowhere, in
      any hunk, accepted or not. */
  lemma OtherSpellings(a: seq<string>, b: seq<string>)
    ensures ParseHunk(a + [""] + b) == ParseHunk(a + [" "] + b)
    ensures ParseHunk(a + ["*** End of File"] + b) == ParseHunk(a + b)
  {
    assert (a + [""])[..|a|] == a && (a + [" "])[..|a|] == a && (a + ["*** End of File"])[..|a|] == a;
    assert " "[1..] == "" && " "[0] == ' ';
    SameContinuation(a + [""], a + [" "], b);
    SameContinuation(a + ["*** End of File"], a, b);
  }

  lemma ParseOfRenderedHunk(edits: seq<Edit>)
    ensures ParseHunk(Map(Render, edits)) == Ok(ParsedHunk(Before(edits), After(edits)))
  {
    var spelled := Map((e: Edit) => [e], edits);
    ParseOfSpelledHunk(Map(Render, edits), spelled);
    ConcatOfSingles(edits);
  }

  lemma {:induction false} ConcatOfSingles(edits: seq<Edit>)
    ensures Concat(Map((e: Edit) => [e], edits)) == edits
  {
    if edits != [] {
      var n := |edits| - 1;
      ConcatOfSingles(edits[..n]);
      assert Map((e: Edit) => [e], edits)[..n] == Map((e: Edit) => [e], edits[..n]);
    }
  }

  predicate IsHunkLine(raw: string) {
    raw == "" || raw == END_OF_FILE || raw[0] == ' ' || raw[0] == '-' || raw[0] == '+'
  }

  lemma AddHunkLineAccepts(hunk: ParsedHunk, raw: string)
    ensures AddHunkLine(hunk, raw).Ok? <==> IsHunkLine(raw)
    ensures AddHunkLine(hunk, raw).Ok? && IsLine(raw) && AllLines(hunk.before) && AllLines(hunk.after) ==>
              AllLines(AddHunkLine(hunk, raw).value.before) && AllLines(AddHunkLine(hunk, raw).value.after)
  {
  }

  /** A hunk is refused exactly when some line carries no marker, is not empty and is not the
      end-of-file note. */
  lemma {:induction false} ParseHunkAccepts(hunk: seq<string>)
    ensures ParseHunk(hunk).Ok? <==>
              forall raw <- hunk :: IsHunkLine(raw)
    ensures ParseHunk(hunk).Ok? && AllLines(hunk) ==>
              AllLines(ParseHunk(hunk).value.before) && AllLines(ParseHunk(hunk).value.after)
  {
    if hunk != [] {
      var n := |hunk| - 1;
      ParseHunkAccepts(hunk[..n]);
      assert hunk == hunk[..n] + [hunk[n]];
      assert hunk[n] in hunk && forall raw <- hunk[..n] :: raw in hunk;
      AddHunkLineAccepts(ParsedHunk([], []), hunk[n]);
      if ParseHunk(hunk[..n]).Ok? {
        AddHunkLineAccepts(ParseHunk(hunk[..n]).value, hunk[n]);
      }
    }
  }

  // ---------------------------------------------------------------- finding the context

  predicate OccursAt(lines: seq<string>, needle: seq<string>, at: int) {
    0 <= at <= |lines| - |needle| && lines[at..at + |needle|] == needle
  }

  /** Matches at `from` or later. */
  function MatchesFrom(lines: seq<string>, needle: seq<string>, from: nat): (r: seq<nat>)
    requires needle != []
    ensures forall at :: at in r <==> from <= at && OccursAt(lines, needle, at)
    ensures forall i, j | 0 <= i < j < |r| :: r[i] < r[j]
    decreases |lines| - from
  {
    if from > |lines| - |needle| then []
    else if lines[from] == needle[0] && lines[from..from + |needle|] == needle then
      var rest := MatchesFrom(lines, needle, from + 1);
      assert forall j | 0 <= j < |rest| :: rest[j] in rest;
      [from] + rest
    else
      assert !OccursAt(lines, needle, from);
      MatchesFrom(lines, needle, from + 1)
  }

  /** `find_subsequence_all`: every place the needle occurs, in ascending order; an empty needle
      is taken to occur at line 0 only. */
  function FindSubsequenceAll(lines: seq<string>, needle: seq<string>): (r: seq<nat>)
    ensures needle == [] ==> r == [0]
    ensures needle != [] ==> forall at :: at in r <==> OccursAt(lines, needle, at)
    ensures forall i, j | 0 <= i < j < |r| :: r[i] < r[j]
  {
    if needle == [] then [0] else MatchesFrom(lines, needle, 0)
  }

  function Locate(lines: seq<string>, hunk: ParsedHunk, index: nat): Result<MatchedHunk, HunkError> {
    var matches := if hunk.before == [] then [0] else FindSubsequenceAll(lines, hunk.before);
    if |matches| == 0 then Err(ContextNotFound(index))
    else if |matches| > 1 then Err(ContextAmbiguous(index, |matches|))
    else Ok(MatchedHunk(index, Block(matches[0], matches[0] + |hunk.before|, hunk.after)))
  }

  /** The hunk's old side occurs in exactly one place, which is `block`. */
  ghost predicate UniqueMatch(lines: seq<string>, hunk: ParsedHunk, block: Block) {
    && block.text == hunk.after
    && block.end == block.start + |hunk.before|
    && OccursAt(lines, hunk.before, block.start)
    && if hunk.before == [] then block.start == 0
       else forall at: int :: OccursAt(lines, hunk.before, at) ==> at == block.start
  }

  /** Why a hunk is not located: its old side occurs nowhere, or in the stated number of places. */
  lemma WhyNotLocated(lines: seq<string>, hunk: ParsedHunk, index: nat, n: nat)
    ensures Locate(lines, hunk, index) == Err(ContextNotFound(index)) <==>
              hunk.before != [] && forall at: int :: !OccursAt(lines, hunk.before, at)
    ensures Locate(lines, hunk, index) == Err(ContextAmbiguous(index, n)) <==>
              hunk.before != [] && n > 1 && n == |Places(lines, hunk.before)|
    ensures Locate(lines, hunk, index).Err? ==>
              || Locate(lines, hunk, index).error == ContextNotFound(index)
              || Locate(lines, hunk, index).error == ContextAmbiguous(index, |Places(lines, hunk.before)|)
  {
    var matches := FindSubsequenceAll(lines, hunk.before);
    if hunk.before != [] {
      assert Places(lines, hunk.before) == Members(matches);
      AscendingCount(matches);
      if |matches| > 0 {
        assert matches[0] in matches;
      }
    }
  }

  function Places(lines: seq<string>, needle: seq<string>): set<nat> {
    set at: nat | at <= |lines| && OccursAt(lines, needle, at)
  }

  function Members(s: seq<nat>): set<nat> {
    set x | x in s
  }

  lemma {:induction false} AscendingCount(s: seq<nat>)
    requires forall i, j | 0 <= i < j < |s| :: s[i] < s[j]
    ensures |Members(s)| == |s|
  {
    if s != [] {
      var n := |s| - 1;
      AscendingCount(s[..n]);
      assert Members(s) == Members(s[..n]) + {s[n]};
      assert s[n] !in s[..n];
    }
  }

  lemma LocateIsUniqueMatch(lines: seq<string>, hunk: ParsedHunk, index: nat)
    ensures Locate(lines, hunk, index).Ok? <==> exists block :: UniqueMatch(lines, hunk, block)
    ensures Locate(lines, hunk, index).Ok? ==>
              Locate(lines, hunk, index).value.index == index
              && UniqueMatch(lines, hunk, Locate(lines, hunk, index).value.block)
  {
    var found := Locate(lines, hunk, index);
    var matches := FindSubsequenceAll(lines, hunk.before);
    if found.Ok? {
      assert matches == [found.value.block.start];
      assert matches[0] in matches;
      assert UniqueMatch(lines, hunk, found.value.block);
    } else if |matches| > 1 {
      assert matches[0] in matches && matches[1] in matches;
    } else {
      forall block ensures !UniqueMatch(lines, hunk, block) {
        assert block.start !in matches;
      }
    }
  }

  function LocateAll(lines: seq<string>, hunks: seq<ParsedHunk>): Result<seq<MatchedHunk>, HunkError> {
    if hunks == [] then Ok([])
    else
      var n := |hunks| - 1;
      var init := LocateAll(lines, hunks[..n]);
      if init.Err? then init
      else
        var last := Locate(lines, hunks[n], n);
        if last.Err? then Err(last.error) else Ok(init.value + [last.value])
  }

  function ParseAll(hunks: seq<seq<string>>): Result<seq<ParsedHunk>, HunkError> {
    if hunks == [] then Ok([])
    else
      var n := |hunks| - 1;
      var init := ParseAll(hunks[..n]);
      if init.Err? then init
      else
        var last := ParseHunk(hunks[n]);
        if last.Err? then Err(last.error) else Ok(init.value + [last.value])
  }

  // ---------------------------------------------------------------- stable sorting by start

  predicate MayPrecede(a: MatchedHunk, b: MatchedHunk, descending: bool) {
    if descending then a.block.start >= b.block.start else a.block.start <= b.block.start
  }

  function InsertSorted(m: MatchedHunk, sorted: seq<MatchedHunk>, descending: bool): seq<MatchedHunk> {
    if sorted == [] || MayPrecede(m, sorted[0], descending) then [m] + sorted
    else [sorted[0]] + InsertSorted(m, sorted[1..], descending)
  }

  /** Python's stable `sort(key=start, reverse=descending)`: ties keep their order either way. */
  function SortByStart(ms: seq<MatchedHunk>, descending: bool): seq<MatchedHunk> {
    if ms == [] then [] else InsertSorted(ms[0], SortByStart(ms[1..], descending), descending)
  }

  predicate Sorted(ms: seq<MatchedHunk>, descending: bool) {
    ms == [] || ((forall m <- ms[1..] :: MayPrecede(ms[0], m, descending)) && Sorted(ms[1..], descending))
  }

  /** Those that start at `start`, in order. */
  function StartingAt(ms: seq<MatchedHunk>, start: nat): seq<MatchedHunk> {
    if ms == [] then []
    else (if ms[0].block.start == start then [ms[0]] else []) + StartingAt(ms[1..], start)
  }

  lemma {:induction false} InsertSorts(m: MatchedHunk, sorted: seq<MatchedHunk>, descending: bool)
    requires Sorted(sorted, descending)
    ensures multiset(InsertSorted(m, sorted, descending)) == multiset{m} + multiset(sorted)
    ensures Sorted(InsertSorted(m, sorted, descending), descending)
  {
    if sorted == [] {
    } else if MayPrecede(m, sorted[0], descending) {
      InsertInFront(m, sorted, descending);
    } else {
      InsertSorts(m, sorted[1..], descending);
      InsertBehind(m, sorted, descending);
    }
  }

  lemma InsertInFront(m: MatchedHunk, sorted: seq<MatchedHunk>, descending: bool)
    requires sorted != [] && Sorted(sorted, descending) && MayPrecede(m, sorted[0], descending)
    ensures Sorted([m] + sorted, descending)
    ensures multiset([m] + sorted) == multiset{m} + multiset(sorted)
  {
    assert ([m] + sorted)[1..] == sorted;
    forall other <- sorted ensures MayPrecede(m, other, descending) {
      assert other == sorted[0] || other in sorted[1..];
    }
  }

  lemma InsertBehind(m: MatchedHunk, sorted: seq<MatchedHunk>, descending: bool)
    requires sorted != [] && Sorted(sorted, descending) && !MayPrecede(m, sorted[0], descending)
    requires var rest := InsertSorted(m, sorted[1..], descending);
             multiset(rest) == multiset{m} + multiset(sorted[1..]) && Sorted(rest, descending)
    ensures multiset(InsertSorted(m, sorted, descending)) == multiset{m} + multiset(sorted)
    ensures Sorted(InsertSorted(m, sorted, descending), descending)
  {
    var rest := InsertSorted(m, sorted[1..], descending);
    assert sorted == [sorted[0]] + sorted[1..];
    assert ([sorted[0]] + rest)[1..] == rest;
    forall r <- rest ensures MayPrecede(sorted[0], r, descending) {
      assert r in multiset(rest);
      assert r == m || r in sorted[1..];
    }
  }

  lemma {:induction false} InsertKeepsTies(m: MatchedHunk, sorted: seq<MatchedHunk>, descending: bool, start: nat)
    ensures StartingAt(InsertSorted(m, sorted, descending), start) == StartingAt([m] + sorted, start)
  {
    if sorted == [] || MayPrecede(m, sorted[0], descending) {
    } else {
      InsertKeepsTies(m, sorted[1..], descending, start);
      var rest := InsertSorted(m, sorted[1..], descending);
      assert InsertSorted(m, sorted, descending)[1..] == rest;
      assert ([m] + sorted)[1..] == sorted && ([m] + sorted[1..])[1..] == sorted[1..];
    }
  }

  lemma {:induction false} SortKeepsTies(ms: seq<MatchedHunk>, descending: bool, start: nat)
    ensures StartingAt(SortByStart(ms, descending), start) == StartingAt(ms, start)
  {
    if ms != [] {
      var rest := SortByStart(ms[1..], descending);
      SortKeepsTies(ms[1..], descending, start);
      InsertKeepsTies(ms[0], rest, descending, start);
      assert ([ms[0]] + rest)[1..] == rest;
    }
  }

  lemma {:induction false} SortSorts(ms: seq<MatchedHunk>, descending: bool)
    ensures multiset(SortByStart(ms, descending)) == multiset(ms)
    ensures Sorted(SortByStart(ms, descending), descending)
  {
    if ms != [] {
      SortSorts(ms[1..], descending);
      InsertSorts(ms[0], SortByStart(ms[1..], descending), descending);
      assert ms == [ms[0]] + ms[1..];
    }
  }

  /** The sort is what Python promises: a permutation, in order, ties as they were. */
  lemma SortIsStable(ms: seq<MatchedHunk>, descending: bool)
    ensures multiset(SortByStart(ms, descending)) == multiset(ms)
    ensures Sorted(SortByStart(ms, descending), descending)
    ensures forall start :: StartingAt(SortByStart(ms, descending), start) == StartingAt(ms, start)
  {
    SortSorts(ms, descending);
    forall start ensures StartingAt(SortByStart(ms, descending), start) == StartingAt(ms, start) {
      SortKeepsTies(ms, descending, start);
    }
  }

  // ---------------------------------------------------------------- overlap check and splicing

  /** The first adjacent pair that overlaps. */
  function FirstOverlap(ms: seq<MatchedHunk>): Option<HunkError> {
    if |ms| < 2 then None
    else if ms[0].block.end > ms[1].block.start then Some(HunksOverlap(ms[0].index, ms[1].index))
    else FirstOverlap(ms[1..])
  }

  /** Python slicing clamps a bound beyond the end. */
  function Clamp(n: nat, lines: seq<string>): (r: nat)
    ensures r <= |lines|
  {
    if n <= |lines| then n else |lines|
  }

  function Splice(lines: seq<string>, b: Block): seq<string> {
    lines[..Clamp(b.start, lines)] + b.text + lines[Clamp(b.end, lines)..]
  }

  function SpliceAll(lines: seq<string>, blocks: seq<Block>): seq<string>
    decreases blocks
  {
    if blocks == [] then lines else SpliceAll(Splice(lines, blocks[0]), blocks[1..])
  }

  function Blocks(ms: seq<MatchedHunk>): seq<Block> {
    Map((m: MatchedHunk) => m.block, ms)
  }

  function Plan(lines: seq<string>, hunks: seq<seq<string>>): Result<seq<MatchedHunk>, HunkError> {
    var parsed := ParseAll(hunks);
    if parsed.Err? then Err(parsed.error)
    else
      var located := LocateAll(lines, parsed.value);
      if located.Err? then located
      else
        var sorted := SortByStart(located.value, false);
        var overlap := FirstOverlap(sorted);
        if overlap.Some? then Err(overlap.value) else Ok(sorted)
  }

  /** What the bottom-up loop makes of an accepted plan. */
  function BottomUp(lines: seq<string>, plan: seq<MatchedHunk>): seq<string> {
    SpliceAll(lines, Blocks(SortByStart(plan, true)))
  }

  function PatchedText(content: string, hunks: seq<seq<string>>): Result<string, HunkError> {
    if hunks == [] then Ok(content)
    else
      var Marked(bom, text) := StripBom(content);
      var lines := Split(NormalizeToLf(text));
      var plan := Plan(lines, hunks);
      if plan.Err? then Err(plan.error)
      else Ok(bom + RestoreLineEndings(Join(BottomUp(lines, plan.value)), DetectLineEnding(text)))
  }

  method ApplyUpdateHunks(content: string, hunks: seq<seq<string>>) returns (r: Result<string, HunkError>)
    ensures r == PatchedText(content, hunks)
  {
    if hunks == [] {
      return Ok(content);
    }
    var Marked(bom, text) := StripBom(content);
    var ending := DetectLineEnding(text);
    var lines := Split(NormalizeToLf(text));
    var parsed := [];
    for i := 0 to |hunks|
      invariant ParseAll(hunks[..i]) == Ok(parsed)
    {
      assert hunks[..i + 1][..i] == hunks[..i];
      var hunk := ParseUpdateHunk(hunks[i]);
      if hunk.Err? {
        ParseAllStops(hunks, i + 1);
        return Err(hunk.error);
      }
      parsed := parsed + [hunk.value];
    }
    assert hunks[..|hunks|] == hunks;
    var matched := [];
    for i := 0 to |parsed|
      invariant LocateAll(lines, parsed[..i]) == Ok(matched)
    {
      assert parsed[..i + 1][..i] == parsed[..i];
      var found := Locate(lines, parsed[i], i);
      if found.Err? {
        LocateAllStops(lines, parsed, i + 1);
        return Err(found.error);
      }
      matched := matched + [found.value];
    }
    assert parsed[..|parsed|] == parsed;
    matched := SortByStart(matched, false);
    var k := 0;
    while k + 1 < |matched|
      invariant 0 <= k <= |matched|
      invariant FirstOverlap(matched[k..]) == FirstOverlap(matched)
    {
      assert matched[k..][1..] == matched[k + 1..];
      if matched[k].block.end > matched[k + 1].block.start {
        return Err(HunksOverlap(matched[k].index, matched[k + 1].index));
      }
      k := k + 1;
    }
    var bottomFirst := SortByStart(matched, true);
    var updated := lines;
    for i := 0 to |bottomFirst|
      invariant SpliceAll(updated, Blocks(bottomFirst[i..])) == BottomUp(lines, matched)
    {
      assert Blocks(bottomFirst[i..])[1..] == Blocks(bottomFirst[i + 1..]);
      updated := Splice(updated, bottomFirst[i].block);
    }
    return Ok(bom + RestoreLineEndings(Join(updated), ending));
  }

  lemma {:induction false} ParseAllStops(hunks: seq<seq<string>>, n: nat)
    requires n <= |hunks| && ParseAll(hunks[..n]).Err?
    ensures ParseAll(hunks) == ParseAll(hunks[..n])
    decreases |hunks|
  {
    if n == |hunks| {
      assert hunks[..n] == hunks;
    } else {
      var init := hunks[..|hunks| - 1];
      assert init[..n] == hunks[..n];
      ParseAllStops(init, n);
    }
  }

  lemma {:induction false} LocateAllStops(lines: seq<string>, hunks: seq<ParsedHunk>, n: nat)
    requires n <= |hunks| && LocateAll(lines, hunks[..n]).Err?
    ensures LocateAll(lines, hunks) == LocateAll(lines, hunks[..n])
    decreases |hunks|
  {
    if n == |hunks| {
      assert hunks[..n] == hunks;
    } else {
      var init := hunks[..|hunks| - 1];
      assert init[..n] == hunks[..n];
      LocateAllStops(lines, init, n);
    }
  }

  // ---------------------------------------------------------------- mapping over sequences

  function Map<T, U>(f: T -> U, s: seq<T>): (r: seq<U>)
    ensures |r| == |s| && forall i | 0 <= i < |s| :: r[i] == f(s[i])
  {
    seq(|s|, i requires 0 <= i < |s| => f(s[i]))
  }

  function Without<T>(s: seq<T>, i: nat): seq<T>
    requires i < |s|
  {
    s[..i] + s[i + 1..]
  }

  lemma MultisetWithout<T>(s: seq<T>, i: nat)
    requires i < |s|
    ensures multiset(s) == multiset(Without(s, i)) + multiset{s[i]}
  {
    assert s == s[..i] + [s[i]] + s[i + 1..];
  }

  lemma SameMultisetWithout<T>(s: seq<T>, i: nat, t: seq<T>, j: nat)
    requires i < |s| && j < |t| && s[i] == t[j]
    ensures multiset(s) == multiset(t) <==> multiset(Without(s, i)) == multiset(Without(t, j))
  {
    MultisetWithout(s, i);
    MultisetWithout(t, j);
    assert multiset(Without(s, i)) == multiset(s) - multiset{s[i]};
    assert multiset(Without(t, j)) == multiset(t) - multiset{s[i]};
  }

  lemma {:induction false} MapPermutation<T, U>(f: T -> U, a: seq<T>, b: seq<T>)
    requires multiset(a) == multiset(b)
    ensures multiset(Map(f, a)) == multiset(Map(f, b))
    decreases |a|
  {
    if a == [] {
      assert |multiset(b)| == 0;
    } else {
      assert a[0] in multiset(b);
      var i :| 0 <= i < |b| && b[i] == a[0];
      SameMultisetWithout(a, 0, b, i);
      MapPermutation(f, Without(a, 0), Without(b, i));
      assert Map(f, Without(a, 0)) == Without(Map(f, a), 0);
      assert Map(f, Without(b, i)) == Without(Map(f, b), i);
      SameMultisetWithout(Map(f, a), 0, Map(f, b), i);
    }
  }
}
