/** What the hunk rewriter means: splicing from the bottom is simultaneous substitution whenever no
    two matches start at the same line, and exactly when a tie does in the other case. */
module HunkSubstitution {
  import opened Wrappers
  import opened Lines
  import opened HunkRewriter

  /** The blocks lie in order in `lines[pos..]` without overlapping. */
  predicate Chain(lines: seq<string>, blocks: seq<Block>, pos: nat)
    decreases blocks
  {
    && pos <= |lines|
    && (blocks == [] || (
          && pos <= blocks[0].start <= blocks[0].end <= |lines|
          && Chain(lines, blocks[1..], blocks[0].end)))
  }

  /** The file from line `pos` on, with every block replaced at once. */
  function Substitute(lines: seq<string>, blocks: seq<Block>, pos: nat): seq<string>
    requires Chain(lines, blocks, pos)
    decreases blocks
  {
    if blocks == [] then lines[pos..]
    else lines[pos..blocks[0].start] + blocks[0].text + Substitute(lines, blocks[1..], blocks[0].end)
  }

  ghost predicate DistinctStarts(blocks: seq<Block>) {
    forall i, j | 0 <= i < j < |blocks| :: blocks[i].start != blocks[j].start
  }

  // ---------------------------------------------------------------- what an accepted plan is

  /** Only a hunk without old lines matches an empty stretch, and it is placed at line 0. */
  predicate InFile(lines: seq<string>, b: Block) {
    b.start <= b.end <= |lines| && (b.start == b.end ==> b.start == 0)
  }

  lemma {:induction false} LocateAllFacts(lines: seq<string>, hunks: seq<ParsedHunk>)
    ensures LocateAll(lines, hunks).Ok? <==> forall i | 0 <= i < |hunks| :: Locate(lines, hunks[i], i).Ok?
    ensures LocateAll(lines, hunks).Ok? ==>
              |LocateAll(lines, hunks).value| == |hunks|
              && forall i | 0 <= i < |hunks| :: Locate(lines, hunks[i], i) == Ok(LocateAll(lines, hunks).value[i])
  {
    if hunks != [] {
      var n := |hunks| - 1;
      LocateAllFacts(lines, hunks[..n]);
      assert forall i | 0 <= i < n :: hunks[..n][i] == hunks[i];
    }
  }

  lemma {:induction false} ParseAllFacts(hunks: seq<seq<string>>)
    ensures ParseAll(hunks).Ok? <==> forall i | 0 <= i < |hunks| :: ParseHunk(hunks[i]).Ok?
    ensures ParseAll(hunks).Ok? ==>
              |ParseAll(hunks).value| == |hunks|
              && forall i | 0 <= i < |hunks| :: ParseHunk(hunks[i]) == Ok(ParseAll(hunks).value[i])
  {
    if hunks != [] {
      var n := |hunks| - 1;
      ParseAllFacts(hunks[..n]);
      assert forall i | 0 <= i < n :: hunks[..n][i] == hunks[i];
    }
  }

  lemma {:induction false} NoOverlapChains(lines: seq<string>, ms: seq<MatchedHunk>, pos: nat)
    requires forall m <- ms :: InFile(lines, m.block)
    requires pos <= |lines| && (ms != [] ==> pos <= ms[0].block.start)
    ensures FirstOverlap(ms).None? <==> Chain(lines, Blocks(ms), pos)
    decreases ms
  {
    if ms != [] {
      assert Blocks(ms)[1..] == Blocks(ms[1..]);
      if |ms| == 1 {
      } else if ms[0].block.end <= ms[1].block.start {
        NoOverlapChains(lines, ms[1..], ms[0].block.end);
      }
    }
  }

  /** The located hunks of a patch, before sorting. */
  ghost predicate LocatedAs(lines: seq<string>, hunks: seq<seq<string>>, located: seq<MatchedHunk>) {
    && |located| == |hunks|
    && forall i | 0 <= i < |hunks| ::
         && located[i].index == i
         && ParseHunk(hunks[i]).Ok?
         && UniqueMatch(lines, ParseHunk(hunks[i]).value, located[i].block)
  }

  /** A patch is accepted exactly when each hunk parses, matches in one place, and the matches,
      ordered by start, do not overlap; the plan then is those matches in that order. */
  lemma PlanFacts(lines: seq<string>, hunks: seq<seq<string>>)
    ensures Plan(lines, hunks).Ok? <==>
              exists located ::
                LocatedAs(lines, hunks, located) && Chain(lines, Blocks(SortByStart(located, false)), 0)
    ensures Plan(lines, hunks).Ok? ==>
              var plan := Plan(lines, hunks).value;
              && Chain(lines, Blocks(plan), 0)
              && (forall m <- plan :: InFile(lines, m.block))
              && Sorted(plan, false)
              && exists located :: LocatedAs(lines, hunks, located) && plan == SortByStart(located, false)
  {
    forall located: seq<MatchedHunk> | LocatedAs(lines, hunks, located)
      ensures ParseAll(hunks).Ok? && LocateAll(lines, ParseAll(hunks).value) == Ok(located)
      ensures Plan(lines, hunks).Ok? <==> Chain(lines, Blocks(SortByStart(located, false)), 0)
    {
      LocatedIsUnsortedPlan(lines, hunks, located);
      SortedFacts(lines, hunks, located);
    }
    if Plan(lines, hunks).Ok? {
      ParseAllFacts(hunks);
      var parsed := ParseAll(hunks).value;
      LocateAllFacts(lines, parsed);
      var located := LocateAll(lines, parsed).value;
      forall i | 0 <= i < |hunks| ensures UniqueMatch(lines, parsed[i], located[i].block) && located[i].index == i {
        LocateIsUniqueMatch(lines, parsed[i], i);
      }
      assert LocatedAs(lines, hunks, located);
      SortedFacts(lines, hunks, located);
    }
  }

  lemma LocatedIsUnsortedPlan(lines: seq<string>, hunks: seq<seq<string>>, located: seq<MatchedHunk>)
    requires LocatedAs(lines, hunks, located)
    ensures ParseAll(hunks).Ok? && LocateAll(lines, ParseAll(hunks).value) == Ok(located)
  {
    ParseAllFacts(hunks);
    var parsed := ParseAll(hunks).value;
    forall i | 0 <= i < |hunks| ensures Locate(lines, parsed[i], i) == Ok(located[i]) {
      assert ParseHunk(hunks[i]) == Ok(parsed[i]);
      assert UniqueMatch(lines, parsed[i], located[i].block);
      LocateIsUniqueMatch(lines, parsed[i], i);
    }
    LocateAllFacts(lines, parsed);
    assert LocateAll(lines, parsed).value == located;
  }

  lemma SortedFacts(lines: seq<string>, hunks: seq<seq<string>>, located: seq<MatchedHunk>)
    requires LocatedAs(lines, hunks, located)
    ensures var sorted := SortByStart(located, false);
            && Sorted(sorted, false)
            && (forall m <- sorted :: InFile(lines, m.block))
            && (FirstOverlap(sorted).None? <==> Chain(lines, Blocks(sorted), 0))
  {
    var sorted := SortByStart(located, false);
    SortIsStable(located, false);
    forall m <- sorted ensures InFile(lines, m.block) {
      assert m in multiset(sorted);
      var i :| 0 <= i < |located| && located[i] == m;
      assert UniqueMatch(lines, ParseHunk(hunks[i]).value, m.block);
    }
    NoOverlapChains(lines, sorted, 0);
  }

  // ---------------------------------------------------------------- why a patch is refused

  /** All hunks parse, and this is the first whose old side does not occur in exactly one place. */
  ghost predicate FirstUnlocated(lines: seq<string>, hunks: seq<seq<string>>, i: nat) {
    && i < |hunks| && (forall h <- hunks :: ParseHunk(h).Ok?)
    && (forall j | 0 <= j < i :: HasPlace(lines, ParseHunk(hunks[j]).value))
    && !HasPlace(lines, ParseHunk(hunks[i]).value)
  }

  ghost predicate HasPlace(lines: seq<string>, hunk: ParsedHunk) {
    exists block :: UniqueMatch(lines, hunk, block)
  }

  lemma {:induction false} LocateAllError(lines: seq<string>, hunks: seq<ParsedHunk>) returns (i: nat)
    requires LocateAll(lines, hunks).Err?
    ensures i < |hunks| && Locate(lines, hunks[i], i) == Err(LocateAll(lines, hunks).error)
    ensures forall j | 0 <= j < i :: Locate(lines, hunks[j], j).Ok?
  {
    var n := |hunks| - 1;
    if LocateAll(lines, hunks[..n]).Err? {
      i := LocateAllError(lines, hunks[..n]);
    } else {
      i := n;
      LocateAllFacts(lines, hunks[..n]);
      assert forall j | 0 <= j < n :: hunks[..n][j] == hunks[j];
    }
  }

  lemma {:induction false} ParseError(hunk: seq<string>)
    ensures ParseHunk(hunk).Err? ==> ParseHunk(hunk).error == BadHunkLine
  {
    if hunk != [] {
      ParseError(hunk[..|hunk| - 1]);
    }
  }

  lemma {:induction false} ParseAllError(hunks: seq<seq<string>>)
    ensures ParseAll(hunks).Err? ==> ParseAll(hunks).error == BadHunkLine
  {
    if hunks != [] {
      ParseAllError(hunks[..|hunks| - 1]);
      ParseError(hunks[|hunks| - 1]);
    }
  }

  /** A bad line is reported before anything else. */
  lemma BadLineFirst(lines: seq<string>, hunks: seq<seq<string>>)
    ensures Plan(lines, hunks) == Err(BadHunkLine) <==> exists h <- hunks :: ParseHunk(h).Err?
  {
    ParseAllFacts(hunks);
    ParseAllError(hunks);
    if ParseAll(hunks).Ok? && LocateAll(lines, ParseAll(hunks).value).Err? {
      var i := LocateAllError(lines, ParseAll(hunks).value);
    }
    if ParseAll(hunks).Ok? && LocateAll(lines, ParseAll(hunks).value).Ok? {
      var sorted := SortByStart(LocateAll(lines, ParseAll(hunks).value).value, false);
      if FirstOverlap(sorted).Some? {
        var _ := OverlapError(sorted);
      }
    }
  }

  /** The first two neighbours that overlap. */
  ghost predicate OverlapAt(sorted: seq<MatchedHunk>, k: nat) {
    && k + 1 < |sorted| && sorted[k].block.end > sorted[k + 1].block.start
    && forall j | 0 <= j < k :: sorted[j].block.end <= sorted[j + 1].block.start
  }

  lemma {:induction false} OverlapError(sorted: seq<MatchedHunk>) returns (k: nat)
    requires FirstOverlap(sorted).Some?
    ensures OverlapAt(sorted, k)
    ensures FirstOverlap(sorted).value == HunksOverlap(sorted[k].index, sorted[k + 1].index)
  {
    k := 0;
    if sorted[0].block.end <= sorted[1].block.start {
      var later := OverlapError(sorted[1..]);
      OverlapLater(sorted, later);
      k := later + 1;
    }
  }

  lemma OverlapLater(sorted: seq<MatchedHunk>, k: nat)
    requires |sorted| >= 2 && sorted[0].block.end <= sorted[1].block.start && OverlapAt(sorted[1..], k)
    ensures OverlapAt(sorted, k + 1) && sorted[1..][k] == sorted[k + 1] && sorted[1..][k + 1] == sorted[k + 2]
  {
    var rest := sorted[1..];
    assert forall j | 0 <= j < |rest| :: rest[j] == sorted[j + 1];
    forall j | 0 <= j < k + 1 ensures sorted[j].block.end <= sorted[j + 1].block.start {
      if j > 0 {
        assert rest[j - 1].block.end <= rest[j].block.start;
      }
    }
  }

  function Unplaced(lines: seq<string>, hunk: seq<string>, i: nat): HunkError
    requires ParseHunk(hunk).Ok?
  {
    var n := |Places(lines, ParseHunk(hunk).value.before)|;
    if n == 0 then ContextNotFound(i) else ContextAmbiguous(i, n)
  }

  lemma UnlocatedByPlan(lines: seq<string>, hunks: seq<seq<string>>, parsed: seq<ParsedHunk>) returns (i: nat)
    requires ParseAll(hunks) == Ok(parsed) && LocateAll(lines, parsed).Err?
    ensures FirstUnlocated(lines, hunks, i) && LocateAll(lines, parsed).error == Unplaced(lines, hunks[i], i)
  {
    ParseAllFacts(hunks);
    i := LocateAllError(lines, parsed);
    UnlocatedReason(lines, parsed[i], i);
    forall j | 0 <= j <= i ensures Locate(lines, parsed[j], j).Ok? <==> HasPlace(lines, ParseHunk(hunks[j]).value) {
      LocateIsUniqueMatch(lines, parsed[j], j);
      assert ParseHunk(hunks[j]) == Ok(parsed[j]);
    }
    forall h <- hunks ensures ParseHunk(h).Ok? {
      var j :| 0 <= j < |hunks| && hunks[j] == h;
      assert ParseHunk(hunks[j]) == Ok(parsed[j]);
    }
  }

  lemma PlanOfUnlocated(lines: seq<string>, hunks: seq<seq<string>>, i: nat)
    requires FirstUnlocated(lines, hunks, i)
    ensures Plan(lines, hunks) == Err(Unplaced(lines, hunks[i], i))
  {
    ParseAllFacts(hunks);
    var parsed := ParseAll(hunks).value;
    LocateIsUniqueMatch(lines, parsed[i], i);
    assert ParseHunk(hunks[i]) == Ok(parsed[i]) && !HasPlace(lines, parsed[i]);
    LocateAllFacts(lines, parsed);
    var k := UnlocatedByPlan(lines, hunks, parsed);
    assert k == i;
  }

  /** Otherwise the first hunk is reported that cannot be placed: because its old side occurs nowhere,
      or in so many places. */
  lemma UnlocatedHunk(lines: seq<string>, hunks: seq<seq<string>>, i: nat, n: nat)
    ensures Plan(lines, hunks) == Err(ContextNotFound(i)) <==>
              FirstUnlocated(lines, hunks, i) && |Places(lines, ParseHunk(hunks[i]).value.before)| == 0
    ensures n > 1 ==>
              (Plan(lines, hunks) == Err(ContextAmbiguous(i, n)) <==>
               FirstUnlocated(lines, hunks, i) && |Places(lines, ParseHunk(hunks[i]).value.before)| == n)
  {
    ParseAllError(hunks);
    if ParseAll(hunks).Ok? {
      var parsed := ParseAll(hunks).value;
      if LocateAll(lines, parsed).Err? {
        var k := UnlocatedByPlan(lines, hunks, parsed);
      } else if FirstOverlap(SortByStart(LocateAll(lines, parsed).value, false)).Some? {
        var _ := OverlapError(SortByStart(LocateAll(lines, parsed).value, false));
      }
    }
    if FirstUnlocated(lines, hunks, i) {
      PlanOfUnlocated(lines, hunks, i);
    }
  }

  lemma UnlocatedReason(lines: seq<string>, hunk: ParsedHunk, i: nat)
    requires Locate(lines, hunk, i).Err?
    ensures var n := |Places(lines, hunk.before)|;
            Locate(lines, hunk, i).error == if n == 0 then ContextNotFound(i) else ContextAmbiguous(i, n)
    ensures |Places(lines, hunk.before)| != 1
  {
    WhyNotLocated(lines, hunk, i, |Places(lines, hunk.before)|);
    if Locate(lines, hunk, i) == Err(ContextNotFound(i)) {
      assert Places(lines, hunk.before) == {};
    }
  }

  /** And otherwise two matches that overlap: the first such neighbours in the order of their starts. */
  lemma OverlapReported(lines: seq<string>, hunks: seq<seq<string>>)
    ensures Plan(lines, hunks).Err? && Plan(lines, hunks).error.HunksOverlap? ==>
              exists located, k: nat ::
                && LocatedAs(lines, hunks, located) && OverlapAt(SortByStart(located, false), k)
                && Plan(lines, hunks).error == HunksOverlap(SortByStart(located, false)[k].index,
                                                            SortByStart(located, false)[k + 1].index)
  {
    if Plan(lines, hunks).Err? && Plan(lines, hunks).error.HunksOverlap? {
      ParseAllFacts(hunks);
      ParseAllError(hunks);
      var parsed := ParseAll(hunks).value;
      if LocateAll(lines, parsed).Err? {
        var i := UnlocatedByPlan(lines, hunks, parsed);
      } else {
        LocateAllFacts(lines, parsed);
        var located := LocateAll(lines, parsed).value;
        LocatedByAll(lines, hunks, parsed, located);
        var k := OverlapError(SortByStart(located, false));
        assert LocatedAs(lines, hunks, located) && OverlapAt(SortByStart(located, false), k);
      }
    }
  }

  lemma LocatedByAll(lines: seq<string>, hunks: seq<seq<string>>, parsed: seq<ParsedHunk>, located: seq<MatchedHunk>)
    requires |located| == |parsed| == |hunks|
    requires forall i | 0 <= i < |hunks| :: ParseHunk(hunks[i]) == Ok(parsed[i])
    requires forall i | 0 <= i < |hunks| :: Locate(lines, parsed[i], i) == Ok(located[i])
    ensures LocatedAs(lines, hunks, located)
  {
    forall i | 0 <= i < |hunks| ensures UniqueMatch(lines, parsed[i], located[i].block) && located[i].index == i {
      LocateIsUniqueMatch(lines, parsed[i], i);
    }
  }

  // ---------------------------------------------------------------- the order of splicing

  function Reverse<T>(s: seq<T>): (r: seq<T>)
    ensures |r| == |s| && forall i | 0 <= i < |s| :: r[i] == s[|s| - 1 - i]
  {
    if s == [] then [] else Reverse(s[1..]) + [s[0]]
  }

  /** Number of leading blocks at line 0. */
  function ZeroCount(blocks: seq<Block>): (k: nat)
    ensures k <= |blocks|
    ensures forall i | 0 <= i < k :: blocks[i].start == 0
  {
    if blocks == [] || blocks[0].start != 0 then 0 else 1 + ZeroCount(blocks[1..])
  }

  lemma {:induction false} InsertPast(m: MatchedHunk, later: seq<MatchedHunk>, rest: seq<MatchedHunk>)
    requires forall l <- later :: l.block.start > m.block.start
    requires rest == [] || rest[0].block.start <= m.block.start
    ensures InsertSorted(m, later + rest, true) == later + [m] + rest
  {
    if later == [] {
      assert later + rest == rest;
    } else {
      InsertPast(m, later[1..], rest);
      assert (later + rest)[1..] == later[1..] + rest;
    }
  }

  lemma {:induction false} StartsAfter(lines: seq<string>, blocks: seq<Block>, pos: nat)
    requires Chain(lines, blocks, pos)
    ensures forall b <- blocks :: pos <= b.start
  {
    if blocks != [] {
      StartsAfter(lines, blocks[1..], blocks[0].end);
    }
  }

  lemma {:induction false} ReverseMembers<T>(s: seq<T>)
    ensures forall x <- Reverse(s) :: x in s
  {
    if s != [] {
      ReverseMembers(s[1..]);
    }
  }

  lemma SortStep(m: MatchedHunk, later: seq<MatchedHunk>, zeros: seq<MatchedHunk>)
    requires forall l <- later :: l.block.start > m.block.start
    requires zeros == [] || zeros[0].block.start <= m.block.start
    ensures InsertSorted(m, Reverse(later) + zeros, true) == Reverse(later) + [m] + zeros
  {
    ReverseMembers(later);
    InsertPast(m, Reverse(later), zeros);
  }

  /** Sorting an accepted plan by descending start reverses it, except that the hunks at line 0
      keep the order they were written in. */
  lemma {:induction false} BottomFirstOrder(lines: seq<string>, ms: seq<MatchedHunk>, pos: nat)
    requires Chain(lines, Blocks(ms), pos)
    requires forall m <- ms :: InFile(lines, m.block)
    ensures var k := ZeroCount(Blocks(ms));
            SortByStart(ms, true) == Reverse(ms[k..]) + ms[..k]
    decreases ms
  {
    if ms != [] {
      assert Blocks(ms)[1..] == Blocks(ms[1..]);
      BottomFirstOrder(lines, ms[1..], ms[0].block.end);
      LaterMatches(lines, ms, pos);
      BottomFirstStep(ms, ZeroCount(Blocks(ms[1..])));
    }
  }

  lemma LaterMatches(lines: seq<string>, ms: seq<MatchedHunk>, pos: nat)
    requires ms != [] && Chain(lines, Blocks(ms), pos)
    requires InFile(lines, ms[0].block)
    ensures var k := ZeroCount(Blocks(ms[1..]));
            && (forall l <- ms[1..][k..] :: l.block.start > ms[0].block.start)
            && (ms[0].block.start != 0 ==> k == 0)
            && (k > 0 ==> ms[1..][0].block.start == 0)
  {
    var bs, tail := Blocks(ms), ms[1..];
    assert bs[1..] == Blocks(tail);
    LaterStarts(lines, bs, pos);
    assert forall j | 0 <= j < |tail| :: tail[j].block == bs[1..][j];
  }

  lemma BottomFirstStep(ms: seq<MatchedHunk>, k: nat)
    requires ms != [] && k <= |ms| - 1
    requires SortByStart(ms[1..], true) == Reverse(ms[1..][k..]) + ms[1..][..k]
    requires forall l <- ms[1..][k..] :: l.block.start > ms[0].block.start
    requires ms[0].block.start != 0 ==> k == 0
    requires k > 0 ==> ms[1..][0].block.start == 0
    ensures var z := if ms[0].block.start == 0 then k + 1 else 0;
            SortByStart(ms, true) == Reverse(ms[z..]) + ms[..z]
  {
    var tail := ms[1..];
    assert k > 0 ==> tail[..k][0] == tail[0];
    SortStep(ms[0], tail[k..], tail[..k]);
    OrderSlices(ms, k);
  }

  lemma OrderSlices(ms: seq<MatchedHunk>, k: nat)
    requires ms != [] && k <= |ms| - 1
    ensures Reverse(ms[1..][k..]) + [ms[0]] + ms[1..][..k] == Reverse(ms[k + 1..]) + ms[..k + 1]
    ensures k == 0 ==> Reverse(ms[1..][k..]) + [ms[0]] + ms[1..][..k] == Reverse(ms[0..]) + ms[..0]
  {
    assert ms[1..][k..] == ms[k + 1..];
    assert ms[..k + 1] == [ms[0]] + ms[1..][..k];
    if k == 0 {
      assert ms[0..] == ms && ms[1..][0..] == ms[1..];
      assert ms[1..][..0] == [] && ms[..0] == [];
      assert Reverse(ms) == Reverse(ms[1..]) + [ms[0]];
    }
  }

  /** After its first block, a chain continues with blocks at line 0 or strictly further down. */
  lemma LaterStarts(lines: seq<string>, blocks: seq<Block>, pos: nat)
    requires blocks != [] && Chain(lines, blocks, pos)
    requires InFile(lines, blocks[0])
    ensures forall j | ZeroCount(blocks[1..]) <= j < |blocks| - 1 :: blocks[1..][j].start > blocks[0].start
    ensures blocks[0].start != 0 ==> ZeroCount(blocks[1..]) == 0
  {
    var tail := blocks[1..];
    StartsAfter(lines, tail, blocks[0].end);
    if blocks[0].start == 0 {
      forall j | ZeroCount(tail) <= j < |tail| ensures tail[j].start > 0 {
        PastZeros(lines, tail, blocks[0].end, j);
      }
    } else {
      assert forall j | 0 <= j < |tail| :: tail[j] in tail;
    }
  }

  /** Beyond the leading blocks at line 0 every start is positive. */
  lemma {:induction false} PastZeros(lines: seq<string>, blocks: seq<Block>, pos: nat, j: nat)
    requires Chain(lines, blocks, pos)
    requires ZeroCount(blocks) <= j < |blocks|
    ensures blocks[j].start > 0
    decreases blocks
  {
    if blocks[0].start == 0 {
      PastZeros(lines, blocks[1..], blocks[0].end, j - 1);
    } else if j > 0 {
      StartsAfter(lines, blocks[1..], blocks[0].end);
      assert blocks[j] in blocks[1..];
    }
  }

  lemma {:induction false} SpliceAllAppend(lines: seq<string>, a: seq<Block>, b: seq<Block>)
    ensures SpliceAll(lines, a + b) == SpliceAll(SpliceAll(lines, a), b)
    decreases a
  {
    if a == [] {
      assert a + b == b;
    } else {
      assert (a + b)[1..] == a[1..] + b;
      SpliceAllAppend(Splice(lines, a[0]), a[1..], b);
    }
  }

  /** Splicing a chain last block first is substitution. */
  lemma {:induction false} BottomUpSubstitutes(lines: seq<string>, blocks: seq<Block>, pos: nat)
    requires Chain(lines, blocks, pos)
    ensures SpliceAll(lines, Reverse(blocks)) == lines[..pos] + Substitute(lines, blocks, pos)
    decreases blocks
  {
    if blocks == [] {
      assert lines == lines[..pos] + lines[pos..];
    } else {
      var b, later := blocks[0], Reverse(blocks[1..]);
      BottomUpSubstitutes(lines, blocks[1..], b.end);
      SpliceAllAppend(lines, later, [b]);
      SpliceOnce(SpliceAll(lines, later), b);
      SpliceAbove(lines, b, Substitute(lines, blocks[1..], b.end), pos);
    }
  }

  lemma SpliceOnce(lines: seq<string>, b: Block)
    ensures SpliceAll(lines, [b]) == Splice(lines, b)
  {
    assert SpliceAll(Splice(lines, b), [b][1..]) == Splice(lines, b);
  }

  lemma SpliceAbove(lines: seq<string>, b: Block, tail: seq<string>, pos: nat)
    requires pos <= b.start <= b.end <= |lines|
    ensures Splice(lines[..b.end] + tail, b) == lines[..pos] + (lines[pos..b.start] + b.text + tail)
  {
    var below := lines[..b.end] + tail;
    assert below[..b.start] == lines[..pos] + lines[pos..b.start];
    assert below[b.end..] == tail;
  }

  // ---------------------------------------------------------------- hunks tied at line 0

  /** Number of leading insertion-only blocks. */
  function InsertCount(blocks: seq<Block>): (k: nat)
    ensures k <= |blocks|
    ensures forall i | 0 <= i < k :: blocks[i].start == 0 == blocks[i].end || blocks[i].end == 0
    ensures k < |blocks| ==> blocks[k].end > 0
  {
    if blocks == [] || blocks[0].end > 0 then 0 else 1 + InsertCount(blocks[1..])
  }

  /** Inserted texts in the order the hunks were written. */
  function Written(blocks: seq<Block>): seq<string> {
    if blocks == [] then [] else blocks[0].text + Written(blocks[1..])
  }

  /** Inserted texts in the order the loop leaves them: each is put above the one before. */
  function Stacked(blocks: seq<Block>): seq<string> {
    if blocks == [] then [] else Stacked(blocks[1..]) + blocks[0].text
  }

  /** Whether hunks tied at line 0 come out right, from their own lines alone: insertions must
      read the same stacked as written, and a hunk that also replaces the first lines of the file
      removes that many lines from what was stacked above them. */
  predicate TieHarmless(lines: seq<string>, blocks: seq<Block>)
    requires Chain(lines, blocks, 0)
  {
    var k := InsertCount(blocks);
    var inserts := blocks[..k];
    if k < |blocks| && blocks[k].start == 0 then
      ChainSuffix(lines, blocks, k);
      var h := blocks[k];
      h.text + (Stacked(inserts) + lines[..h.end])[h.end..] == Written(inserts) + h.text
    else
      Stacked(inserts) == Written(inserts)
  }

  lemma SubstituteInsert(lines: seq<string>, blocks: seq<Block>)
    requires Chain(lines, blocks, 0) && blocks != [] && blocks[0].end == 0
    ensures Substitute(lines, blocks, 0) == blocks[0].text + Substitute(lines, blocks[1..], 0)
  {
    assert lines[0..0] == [];
  }

  lemma TailSlices(blocks: seq<Block>, k: nat)
    requires 1 <= k <= |blocks|
    ensures blocks[1..][k - 1..] == blocks[k..]
    ensures Written(blocks[..k]) == blocks[0].text + Written(blocks[1..][..k - 1])
  {
    assert blocks[..k][1..] == blocks[1..][..k - 1];
  }

  lemma JoinLeft<T>(a: seq<T>, b: seq<T>, c: seq<T>)
    ensures a + (b + c) == (a + b) + c
  {
  }

  /** Leading insertions come before the substitution of what follows them. */
  lemma {:induction false} ChainSuffix(lines: seq<string>, blocks: seq<Block>, k: nat)
    requires Chain(lines, blocks, 0) && k <= InsertCount(blocks)
    ensures Chain(lines, blocks[k..], 0)
    ensures Substitute(lines, blocks, 0) == Written(blocks[..k]) + Substitute(lines, blocks[k..], 0)
    decreases k
  {
    if k == 0 {
      NoInserts(lines, blocks);
    } else {
      var tail := blocks[1..];
      ChainSuffix(lines, tail, k - 1);
      TailSlices(blocks, k);
      SubstituteInsert(lines, blocks);
      JoinLeft(blocks[0].text, Written(tail[..k - 1]), Substitute(lines, tail[k - 1..], 0));
    }
  }

  lemma NoInserts(lines: seq<string>, blocks: seq<Block>)
    requires Chain(lines, blocks, 0)
    ensures blocks[0..] == blocks
    ensures Substitute(lines, blocks, 0) == Written(blocks[..0]) + Substitute(lines, blocks, 0)
  {
    assert blocks[..0] == [];
  }

  lemma {:induction false} StackInserts(lines: seq<string>, inserts: seq<Block>)
    requires forall b <- inserts :: b.start == b.end == 0
    ensures SpliceAll(lines, inserts) == Stacked(inserts) + lines
    decreases inserts
  {
    if inserts == [] {
      assert [] + lines == lines;
    } else {
      var b := inserts[0];
      assert Splice(lines, b) == b.text + lines;
      StackInserts(Splice(lines, b), inserts[1..]);
      assert Stacked(inserts[1..]) + (b.text + lines) == Stacked(inserts) + lines;
    }
  }

  lemma {:induction false} BlocksOfReverse(ms: seq<MatchedHunk>)
    ensures Blocks(Reverse(ms)) == Reverse(Blocks(ms))
  {
    if ms != [] {
      BlocksOfReverse(ms[1..]);
      BlocksOfConcat(Reverse(ms[1..]), [ms[0]]);
      assert Blocks(ms)[1..] == Blocks(ms[1..]);
    }
  }

  lemma BlocksOfConcat(a: seq<MatchedHunk>, b: seq<MatchedHunk>)
    ensures Blocks(a + b) == Blocks(a) + Blocks(b)
  {
  }

  lemma BlocksSplit(ms: seq<MatchedHunk>, k: nat)
    requires k <= |ms|
    ensures Blocks(Reverse(ms[k..]) + ms[..k]) == Reverse(Blocks(ms)[k..]) + Blocks(ms)[..k]
  {
    BlocksOfConcat(Reverse(ms[k..]), ms[..k]);
    BlocksOfReverse(ms[k..]);
    assert Blocks(ms[k..]) == Blocks(ms)[k..] && Blocks(ms[..k]) == Blocks(ms)[..k];
  }

  lemma {:induction false} ZerosAreInserts(lines: seq<string>, blocks: seq<Block>, pos: nat)
    requires Chain(lines, blocks, pos)
    requires forall b <- blocks :: InFile(lines, b)
    ensures var k := InsertCount(blocks);
            ZeroCount(blocks) == if k < |blocks| && blocks[k].start == 0 then k + 1 else k
    decreases blocks
  {
    if blocks != [] && blocks[0].end == 0 {
      ZerosAreInserts(lines, blocks[1..], 0);
    } else if blocks != [] {
      LaterStarts(lines, blocks, pos);
      StartsAfter(lines, blocks[1..], blocks[0].end);
      assert forall j | 0 <= j < |blocks| - 1 :: blocks[1..][j] in blocks[1..];
    }
  }

  /** What the loop yields when every hunk at line 0 only inserts. */
  lemma BottomUpInsertsOnly(lines: seq<string>, ms: seq<MatchedHunk>, k: nat)
    requires Chain(lines, Blocks(ms), 0)
    requires forall m <- ms :: InFile(lines, m.block)
    requires k == InsertCount(Blocks(ms)) == ZeroCount(Blocks(ms))
    ensures Chain(lines, Blocks(ms)[k..], 0)
    ensures BottomUp(lines, ms) == Stacked(Blocks(ms)[..k]) + Substitute(lines, Blocks(ms)[k..], 0)
  {
    var bs := Blocks(ms);
    BottomFirstOrder(lines, ms, 0);
    BlocksSplit(ms, k);
    ChainSuffix(lines, bs, k);
    SpliceAllAppend(lines, Reverse(bs[k..]), bs[..k]);
    BottomUpSubstitutes(lines, bs[k..], 0);
    var rest := Substitute(lines, bs[k..], 0);
    assert lines[..0] + rest == rest;
    StackInserts(rest, bs[..k]);
  }

  /** What the loop yields when the insertions at line 0 are followed by a hunk that replaces the
      first lines of the file. */
  lemma BottomUpReplacingHead(lines: seq<string>, ms: seq<MatchedHunk>, k: nat)
    requires Chain(lines, Blocks(ms), 0)
    requires forall m <- ms :: InFile(lines, m.block)
    requires k == InsertCount(Blocks(ms)) < |ms| && k + 1 == ZeroCount(Blocks(ms))
    ensures var bs, h := Blocks(ms), ms[k].block;
            && Chain(lines, bs[k + 1..], h.end)
            && BottomUp(lines, ms) == h.text + (Stacked(bs[..k]) + lines[..h.end])[h.end..]
                                      + Substitute(lines, bs[k + 1..], h.end)
  {
    var bs, h := Blocks(ms), ms[k].block;
    BottomFirstOrder(lines, ms, 0);
    BlocksSplit(ms, k + 1);
    ChainSuffix(lines, bs, k);
    assert bs[k..][1..] == bs[k + 1..] && bs[..k + 1] == bs[..k] + [h];
    SpliceAllAppend(lines, Reverse(bs[k + 1..]), bs[..k + 1]);
    BottomUpSubstitutes(lines, bs[k + 1..], h.end);
    var tail := Substitute(lines, bs[k + 1..], h.end);
    var rest := lines[..h.end] + tail;
    SpliceAllAppend(rest, bs[..k], [h]);
    StackInserts(rest, bs[..k]);
    SpliceOnce(Stacked(bs[..k]) + rest, h);
    SpliceStack(Stacked(bs[..k]), lines[..h.end], tail, h);
  }

  /** The exact condition: for every accepted plan the loop yields the simultaneous substitution
      if and only if the tie at line 0, if any, is harmless. */
  lemma BottomUpExact(lines: seq<string>, ms: seq<MatchedHunk>)
    requires Chain(lines, Blocks(ms), 0)
    requires forall m <- ms :: InFile(lines, m.block)
    ensures BottomUp(lines, ms) == Substitute(lines, Blocks(ms), 0) <==> TieHarmless(lines, Blocks(ms))
  {
    var bs := Blocks(ms);
    assert forall b <- bs :: InFile(lines, b);
    var k := InsertCount(bs);
    ZerosAreInserts(lines, bs, 0);
    ChainSuffix(lines, bs, k);
    if k < |bs| && bs[k].start == 0 {
      var h := bs[k];
      BottomUpReplacingHead(lines, ms, k);
      SubstituteHead(lines, bs[k..]);
      assert bs[k..][1..] == bs[k + 1..];
      var tail := Substitute(lines, bs[k + 1..], h.end);
      assert Written(bs[..k]) + (h.text + tail) == (Written(bs[..k]) + h.text) + tail;
      SameSuffix(h.text + (Stacked(bs[..k]) + lines[..h.end])[h.end..], Written(bs[..k]) + h.text, tail);
    } else {
      BottomUpInsertsOnly(lines, ms, k);
      SameSuffix(Stacked(bs[..k]), Written(bs[..k]), Substitute(lines, bs[k..], 0));
    }
  }

  lemma {:induction false} StackedLength(blocks: seq<Block>)
    ensures |Stacked(blocks)| == |Written(blocks)|
  {
    if blocks != [] {
      StackedLength(blocks[1..]);
    }
  }

  /** Whether or not the tie at line 0 is harmless, the number of lines is right. */
  lemma BottomUpLength(lines: seq<string>, ms: seq<MatchedHunk>)
    requires Chain(lines, Blocks(ms), 0)
    requires forall m <- ms :: InFile(lines, m.block)
    ensures |BottomUp(lines, ms)| == |Substitute(lines, Blocks(ms), 0)|
  {
    var bs := Blocks(ms);
    assert forall b <- bs :: InFile(lines, b);
    var k := InsertCount(bs);
    ZerosAreInserts(lines, bs, 0);
    ChainSuffix(lines, bs, k);
    StackedLength(bs[..k]);
    if k < |bs| && bs[k].start == 0 {
      BottomUpReplacingHead(lines, ms, k);
      SubstituteHead(lines, bs[k..]);
      assert bs[k..][1..] == bs[k + 1..];
    } else {
      BottomUpInsertsOnly(lines, ms, k);
    }
  }

  lemma SubstituteHead(lines: seq<string>, blocks: seq<Block>)
    requires blocks != [] && blocks[0].start == 0 && Chain(lines, blocks, 0)
    ensures Substitute(lines, blocks, 0) == blocks[0].text + Substitute(lines, blocks[1..], blocks[0].end)
  {
    assert lines[0..0] == [];
    assert [] + blocks[0].text == blocks[0].text;
  }

  lemma SpliceStack(stack: seq<string>, first: seq<string>, tail: seq<string>, h: Block)
    requires h.start == 0 && h.end == |first|
    ensures Splice(stack + (first + tail), h) == h.text + (stack + first)[h.end..] + tail
  {
    var all := stack + (first + tail);
    assert all == (stack + first) + tail;
    assert all[h.end..] == (stack + first)[h.end..] + tail;
    assert all[..0] == [];
  }

  lemma SameSuffix<T>(a: seq<T>, b: seq<T>, tail: seq<T>)
    ensures a + tail == b + tail <==> a == b
  {
    if a + tail == b + tail {
      assert |a| == |b|;
      assert a == (a + tail)[..|a|] == (b + tail)[..|b|] == b;
    }
  }

  /** The main theorem: with distinct starts, splicing from the bottom is substitution. */
  lemma BottomUpIsSubstitution(lines: seq<string>, ms: seq<MatchedHunk>)
    requires Chain(lines, Blocks(ms), 0)
    requires forall m <- ms :: InFile(lines, m.block)
    requires DistinctStarts(Blocks(ms))
    ensures BottomUp(lines, ms) == Substitute(lines, Blocks(ms), 0)
  {
    var bs := Blocks(ms);
    var k := InsertCount(bs);
    BottomUpExact(lines, ms);
    assert forall b <- bs :: InFile(lines, b);
    ZerosAreInserts(lines, bs, 0);
    assert k <= 1;
    if k == 1 {
      assert bs[..1] == [bs[0]];
      assert bs[..1][1..] == [];
      assert Stacked(bs[..1]) == Written(bs[..1]);
    } else {
      assert bs[..0] == [];
      if k < |bs| && bs[k].start == 0 {
        ChainSuffix(lines, bs, 0);
        assert ([] + lines[..bs[0].end])[bs[0].end..] == [];
        assert bs[0].text + [] == [] + bs[0].text;
      }
    }
  }
}
