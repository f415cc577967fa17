/** What updating a file guarantees: the order of hunks is irrelevant, line endings and the
    byte-order mark survive, and hunks that change nothing change nothing. */
module PatchedFiles {
  import opened Wrappers
  import opened Lines
  import opened HunkRewriter
  import opened HunkSubstitution

  /** The lines the rewriter works on. */
  function FileLines(content: string): seq<string> {
    Split(NormalizeToLf(StripBom(content).text))
  }

  ghost predicate ReplacesLines(hunk: seq<string>) {
    ParseHunk(hunk).Ok? ==> ParseHunk(hunk).value.before != []
  }

  lemma {:induction false} NonemptyBlocksAreDistinct(lines: seq<string>, blocks: seq<Block>, pos: nat)
    requires Chain(lines, blocks, pos)
    requires forall b <- blocks :: b.start < b.end
    ensures DistinctStarts(blocks)
  {
    if blocks != [] {
      NonemptyBlocksAreDistinct(lines, blocks[1..], blocks[0].end);
      StartsAfter(lines, blocks[1..], blocks[0].end);
      forall i, j | 0 <= i < j < |blocks| ensures blocks[i].start != blocks[j].start {
        assert blocks[j] == blocks[1..][j - 1];
        if i > 0 {
          assert blocks[i] == blocks[1..][i - 1];
        }
      }
    }
  }

  /** The block is the one place where some hunk of the patch matches. */
  ghost predicate Placed(lines: seq<string>, hunks: seq<seq<string>>, b: Block) {
    exists h <- hunks :: ParseHunk(h).Ok? && UniqueMatch(lines, ParseHunk(h).value, b)
  }

  lemma LocatedPlan(lines: seq<string>, hunks: seq<seq<string>>) returns (located: seq<MatchedHunk>)
    requires Plan(lines, hunks).Ok?
    ensures LocatedAs(lines, hunks, located) && Plan(lines, hunks).value == SortByStart(located, false)
    ensures Chain(lines, Blocks(Plan(lines, hunks).value), 0)
  {
    PlanFacts(lines, hunks);
    located :| LocatedAs(lines, hunks, located) && Plan(lines, hunks).value == SortByStart(located, false);
  }

  lemma LocatedIsPlaced(lines: seq<string>, hunks: seq<seq<string>>, located: seq<MatchedHunk>, m: MatchedHunk)
    requires LocatedAs(lines, hunks, located) && m in located
    ensures Placed(lines, hunks, m.block)
  {
    var i :| 0 <= i < |located| && located[i] == m;
    assert hunks[i] in hunks && UniqueMatch(lines, ParseHunk(hunks[i]).value, m.block);
  }

  lemma PlanIsPlaced(lines: seq<string>, hunks: seq<seq<string>>)
    requires Plan(lines, hunks).Ok?
    ensures forall m <- Plan(lines, hunks).value :: Placed(lines, hunks, m.block)
    ensures forall m <- SortByStart(Plan(lines, hunks).value, true) :: Placed(lines, hunks, m.block)
  {
    var plan := Plan(lines, hunks).value;
    var located := LocatedPlan(lines, hunks);
    SortIsStable(located, false);
    SortIsStable(plan, true);
    assert forall m <- SortByStart(plan, true) :: m in multiset(plan);
    forall m <- plan ensures Placed(lines, hunks, m.block) {
      assert m in multiset(located);
      LocatedIsPlaced(lines, hunks, located, m);
    }
  }

  lemma PlanBlocksNonempty(lines: seq<string>, hunks: seq<seq<string>>)
    requires Plan(lines, hunks).Ok?
    requires forall h <- hunks :: ReplacesLines(h)
    ensures forall b <- Blocks(Plan(lines, hunks).value) :: b.start < b.end
    ensures DistinctStarts(Blocks(Plan(lines, hunks).value))
  {
    var blocks := Blocks(Plan(lines, hunks).value);
    var located := LocatedPlan(lines, hunks);
    PlanIsPlaced(lines, hunks);
    NonemptyBlocksAreDistinct(lines, blocks, 0);
  }

  /** When every hunk replaces at least one line, an accepted patch turns the file's lines into
      their simultaneous substitution, between the byte-order mark and the restored endings. */
  lemma PatchIsSubstitution(content: string, hunks: seq<seq<string>>)
    requires hunks != [] && PatchedText(content, hunks).Ok?
    requires forall h <- hunks :: ReplacesLines(h)
    ensures var m, lines := StripBom(content), FileLines(content);
            && Plan(lines, hunks).Ok?
            && Chain(lines, Blocks(Plan(lines, hunks).value), 0)
            && PatchedText(content, hunks).value
               == m.bom + RestoreLineEndings(Join(Substitute(lines, Blocks(Plan(lines, hunks).value), 0)),
                                             DetectLineEnding(m.text))
  {
    var lines := FileLines(content);
    PlanFacts(lines, hunks);
    PlanBlocksNonempty(lines, hunks);
    BottomUpIsSubstitution(lines, Plan(lines, hunks).value);
  }

  // ---------------------------------------------------------------- ties

  /** An insertion written before a replacement of line 0 is lost: `+x` then `-a +A` on the lines
      `a`, `b` gives `A`, `a`, `b` instead of `x`, `A`, `b`. */
  lemma TieLosesReplacement()
    ensures var lines, hunks := ["a", "b"], [["+x"], ["-a", "+A"]];
            && Plan(lines, hunks) == Ok([MatchedHunk(0, Block(0, 0, ["x"])), MatchedHunk(1, Block(0, 1, ["A"]))])
            && BottomUp(lines, Plan(lines, hunks).value) == ["A", "a", "b"]
            && Substitute(lines, Blocks(Plan(lines, hunks).value), 0) == ["x", "A", "b"]
            && PatchedText("a\nb", hunks) == Ok("A\na\nb")
  {
    TiePlan();
    TieText();
    TieResult();
  }

  lemma TiePlan()
    ensures var lines, hunks := ["a", "b"], [["+x"], ["-a", "+A"]];
            && Plan(lines, hunks) == Ok([MatchedHunk(0, Block(0, 0, ["x"])), MatchedHunk(1, Block(0, 1, ["A"]))])
            && BottomUp(lines, Plan(lines, hunks).value) == ["A", "a", "b"]
            && Substitute(lines, Blocks(Plan(lines, hunks).value), 0) == ["x", "A", "b"]
  {
    var lines, hunks := ["a", "b"], [["+x"], ["-a", "+A"]];
    var m0, m1 := MatchedHunk(0, Block(0, 0, ["x"])), MatchedHunk(1, Block(0, 1, ["A"]));
    var located := [m0, m1];
    TieParses();
    assert OccursAt(lines, ["a"], 0);
    assert forall at | OccursAt(lines, ["a"], at) :: lines[at..at + 1][0] == "a";
    assert UniqueMatch(lines, ParseHunk(hunks[1]).value, m1.block);
    assert UniqueMatch(lines, ParseHunk(hunks[0]).value, m0.block);
    LocatedIsUnsortedPlan(lines, hunks, located);
    TieSorts(m0, m1);
    TieSplices(lines, m0.block, m1.block);
    assert Blocks(located) == [m0.block, m1.block];
  }

  lemma TieText()
    ensures StripBom("a\nb") == Marked("", "a\nb")
    ensures FileLines("a\nb") == ["a", "b"]
    ensures DetectLineEnding("a\nb") == LF
  {
    DetectsLf("a\nb");
    NormalizeKeepsLf("a\nb");
    assert "a\nb"[0] == 'a' && BOM != 'a';
    assert ["a", "b"][1..] == ["b"] && Join(["a", "b"]) == "a\nb";
    SplitOfJoin(["a", "b"]);
  }

  lemma TieResult()
    ensures "" + RestoreLineEndings(Join(["A", "a", "b"]), LF) == "A\na\nb"
  {
    assert ["a", "b"][1..] == ["b"] && Join(["a", "b"]) == "a\nb";
    assert ["A", "a", "b"][1..] == ["a", "b"] && Join(["A", "a", "b"]) == "A" + "\n" + "a\nb";
  }

  lemma TieParses()
    ensures ParseHunk(["+x"]) == Ok(ParsedHunk([], ["x"]))
    ensures ParseHunk(["-a", "+A"]) == Ok(ParsedHunk(["a"], ["A"]))
  {
    var none: seq<string> := [];
    assert none + ["x"] == ["x"] && none + ["a"] == ["a"] && none + ["A"] == ["A"];
    assert ["+x"][..0] == [] && ["-a", "+A"][..1] == ["-a"] && ["-a"][..0] == [];
    assert "+x"[1..] == "x" && "-a"[1..] == "a" && "+A"[1..] == "A";
    assert ParseHunk(["-a"]) == AddHunkLine(ParsedHunk([], []), "-a") == Ok(ParsedHunk(["a"], []));
  }

  lemma TieSorts(m0: MatchedHunk, m1: MatchedHunk)
    requires m0.block.start == m0.block.end == m1.block.start == 0
    ensures SortByStart([m0, m1], false) == [m0, m1] == SortByStart([m0, m1], true)
    ensures FirstOverlap([m0, m1]).None?
  {
    assert SortByStart([m1], false) == [m1] && SortByStart([m1], true) == [m1];
    assert [m0, m1][1..] == [m1];
  }

  lemma TieSplices(lines: seq<string>, b0: Block, b1: Block)
    requires lines == ["a", "b"] && b0 == Block(0, 0, ["x"]) && b1 == Block(0, 1, ["A"])
    ensures SpliceAll(lines, [b0, b1]) == ["A", "a", "b"]
    ensures Chain(lines, [b0, b1], 0)
    ensures Substitute(lines, [b0, b1], 0) == ["x", "A", "b"]
  {
    assert [b0, b1][1..] == [b1] && [b1][1..] == [];
    assert Splice(lines, b0) == ["x", "a", "b"];
    assert Splice(["x", "a", "b"], b1) == ["A", "a", "b"];
    SpliceOnce(["x", "a", "b"], b1);
    assert Substitute(lines, [b1], 0) == ["A", "b"];
  }

  /** Blocks with the same places and other texts. */
  function WithTexts(ms: seq<MatchedHunk>, texts: seq<seq<string>>): seq<MatchedHunk>
    requires |texts| == |ms|
  {
    seq(|ms|, i requires 0 <= i < |ms| => ms[i].(block := ms[i].block.(text := texts[i])))
  }

  lemma {:induction false} SamePlacesChain(lines: seq<string>, a: seq<Block>, b: seq<Block>, pos: nat)
    requires |a| == |b| && forall i | 0 <= i < |a| :: a[i].start == b[i].start && a[i].end == b[i].end
    requires Chain(lines, a, pos)
    ensures Chain(lines, b, pos)
    decreases a
  {
    if a != [] {
      SamePlacesChain(lines, a[1..], b[1..], b[0].end);
    }
  }

  /** Which layouts are safe whatever the hunks insert: exactly those without a tie. */
  lemma SafeLayouts(lines: seq<string>, ms: seq<MatchedHunk>)
    requires Chain(lines, Blocks(ms), 0)
    requires forall m <- ms :: InFile(lines, m.block)
    ensures (forall texts: seq<seq<string>> | |texts| == |ms| ::
               Chain(lines, Blocks(WithTexts(ms, texts)), 0)
               && BottomUp(lines, WithTexts(ms, texts)) == Substitute(lines, Blocks(WithTexts(ms, texts)), 0))
            <==> DistinctStarts(Blocks(ms))
  {
    forall texts: seq<seq<string>> | |texts| == |ms|
      ensures Chain(lines, Blocks(WithTexts(ms, texts)), 0)
      ensures DistinctStarts(Blocks(ms)) ==>
                BottomUp(lines, WithTexts(ms, texts)) == Substitute(lines, Blocks(WithTexts(ms, texts)), 0)
    {
      var other := WithTexts(ms, texts);
      SamePlacesChain(lines, Blocks(ms), Blocks(other), 0);
      assert forall i | 0 <= i < |ms| :: Blocks(other)[i].start == Blocks(ms)[i].start;
      if DistinctStarts(Blocks(ms)) {
        BottomUpIsSubstitution(lines, other);
      }
    }
    if !DistinctStarts(Blocks(ms)) {
      var texts := UnsafeTexts(lines, ms);
    }
  }

  lemma UnsafeTexts(lines: seq<string>, ms: seq<MatchedHunk>) returns (texts: seq<seq<string>>)
    requires Chain(lines, Blocks(ms), 0)
    requires forall m <- ms :: InFile(lines, m.block)
    requires !DistinctStarts(Blocks(ms))
    ensures |texts| == |ms| && Harmed(lines, ms, texts)
  {
    var places := Blocks(ms);
    var k := InsertCount(places);
    TieShape(lines, places);
    if k < |ms| && places[k].start == 0 {
      var x := if lines[places[k].end - 1] == "x" then "y" else "x";
      texts := HarmfulTexts(|ms|, x, true);
      HarmfulToHead(lines, ms, k, x, texts);
    } else {
      texts := HarmfulTexts(|ms|, "x", false);
      HarmfulToInserts(lines, ms, k, texts);
    }
    HarmfulTie(lines, ms, texts);
  }

  ghost predicate Harmed(lines: seq<string>, ms: seq<MatchedHunk>, texts: seq<seq<string>>)
    requires |texts| == |ms|
  {
    var other := WithTexts(ms, texts);
    Chain(lines, Blocks(other), 0) && BottomUp(lines, other) != Substitute(lines, Blocks(other), 0)
  }

  lemma HarmfulToHead(lines: seq<string>, ms: seq<MatchedHunk>, k: nat, x: string, texts: seq<seq<string>>)
    requires Chain(lines, Blocks(ms), 0)
    requires 1 <= k == InsertCount(Blocks(ms)) < |ms| && ms[k].block.start == 0
    requires 0 < ms[k].block.end <= |lines| && lines[ms[k].block.end - 1] != x
    requires |texts| == |ms| && texts[0] == [x] && forall i | 1 <= i < |ms| :: texts[i] == []
    ensures Chain(lines, Blocks(WithTexts(ms, texts)), 0) && !TieHarmless(lines, Blocks(WithTexts(ms, texts)))
  {
    PlacedTexts(lines, ms, texts);
    HeadReplacementHarms(lines, Blocks(WithTexts(ms, texts)), k, x);
  }

  lemma HarmfulToInserts(lines: seq<string>, ms: seq<MatchedHunk>, k: nat, texts: seq<seq<string>>)
    requires Chain(lines, Blocks(ms), 0)
    requires 2 <= k == InsertCount(Blocks(ms)) && (k < |ms| ==> ms[k].block.start != 0)
    requires |texts| == |ms| && texts[0] == ["x"] && texts[1] == ["z"] && forall i | 2 <= i < |ms| :: texts[i] == []
    ensures Chain(lines, Blocks(WithTexts(ms, texts)), 0) && !TieHarmless(lines, Blocks(WithTexts(ms, texts)))
  {
    PlacedTexts(lines, ms, texts);
    TwoInsertsHarm(lines, Blocks(WithTexts(ms, texts)), k, "x", "z");
  }

  lemma HarmfulTie(lines: seq<string>, ms: seq<MatchedHunk>, texts: seq<seq<string>>)
    requires Chain(lines, Blocks(ms), 0) && |texts| == |ms|
    requires forall m <- ms :: InFile(lines, m.block)
    requires Chain(lines, Blocks(WithTexts(ms, texts)), 0) && !TieHarmless(lines, Blocks(WithTexts(ms, texts)))
    ensures Harmed(lines, ms, texts)
  {
    BottomUpExact(lines, WithTexts(ms, texts));
  }

  lemma PlacedTexts(lines: seq<string>, ms: seq<MatchedHunk>, texts: seq<seq<string>>)
    requires Chain(lines, Blocks(ms), 0) && |texts| == |ms|
    ensures var bs := Blocks(WithTexts(ms, texts));
            && Chain(lines, bs, 0)
            && InsertCount(bs) == InsertCount(Blocks(ms))
            && (forall i | 0 <= i < |ms| :: bs[i] == ms[i].block.(text := texts[i]))
  {
    SamePlacesChain(lines, Blocks(ms), Blocks(WithTexts(ms, texts)), 0);
    SamePlacesCount(Blocks(ms), Blocks(WithTexts(ms, texts)));
  }

  function HarmfulTexts(n: nat, x: string, headReplaced: bool): (r: seq<seq<string>>)
    ensures |r| == n && (n > 0 ==> r[0] == [x])
    ensures n > 1 ==> r[1] == if headReplaced then [] else ["z"]
    ensures forall i | 2 <= i < n :: r[i] == []
  {
    seq(n, i => if i == 0 then [x] else if i == 1 && !headReplaced then ["z"] else [])
  }

  lemma TieShape(lines: seq<string>, blocks: seq<Block>)
    requires Chain(lines, blocks, 0)
    requires forall b <- blocks :: InFile(lines, b)
    requires !DistinctStarts(blocks)
    ensures var k := InsertCount(blocks);
            if k < |blocks| && blocks[k].start == 0 then k >= 1 && 0 < blocks[k].end <= |lines| else k >= 2
  {
    ZerosAreInserts(lines, blocks, 0);
    TieIsAtTop(lines, blocks, 0);
    assert forall i | 0 <= i < |blocks| :: blocks[i] in blocks;
  }

  lemma HeadReplacementHarms(lines: seq<string>, blocks: seq<Block>, k: nat, x: string)
    requires Chain(lines, blocks, 0)
    requires 1 <= k == InsertCount(blocks) < |blocks| && blocks[k].start == 0
    requires blocks[0].text == [x] && forall i | 1 <= i < |blocks| :: blocks[i].text == []
    requires blocks[k].end <= |lines| && lines[blocks[k].end - 1] != x
    ensures !TieHarmless(lines, blocks)
  {
    var h := blocks[k];
    EmptyTexts(blocks[1..k]);
    OneInsert(blocks, k, x);
    LastLineKept([x], lines[..h.end]);
    assert (h.text + [lines[h.end - 1]])[0] != ([x] + h.text)[0];
  }

  lemma TwoInsertsHarm(lines: seq<string>, blocks: seq<Block>, k: nat, x: string, z: string)
    requires Chain(lines, blocks, 0)
    requires 2 <= k == InsertCount(blocks) && (k < |blocks| ==> blocks[k].start != 0)
    requires blocks[0].text == [x] && blocks[1].text == [z] && x != z
    requires forall i | 2 <= i < |blocks| :: blocks[i].text == []
    ensures !TieHarmless(lines, blocks)
  {
    EmptyTexts(blocks[2..k]);
    TwoInserts(blocks, k, x, z);
    assert [x, z][0] != [z, x][0];
  }

  lemma OneInsert(blocks: seq<Block>, k: nat, x: string)
    requires 1 <= k <= |blocks| && blocks[0].text == [x]
    requires Stacked(blocks[1..k]) == [] == Written(blocks[1..k])
    ensures Stacked(blocks[..k]) == [x] == Written(blocks[..k])
  {
    assert blocks[..k][1..] == blocks[1..k];
  }

  lemma TwoInserts(blocks: seq<Block>, k: nat, x: string, z: string)
    requires 2 <= k <= |blocks| && blocks[0].text == [x] && blocks[1].text == [z]
    requires Stacked(blocks[2..k]) == [] == Written(blocks[2..k])
    ensures Stacked(blocks[..k]) == [z, x] && Written(blocks[..k]) == [x, z]
  {
    assert blocks[..k][1..] == blocks[1..k] && blocks[1..k][1..] == blocks[2..k];
    assert Stacked(blocks[1..k]) == [z] == Written(blocks[1..k]);
  }

  lemma LastLineKept(stack: seq<string>, first: seq<string>)
    requires |stack| == 1 && |first| > 0
    ensures (stack + first)[|first|..] == [first[|first| - 1]]
  {
  }

  lemma {:induction false} EmptyTexts(blocks: seq<Block>)
    requires forall b <- blocks :: b.text == []
    ensures Stacked(blocks) == [] == Written(blocks)
  {
    if blocks != [] {
      EmptyTexts(blocks[1..]);
    }
  }

  lemma {:induction false} SamePlacesCount(a: seq<Block>, b: seq<Block>)
    requires |a| == |b| && forall i | 0 <= i < |a| :: a[i].start == b[i].start && a[i].end == b[i].end
    ensures InsertCount(a) == InsertCount(b)
  {
    if a != [] {
      SamePlacesCount(a[1..], b[1..]);
    }
  }

  /** Two accepted blocks can only start together at line 0. */
  lemma {:induction false} TieIsAtTop(lines: seq<string>, blocks: seq<Block>, pos: nat)
    requires Chain(lines, blocks, pos)
    requires forall b <- blocks :: InFile(lines, b)
    requires !DistinctStarts(blocks)
    ensures ZeroCount(blocks) >= 2
    decreases blocks
  {
    var i, j :| 0 <= i < j < |blocks| && blocks[i].start == blocks[j].start;
    assert j < ZeroCount(blocks) by {
      if j >= ZeroCount(blocks) {
        PastZeros(lines, blocks, pos, j);
        assert blocks[i] in blocks;
        ChainAscends(lines, blocks, pos, i, j);
      }
    }
  }

  lemma {:induction false} ChainAscends(lines: seq<string>, blocks: seq<Block>, pos: nat, i: nat, j: nat)
    requires Chain(lines, blocks, pos) && i < j < |blocks|
    ensures blocks[i].end <= blocks[j].start
    decreases i
  {
    if i == 0 {
      StartsAfter(lines, blocks[1..], blocks[0].end);
      assert blocks[j] == blocks[1..][j - 1];
    } else {
      ChainAscends(lines, blocks[1..], blocks[0].end, i - 1, j - 1);
    }
  }

  // ---------------------------------------------------------------- the order of the hunks

  predicate Ascending(blocks: seq<Block>, strictly: bool) {
    blocks == [] || (
      && (forall b <- blocks[1..] :: if strictly then blocks[0].start < b.start else blocks[0].start <= b.start)
      && Ascending(blocks[1..], strictly))
  }

  lemma {:induction false} SortedBlocksAscend(ms: seq<MatchedHunk>)
    requires Sorted(ms, false)
    ensures Ascending(Blocks(ms), false)
  {
    if ms != [] {
      SortedBlocksAscend(ms[1..]);
      assert Blocks(ms)[1..] == Blocks(ms[1..]);
      forall b <- Blocks(ms)[1..] ensures Blocks(ms)[0].start <= b.start {
        var i :| 0 <= i < |ms| - 1 && Blocks(ms[1..])[i] == b;
        assert ms[1..][i] in ms[1..] && MayPrecede(ms[0], ms[1..][i], false);
      }
    }
  }

  lemma {:induction false} ChainAscendsStrictly(lines: seq<string>, blocks: seq<Block>, pos: nat)
    requires Chain(lines, blocks, pos)
    requires forall b <- blocks :: b.start < b.end
    ensures Ascending(blocks, true)
  {
    if blocks != [] {
      ChainAscendsStrictly(lines, blocks[1..], blocks[0].end);
      StartsAfter(lines, blocks[1..], blocks[0].end);
    }
  }

  lemma {:induction false} AscendingUnique(a: seq<Block>, b: seq<Block>)
    requires multiset(a) == multiset(b)
    requires Ascending(a, true) && Ascending(b, false)
    ensures a == b
  {
    if a == [] {
      assert |multiset(b)| == 0;
    } else {
      assert |a| == |multiset(a)| == |multiset(b)| == |b|;
      assert a[0] in multiset(b) && b[0] in multiset(a);
      assert a == [a[0]] + a[1..] && b == [b[0]] + b[1..];
      assert a[0].start <= b[0].start && b[0].start <= a[0].start;
      SameMultisetWithout(a, 0, b, 0);
      assert Without(a, 0) == a[1..] && Without(b, 0) == b[1..];
      AscendingUnique(a[1..], b[1..]);
    }
  }

  /** No two blocks of the multiset share a line, in particular none occurs twice. */
  ghost predicate Disjoint(blocks: multiset<Block>) {
    && (forall b <- blocks :: blocks[b] == 1)
    && (forall a <- blocks, b <- blocks | a != b :: a.end <= b.start || b.end <= a.start)
  }

  lemma {:induction false} ChainIsDisjoint(lines: seq<string>, blocks: seq<Block>, pos: nat)
    requires Ascending(blocks, false) && pos <= |lines|
    requires forall b <- blocks :: pos <= b.start < b.end <= |lines|
    ensures Chain(lines, blocks, pos) <==> Disjoint(multiset(blocks))
    decreases blocks
  {
    if blocks != [] {
      var b, rest := blocks[0], blocks[1..];
      assert blocks == [b] + rest;
      assert multiset(blocks) == multiset{b} + multiset(rest);
      if Chain(lines, blocks, pos) {
        StartsAfter(lines, rest, b.end);
        ChainIsDisjoint(lines, rest, b.end);
        DisjointOneMore(b, rest);
      } else if Disjoint(multiset(blocks)) {
        forall r <- rest ensures b.end <= r.start {
          assert r in multiset(rest) && r in multiset(blocks) && b in multiset(blocks);
          assert r == b ==> multiset(blocks)[b] >= 2;
        }
        DisjointOneMore(b, rest);
        ChainIsDisjoint(lines, rest, b.end);
      }
    }
  }

  lemma DisjointOneMore(b: Block, rest: seq<Block>)
    requires forall r <- rest :: b.start < b.end <= r.start
    ensures Disjoint(multiset{b} + multiset(rest)) <==> Disjoint(multiset(rest))
  {
    var all := multiset{b} + multiset(rest);
    assert b !in multiset(rest);
    assert forall r <- multiset(rest) :: r in all && all[r] == multiset(rest)[r] && r in rest;
    assert forall r <- all :: r == b || r in multiset(rest);
  }

  /** A patch all of whose hunks replace lines is accepted exactly when every hunk parses, matches in
      one place only, and no two matches share a line. */
  lemma AcceptedExactly(lines: seq<string>, hunks: seq<seq<string>>)
    requires forall h <- hunks :: ReplacesLines(h)
    ensures Plan(lines, hunks).Ok? <==>
              exists located :: LocatedAs(lines, hunks, located) && Disjoint(multiset(Blocks(located)))
  {
    PlanFacts(lines, hunks);
    forall located: seq<MatchedHunk> | LocatedAs(lines, hunks, located)
      ensures Chain(lines, Blocks(SortByStart(located, false)), 0) <==> Disjoint(multiset(Blocks(located)))
    {
      SortedBlocks(located);
      var sorted := Blocks(SortByStart(located, false));
      forall b <- sorted ensures 0 <= b.start < b.end <= |lines| {
        assert b in multiset(sorted) && b in multiset(Blocks(located));
        var i :| 0 <= i < |located| && located[i].block == b;
        assert UniqueMatch(lines, ParseHunk(hunks[i]).value, b) && hunks[i] in hunks;
      }
      ChainIsDisjoint(lines, sorted, 0);
    }
  }

  /** Where a hunk goes, whatever its number. */
  function PlaceOf(lines: seq<string>, hunk: seq<string>): Block {
    var parsed := ParseHunk(hunk);
    if parsed.Err? then Block(0, 0, [])
    else
      var found := Locate(lines, parsed.value, 0);
      if found.Err? then Block(0, 0, []) else found.value.block
  }

  lemma LocatedBlocks(lines: seq<string>, hunks: seq<seq<string>>, located: seq<MatchedHunk>)
    requires LocatedAs(lines, hunks, located)
    ensures Blocks(located) == Map(h => PlaceOf(lines, h), hunks)
  {
    forall i | 0 <= i < |hunks| ensures located[i].block == PlaceOf(lines, hunks[i]) {
      var h := ParseHunk(hunks[i]).value;
      LocateIsUniqueMatch(lines, h, 0);
      assert UniqueMatch(lines, h, located[i].block);
    }
  }

  lemma SortedBlocks(ms: seq<MatchedHunk>)
    ensures multiset(Blocks(SortByStart(ms, false))) == multiset(Blocks(ms))
    ensures Ascending(Blocks(SortByStart(ms, false)), false)
  {
    SortIsStable(ms, false);
    MapPermutation((m: MatchedHunk) => m.block, SortByStart(ms, false), ms);
    SortedBlocksAscend(SortByStart(ms, false));
  }

  lemma PermutedPlan(lines: seq<string>, hunks: seq<seq<string>>, permuted: seq<seq<string>>)
    requires multiset(hunks) == multiset(permuted)
    requires forall h <- hunks :: ReplacesLines(h)
    requires Plan(lines, hunks).Ok?
    ensures Plan(lines, permuted).Ok?
    ensures Blocks(Plan(lines, permuted).value) == Blocks(Plan(lines, hunks).value)
  {
    var plan := Plan(lines, hunks).value;
    var located := LocatedPlan(lines, hunks);
    var other := PermutedLocations(lines, hunks, permuted, located);
    PlanBlocksNonempty(lines, hunks);
    SortedBlocks(located);
    SortedBlocks(other);
    ChainAscendsStrictly(lines, Blocks(plan), 0);
    AscendingUnique(Blocks(plan), Blocks(SortByStart(other, false)));
    LocatedIsUnsortedPlan(lines, permuted, other);
    SortedFacts(lines, permuted, other);
  }

  lemma PermutedLocations(lines: seq<string>, hunks: seq<seq<string>>, permuted: seq<seq<string>>,
                          located: seq<MatchedHunk>)
    returns (other: seq<MatchedHunk>)
    requires multiset(hunks) == multiset(permuted)
    requires LocatedAs(lines, hunks, located)
    ensures LocatedAs(lines, permuted, other)
    ensures multiset(Blocks(other)) == multiset(Blocks(located))
  {
    var place := h => PlaceOf(lines, h);
    LocatedBlocks(lines, hunks, located);
    other := seq(|permuted|, i requires 0 <= i < |permuted| => MatchedHunk(i, PlaceOf(lines, permuted[i])));
    forall i | 0 <= i < |permuted|
      ensures ParseHunk(permuted[i]).Ok? && UniqueMatch(lines, ParseHunk(permuted[i]).value, other[i].block)
    {
      assert permuted[i] in multiset(hunks);
      var j :| 0 <= j < |hunks| && hunks[j] == permuted[i];
      assert Blocks(located)[j] == PlaceOf(lines, hunks[j]);
    }
    assert Blocks(other) == Map(place, permuted) && Blocks(located) == Map(place, hunks);
    MapPermutation(place, hunks, permuted);
  }

  /** The order in which hunks are written neither decides whether a patch is accepted nor changes
      the text it produces, as long as every hunk replaces at least one line. */
  lemma HunkOrderIsIrrelevant(content: string, hunks: seq<seq<string>>, permuted: seq<seq<string>>)
    requires multiset(hunks) == multiset(permuted)
    requires forall h <- hunks :: ReplacesLines(h)
    ensures PatchedText(content, hunks).Ok? <==> PatchedText(content, permuted).Ok?
    ensures PatchedText(content, hunks).Ok? ==> PatchedText(content, hunks) == PatchedText(content, permuted)
  {
    assert |hunks| == |multiset(hunks)| == |permuted|;
    assert forall h <- permuted :: h in multiset(hunks);
    var lines := FileLines(content);
    if Plan(lines, hunks).Ok? {
      PermutedPlan(lines, hunks, permuted);
      if hunks != [] {
        PatchIsSubstitution(content, hunks);
        PatchIsSubstitution(content, permuted);
      }
    } else if Plan(lines, permuted).Ok? {
      PermutedPlan(lines, permuted, hunks);
    }
  }

  // ---------------------------------------------------------------- line endings and the mark

  lemma {:induction false} SpliceKeepsLines(lines: seq<string>, blocks: seq<Block>)
    requires AllLines(lines) && forall b <- blocks :: AllLines(b.text)
    ensures AllLines(SpliceAll(lines, blocks))
    decreases blocks
  {
    if blocks != [] {
      SpliceKeepsLines(Splice(lines, blocks[0]), blocks[1..]);
    }
  }

  lemma FileLinesAreLines(content: string)
    ensures AllLines(FileLines(content))
  {
    var text := NormalizeToLf(StripBom(content).text);
    NormalizedHasNoCr(CollapseCrLf(StripBom(content).text));
    SplitChars(text);
  }

  lemma PlanTextsAreLines(lines: seq<string>, hunks: seq<seq<string>>)
    requires forall h <- hunks :: AllLines(h)
    requires Plan(lines, hunks).Ok?
    ensures forall m <- Plan(lines, hunks).value :: AllLines(m.block.text)
    ensures forall m <- SortByStart(Plan(lines, hunks).value, true) :: AllLines(m.block.text)
  {
    PlanIsPlaced(lines, hunks);
    forall m: MatchedHunk | Placed(lines, hunks, m.block) ensures AllLines(m.block.text) {
      var h :| h in hunks && ParseHunk(h).Ok? && UniqueMatch(lines, ParseHunk(h).value, m.block);
      ParseHunkAccepts(h);
    }
  }

  lemma UpdatedLinesAreLines(content: string, hunks: seq<seq<string>>)
    requires forall h <- hunks :: AllLines(h)
    requires Plan(FileLines(content), hunks).Ok?
    ensures AllLines(BottomUp(FileLines(content), Plan(FileLines(content), hunks).value))
  {
    var lines := FileLines(content);
    FileLinesAreLines(content);
    PlanTextsAreLines(lines, hunks);
    SpliceKeepsLines(lines, Blocks(SortByStart(Plan(lines, hunks).value, true)));
  }

  /** A patched file keeps its byte-order mark and uses the line ending detected in it throughout,
      whatever mixture it used before; so a file that used one of LF and CR LF throughout still does. */
  lemma EndingsSurvive(content: string, hunks: seq<seq<string>>)
    requires forall h <- hunks :: AllLines(h)
    requires PatchedText(content, hunks).Ok?
    ensures var m, patched := StripBom(content), PatchedText(content, hunks).value;
            && m.bom <= patched
            && (hunks != [] ==> UsesEnding(patched[|m.bom|..], DetectLineEnding(m.text)))
            && (UsesLf(m.text) ==> UsesLf(patched[|m.bom|..]))
            && (UsesCrLf(m.text) && '\n' in m.text ==> UsesCrLf(patched[|m.bom|..]))
  {
    var m, patched := StripBom(content), PatchedText(content, hunks).value;
    if hunks == [] {
      assert content[|m.bom|..] == m.text;
    } else {
      var lines := FileLines(content);
      var joined := Join(BottomUp(lines, Plan(lines, hunks).value));
      UpdatedLinesAreLines(content, hunks);
      JoinChars(BottomUp(lines, Plan(lines, hunks).value));
      assert UsesLf(joined);
      assert patched[|m.bom|..] == RestoreLineEndings(joined, DetectLineEnding(m.text));
      RestoredEndings(m.text, joined);
    }
  }

  predicate UsesEnding(text: string, ending: LineEnding) {
    if ending == CRLF then UsesCrLf(text) else UsesLf(text)
  }

  lemma RestoredEndings(text: string, joined: string)
    requires UsesLf(joined)
    ensures var restored := RestoreLineEndings(joined, DetectLineEnding(text));
            && UsesEnding(restored, DetectLineEnding(text))
            && (UsesLf(text) ==> UsesLf(restored))
            && (UsesCrLf(text) && '\n' in text ==> UsesCrLf(restored))
  {
    ExpandedUsesCrLf(joined);
    if UsesLf(text) {
      DetectsLf(text);
    }
    if UsesCrLf(text) {
      DetectsCrLf(text);
    }
  }

  lemma {:induction false} SubstituteKeepsLines(lines: seq<string>, blocks: seq<Block>, pos: nat)
    requires Chain(lines, blocks, pos) && AllLines(lines) && forall b <- blocks :: AllLines(b.text)
    ensures AllLines(Substitute(lines, blocks, pos))
    decreases blocks
  {
    if blocks != [] {
      SubstituteKeepsLines(lines, blocks[1..], blocks[0].end);
    }
  }

  /** The text of an accepted patch is the simultaneous substitution of its hunks if and only if the tie
      at line 0, if any, is harmless. */
  lemma PatchedTextExact(content: string, hunks: seq<seq<string>>)
    requires hunks != [] && forall h <- hunks :: AllLines(h)
    requires PatchedText(content, hunks).Ok?
    ensures var m, lines, plan := StripBom(content), FileLines(content), Plan(FileLines(content), hunks).value;
            && Chain(lines, Blocks(plan), 0)
            && (PatchedText(content, hunks).value
                == m.bom + RestoreLineEndings(Join(Substitute(lines, Blocks(plan), 0)), DetectLineEnding(m.text))
                <==> TieHarmless(lines, Blocks(plan)))
  {
    var m, lines, plan := StripBom(content), FileLines(content), Plan(FileLines(content), hunks).value;
    PlanFacts(lines, hunks);
    BottomUpExact(lines, plan);
    BottomUpLength(lines, plan);
    UpdatedLinesAreLines(content, hunks);
    FileLinesAreLines(content);
    PlanTextsAreLines(lines, hunks);
    var updated, meant := BottomUp(lines, plan), Substitute(lines, Blocks(plan), 0);
    SubstituteKeepsLines(lines, Blocks(plan), 0);
    JoinIsInjective(updated, meant);
    JoinsUseLf(updated);
    JoinsUseLf(meant);
    RestoreIsInjective(Join(updated), Join(meant), DetectLineEnding(m.text));
    SamePrefix(m.bom, RestoreLineEndings(Join(updated), DetectLineEnding(m.text)),
               RestoreLineEndings(Join(meant), DetectLineEnding(m.text)));
  }

  lemma JoinsUseLf(lines: seq<string>)
    requires AllLines(lines)
    ensures UsesLf(Join(lines))
  {
    JoinChars(lines);
  }

  lemma SamePrefix<T>(prefix: seq<T>, a: seq<T>, b: seq<T>)
    ensures prefix + a == prefix + b <==> a == b
  {
    assert (prefix + a)[|prefix|..] == a && (prefix + b)[|prefix|..] == b;
  }

  lemma {:induction false} SpliceOfSame(lines: seq<string>, blocks: seq<Block>)
    requires forall b <- blocks :: b.start <= b.end <= |lines| && b.text == lines[b.start..b.end]
    ensures SpliceAll(lines, blocks) == lines
    decreases blocks
  {
    if blocks != [] {
      assert Splice(lines, blocks[0]) == lines;
      SpliceOfSame(lines, blocks[1..]);
    }
  }

  /** Accepted hunks whose two sides agree give the file back character for character exactly when
      it uses one line ending throughout. */
  lemma UnchangedHunks(content: string, hunks: seq<seq<string>>)
    requires hunks != [] && PatchedText(content, hunks).Ok?
    requires forall h <- hunks :: ParseHunk(h).Ok? ==> ParseHunk(h).value.before == ParseHunk(h).value.after
    ensures PatchedText(content, hunks).value == content
            <==> UsesLf(StripBom(content).text) || UsesCrLf(StripBom(content).text)
  {
    var m := StripBom(content);
    UnchangedLines(FileLines(content), hunks);
    JoinOfSplit(NormalizeToLf(m.text));
    EndingsRoundTrip(m.text);
    var restored := RestoreLineEndings(NormalizeToLf(m.text), DetectLineEnding(m.text));
    assert PatchedText(content, hunks).value == m.bom + restored;
    assert (m.bom + restored)[|m.bom|..] == restored && (m.bom + m.text)[|m.bom|..] == m.text;
  }

  lemma UnchangedLines(lines: seq<string>, hunks: seq<seq<string>>)
    requires Plan(lines, hunks).Ok?
    requires forall h <- hunks :: ParseHunk(h).Ok? ==> ParseHunk(h).value.before == ParseHunk(h).value.after
    ensures BottomUp(lines, Plan(lines, hunks).value) == lines
  {
    PlanIsPlaced(lines, hunks);
    var order := SortByStart(Plan(lines, hunks).value, true);
    forall m <- order
      ensures m.block.start <= m.block.end <= |lines| && m.block.text == lines[m.block.start..m.block.end]
    {
      assert Placed(lines, hunks, m.block);
    }
    SpliceOfSame(lines, Blocks(order));
  }
}
