/** The patch text parser and a printer for its operations. Parsing a printed patch gives the
    operations back, and the operations that can be printed are exactly the ones some patch text
    parses to. */
module PatchParser {
  import opened Wrappers
  import opened Lines
  import HunkRewriter

  datatype PatchOperation =
    | Add(path: string, content: string)
    | Delete(path: string)
    | Update(path: string, moveTo: Option<string>, hunks: seq<seq<string>>)

  datatype ParseError = BadEnvelope | AddLineWithoutPlus | UnrecognizedLine(line: string)

  const BEGIN_PATCH := "*** Begin Patch"
  const END_PATCH := "*** End Patch"
  const STARS := "*** "
  const ADD_FILE := "*** Add File: "
  const DELETE_FILE := "*** Delete File: "
  const UPDATE_FILE := "*** Update File: "
  const MOVE_TO := "*** Move to: "
  const HUNK_MARK := "@@"

  // ---------------------------------------------------------------- Python's str.strip

  predicate IsSpace(c: char) {
    || '\t' <= c <= '\r' || '\U{1C}' <= c <= ' ' || c == '\U{85}' || c == '\U{A0}' || c == '\U{1680}'
    || '\U{2000}' <= c <= '\U{200A}' || c == '\U{2028}' || c == '\U{2029}' || c == '\U{202F}'
    || c == '\U{205F}' || c == '\U{3000}'
  }

  function StripLeft(s: string): string {
    if s != "" && IsSpace(s[0]) then StripLeft(s[1..]) else s
  }

  function StripRight(s: string): string {
    if s != "" && IsSpace(s[|s| - 1]) then StripRight(s[..|s| - 1]) else s
  }

  function Strip(s: string): string {
    StripRight(StripLeft(s))
  }

  predicate Trimmed(s: string) {
    s == "" || (!IsSpace(s[0]) && !IsSpace(s[|s| - 1]))
  }

  lemma {:induction false} StripLeftFacts(s: string)
    ensures StripLeft(s) == "" || !IsSpace(StripLeft(s)[0])
    ensures |StripLeft(s)| <= |s| && s[|s| - |StripLeft(s)|..] == StripLeft(s)
    ensures forall c <- s[..|s| - |StripLeft(s)|] :: IsSpace(c)
  {
    if s != "" && IsSpace(s[0]) {
      StripLeftFacts(s[1..]);
    }
  }

  lemma {:induction false} StripRightFacts(s: string)
    ensures StripRight(s) <= s
    ensures StripRight(s) == "" || !IsSpace(StripRight(s)[|StripRight(s)| - 1])
    ensures forall c <- s[|StripRight(s)|..] :: IsSpace(c)
  {
    if s != "" && IsSpace(s[|s| - 1]) {
      StripRightFacts(s[..|s| - 1]);
    }
  }

  /** What is stripped is white space at either end, and all of it; the rest stays. */
  lemma StripTrims(s: string)
    ensures Trimmed(Strip(s))
    ensures exists left, right | AllSpace(left) && AllSpace(right) :: s == left + Strip(s) + right
    ensures forall c <- Strip(s) :: c in s
    ensures Trimmed(s) ==> Strip(s) == s
  {
    StripLeftFacts(s);
    var rest := StripLeft(s);
    StripRightFacts(rest);
    var left, right := s[..|s| - |rest|], rest[|Strip(s)|..];
    assert AllSpace(left) && AllSpace(right) && s == left + Strip(s) + right;
  }

  predicate AllSpace(s: string) {
    forall c <- s :: IsSpace(c)
  }

  // ---------------------------------------------------------------- what a patch text means

  predicate StartsSection(line: string) {
    STARS <= line
  }

  predicate IsAddedLine(line: string) {
    "+" <= line
  }

  predicate IsHunkMark(line: string) {
    HUNK_MARK <= line
  }

  /** Number of lines before the next section header. */
  function RunLength(lines: seq<string>): (n: nat)
    ensures n <= |lines|
    ensures n < |lines| ==> StartsSection(lines[n])
    ensures forall line <- lines[..n] :: !StartsSection(line)
  {
    if lines == [] || StartsSection(lines[0]) then 0
    else
      var n := 1 + RunLength(lines[1..]);
      assert lines[..n] == [lines[0]] + lines[1..][..n - 1];
      n
  }

  function Tail(line: string): string {
    if line == "" then "" else line[1..]
  }

  function Flush(current: seq<string>): seq<seq<string>> {
    if current == [] then [] else [current]
  }

  /** Hunks are separated by `@@` lines; an empty hunk is dropped. */
  function GroupHunks(lines: seq<string>, current: seq<string>): seq<seq<string>>
    decreases lines
  {
    if lines == [] then Flush(current)
    else if IsHunkMark(lines[0]) then Flush(current) + GroupHunks(lines[1..], [])
    else GroupHunks(lines[1..], current + [lines[0]])
  }

  function Prepend(ops: seq<PatchOperation>, rest: Result<seq<PatchOperation>, ParseError>)
    : Result<seq<PatchOperation>, ParseError>
  {
    if rest.Ok? then Ok(ops + rest.value) else rest
  }

  lemma PrependNothing(rest: Result<seq<PatchOperation>, ParseError>)
    ensures Prepend([], rest) == rest
  {
    if rest.Ok? {
      assert [] + rest.value == rest.value;
    }
  }

  lemma PrependTwice(a: seq<PatchOperation>, b: seq<PatchOperation>, rest: Result<seq<PatchOperation>, ParseError>)
    ensures Prepend(a, Prepend(b, rest)) == Prepend(a + b, rest)
  {
    if rest.Ok? {
      assert a + (b + rest.value) == a + b + rest.value;
    }
  }

  function Path(line: string, header: string): string
    requires header <= line
  {
    Strip(line[|header|..])
  }

  /** The move target of an update section, and the section's lines after it. */
  function MoveTarget(lines: seq<string>): (r: (Option<string>, seq<string>))
    ensures |r.1| <= |lines|
  {
    if lines != [] && MOVE_TO <= lines[0] then (Some(Path(lines[0], MOVE_TO)), lines[1..])
    else (None, lines)
  }

  /** The operations described by the lines between the envelope lines. */
  function ParseBody(lines: seq<string>): Result<seq<PatchOperation>, ParseError> {
    if lines == [] then Ok([])
    else if lines[0] == "" then ParseBody(lines[1..])
    else if ADD_FILE <= lines[0] then
      var rest := lines[1..];
      var run := rest[..RunLength(rest)];
      if exists line <- run :: !IsAddedLine(line) then Err(AddLineWithoutPlus)
      else Prepend([Add(Path(lines[0], ADD_FILE), Join(HunkRewriter.Map(Tail, run)) + "\n")],
                   ParseBody(rest[RunLength(rest)..]))
    else if DELETE_FILE <= lines[0] then
      Prepend([Delete(Path(lines[0], DELETE_FILE))], ParseBody(lines[1..]))
    else if UPDATE_FILE <= lines[0] then
      var (moveTo, rest) := MoveTarget(lines[1..]);
      var run := rest[..RunLength(rest)];
      Prepend([Update(Path(lines[0], UPDATE_FILE), moveTo, GroupHunks(run, []))],
              ParseBody(rest[RunLength(rest)..]))
    else Err(UnrecognizedLine(lines[0]))
  }

  function DropTrailingBlanks(lines: seq<string>): seq<string> {
    if lines != [] && lines[|lines| - 1] == "" then DropTrailingBlanks(lines[..|lines| - 1]) else lines
  }

  predicate InEnvelope(lines: seq<string>) {
    |lines| > 0 && Strip(lines[0]) == BEGIN_PATCH && Strip(lines[|lines| - 1]) == END_PATCH
  }

  function Parse(patch: string): Result<seq<PatchOperation>, ParseError> {
    var lines := DropTrailingBlanks(Split(NormalizeToLf(patch)));
    if !InEnvelope(lines) then Err(BadEnvelope)
    else
      assert |lines| >= 2 by { assert BEGIN_PATCH[4] != END_PATCH[4]; }
      ParseBody(lines[1..|lines| - 1])
  }

  // ---------------------------------------------------------------- the parser

  lemma RunStep(lines: seq<string>, next: nat, last: nat)
    requires next < last <= |lines| && !StartsSection(lines[next])
    ensures RunLength(lines[next..last]) == 1 + RunLength(lines[next + 1..last])
    ensures lines[next..last][..RunLength(lines[next..last])]
            == [lines[next]] + lines[next + 1..last][..RunLength(lines[next + 1..last])]
  {
    assert lines[next..last][1..] == lines[next + 1..last];
  }

  /** The lines of an add section from line `start` on: its content, or None when one of them does
      not begin with a plus sign. */
  method ReadAddLines(lines: seq<string>, start: nat, last: nat)
    returns (content: Option<seq<string>>, next: nat)
    requires start <= last <= |lines|
    ensures start <= next <= last
    ensures var rest := lines[start..last];
            var run := rest[..RunLength(rest)];
            if exists line <- run :: !IsAddedLine(line) then content.None?
            else content == Some(HunkRewriter.Map(Tail, run)) && next == start + RunLength(rest)
  {
    ghost var rest := lines[start..last];
    ghost var run := rest[..RunLength(rest)];
    next := start;
    var collected: seq<string> := [];
    while next < last && !StartsSection(lines[next])
      invariant start <= next <= last
      invariant RunLength(rest) == next - start + RunLength(lines[next..last])
      invariant collected == HunkRewriter.Map(Tail, run[..next - start])
      invariant forall j | 0 <= j < next - start :: IsAddedLine(run[j])
    {
      RunStep(lines, next, last);
      assert run[next - start] == lines[next];
      if !IsAddedLine(lines[next]) {
        assert lines[next] in run;
        return None, next;
      }
      assert run[..next + 1 - start] == run[..next - start] + [lines[next]];
      collected := collected + [lines[next][1..]];
      next := next + 1;
    }
    assert run[..next - start] == run;
    return Some(collected), next;
  }

  /** The hunks of an update section from line `start` on. */
  method ReadHunks(lines: seq<string>, start: nat, last: nat) returns (hunks: seq<seq<string>>, next: nat)
    requires start <= last <= |lines|
    ensures var rest := lines[start..last];
            next == start + RunLength(rest) && hunks == GroupHunks(rest[..RunLength(rest)], [])
  {
    ghost var rest := lines[start..last];
    ghost var todo := rest[..RunLength(rest)];
    hunks, next := [], start;
    var current: seq<string> := [];
    assert hunks + GroupHunks(todo, current) == GroupHunks(todo, []);
    while next < last && !StartsSection(lines[next])
      invariant start <= next <= last
      invariant RunLength(rest) == next - start + RunLength(lines[next..last])
      invariant todo == lines[next..last][..RunLength(lines[next..last])]
      invariant hunks + GroupHunks(todo, current) == GroupHunks(rest[..RunLength(rest)], [])
    {
      RunStep(lines, next, last);
      GroupStep(hunks, todo, current);
      if IsHunkMark(lines[next]) {
        if current != [] {
          hunks := hunks + [current];
        }
        current := [];
      } else {
        current := current + [lines[next]];
      }
      todo := todo[1..];
      next := next + 1;
    }
    assert todo == [];
    if current != [] {
      hunks := hunks + [current];
    }
  }

  lemma GroupStep(hunks: seq<seq<string>>, todo: seq<string>, current: seq<string>)
    requires todo != []
    ensures hunks + GroupHunks(todo, current)
            == if IsHunkMark(todo[0]) then
                 (if current == [] then hunks else hunks + [current]) + GroupHunks(todo[1..], [])
               else
                 hunks + GroupHunks(todo[1..], current + [todo[0]])
  {
    if IsHunkMark(todo[0]) {
      var rest := GroupHunks(todo[1..], []);
      assert hunks + (Flush(current) + rest) == (hunks + Flush(current)) + rest;
      assert hunks + Flush(current) == if current == [] then hunks else hunks + [current];
    }
  }

  method ParsePatch(patch: string) returns (r: Result<seq<PatchOperation>, ParseError>)
    ensures r == Parse(patch)
  {
    var lines := Split(NormalizeToLf(patch));
    while lines != [] && lines[|lines| - 1] == ""
      invariant DropTrailingBlanks(lines) == DropTrailingBlanks(Split(NormalizeToLf(patch)))
      decreases |lines|
    {
      lines := lines[..|lines| - 1];
    }
    if |lines| == 0 || Strip(lines[0]) != BEGIN_PATCH || Strip(lines[|lines| - 1]) != END_PATCH {
      return Err(BadEnvelope);
    }
    assert |lines| >= 2 by { assert BEGIN_PATCH[4] != END_PATCH[4]; }
    r := ParseLines(lines, |lines| - 1);
  }

  method ReadAdd(lines: seq<string>, i: nat, last: nat) returns (op: Option<PatchOperation>, next: nat)
    requires i < last <= |lines|
    requires lines[i] != "" && ADD_FILE <= lines[i]
    ensures i < next <= last
    ensures if op.None? then ParseBody(lines[i..last]) == Err(AddLineWithoutPlus)
            else ParseBody(lines[i..last]) == Prepend([op.value], ParseBody(lines[next..last]))
  {
    var content;
    content, next := ReadAddLines(lines, i + 1, last);
    assert lines[i..last][1..] == lines[i + 1..last];
    if content.None? {
      return None, next;
    }
    assert lines[i + 1..last][next - i - 1..] == lines[next..last];
    return Some(Add(Path(lines[i], ADD_FILE), Join(content.value) + "\n")), next;
  }

  method ReadUpdate(lines: seq<string>, i: nat, last: nat) returns (op: PatchOperation, next: nat)
    requires i < last <= |lines|
    requires lines[i] != "" && !(ADD_FILE <= lines[i]) && !(DELETE_FILE <= lines[i]) && UPDATE_FILE <= lines[i]
    ensures i < next <= last
    ensures ParseBody(lines[i..last]) == Prepend([op], ParseBody(lines[next..last]))
  {
    next := i + 1;
    assert lines[i..last][1..] == lines[next..last];
    var moveTo := None;
    if next < last && MOVE_TO <= lines[next] {
      moveTo := Some(Path(lines[next], MOVE_TO));
      assert lines[i + 1..last][1..] == lines[next + 1..last];
      next := next + 1;
    }
    ghost var start := next;
    assert MoveTarget(lines[i..last][1..]) == (moveTo, lines[start..last]);
    var hunks;
    hunks, next := ReadHunks(lines, next, last);
    assert lines[start..last][next - start..] == lines[next..last];
    op := Update(Path(lines[i], UPDATE_FILE), moveTo, hunks);
  }

  method ParseLines(lines: seq<string>, last: nat) returns (r: Result<seq<PatchOperation>, ParseError>)
    requires 1 <= last <= |lines|
    ensures r == ParseBody(lines[1..last])
  {
    var operations := [];
    var i := 1;
    PrependNothing(ParseBody(lines[1..last]));
    while i < last
      invariant 1 <= i <= last
      invariant Prepend(operations, ParseBody(lines[i..last])) == ParseBody(lines[1..last])
      decreases last - i
    {
      var line := lines[i];
      assert lines[i..last][1..] == lines[i + 1..last];
      var op: PatchOperation;
      var next := i + 1;
      if line == "" {
        i := next;
        continue;
      } else if ADD_FILE <= line {
        var added;
        added, next := ReadAdd(lines, i, last);
        if added.None? {
          return Err(AddLineWithoutPlus);
        }
        op := added.value;
      } else if DELETE_FILE <= line {
        op := Delete(Path(line, DELETE_FILE));
      } else if UPDATE_FILE <= line {
        op, next := ReadUpdate(lines, i, last);
      } else {
        return Err(UnrecognizedLine(line));
      }
      PrependTwice(operations, [op], ParseBody(lines[next..last]));
      operations := operations + [op];
      i := next;
    }
    assert lines[i..last] == [] && operations + [] == operations;
    return Ok(operations);
  }
}
