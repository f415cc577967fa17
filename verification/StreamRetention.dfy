/** Bounded retention of one output stream of a command, and reading it back page by page. The
    first bytes are frozen in a head segment, the last ones kept in a rolling tail; a ghost field
    holds the whole stream they must agree with. */
module StreamRetention {
  import opened ByteStrings
  import opened Wrappers

  const COMMAND_HEAD_BUFFER_DIVISOR: nat := 8
  const COMMAND_BUFFER_BYTES: nat := 524288

  function Max(a: int, b: int): int {
    if a >= b then a else b
  }

  function Min(a: int, b: int): int {
    if a <= b then a else b
  }

  function HeadLimit(limit: nat): nat {
    limit / COMMAND_HEAD_BUFFER_DIVISOR
  }

  function TailLimit(limit: nat): (r: nat)
    ensures r >= HeadLimit(limit) && r + HeadLimit(limit) == limit
  {
    limit - HeadLimit(limit)
  }

  /** `retained_stream_segments`. */
  datatype Segments = Segments(head: Bytes, tail: Bytes, tailStart: nat, total: nat, dropped: nat)

  /** The segments are what a buffer of the given limit keeps of the stream. */
  ghost predicate Retains(s: Segments, stream: Bytes, limit: nat) {
    RetainsParts(s, stream, HeadLimit(limit), TailLimit(limit))
  }

  ghost predicate RetainsParts(s: Segments, stream: Bytes, headLimit: nat, tailLimit: nat) {
    && s.total == |stream|
    && s.tailStart == s.dropped == Max(0, |stream| - tailLimit)
    && s.tail == stream[s.tailStart..]
    && s.head == stream[..Min(|stream|, headLimit)]
  }

  /** Head and tail agree with the stream, whatever the sizes. */
  ghost predicate Agrees(s: Segments, stream: Bytes) {
    && s.total == |stream|
    && s.tailStart <= |stream| && s.tail == stream[s.tailStart..]
    && |s.head| <= |stream| && s.head == stream[..|s.head|]
  }

  lemma RetainsAgrees(s: Segments, stream: Bytes, limit: nat)
    requires Retains(s, stream, limit)
    ensures Agrees(s, stream)
  {
  }

  /** The head takes what there is room for. */
  function HeadWith(head: Bytes, chunk: Bytes, limit: nat): Bytes {
    var capacity := limit - |head|;
    if capacity <= 0 then head else head + if |chunk| <= capacity then chunk else chunk[..capacity]
  }

  lemma HeadGrows(stream: Bytes, chunk: Bytes, limit: nat)
    ensures (stream + chunk)[..Min(|stream + chunk|, limit)]
            == HeadWith(stream[..Min(|stream|, limit)], chunk, limit)
  {
  }

  lemma TailGrows(stream: Bytes, chunk: Bytes, start: nat, limit: nat)
    requires start <= |stream|
    ensures forall cut | 0 <= cut <= |stream| + |chunk| - start ::
              (stream[start..] + chunk)[cut..] == (stream + chunk)[start + cut..]
  {
    assert stream[start..] + chunk == (stream + chunk)[start..];
  }

  /** What an append does to the segments. */
  ghost predicate Appends(s: Segments, chunk: Bytes, next: Segments, headLimit: nat, tailLimit: nat) {
    var overflow := Max(0, |s.tail| + |chunk| - tailLimit);
    && next.head == HeadWith(s.head, chunk, headLimit)
    && next.tail == (s.tail + chunk)[overflow..]
    && next.dropped == s.dropped + overflow
    && next.total == s.total + |chunk|
    && next.tailStart == if overflow > 0 then next.total - |next.tail| else s.tailStart
  }

  /** What an append makes of the segments is what the buffer must keep of the longer stream. */
  lemma AppendRetains(s: Segments, stream: Bytes, chunk: Bytes, next: Segments, headLimit: nat, tailLimit: nat)
    requires RetainsParts(s, stream, headLimit, tailLimit) && Appends(s, chunk, next, headLimit, tailLimit)
    ensures RetainsParts(next, stream + chunk, headLimit, tailLimit)
  {
    HeadGrows(stream, chunk, headLimit);
    TailGrows(stream, chunk, s.tailStart, tailLimit);
  }

  /** The bytes reported as evicted are the ones that left the tail without being in the head. */
  lemma AppendEvicts(s: Segments, stream: Bytes, chunk: Bytes, next: Segments, headLimit: nat, tailLimit: nat)
    requires RetainsParts(s, stream, headLimit, tailLimit) && headLimit <= tailLimit
    requires RetainsParts(next, stream + chunk, headLimit, tailLimit)
    ensures Max(0, next.tailStart - |next.head|)
            == Max(0, s.tailStart - |s.head|) + Max(0, next.tailStart - Max(s.tailStart, |next.head|))
  {
  }

  /** Number of bytes in neither segment. */
  function Gap(s: Segments): nat {
    Max(0, s.tailStart - |s.head|)
  }

  /** What `_report_eviction` computes. */
  function Reported(s: Segments, next: Segments): nat {
    if next.dropped > s.dropped then Max(0, next.tailStart - Max(s.tailStart, |next.head|)) else 0
  }

  lemma AppendKeeps(s: Segments, stream: Bytes, chunk: Bytes, next: Segments, limit: nat)
    requires Retains(s, stream, limit) && Appends(s, chunk, next, HeadLimit(limit), TailLimit(limit))
    ensures Retains(next, stream + chunk, limit)
    ensures Gap(next) == Gap(s) + Reported(s, next)
  {
    AppendRetains(s, stream, chunk, next, HeadLimit(limit), TailLimit(limit));
    AppendEvicts(s, stream, chunk, next, HeadLimit(limit), TailLimit(limit));
  }

  class StreamBuffer {
    var head: Bytes
    var tail: Bytes
    var startOffset: nat
    var cursor: nat
    var totalBytes: nat
    var droppedBytes: nat
    const limit: nat

    ghost var stream: Bytes        // every byte appended so far
    ghost var evicted: nat         // sum of the byte counts reported to `on_evict`
    ghost var delivered: nat       // bytes handed out by polls, before truncation
    ghost var omitted: nat         // bytes polls reported as omitted

    ghost function Kept(): Segments
      reads this
    {
      Segments(head, tail, startOffset, totalBytes, droppedBytes)
    }

    ghost predicate Valid()
      reads this
    {
      && Retains(Kept(), stream, limit)
      && cursor <= totalBytes
      && evicted == Gap(Kept())
      && delivered + omitted == cursor
    }

    constructor (limit: nat)
      requires limit >= 1
      ensures Valid() && this.limit == limit && stream == [] && evicted == delivered == omitted == 0
    {
      head, tail := [], [];
      startOffset, cursor, totalBytes, droppedBytes := 0, 0, 0, 0;
      this.limit := limit;
      stream, evicted, delivered, omitted := [], 0, 0, 0;
    }

    /** `append_stdout` and `append_stderr`; `lost` is what `_report_eviction` passes on. */
    method Append(chunk: Bytes) returns (lost: nat)
      requires Valid()
      modifies this
      ensures Valid()
      ensures stream == old(stream) + chunk
      ensures evicted == old(evicted) + lost
      ensures cursor == old(cursor) && delivered == old(delivered) && omitted == old(omitted)
    {
      ghost var before := Kept();
      var previousStart := startOffset;
      Extend(chunk);
      var dropped := Trim();
      droppedBytes := droppedBytes + dropped;
      lost := if dropped > 0 then Max(0, startOffset - Max(previousStart, |head|)) else 0;
      ghost var after := Kept();
      assert Appends(before, chunk, after, HeadLimit(limit), TailLimit(limit));
      assert lost == Reported(before, after);
      AppendKeeps(before, stream, chunk, after, limit);
      stream := stream + chunk;
      evicted := evicted + lost;
    }

    method Extend(chunk: Bytes)
      requires |head| <= HeadLimit(limit)
      modifies `head, `tail, `totalBytes
      ensures head == HeadWith(old(head), chunk, HeadLimit(limit))
      ensures tail == old(tail) + chunk && totalBytes == old(totalBytes) + |chunk|
    {
      var headCapacity := HeadLimit(limit) - |head|;
      if headCapacity > 0 {
        head := head + if |chunk| <= headCapacity then chunk else chunk[..headCapacity];
      }
      tail := tail + chunk;
      totalBytes := totalBytes + |chunk|;
    }

    /** `_trim_buffer`. */
    method Trim() returns (overflow: nat)
      requires |tail| <= totalBytes
      modifies `tail, `startOffset
      ensures overflow == Max(0, |old(tail)| - TailLimit(limit))
      ensures tail == old(tail)[overflow..]
      ensures startOffset == if overflow > 0 then totalBytes - |tail| else old(startOffset)
    {
      if |tail| <= TailLimit(limit) {
        return 0;
      }
      overflow := |tail| - TailLimit(limit);
      tail := tail[overflow..];
      startOffset := totalBytes - |tail|;
    }

    /** `snapshot_since_cursor` up to the truncation of what it hands out: the bytes since the last
        poll that are still in the tail, and how many are gone. */
    method Poll() returns (data: Bytes, skipped: nat)
      requires Valid()
      modifies this
      ensures Valid()
      ensures stream == old(stream) && evicted == old(evicted) && cursor == |stream|
      ensures old(cursor) + skipped <= |stream| && data == stream[old(cursor) + skipped..]
      ensures skipped == Max(0, Max(0, |stream| - TailLimit(limit)) - old(cursor))
      ensures delivered == old(delivered) + |data| && omitted == old(omitted) + skipped
    {
      skipped := Max(0, startOffset - cursor);
      var start := Max(0, cursor - startOffset);
      data := tail[start..];
      assert data == stream[cursor + skipped..];
      cursor := totalBytes;
      delivered := delivered + |data|;
      omitted := omitted + skipped;
    }

    method RetainedSegments() returns (s: Segments)
      requires Valid()
      ensures s == Kept() && Agrees(s, stream)
    {
      s := Segments(head, tail, startOffset, totalBytes, droppedBytes);
      RetainsAgrees(s, stream, limit);
    }

    /** The stream's share of `retained_bytes`: head bytes the tail also holds count once. */
    method RetainedBytes() returns (n: nat)
      requires Valid()
      ensures |stream| == n + evicted
      ensures n <= limit
    {
      n := |tail| + Min(|head|, startOffset);
    }
  }

  // ---------------------------------------------------------------- reading pages

  datatype Page = Page(offset: nat, chunk: Bytes, next: Option<nat>, omitted: nat)

  function PageLimit(limit: int): (r: nat)
    ensures 1 <= r <= 524288
    ensures 1 <= limit <= 524288 ==> r == limit
    ensures limit < 1 ==> r == 1
    ensures limit > 524288 ==> r == 524288
  {
    Max(1, Min(limit, COMMAND_BUFFER_BYTES))
  }

  /** Python's `bytes[from:to]`. */
  function Slice(bytes: Bytes, from: nat, to: nat): Bytes {
    if from >= |bytes| || from >= to then [] else bytes[from..Min(to, |bytes|)]
  }

  /** A page of the tail from an offset that is not before its start. */
  function TailPage(s: Segments, from: nat, offset: nat, size: nat): Page
    requires s.tailStart <= offset && from <= offset
  {
    MakePage(s, from, offset, Slice(s.tail, offset - s.tailStart, offset - s.tailStart + size))
  }

  function HeadPage(s: Segments, from: nat, size: nat): Page {
    MakePage(s, from, from, Slice(s.head, from, Min(|s.head|, from + size)))
  }

  function MakePage(s: Segments, from: nat, offset: nat, chunk: Bytes): Page
    requires from <= offset
  {
    Page(offset, chunk, if offset + |chunk| < s.total then Some(offset + |chunk|) else None, offset - from)
  }

  /** `read_output` on a snapshot of the segments. */
  function ReadOutput(s: Segments, requested: int, limit: int): Page {
    var from: nat := Max(0, requested);
    if from >= s.tailStart then TailPage(s, from, from, PageLimit(limit))
    else if from < |s.head| then HeadPage(s, from, PageLimit(limit))
    else TailPage(s, from, s.tailStart, PageLimit(limit))
  }

  /** A slice of the tail is a slice of the stream. */
  lemma TailSlice(stream: Bytes, start: nat, from: nat, size: nat)
    requires start <= |stream|
    ensures var chunk := Slice(stream[start..], from, from + size);
            && |chunk| == Max(0, Min(size, |stream| - start - from))
            && (chunk != [] ==> chunk == stream[start + from..start + from + |chunk|])
  {
    var tail := stream[start..];
    if from < |tail| && size > 0 {
      var to := Min(from + size, |tail|);
      assert tail[from..to] == stream[start + from..start + to];
    }
  }

  lemma HeadSlice(stream: Bytes, limit: nat, from: nat, size: nat)
    requires limit <= |stream| && from < limit && size >= 1
    ensures var chunk := Slice(stream[..limit], from, Min(limit, from + size));
            |chunk| == Min(size, limit - from) && chunk == stream[from..from + |chunk|]
  {
    var to := Min(limit, from + size);
    assert stream[..limit][from..to] == stream[from..to];
  }

  /** Where the segment that serves an offset ends. */
  function SegmentEnd(s: Segments, offset: nat): nat {
    if offset >= s.tailStart then s.total else |s.head|
  }

  /** What a page promises about the true stream: its chunk is the stream's content at its offset,
      as much of it as the limit and the segment allow;
      following it makes progress and ends exactly at the end; and only evicted bytes are skipped. */
  ghost predicate TruePage(s: Segments, stream: Bytes, from: nat, size: int, p: Page) {
    && (p.chunk != [] ==> p.offset + |p.chunk| <= |stream| && p.chunk == stream[p.offset..p.offset + |p.chunk|])
    && |p.chunk| == Max(0, Min(PageLimit(size), SegmentEnd(s, p.offset) - p.offset))
    && (p.next.Some? ==> from < p.next.value < |stream| && p.next.value == p.offset + |p.chunk|)
    && (p.next.None? <==> p.offset + |p.chunk| >= |stream|)
    && p.offset == from + p.omitted
    && (p.omitted > 0 ==> |s.head| <= from && p.offset == s.tailStart)
  }

  lemma PageIsTrue(s: Segments, stream: Bytes, requested: int, size: int)
    requires Agrees(s, stream)
    ensures TruePage(s, stream, Max(0, requested), size, ReadOutput(s, requested, size))
  {
    var from: nat := Max(0, requested);
    if from >= s.tailStart {
      TailPageIsTrue(s, stream, from, from, size);
    } else if from < |s.head| {
      HeadPageIsTrue(s, stream, from, size);
    } else {
      TailPageIsTrue(s, stream, from, s.tailStart, size);
    }
  }

  lemma TailPageIsTrue(s: Segments, stream: Bytes, from: nat, offset: nat, size: int)
    requires Agrees(s, stream) && s.tailStart <= offset
    requires offset == from || (|s.head| <= from < offset == s.tailStart)
    ensures TruePage(s, stream, from, size, TailPage(s, from, offset, PageLimit(size)))
  {
    TailSlice(stream, s.tailStart, offset - s.tailStart, PageLimit(size));
  }

  lemma HeadPageIsTrue(s: Segments, stream: Bytes, from: nat, size: int)
    requires Agrees(s, stream) && from < s.tailStart && from < |s.head|
    ensures TruePage(s, stream, from, size, HeadPage(s, from, PageLimit(size)))
  {
    HeadSlice(stream, |s.head|, from, PageLimit(size));
  }

  /** Everything a reader gets by following `next_offset` from `from` while nothing is appended. */
  function ReadFrom(s: Segments, stream: Bytes, from: nat, size: nat -> int): Bytes
    requires Agrees(s, stream)
    decreases |stream| - from
  {
    var p := ReadOutput(s, from, size(from));
    PageIsTrue(s, stream, from, size(from));
    p.chunk + if p.next.Some? then ReadFrom(s, stream, p.next.value, size) else []
  }

  /** The retained bytes from an offset on. */
  function RetainedFrom(s: Segments, from: nat): Bytes
    requires s.tailStart + |s.tail| == s.total
  {
    if from >= s.tailStart then Slice(s.tail, from - s.tailStart, |s.tail|)
    else if from < |s.head| then s.head[from..] + Slice(s.tail, Max(0, |s.head| - s.tailStart), |s.tail|)
    else s.tail
  }

  /** What follows a page, given what is retained from each offset on. */
  ghost predicate PageSplits(s: Segments, from: nat, p: Page)
    requires s.tailStart + |s.tail| == s.total
  {
    RetainedFrom(s, from) == p.chunk + if p.next.Some? then RetainedFrom(s, p.next.value) else []
  }

  /** One page and what remains after it make up what was retained. */
  lemma PageThenRest(s: Segments, stream: Bytes, from: nat, size: int)
    requires Agrees(s, stream)
    ensures PageSplits(s, from, ReadOutput(s, from, size))
  {
    if from >= s.tailStart {
      TailPageThenRest(s, stream, from, from, size);
    } else if from < |s.head| {
      HeadPageThenRest(s, stream, from, size);
    } else {
      TailPageThenRest(s, stream, from, s.tailStart, size);
      assert Slice(s.tail, 0, |s.tail|) == s.tail;
    }
  }

  lemma TailPageThenRest(s: Segments, stream: Bytes, from: nat, offset: nat, size: int)
    requires Agrees(s, stream) && s.tailStart <= offset && from <= offset
    ensures var p := TailPage(s, from, offset, PageLimit(size));
            RetainedFrom(s, offset) == p.chunk + if p.next.Some? then RetainedFrom(s, p.next.value) else []
  {
    var n := PageLimit(size);
    TailSlice(stream, s.tailStart, offset - s.tailStart, n);
    SliceSplit(s.tail, offset - s.tailStart, n);
  }

  lemma HeadPageThenRest(s: Segments, stream: Bytes, from: nat, size: int)
    requires Agrees(s, stream) && from < s.tailStart && from < |s.head|
    ensures PageSplits(s, from, HeadPage(s, from, PageLimit(size)))
  {
    HeadSlice(stream, |s.head|, from, PageLimit(size));
    var cut, p := Min(|s.head|, from + PageLimit(size)), HeadPage(s, from, PageLimit(size));
    assert p.chunk == Slice(s.head, from, cut) && |p.chunk| == cut - from;
    assert p.next == if cut < s.total then Some(cut) else None;
    HeadRest(s, stream, cut);
    HeadSplit(s.head, from, cut, Slice(s.tail, Max(0, |s.head| - s.tailStart), |s.tail|));
  }

  lemma HeadSplit(head: Bytes, from: nat, cut: nat, beyond: Bytes)
    requires from < cut <= |head|
    ensures head[from..] + beyond == Slice(head, from, cut) + (head[cut..] + beyond)
  {
    assert head[from..] == head[from..cut] + head[cut..];
  }

  /** What follows a page that ends inside the head, or at its end. */
  lemma HeadRest(s: Segments, stream: Bytes, cut: nat)
    requires Agrees(s, stream) && cut <= |s.head|
    ensures s.head[cut..] + Slice(s.tail, Max(0, |s.head| - s.tailStart), |s.tail|)
            == if cut < s.total then RetainedFrom(s, cut) else []
  {
    if cut >= s.tailStart {
      HeadOverlap(s, stream, cut);
    } else if cut == |s.head| {
      assert Slice(s.tail, 0, |s.tail|) == s.tail;
      assert s.head[cut..] == [];
    }
  }

  lemma SliceSplit(bytes: Bytes, from: nat, n: nat)
    requires n >= 1
    ensures Slice(bytes, from, |bytes|)
            == Slice(bytes, from, from + n) + Slice(bytes, from + |Slice(bytes, from, from + n)|, |bytes|)
  {
  }

  /** Where head and tail overlap, the rest of the head and the tail beyond it are the tail. */
  lemma HeadOverlap(s: Segments, stream: Bytes, cut: nat)
    requires Agrees(s, stream) && s.tailStart <= cut <= |s.head|
    ensures s.head[cut..] + Slice(s.tail, |s.head| - s.tailStart, |s.tail|)
            == Slice(s.tail, cut - s.tailStart, |s.tail|)
  {
    TailFrom(stream, s.tailStart, |s.head|);
    TailFrom(stream, s.tailStart, cut);
    HeadThenTail(stream, |s.head|, cut);
  }

  lemma TailFrom(stream: Bytes, start: nat, from: nat)
    requires start <= from <= |stream|
    ensures Slice(stream[start..], from - start, |stream| - start) == stream[from..]
  {
  }

  lemma HeadThenTail(stream: Bytes, end: nat, cut: nat)
    requires cut <= end <= |stream|
    ensures stream[..end][cut..] + stream[end..] == stream[cut..]
  {
  }

  lemma {:induction false} ReadFromIsRetained(s: Segments, stream: Bytes, from: nat, size: nat -> int)
    requires Agrees(s, stream)
    ensures ReadFrom(s, stream, from, size) == RetainedFrom(s, from)
    decreases |stream| - from
  {
    var p := ReadOutput(s, from, size(from));
    PageIsTrue(s, stream, from, size(from));
    PageThenRest(s, stream, from, size(from));
    if p.next.Some? {
      ReadFromIsRetained(s, stream, p.next.value, size);
    }
  }

  /** On a stream that has stopped growing, paging from the start with any page sizes yields the
      retained head followed by the retained tail, each byte once: the whole stream while nothing
      is evicted, and otherwise everything but the gap between head and tail. */
  lemma PagingIsComplete(s: Segments, stream: Bytes, size: nat -> int)
    requires Agrees(s, stream)
    ensures ReadFrom(s, stream, 0, size) == s.head[..Min(|s.head|, s.tailStart)] + s.tail
    ensures ReadFrom(s, stream, 0, size)
            == if s.tailStart <= |s.head| then stream else stream[..|s.head|] + stream[s.tailStart..]
  {
    ReadFromIsRetained(s, stream, 0, size);
    WholeRetained(s, stream);
  }

  /** Paging through a buffer whose stream has stopped growing, with any page sizes: the whole stream
      while nothing was evicted, and otherwise its first and its last bytes, as the limit has it. */
  lemma PagingABuffer(b: StreamBuffer, size: nat -> int)
    requires b.Valid()
    ensures b.evicted == Max(0, |b.stream| - b.limit)
    ensures Agrees(b.Kept(), b.stream)
    ensures ReadsBack(b.Kept(), b.stream, size, Expected(b.evicted, b.stream, b.limit))
  {
    GapOfRetained(b.Kept(), b.stream, b.limit);
    PagingReadsBack(b.Kept(), b.stream, size, Expected(b.evicted, b.stream, b.limit));
  }

  /** The stream, or what is left of it when bytes were evicted. */
  function Expected(evicted: nat, stream: Bytes, limit: nat): Bytes
    requires evicted > 0 ==> limit <= |stream|
  {
    if evicted == 0 then stream else stream[..HeadLimit(limit)] + stream[|stream| - TailLimit(limit)..]
  }

  /** Paging from the start yields these bytes. */
  ghost predicate ReadsBack(s: Segments, stream: Bytes, size: nat -> int, data: Bytes) {
    Agrees(s, stream) && ReadFrom(s, stream, 0, size) == data
  }

  lemma PagingReadsBack(s: Segments, stream: Bytes, size: nat -> int, data: Bytes)
    requires Agrees(s, stream)
    requires data == if s.tailStart <= |s.head| then stream else stream[..|s.head|] + stream[s.tailStart..]
    ensures ReadsBack(s, stream, size, data)
  {
    PagingIsComplete(s, stream, size);
  }

  lemma GapOfRetained(s: Segments, stream: Bytes, limit: nat)
    requires Retains(s, stream, limit)
    ensures Agrees(s, stream)
    ensures Gap(s) == Max(0, |stream| - limit)
    ensures Gap(s) == 0 <==> s.tailStart <= |s.head|
    ensures Gap(s) > 0 ==> |s.head| == HeadLimit(limit) && s.tailStart == |stream| - TailLimit(limit)
  {
  }

  lemma WholeRetained(s: Segments, stream: Bytes)
    requires Agrees(s, stream)
    ensures RetainedFrom(s, 0) == s.head[..Min(|s.head|, s.tailStart)] + s.tail
    ensures s.tailStart <= |s.head| ==> RetainedFrom(s, 0) == stream
  {
    assert Slice(s.tail, 0, |s.tail|) == s.tail;
    if s.tailStart == 0 {
      assert s.head[..0] + s.tail == s.tail;
    } else if s.tailStart <= |s.head| {
      HeadOverlap(s, stream, s.tailStart);
      WholeHead(s.head, s.tailStart, Slice(s.tail, |s.head| - s.tailStart, |s.tail|));
      assert stream == stream[..s.tailStart] + stream[s.tailStart..];
    } else if |s.head| > 0 {
      assert s.head[0..] == s.head[..|s.head|];
    } else {
      assert s.head[..0] + s.tail == s.tail;
    }
  }

  lemma WholeHead(head: Bytes, start: nat, beyond: Bytes)
    requires start <= |head|
    ensures head[0..] + beyond == head[..start] + (head[start..] + beyond)
  {
    assert head[0..] == head[..start] + head[start..];
  }

  /** One reading of a growing stream: the stream and what was kept of it, and what was asked for. */
  datatype Reading = Reading(stream: Bytes, segments: Segments, request: nat, size: int)

  function PageOf(r: Reading): Page {
    ReadOutput(r.segments, r.request, r.size)
  }

  /** The stream may have grown, and the offset asked for is the `next_offset` of the page before. */
  predicate Continues(r: Reading, next: Reading) {
    r.stream <= next.stream && PageOf(r).next == Some(next.request)
  }

  /** A reader that follows `next_offset` while the stream grows between its calls. */
  ghost predicate Follows(readings: seq<Reading>) {
    && (forall r <- readings :: Agrees(r.segments, r.stream))
    && (forall i | 0 < i < |readings| :: Continues(readings[i - 1], readings[i]))
  }

  lemma {:induction false} StreamsGrow(readings: seq<Reading>, i: nat, j: nat)
    requires Follows(readings) && i <= j < |readings|
    ensures readings[i].stream <= readings[j].stream
    ensures readings[i].request <= readings[j].request
    ensures i < j ==> PageOf(readings[i]).next.Some? && PageOf(readings[i]).next.value <= readings[j].request
    decreases j - i
  {
    if i < j {
      StreamsGrow(readings, i, j - 1);
      var r := readings[j - 1];
      assert Continues(r, readings[j]) && r in readings;
      PageIsTrue(r.segments, r.stream, r.request, r.size);
    }
  }

  /** The page shows the stream's content at its offset. */
  ghost predicate SliceOf(p: Page, stream: Bytes) {
    p.chunk != [] ==> p.offset + |p.chunk| <= |stream| && p.chunk == stream[p.offset..p.offset + |p.chunk|]
  }

  /** However the stream grows meanwhile, every page a follower got is the later stream's content at
      the page's offset, and later pages begin where or after earlier ones end: nothing is repeated
      and nothing is out of order. */
  lemma FollowingIsFaithful(readings: seq<Reading>, i: nat, j: nat)
    requires Follows(readings) && i <= j < |readings|
    ensures SliceOf(PageOf(readings[i]), readings[j].stream)
    ensures i < j ==>
              && readings[i].request < readings[j].request
              && PageOf(readings[i]).offset + |PageOf(readings[i]).chunk| <= PageOf(readings[j]).offset
  {
    var r, later := readings[i], readings[j];
    assert r in readings && later in readings;
    StreamsGrow(readings, i, j);
    PageIsTrue(r.segments, r.stream, r.request, r.size);
    PageIsTrue(later.segments, later.stream, later.request, later.size);
    PrefixSlice(r.stream, later.stream);
  }

  lemma PrefixSlice(stream: Bytes, longer: Bytes)
    requires stream <= longer
    ensures forall a, b | 0 <= a <= b <= |stream| :: stream[a..b] == longer[a..b]
  {
  }

  ghost predicate Shows(pages: seq<Page>, readings: seq<Reading>) {
    |pages| == |readings| && forall i | 0 <= i < |pages| :: pages[i] == PageOf(readings[i])
  }

  lemma FollowOneMore(pages: seq<Page>, readings: seq<Reading>, r: Reading)
    requires Follows(readings) && Shows(pages, readings) && Agrees(r.segments, r.stream)
    requires readings != [] ==> Continues(readings[|readings| - 1], r)
    ensures Follows(readings + [r]) && Shows(pages + [PageOf(r)], readings + [r])
  {
  }

  /** A reader of a live buffer: in each round some chunks are appended and then the page at the
      reader's offset is read, until a page has no next offset. Its pages are those of readings that
      follow one another and end with the buffer's present stream. */
  method FollowGrowing(b: StreamBuffer, start: nat, rounds: seq<(seq<Bytes>, int)>)
    returns (pages: seq<Page>, ghost readings: seq<Reading>)
    requires b.Valid()
    modifies b
    ensures b.Valid() && old(b.stream) <= b.stream
    ensures Follows(readings) && Shows(pages, readings)
    ensures |pages| == |rounds| || (pages != [] && pages[|pages| - 1].next.None?)
    ensures forall p <- pages :: SliceOf(p, b.stream)
    ensures forall i, j | 0 <= i < j < |pages| :: pages[i].offset + |pages[i].chunk| <= pages[j].offset
  {
    pages, readings := [], [];
    var from := start;
    for i := 0 to |rounds|
      invariant b.Valid() && old(b.stream) <= b.stream
      invariant Follows(readings) && Shows(pages, readings) && |pages| == i
      invariant i > 0 ==> readings[i - 1].stream == b.stream && pages[i - 1].next == Some(from)
    {
      AppendAll(b, rounds[i].0);
      var segments := b.RetainedSegments();
      var page := ReadOutput(segments, from, rounds[i].1);
      ghost var r := Reading(b.stream, segments, from, rounds[i].1);
      FollowOneMore(pages, readings, r);
      pages, readings := pages + [page], readings + [r];
      if page.next.None? {
        break;
      }
      from := page.next.value;
    }
    PagesAreFaithful(readings, pages, b.stream);
  }

  lemma PagesAreFaithful(readings: seq<Reading>, pages: seq<Page>, stream: Bytes)
    requires Follows(readings) && Shows(pages, readings)
    requires readings != [] ==> readings[|readings| - 1].stream == stream
    ensures forall p <- pages :: SliceOf(p, stream)
    ensures forall i, j | 0 <= i < j < |pages| :: pages[i].offset + |pages[i].chunk| <= pages[j].offset
  {
    forall i | 0 <= i < |pages| ensures SliceOf(pages[i], stream) {
      FollowingIsFaithful(readings, i, |readings| - 1);
    }
    forall i, j | 0 <= i < j < |pages| ensures pages[i].offset + |pages[i].chunk| <= pages[j].offset {
      FollowingIsFaithful(readings, i, j);
    }
  }

  method AppendAll(b: StreamBuffer, chunks: seq<Bytes>)
    requires b.Valid()
    modifies b
    ensures b.Valid() && old(b.stream) <= b.stream
  {
    for i := 0 to |chunks|
      invariant b.Valid() && old(b.stream) <= b.stream
    {
      var _ := b.Append(chunks[i]);
    }
  }
}
