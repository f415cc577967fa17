/** A progressive search: one thread collects records while readers page through what is there. */
module SearchSession {
  import opened Wrappers

  const PAGE_BYTES: nat := 60000

  datatype State = Running | Completed | Failed | Partial | Stopped

  datatype Reason = NoReason | TimeLimit | ResultLineLimit | NonUtf8Result | ResultLimit | RipgrepFailed

  /** A match record; `bytes` is the size of its JSON text. */
  datatype Record = Record(path: string, line: int, text: string, bytes: nat)

  /** What one line of ripgrep output turns out to be. */
  datatype Line = TooLong | Malformed | NoMatch | NotUtf8 | Match(record: Record) | Broken

  datatype Page = Page(state: State, reason: Reason, results: seq<Record>, nextCursor: nat, hasMore: bool)

  datatype ReadError = InvalidCursorOrLimit | InvalidCursor

  /** What a search holds at a moment. */
  datatype Moment = Moment(state: State, reason: Reason, results: seq<Record>)

  /** Everything any region does to a search: results only grow, and only while it is running; the
      state leaves `running` once and then nothing changes any more. */
  ghost predicate Advances(a: Moment, b: Moment) {
    a.results <= b.results && (a.state != Running ==> b == a)
  }

  /** So does everything any number of regions do. */
  lemma AdvancesTwice(a: Moment, b: Moment, c: Moment)
    requires Advances(a, b) && Advances(b, c)
    ensures Advances(a, c)
  {
  }

  function TotalBytes(records: seq<Record>): nat {
    if records == [] then 0 else TotalBytes(records[..|records| - 1]) + records[|records| - 1].bytes
  }

  lemma TotalBytesAdd(records: seq<Record>, record: Record)
    ensures TotalBytes(records + [record]) == TotalBytes(records) + record.bytes
  {
    assert (records + [record])[..|records|] == records;
  }

  lemma OneMore(records: seq<Record>, from: nat, i: nat)
    requires from <= i < |records|
    ensures records[from..i + 1] == records[from..i] + [records[i]]
    ensures TotalBytes(records[from..i + 1]) == TotalBytes(records[from..i]) + records[i].bytes
    ensures Small(records) ==> records[i].bytes <= PAGE_BYTES
  {
    TotalBytesAdd(records[from..i], records[i]);
    assert records[from..i + 1] == records[from..i] + [records[i]];
    assert records[i] in records;
  }

  ghost predicate Small(records: seq<Record>) {
    forall r <- records :: r.bytes <= PAGE_BYTES
  }

  class Search {
    var state: State
    var reason: Reason
    var results: seq<Record>
    var size: nat
    const maxRecords: nat
    const maxBytes: nat

    ghost predicate Valid()
      reads this
    {
      Small(results) && |results| <= maxRecords && size == TotalBytes(results) <= maxBytes
    }

    function Now(): Moment
      reads this
    {
      Moment(state, reason, results)
    }

    constructor (maxRecords: nat, maxBytes: nat)
      ensures Valid() && state == Running && results == []
    {
      this.maxRecords, this.maxBytes := maxRecords, maxBytes;
      state, reason, results, size := Running, NoReason, [], 0;
    }

    /** `_timeout`. */
    method Timeout()
      requires Valid()
      modifies this
      ensures Valid() && Advances(old(Now()), Now()) && results == old(results)
      ensures state == if old(state) == Running then Partial else old(state)
      ensures old(state) == Running ==> reason == TimeLimit
    {
      if state == Running {
        state, reason := Partial, TimeLimit;
      }
    }

    /** `_stop`. */
    method Stop()
      requires Valid()
      modifies this
      ensures Valid() && Advances(old(Now()), Now()) && results == old(results) && reason == old(reason)
      ensures state == if old(state) == Running then Stopped else old(state)
    {
      if state == Running {
        state := Stopped;
      }
    }

    /** A record within all three limits. */
    predicate Takes(records: seq<Record>, record: Record) {
      |records| < maxRecords && TotalBytes(records) + record.bytes <= maxBytes && record.bytes <= PAGE_BYTES
    }

    /** The locked part of the collector's loop for one line; `more` tells whether the loop goes on
        and `failed` whether the line was bad. */
    method Collect(line: Line) returns (more: bool, failed: bool)
      requires Valid()
      modifies this
      ensures Valid() && Advances(old(Now()), Now())
      ensures results == if old(state) == Running && line.Match? && Takes(old(results), line.record)
                         then old(results) + [line.record] else old(results)
      ensures old(state) == Running ==>
                (state == Partial <==>
                   line.TooLong? || line.NotUtf8? || (line.Match? && !Takes(old(results), line.record)))
                && (state == Partial || state == Running)
      ensures old(state) == Running && state == Partial ==>
                reason == if line.TooLong? then ResultLineLimit
                          else if line.NotUtf8? then NonUtf8Result else ResultLimit
      ensures more <==> state == Running && !line.Broken?
      ensures failed <==> old(state) == Running && (line.Malformed? || line.Broken?)
    {
      if state != Running {
        return false, false;
      }
      match line
      case TooLong =>
        state, reason := Partial, ResultLineLimit;
        return false, false;
      case Malformed =>
        return true, true;
      case NoMatch =>
        return true, false;
      case Broken =>
        return false, true;
      case NotUtf8 =>
        state, reason := Partial, NonUtf8Result;
        return false, false;
      case Match(record) =>
        if |results| >= maxRecords || size + record.bytes > maxBytes || record.bytes > PAGE_BYTES {
          state, reason := Partial, ResultLimit;
          return false, false;
        }
        ghost var before := results;
        results := results + [record];
        size := size + record.bytes;
        TotalBytesAdd(before, record);
        return true, false;
    }

    /** The end of the collector. */
    method Finish(failed: bool, exitCode: int)
      requires Valid()
      modifies this
      ensures Valid() && Advances(old(Now()), Now()) && state != Running && results == old(results)
      ensures old(state) == Running ==>
                if !failed && (exitCode == 0 || exitCode == 1) then state == Completed && reason == old(reason)
                else state == Failed && reason == RipgrepFailed
    {
      if state == Running {
        state := if failed || (exitCode != 0 && exitCode != 1) then Failed else Completed;
        if state == Failed {
          reason := RipgrepFailed;
        }
      }
    }

    /** `read`. */
    method Read(cursor: int, limit: int) returns (page: Result<Page, ReadError>)
      requires Valid()
      ensures page == Err(InvalidCursorOrLimit) <==> cursor < 0 || !(1 <= limit <= 1000)
      ensures page == Err(InvalidCursor) <==> cursor > |results| && 1 <= limit <= 1000
      ensures page.Ok? <==> 0 <= cursor <= |results| && 1 <= limit <= 1000
      ensures page.Ok? ==> IsPage(page.value, Now(), cursor, limit)
    {
      if cursor < 0 || limit < 1 || limit > 1000 {
        return Err(InvalidCursorOrLimit);
      }
      if cursor > |results| {
        return Err(InvalidCursor);
      }
      var stop := if cursor + limit <= |results| then cursor + limit else |results|;
      var selected, following := Select(cursor, stop);
      return Ok(Page(state, reason, selected, following, following < |results| || state == Running));
    }

    /** The loop of `read`. */
    method Select(cursor: nat, stop: nat) returns (selected: seq<Record>, i: nat)
      requires Valid() && cursor <= stop <= |results|
      ensures cursor <= i <= stop && selected == results[cursor..i] && TotalBytes(selected) <= PAGE_BYTES
      ensures i < stop ==> cursor < i && Overfull(results, cursor, i)
    {
      selected, i := [], cursor;
      var bytes := 0;
      while i < stop
        invariant cursor <= i <= stop
        invariant selected == results[cursor..i] && bytes == TotalBytes(selected) <= PAGE_BYTES
      {
        OneMore(results, cursor, i);
        if bytes + results[i].bytes > PAGE_BYTES {
          assert Overfull(results, cursor, i);
          return;
        }
        selected := selected + [results[i]];
        bytes := bytes + results[i].bytes;
        i := i + 1;
      }
    }
  }

  /** The records that the lines report. */
  function Matches(lines: seq<Line>): seq<Record> {
    if lines == [] then []
    else
      var last := lines[|lines| - 1];
      Matches(lines[..|lines| - 1]) + if last.Match? then [last.record] else []
  }

  lemma {:induction false} MatchesGrow(lines: seq<Line>, n: nat)
    requires n <= |lines|
    ensures Matches(lines[..n]) <= Matches(lines)
    decreases |lines|
  {
    if n < |lines| {
      assert lines[..|lines| - 1][..n] == lines[..n];
      MatchesGrow(lines[..|lines| - 1], n);
    } else {
      assert lines[..n] == lines;
    }
  }

  predicate IsBad(line: Line) {
    line.Malformed? || line.Broken?
  }

  /** The timer and stops. */
  method CutShort(search: Search)
    requires search.Valid()
    modifies search
    ensures search.Valid() && Advances(old(search.Now()), search.Now())
    ensures search.results == old(search.results)
    ensures search.Now() == old(search.Now()) || search.state in {Partial, Stopped}
  {
    if * {
      search.Timeout();
    } else if * {
      search.Stop();
    }
  }

  /** What the collector has come to after the first `i` lines, while the search is still running. */
  ghost predicate Collected(now: Moment, lines: seq<Line>, i: nat, failed: bool) {
    && i <= |lines| && now.results == Matches(lines[..i])
    && (failed <==> exists l <- lines[..i] :: IsBad(l))
    && forall l <- lines[..i] :: l.NoMatch? || l.Match? || IsBad(l)
  }

  ghost predicate Collecting(now: Moment, lines: seq<Line>, i: nat, failed: bool, more: bool) {
    && i <= |lines| && now.results <= Matches(lines)
    && now.state != Failed && now.state != Completed
    && (now.state == Running ==> Collected(now, lines, i, failed) && (more || failed))
  }

  /** `_collect`: line after line until one ends the search, the search is ended by somebody else, or
      there are no more. A search completes only with all the matches there are and no line or exit code
      wrong, and fails only for one of those. */
  method CollectAll(search: Search, lines: seq<Line>, cleanUpFailed: bool, exitCode: int)
    requires search.Valid() && search.state == Running && search.results == []
    modifies search
    ensures search.Valid() && search.state != Running && search.results <= Matches(lines)
    ensures search.state == Completed ==>
              && search.results == Matches(lines) && (forall l <- lines :: l.NoMatch? || l.Match?)
              && !cleanUpFailed && (exitCode == 0 || exitCode == 1)
    ensures search.state == Failed ==>
              cleanUpFailed || (exitCode != 0 && exitCode != 1) || exists l <- lines :: IsBad(l)
  {
    var failed, more, i := false, true, 0;
    while i < |lines| && more
      invariant search.Valid() && Collecting(search.Now(), lines, i, failed, more)
    {
      CutShort(search);
      ghost var before := search.Now();
      var bad;
      more, bad := search.Collect(lines[i]);
      CollectedOneMore(before, search.Now(), lines, i, failed, bad, more);
      failed := failed || bad;
      i := i + 1;
    }
    CutShort(search);
    AllCollected(search.Now(), lines, i, failed, more);
    search.Finish(failed || cleanUpFailed, exitCode);
  }

  lemma AllCollected(now: Moment, lines: seq<Line>, i: nat, failed: bool, more: bool)
    requires Collecting(now, lines, i, failed, more) && (i == |lines| || !more)
    ensures now.state == Running && !failed ==>
              now.results == Matches(lines) && forall l <- lines :: l.NoMatch? || l.Match?
    ensures now.state == Running && failed ==> exists l <- lines :: IsBad(l)
  {
    assert lines[..|lines|] == lines && forall l <- lines[..i] :: l in lines;
  }

  lemma CollectedOneMore(before: Moment, now: Moment, lines: seq<Line>, i: nat, failed: bool, bad: bool, more: bool)
    requires i < |lines| && Collecting(before, lines, i, failed, true) && Advances(before, now)
    requires now.state != Failed && now.state != Completed && (now.state == Running ==> more || bad)
    requires now.results == before.results
             || (before.state == Running && lines[i].Match? && now.results == before.results + [lines[i].record])
    requires now.state == Running ==>
               && before.state == Running && !lines[i].TooLong? && !lines[i].NotUtf8?
               && (lines[i].Match? <==> now.results != before.results)
    requires bad <==> before.state == Running && IsBad(lines[i])
    ensures Collecting(now, lines, i + 1, failed || bad, more)
  {
    LinesStep(lines, i);
    MatchesGrow(lines, i + 1);
    if now.state == Running {
      RunningStep(before, now, lines, i, failed, bad);
    }
  }

  lemma RunningStep(before: Moment, now: Moment, lines: seq<Line>, i: nat, failed: bool, bad: bool)
    requires i < |lines| && Collected(before, lines, i, failed) && (bad <==> IsBad(lines[i]))
    requires now.results == before.results + if lines[i].Match? then [lines[i].record] else []
    requires !lines[i].TooLong? && !lines[i].NotUtf8?
    ensures Collected(now, lines, i + 1, failed || bad)
  {
    LinesStep(lines, i);
    assert lines[..i + 1] == lines[..i] + [lines[i]];
    assert (exists l <- lines[..i + 1] :: IsBad(l)) <==> (exists l <- lines[..i] :: IsBad(l)) || IsBad(lines[i]);
  }

  lemma LinesStep(lines: seq<Line>, i: nat)
    requires i < |lines|
    ensures Matches(lines[..i + 1]) == Matches(lines[..i]) + if lines[i].Match? then [lines[i].record] else []
  {
    assert lines[..i + 1][..i] == lines[..i];
  }

  /** One more record would not fit into the page. */
  ghost predicate Overfull(results: seq<Record>, cursor: nat, next: nat)
    requires cursor <= next < |results|
  {
    TotalBytes(results[cursor..next + 1]) > PAGE_BYTES
  }

  /** A page holds the next records, as many as both limits allow, and at least one if there is an
      unread one. */
  ghost predicate IsPage(page: Page, now: Moment, cursor: int, limit: int) {
    && 0 <= cursor <= page.nextCursor <= |now.results|
    && page.state == now.state && page.reason == now.reason
    && page.results == now.results[cursor..page.nextCursor]
    && |page.results| <= limit && TotalBytes(page.results) <= PAGE_BYTES
    && (cursor < |now.results| ==> page.nextCursor > cursor)
    && (page.nextCursor < |now.results| ==> |page.results| == limit || Overfull(now.results, cursor, page.nextCursor))
    && (page.hasMore <==> page.nextCursor < |now.results| || now.state == Running)
  }

  /** One reading of a search: the page, and what the search held at that moment. */
  datatype Reading = Reading(page: Page, moment: Moment)

  /** The cursor that the reader sends after these readings. */
  function NextCursor(readings: seq<Reading>): nat {
    if readings == [] then 0 else readings[|readings| - 1].page.nextCursor
  }

  ghost predicate ReadsAt(r: Reading, cursor: nat, limit: nat) {
    IsPage(r.page, r.moment, cursor, limit)
  }

  /** A reader that starts at cursor 0 and follows `next_cursor` while the search goes on. */
  ghost predicate Follows(readings: seq<Reading>, limit: nat) {
    readings != [] ==>
      var n := |readings| - 1;
      && Follows(readings[..n], limit)
      && ReadsAt(readings[n], NextCursor(readings[..n]), limit)
      && (n > 0 ==> Advances(readings[n - 1].moment, readings[n].moment))
  }

  /** Everything the reader was given. */
  function AllResults(readings: seq<Reading>): seq<Record> {
    if readings == [] then [] else
      var n := |readings| - 1;
      AllResults(readings[..n]) + readings[n].page.results
  }

  /** What a follower has read is always a prefix of the results. */
  lemma {:induction false} PagesArePrefix(readings: seq<Reading>, limit: nat)
    requires Follows(readings, limit) && readings != []
    ensures var last := readings[|readings| - 1];
            last.page.nextCursor <= |last.moment.results|
            && AllResults(readings) == last.moment.results[..last.page.nextCursor]
  {
    var n := |readings| - 1;
    var last := readings[n];
    if n == 0 {
      assert last.moment.results[0..last.page.nextCursor] == last.moment.results[..last.page.nextCursor];
    } else {
      var init := readings[..n];
      PagesArePrefix(init, limit);
      ExtendPrefix(init[n - 1].moment.results, last.moment.results, NextCursor(init), last.page.nextCursor);
    }
  }

  lemma ExtendPrefix<T>(a: seq<T>, b: seq<T>, from: nat, to: nat)
    requires a <= b && from <= |a| && from <= to <= |b|
    ensures b[..to] == a[..from] + b[from..to]
  {
    assert b[..from] == a[..from];
  }

  /** When a page says there is no more, the search has ended and the pages read are its results. */
  lemma PagingIsComplete(readings: seq<Reading>, limit: nat)
    requires Follows(readings, limit) && readings != []
    requires !readings[|readings| - 1].page.hasMore
    ensures readings[|readings| - 1].moment.state != Running
    ensures AllResults(readings) == readings[|readings| - 1].moment.results
  {
    PagesArePrefix(readings, limit);
    var last := readings[|readings| - 1];
    assert last.moment.results[..|last.moment.results|] == last.moment.results;
  }

  /** A finished search is read to its end in at most one page per record, and one for the end. */
  lemma {:induction false} PagingEnds(readings: seq<Reading>, limit: nat)
    requires Follows(readings, limit) && readings != []
    requires forall r <- readings :: r.moment.state != Running
    ensures var last := readings[|readings| - 1];
            |readings| <= last.page.nextCursor || !last.page.hasMore
  {
    var n := |readings| - 1;
    assert readings[n] in readings;
    if n > 0 {
      var init := readings[..n];
      assert forall r <- init :: r in readings;
      PagingEnds(init, limit);
      assert init[n - 1] in readings && init[n - 1] == readings[n - 1];
      EarlierReadingsArePages(init, limit);
    }
  }

  lemma EarlierReadingsArePages(readings: seq<Reading>, limit: nat)
    requires Follows(readings, limit) && readings != []
    ensures var n := |readings| - 1;
            ReadsAt(readings[n], NextCursor(readings[..n]), limit)
  {
  }

  /** Any number of regions of other threads: the collector, the timer, stops. */
  method Interfere(search: Search)
    requires search.Valid()
    modifies search
    ensures search.Valid() && Advances(old(search.Now()), search.Now())
  {
    var n :| 0 <= n;
    for i := 0 to n
      invariant search.Valid() && Advances(old(search.Now()), search.Now())
    {
      var line: Line, failed: bool, exitCode: int := *, *, *;
      if * {
        var _, _ := search.Collect(line);
      } else if * {
        search.Timeout();
      } else if * {
        search.Stop();
      } else {
        search.Finish(failed, exitCode);
      }
    }
  }

  lemma FollowOneMore(readings: seq<Reading>, r: Reading, limit: nat)
    requires Follows(readings, limit)
    requires ReadsAt(r, NextCursor(readings), limit)
    requires readings != [] ==> Advances(readings[|readings| - 1].moment, r.moment)
    ensures Follows(readings + [r], limit)
    ensures AllResults(readings + [r]) == AllResults(readings) + r.page.results
    ensures NextCursor(readings + [r]) == r.page.nextCursor
  {
    assert (readings + [r])[..|readings|] == readings;
  }

  /** A reader of a live search: it reads page after page while other threads are at work, until a page
      says there is no more or it has read as often as it cares to. */
  method FollowSearch(search: Search, limit: nat, times: nat)
    returns (records: seq<Record>, ghost readings: seq<Reading>)
    requires search.Valid() && 1 <= limit <= 1000
    modifies search
    ensures search.Valid() && Follows(readings, limit) && records == AllResults(readings)
    ensures records <= search.results
    ensures |readings| == times || (search.state != Running && records == search.results)
  {
    records, readings := [], [];
    var cursor := 0;
    for i := 0 to times
      invariant search.Valid() && Followed(search.Now(), readings, records, cursor, limit) && |readings| == i
    {
      ghost var before := search.Now();
      Interfere(search);
      var page := search.Read(cursor, limit);
      ghost var r := Reading(page.value, search.Now());
      FollowedOneMore(before, readings, records, cursor, limit, r);
      records, readings, cursor := records + page.value.results, readings + [r], page.value.nextCursor;
      if !page.value.hasMore {
        break;
      }
    }
  }

  /** Where a follower stands: what it has read, and its last reading was just now. */
  ghost predicate Followed(now: Moment, readings: seq<Reading>, records: seq<Record>, cursor: nat, limit: nat) {
    && Follows(readings, limit)
    && records == AllResults(readings) && cursor == NextCursor(readings)
    && cursor <= |now.results| && records == now.results[..cursor]
    && (readings != [] ==> readings[|readings| - 1].moment == now)
  }

  lemma FollowedOneMore(before: Moment, readings: seq<Reading>, records: seq<Record>, cursor: nat, limit: nat,
                        r: Reading)
    requires Followed(before, readings, records, cursor, limit) && Advances(before, r.moment)
    requires ReadsAt(r, cursor, limit)
    ensures Followed(r.moment, readings + [r], records + r.page.results, r.page.nextCursor, limit)
    ensures !r.page.hasMore ==> r.moment.state != Running && records + r.page.results == r.moment.results
  {
    FollowOneMore(readings, r, limit);
    PagesArePrefix(readings + [r], limit);
    if !r.page.hasMore {
      PagingIsComplete(readings + [r], limit);
    }
  }
}
