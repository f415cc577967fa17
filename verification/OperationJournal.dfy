/** The table of dispatched operations and its transactions. Every method is one transaction:
    it commits as a whole or, when it raises, leaves the table as it was. */
module OperationJournal {
  import opened Wrappers

  datatype Key = Key(owner: string, request: string)

  datatype State = Dispatched | Running | Unknown | Completed | Failed

  datatype Row = Row(digest: string, state: State, result: Option<string>, name: string, updated: real)

  type Table = map<Key, Row>

  /** What is read off the JSON text of a result: its size in bytes, whether it reports a failure,
      whether its error has an unknown outcome, and the notice stored in place of an oversized one. */
  datatype Codec = Codec(size: string -> nat, failed: string -> bool, uncertain: string -> bool,
                         truncated: string -> string)

  datatype Policy = Policy(maxResultBytes: nat, retentionSeconds: real, maxRecords: nat, maxRetainedBytes: nat)

  /** How a `run` call is answered by the table before anything is executed. */
  datatype Admission =
    | Admitted
    | Replayed(result: string)
    | Conflict
    | StillRunning
    | OutcomeUnknown
    | ResultExpired
    | CapacityReached
    | Rejected

  predicate InDoubt(state: State) {
    state == Dispatched || state == Running
  }

  predicate Settled(state: State) {
    state == Completed || state == Failed
  }

  /** The JSON text that is kept, and returned, for a result. */
  function Recorded(codec: Codec, policy: Policy, result: string): string {
    if codec.size(result) > policy.maxResultBytes then codec.truncated(result) else result
  }

  function FinalState(codec: Codec, result: string): State {
    if codec.uncertain(result) then Unknown else if codec.failed(result) then Failed else Completed
  }

  /** Startup recovery: whatever was under way has an unknown outcome. */
  function Recovered(t: Table): Table {
    map k | k in t :: if InDoubt(t[k].state) then t[k].(state := Unknown) else t[k]
  }

  function MarkedUnknown(t: Table, k: Key, now: real): Table {
    if k in t && InDoubt(t[k].state) then t[k := t[k].(state := Unknown, updated := now)] else t
  }

  /** The update of `_complete`; a settled row is left alone. */
  function WithResult(t: Table, k: Key, codec: Codec, policy: Policy, result: string, now: real): Table {
    if k in t && !Settled(t[k].state) then
      t[k := t[k].(state := FinalState(codec, result), result := Some(Recorded(codec, policy, result)), updated := now)]
    else t
  }

  /** Recovery keeps every receipt, leaves nothing under way and touches nothing else; and it comes to
      the same whether a late result arrives before or after it. */
  lemma RecoveryLosesNothing(t: Table, k: Key, codec: Codec, policy: Policy, result: string, now: real)
    ensures Recovered(t).Keys == t.Keys
    ensures forall q <- t ::
              Recovered(t)[q] == if t[q].state in {Dispatched, Running} then t[q].(state := Unknown) else t[q]
    ensures WithResult(Recovered(t), k, codec, policy, result, now)
            == Recovered(WithResult(t, k, codec, policy, result, now))
  {
    var a := WithResult(Recovered(t), k, codec, policy, result, now);
    var b := Recovered(WithResult(t, k, codec, policy, result, now));
    assert a.Keys == b.Keys && forall q <- a :: a[q] == b[q];
  }

  /** A caller that gives up never costs a result: a result recorded after it is recorded as if it had
      not given up, and giving up after a result changes nothing. */
  lemma GivingUpLosesNothing(t: Table, k: Key, codec: Codec, policy: Policy, result: string, gaveUp: real, now: real)
    ensures WithResult(MarkedUnknown(t, k, gaveUp), k, codec, policy, result, now)
            == WithResult(t, k, codec, policy, result, now)
    ensures MarkedUnknown(WithResult(t, k, codec, policy, result, now), k, gaveUp)
            == WithResult(t, k, codec, policy, result, now)
  {
  }

  /** Both the caller and the callback complete an operation, in either order: once a completion has
      settled a row no other one changes it, and one that left it unknown is repeated with the same
      outcome. */
  lemma SecondCompletion(t: Table, k: Key, codec: Codec, policy: Policy, a: string, b: string, first: real, now: real)
    requires k in t
    ensures var once := WithResult(t, k, codec, policy, a, first);
            var twice := WithResult(once, k, codec, policy, b, now);
            && (Settled(t[k].state) || Settled(FinalState(codec, a)) ==> twice == once)
            && (a == b ==> twice[k].state == once[k].state && twice[k].result == once[k].result)
  {
  }

  /** Receipts stay; only stored results may be dropped. */
  ghost predicate Prunes(before: Table, after: Table) {
    && before.Keys == after.Keys
    && forall k <- before :: after[k] == before[k] || after[k] == before[k].(result := None)
  }

  /** Rows removed to make room belong to other owners that were reported as closed. */
  ghost predicate Reclaims(before: Table, after: Table, closed: set<string>, self: string) {
    && after.Keys <= before.Keys
    && (forall k <- after :: after[k] == before[k])
    && (forall k <- before | k !in after :: k.owner in closed && k.owner != self)
  }

  /** The rows that stay when room must be made for `self`. */
  function Remaining(t: Table, closed: set<string>, self: string): Table {
    map q | q in t && !(q.owner in closed && q.owner != self) :: t[q]
  }

  /** There is room for one more row, once the rows of closed owners are gone. */
  predicate Room(t: Table, k: Key, closed: set<string>, maxRecords: nat) {
    |RemainingKeys(t, closed, k.owner)| < maxRecords
  }

  /** The rows of other owners that were reported as closed may go. */
  function RemainingKeys(t: Table, closed: set<string>, self: string): set<Key> {
    set q | q in t && (q.owner == self || q.owner !in closed)
  }

  lemma RemainingAfterPrune(before: Table, pruned: Table, k: Key, closed: set<string>)
    requires before.Keys == pruned.Keys
    ensures |pruned| == |before|
    ensures RemainingKeys(pruned, closed, k.owner) == RemainingKeys(before, closed, k.owner)
    ensures Remaining(pruned, closed, k.owner).Keys == RemainingKeys(before, closed, k.owner)
    ensures |Remaining(pruned, closed, k.owner)| == |RemainingKeys(before, closed, k.owner)| <= |before|
  {
    var a := Remaining(pruned, closed, k.owner);
    assert a.Keys == RemainingKeys(before, closed, k.owner) <= before.Keys;
    SmallerSet(a.Keys, before.Keys);
    assert |before| == |before.Keys| && |pruned| == |pruned.Keys| && |a| == |a.Keys|;
  }

  lemma SmallerSet(a: set<Key>, b: set<Key>)
    requires a <= b
    ensures |a| <= |b|
  {
    assert b == a + (b - a);
  }

  ghost predicate Inserts(before: Table, after: Table, k: Key, digest: string) {
    && k !in before && k in after
    && after[k].digest == digest && after[k].state == Running && after[k].result.None?
    && after == before[k := after[k]]
  }

  /** A new dispatch: prune, make room if needed, insert the running row. */
  ghost predicate Admits(before: Table, after: Table, k: Key, digest: string, closed: set<string>, maxRecords: nat) {
    exists pruned, kept ::
      && Prunes(before, pruned)
      && Reclaims(pruned, kept, closed, k.owner)
      && Inserts(kept, after, k, digest)
      && |kept| < maxRecords
  }

  /** How a request that has a row already is answered. */
  function Retried(row: Row, digest: string): Admission {
    if row.digest != digest then Conflict
    else if InDoubt(row.state) then StillRunning
    else if !Settled(row.state) then OutcomeUnknown
    else if row.result.None? then ResultExpired
    else Replayed(row.result.value)
  }

  // ---------------------------------------------------------------- pruning

  function SizeOf(codec: Codec, row: Row): nat {
    if row.result.Some? then codec.size(row.result.value) else 0
  }

  function StoredBytes(codec: Codec, t: Table, keys: seq<Key>): nat
    requires forall k <- keys :: k in t
  {
    if keys == [] then 0
    else StoredBytes(codec, t, keys[..|keys| - 1]) + SizeOf(codec, t[keys[|keys| - 1]])
  }

  /** `SELECT ... WHERE result IS NOT NULL ORDER BY updated DESC`, ties in any order. */
  ghost predicate NewestFirst(t: Table, keys: seq<Key>) {
    && (forall k :: k in keys <==> k in t && t[k].result.Some?)
    && (forall i, j | 0 <= i < j < |keys| :: keys[i] != keys[j] && t[keys[i]].updated >= t[keys[j]].updated)
  }

  function DropResult(t: Table, k: Key): Table
    requires k in t
  {
    t[k := t[k].(result := None)]
  }

  function Expire(t: Table, oldest: real): Table {
    map k | k in t :: if t[k].result.Some? && t[k].updated < oldest then t[k].(result := None) else t[k]
  }

  /** The result of `k` is among those in `order`, and fits with all newer ones. */
  ghost predicate Fits(t: Table, order: seq<Key>, k: Key, codec: Codec, budget: nat)
    requires forall key <- order :: key in t
  {
    k in order && forall i | 0 <= i < |order| && order[i] == k :: StoredBytes(codec, t, order[..i + 1]) <= budget
  }

  lemma {:induction false} NewestExists(t: Table, keys: set<Key>)
    requires keys != {} && keys <= t.Keys
    ensures exists k <- keys :: forall other <- keys :: t[other].updated <= t[k].updated
  {
    var k :| k in keys;
    if keys != {k} {
      NewestExists(t, keys - {k});
      var newest :| newest in keys - {k} && forall other <- keys - {k} :: t[other].updated <= t[newest].updated;
      var best := if t[k].updated <= t[newest].updated then newest else k;
      assert forall other <- keys :: other == k || other in keys - {k};
      assert best in keys && forall other <- keys :: t[other].updated <= t[best].updated;
    }
  }

  method SelectResults(t: Table) returns (keys: seq<Key>)
    ensures NewestFirst(t, keys)
  {
    keys := [];
    var todo := set k | k in t && t[k].result.Some?;
    while todo != {}
      invariant forall k :: k in keys || k in todo <==> k in t && t[k].result.Some?
      invariant forall k <- keys :: k !in todo && forall other <- todo :: t[k].updated >= t[other].updated
      invariant forall i, j | 0 <= i < j < |keys| :: keys[i] != keys[j] && t[keys[i]].updated >= t[keys[j]].updated
      decreases todo
    {
      NewestExists(t, todo);
      var next :| next in todo && forall other <- todo :: t[other].updated <= t[next].updated;
      assert forall k <- keys :: k != next && t[k].updated >= t[next].updated;
      keys := keys + [next];
      todo := todo - {next};
    }
  }

  lemma {:induction false} StoredBytesFrame(codec: Codec, t: Table, u: Table, keys: seq<Key>)
    requires forall k <- keys :: k in t && k in u && t[k].result == u[k].result
    ensures StoredBytes(codec, t, keys) == StoredBytes(codec, u, keys)
  {
    if keys != [] {
      var n := |keys| - 1;
      assert keys[n] in keys;
      StoredBytesFrame(codec, t, u, keys[..n]);
    }
  }

  /** The result at a place in the order is kept exactly when it fits with all newer ones. */
  ghost predicate KeptIfFits(t: Table, kept: Table, keys: seq<Key>, codec: Codec, budget: nat, j: nat)
    requires NewestFirst(t, keys) && kept.Keys == t.Keys && j < |keys|
  {
    kept[keys[j]].result.Some? <==> StoredBytes(codec, t, keys[..j + 1]) <= budget
  }

  /** The state of the pruning loop after the first `i` results. */
  ghost predicate Dropping(t: Table, kept: Table, keys: seq<Key>, codec: Codec, budget: nat, i: nat, retained: nat)
    requires NewestFirst(t, keys) && i <= |keys|
  {
    && Prunes(t, kept)
    && retained == StoredBytes(codec, t, keys[..i])
    && (retained <= budget ==> StoredBytes(codec, kept, keys[..i]) == retained)
    && StoredBytes(codec, kept, keys[..i]) <= budget
    && (forall j: nat | j < i :: KeptIfFits(t, kept, keys, codec, budget, j))
    && (forall k <- kept | k !in keys[..i] :: kept[k] == t[k])
  }

  lemma OneMoreKey(codec: Codec, t: Table, keys: seq<Key>, i: nat)
    requires i < |keys| && forall k <- keys :: k in t
    ensures StoredBytes(codec, t, keys[..i + 1]) == StoredBytes(codec, t, keys[..i]) + SizeOf(codec, t[keys[i]])
  {
    assert keys[..i + 1][..i] == keys[..i];
  }

  lemma DroppedOne(t: Table, kept: Table, keys: seq<Key>, codec: Codec, budget: nat, i: nat, retained: nat)
    requires NewestFirst(t, keys) && i < |keys|
    requires Dropping(t, kept, keys, codec, budget, i, retained)
    ensures t[keys[i]].result.Some?
    ensures var total := retained + codec.size(t[keys[i]].result.value);
            Dropping(t, if total > budget then DropResult(kept, keys[i]) else kept, keys, codec, budget, i + 1, total)
  {
    var k := keys[i];
    assert k in keys && k !in keys[..i] && kept[k] == t[k];
    var total := retained + codec.size(t[k].result.value);
    var next := if total > budget then DropResult(kept, k) else kept;
    DroppedBytes(t, kept, next, keys, codec, i);
    DroppedRows(t, kept, next, keys, i);
    DroppedFits(t, kept, next, keys, codec, budget, i);
  }

  lemma DroppedFits(t: Table, kept: Table, next: Table, keys: seq<Key>, codec: Codec, budget: nat, i: nat)
    requires NewestFirst(t, keys) && i < |keys| && kept.Keys == t.Keys == next.Keys
    requires forall j: nat | j < i :: KeptIfFits(t, kept, keys, codec, budget, j)
    requires forall j | 0 <= j < i :: next[keys[j]] == kept[keys[j]]
    requires next[keys[i]].result.Some? <==> StoredBytes(codec, t, keys[..i + 1]) <= budget
    ensures forall j: nat | j < i + 1 :: KeptIfFits(t, next, keys, codec, budget, j)
  {
    forall j: nat | j < i + 1 ensures KeptIfFits(t, next, keys, codec, budget, j) {
      if j < i {
        assert KeptIfFits(t, kept, keys, codec, budget, j);
      }
    }
  }

  lemma DroppedRows(t: Table, kept: Table, next: Table, keys: seq<Key>, i: nat)
    requires NewestFirst(t, keys) && i < |keys| && Prunes(t, kept)
    requires forall k <- kept | k !in keys[..i] :: kept[k] == t[k]
    requires next == kept || next == DropResult(kept, keys[i])
    ensures Prunes(t, next)
    ensures forall k <- next | k !in keys[..i + 1] :: next[k] == t[k]
    ensures forall j | 0 <= j < i :: next[keys[j]] == kept[keys[j]]
  {
    assert keys[..i + 1] == keys[..i] + [keys[i]];
  }

  lemma DroppedBytes(t: Table, kept: Table, next: Table, keys: seq<Key>, codec: Codec, i: nat)
    requires NewestFirst(t, keys) && i < |keys| && kept.Keys == t.Keys
    requires next == kept || next == DropResult(kept, keys[i])
    ensures StoredBytes(codec, t, keys[..i + 1]) == StoredBytes(codec, t, keys[..i]) + SizeOf(codec, t[keys[i]])
    ensures StoredBytes(codec, next, keys[..i + 1])
            == StoredBytes(codec, kept, keys[..i]) + SizeOf(codec, next[keys[i]])
  {
    assert keys[i] in keys && keys[i] !in keys[..i];
    StoredBytesFrame(codec, kept, next, keys[..i]);
    OneMoreKey(codec, t, keys, i);
    OneMoreKey(codec, next, keys, i);
  }

  /** `_prune` after the expiry update: going from the newest result to the oldest, every result
      that takes the running total over the budget is dropped. */
  method DropOverBudget(t: Table, keys: seq<Key>, codec: Codec, budget: nat) returns (kept: Table)
    requires NewestFirst(t, keys)
    ensures Prunes(t, kept)
    ensures StoredBytes(codec, kept, keys) <= budget
    ensures forall i | 0 <= i < |keys| ::
              kept[keys[i]].result.Some? <==> StoredBytes(codec, t, keys[..i + 1]) <= budget
    ensures forall k <- kept | k !in keys :: kept[k] == t[k]
  {
    kept := t;
    var retained: nat := 0;
    for i := 0 to |keys|
      invariant Dropping(t, kept, keys, codec, budget, i, retained)
    {
      DroppedOne(t, kept, keys, codec, budget, i, retained);
      retained := retained + codec.size(t[keys[i]].result.value);
      if retained > budget {
        kept := DropResult(kept, keys[i]);
      }
    }
    assert keys[..|keys|] == keys;
    forall i | 0 <= i < |keys|
      ensures kept[keys[i]].result.Some? <==> StoredBytes(codec, t, keys[..i + 1]) <= budget
    {
      assert KeptIfFits(t, kept, keys, codec, budget, i);
    }
  }

  // ---------------------------------------------------------------- the journal

  class OperationJournal {
    var table: Table
    const codec: Codec
    const policy: Policy

    /** Opening a journal recovers what an earlier process left. */
    constructor (stored: Table, codec: Codec, policy: Policy)
      ensures table == Recovered(stored)
      ensures this.codec == codec && this.policy == policy
    {
      this.codec, this.policy := codec, policy;
      table := Recovered(stored);
    }

    method Prune(now: real) returns (ghost keys: seq<Key>)
      modifies this
      ensures Prunes(old(table), table)
      ensures forall k <- table | old(table)[k].updated < now - policy.retentionSeconds :: table[k].result.None?
      ensures NewestFirst(Expire(old(table), now - policy.retentionSeconds), keys)
      ensures forall k :: k in keys <==>
                k in table && old(table)[k].result.Some? && old(table)[k].updated >= now - policy.retentionSeconds
      ensures forall k :: k in table && table[k].result.Some? ==> k in keys
      ensures StoredBytes(codec, table, keys) <= policy.maxRetainedBytes
      ensures forall i | 0 <= i < |keys| ::
                table[keys[i]].result.Some? <==>
                StoredBytes(codec, old(table), keys[..i + 1]) <= policy.maxRetainedBytes
    {
      ghost var before := table;
      table := Expire(table, now - policy.retentionSeconds);
      var expired := table;
      var order := SelectResults(table);
      table := DropOverBudget(table, order, codec, policy.maxRetainedBytes);
      keys := order;
      forall n | 0 <= n <= |keys|
        ensures StoredBytes(codec, before, keys[..n]) == StoredBytes(codec, expired, keys[..n])
      {
        assert forall k <- keys[..n] :: k in keys;
        StoredBytesFrame(codec, before, expired, keys[..n]);
      }
    }

    /** Pruning, as far as one row is concerned. */
    method PruneAround(ghost k: Key, now: real) returns (ghost order: seq<Key>)
      modifies this
      ensures Prunes(old(table), table)
      ensures NewestFirst(Expire(old(table), now - policy.retentionSeconds), order)
      ensures forall key <- order :: key in old(table)
      ensures k in table ==>
                (table[k].result.Some? <==> Fits(old(table), order, k, codec, policy.maxRetainedBytes))
    {
      order := Prune(now);
    }

    /** The transaction at the start of `run`. `closed` is what the host reports as closed owners,
        `accept` whether `before_dispatch` lets a new dispatch through, `order` the stored results,
        newest first, as the pruning at the start went through them. */
    method Reserve(k: Key, digest: string, name: string, now: real, closed: set<string>, accept: bool)
      returns (a: Admission, ghost order: seq<Key>)
      modifies this
      ensures a == Admitted ==> Admits(old(table), table, k, digest, closed, policy.maxRecords)
      ensures a == Admitted ==> table[k] == Row(digest, Running, None, name, now)
      ensures a == Admitted ==>
                table.Keys == {k} + if |old(table)| < policy.maxRecords then old(table).Keys
                                    else RemainingKeys(old(table), closed, k.owner)
      ensures a == Admitted <==> k !in old(table) && Room(old(table), k, closed, policy.maxRecords) && accept
      ensures a == Rejected <==> k !in old(table) && Room(old(table), k, closed, policy.maxRecords) && !accept
      ensures a == CapacityReached <==> k !in old(table) && !Room(old(table), k, closed, policy.maxRecords)
      ensures a.Replayed? ==>
                && Prunes(old(table), table) && k in table && table[k].digest == digest
                && Settled(table[k].state) && table[k].result == Some(a.result)
      ensures !a.Admitted? && !a.Replayed? ==> table == old(table)
      ensures a == Conflict <==> k in old(table) && old(table)[k].digest != digest
      ensures a == StillRunning <==>
                k in old(table) && old(table)[k].digest == digest && old(table)[k].state in {Dispatched, Running}
      ensures a == OutcomeUnknown <==>
                k in old(table) && old(table)[k].digest == digest && old(table)[k].state == Unknown
      ensures a.Replayed? || a.ResultExpired? <==>
                k in old(table) && old(table)[k].digest == digest && old(table)[k].state in {Completed, Failed}
      ensures NewestFirst(Expire(old(table), now - policy.retentionSeconds), order)
      ensures a.Replayed? ==> Fits(old(table), order, k, codec, policy.maxRetainedBytes)
      ensures a.ResultExpired? ==> !Fits(old(table), order, k, codec, policy.maxRetainedBytes)
    {
      var saved := table;
      order := PruneAround(k, now);
      ghost var pruned := table;
      if k in table {
        a := Retried(table[k], digest);
      } else {
        RemainingAfterPrune(saved, pruned, k, closed);
        a := Dispatch(k, digest, name, now, closed, accept);
        if a == Admitted {
          assert Prunes(saved, pruned);
        }
      }
      if !a.Admitted? && !a.Replayed? {
        table := saved;
      }
    }

    /** The part of the transaction for a request not seen before. */
    method Dispatch(k: Key, digest: string, name: string, now: real, closed: set<string>, accept: bool)
      returns (a: Admission)
      requires k !in table
      modifies this
      ensures a == if !Room(old(table), k, closed, policy.maxRecords) then CapacityReached
                   else if accept then Admitted else Rejected
      ensures a == Admitted ==>
                && (exists kept :: Reclaims(old(table), kept, closed, k.owner) && Inserts(kept, table, k, digest)
                                   && |kept| < policy.maxRecords)
                && table[k] == Row(digest, Running, None, name, now)
                && table.Keys == {k} + if |old(table)| < policy.maxRecords then old(table).Keys
                                       else RemainingKeys(old(table), closed, k.owner)
    {
      RemainingAfterPrune(table, table, k, closed);
      if |table| >= policy.maxRecords {
        table := Remaining(table, closed, k.owner);
        if |table| >= policy.maxRecords {
          return CapacityReached;
        }
      }
      if !accept {
        return Rejected;
      }
      ghost var kept := table;
      table := table[k := Row(digest, Running, None, name, now)];
      assert Reclaims(old(table), kept, closed, k.owner) && Inserts(kept, table, k, digest);
      return Admitted;
    }

    /** `_complete`: records a result unless the row is settled or gone, and prunes. */
    method Complete(k: Key, result: string, now: real) returns (returned: string)
      modifies this
      ensures returned == if codec.size(result) <= policy.maxResultBytes then result else codec.truncated(result)
      ensures table.Keys == old(table).Keys
      ensures k in table && old(table)[k].state !in {Completed, Failed} ==>
                && (table[k].state == Unknown <==> codec.uncertain(result))
                && (table[k].state == Failed <==> codec.failed(result) && !codec.uncertain(result))
                && (table[k].state == Completed <==> !codec.failed(result) && !codec.uncertain(result))
                && table[k].updated == now && (table[k].result == Some(returned) || table[k].result.None?)
      ensures k in table && old(table)[k].state in {Completed, Failed} ==>
                && table[k].state == old(table)[k].state
                && (table[k].result == old(table)[k].result || table[k].result.None?)
      ensures Prunes(WithResult(old(table), k, codec, policy, result, now), table)
    {
      returned := if codec.size(result) > policy.maxResultBytes then codec.truncated(result) else result;
      Store(k, result, returned, now);
      var _ := PruneAround(k, now);
    }

    /** The update of `_complete`. */
    method Store(k: Key, result: string, returned: string, now: real)
      requires returned == Recorded(codec, policy, result)
      modifies this
      ensures table == WithResult(old(table), k, codec, policy, result, now) && table.Keys == old(table).Keys
      ensures k in table && old(table)[k].state in {Completed, Failed} ==> table[k] == old(table)[k]
      ensures k in table && old(table)[k].state !in {Completed, Failed} ==>
                && (table[k].state == Unknown <==> codec.uncertain(result))
                && (table[k].state == Failed <==> codec.failed(result) && !codec.uncertain(result))
                && (table[k].state == Completed <==> !codec.failed(result) && !codec.uncertain(result))
                && table[k].updated == now && table[k].result == Some(returned)
    {
      if k in table && (InDoubt(table[k].state) || table[k].state == Unknown) {
        table := table[k := table[k].(state := FinalState(codec, result), result := Some(returned), updated := now)];
      }
    }

    /** `_unknown`. */
    method GiveUp(k: Key, now: real)
      modifies this
      ensures table == MarkedUnknown(old(table), k, now)
      ensures table.Keys == old(table).Keys && forall q <- table | q != k :: table[q] == old(table)[q]
      ensures k in table && old(table)[k].state in {Dispatched, Running} ==>
                table[k].state == Unknown && table[k].result == old(table)[k].result
      ensures k in table && old(table)[k].state !in {Dispatched, Running} ==> table[k] == old(table)[k]
    {
      if k in table && InDoubt(table[k].state) {
        table := table[k := table[k].(state := Unknown, updated := now)];
      }
    }
  }
}
