/** Every interleaving of `run` calls, futures, timeouts, prunes, restarts and workflow closures over
    one journal, with a ghost log of the executions. A closed owner never calls `run` again; that is
    the host's promise and the one assumption made about callers. */
module JournalProtocol {
  import opened Wrappers
  import opened OperationJournal

  /** Where the thread that dispatched an operation stands. */
  datatype Caller =
    | Reserved
    | Executing
    | Waiting
    | Holding(result: string)
    | Failing
    | Gone

  datatype Future = NoFuture | Pending | Resolved(value: string) | Broken

  /** A dispatched operation inside a live process. */
  datatype Flight = Flight(caller: Caller, future: Future, notified: bool)

  datatype World = World(
    table: Table,
    flights: map<Key, Flight>,
    closed: set<string>,
    log: seq<Key>,                 // executions, in order
    answers: map<Key, string>,     // what each execution answered, as recorded
    replies: set<(Key, string)>)   // normal returns of `run`

  datatype Step =
    | ReserveStep(k: Key, digest: string)
    | ReplayStep(k: Key, digest: string)
    | ExecuteStep(k: Key)
    | ReturnStep(k: Key, result: string)
    | DeferStep(k: Key)
    | RaiseStep(k: Key)
    | ResolveStep(k: Key, result: string)
    | BreakStep(k: Key)
    | FetchStep(k: Key)
    | TimeoutStep(k: Key)
    | AnswerStep(k: Key, now: real)
    | AnswerFailsStep(k: Key)
    | AbandonStep(k: Key, now: real)
    | NotifyStep(k: Key, now: real)
    | PruneStep
    | CloseStep(owner: string)
    | RestartStep(survivors: set<Key>)

  predicate At(w: World, k: Key, caller: Caller) {
    k in w.flights && w.flights[k].caller == caller
  }

  function Move(w: World, k: Key, caller: Caller): World
    requires k in w.flights
  {
    w.(flights := w.flights[k := w.flights[k].(caller := caller)])
  }

  function SetFuture(w: World, k: Key, future: Future): World
    requires k in w.flights
  {
    w.(flights := w.flights[k := w.flights[k].(future := future)])
  }

  ghost predicate Next(codec: Codec, policy: Policy, w: World, next: World, step: Step) {
    match step
    // The reservation transaction of `run` commits a running row.
    case ReserveStep(k, digest) =>
      && k.owner !in w.closed
      && k !in w.table
      && Admits(w.table, next.table, k, digest, w.closed, policy.maxRecords)
      && next == w.(table := next.table, flights := w.flights[k := Flight(Reserved, NoFuture, false)])
    // A settled row answers a retry; every other kind of refusal changes nothing and is no step.
    case ReplayStep(k, digest) =>
      && Prunes(w.table, next.table)
      && k in next.table && next.table[k].digest == digest && Settled(next.table[k].state)
      && next.table[k].result.Some?
      && next == w.(table := next.table, replies := w.replies + {(k, next.table[k].result.value)})
    case ExecuteStep(k) =>
      At(w, k, Reserved) && next == Move(w, k, Executing).(log := w.log + [k])
    // `execute` returns a plain result, returns a Future, or raises.
    case ReturnStep(k, result) =>
      At(w, k, Executing)
      && next == Move(w, k, Holding(result)).(answers := w.answers[k := Recorded(codec, policy, result)])
    case DeferStep(k) =>
      At(w, k, Executing) && next == SetFuture(Move(w, k, Waiting), k, Pending)
    case RaiseStep(k) =>
      At(w, k, Executing) && next == Move(w, k, Failing)
    // The future is resolved, or cancelled or broken, by somebody else at any time.
    case ResolveStep(k, result) =>
      k in w.flights && w.flights[k].future == Pending
      && next == SetFuture(w, k, Resolved(result)).(answers := w.answers[k := Recorded(codec, policy, result)])
    case BreakStep(k) =>
      k in w.flights && w.flights[k].future == Pending && next == SetFuture(w, k, Broken)
    case FetchStep(k) =>
      At(w, k, Waiting)
      && (match w.flights[k].future
          case Resolved(value) => next == Move(w, k, Holding(value))
          case Broken => next == Move(w, k, Failing)
          case _ => false)
    // `future.result(timeout)` runs out: pending if the future is still not done, failing otherwise.
    case TimeoutStep(k) =>
      At(w, k, Waiting)
      && next == Move(w, k, if w.flights[k].future == Pending then Gone else Failing)
    case AnswerStep(k, now) =>
      k in w.flights && w.flights[k].caller.Holding?
      && var result := w.flights[k].caller.result;
         && Prunes(WithResult(w.table, k, codec, policy, result, now), next.table)
         && next == Move(w, k, Gone).(table := next.table,
                                      replies := w.replies + {(k, Recorded(codec, policy, result))})
    case AnswerFailsStep(k) =>
      k in w.flights && w.flights[k].caller.Holding? && next == Move(w, k, Failing)
    // `_unknown`, which may itself fail before it commits.
    case AbandonStep(k, now) =>
      At(w, k, Failing)
      && (next == Move(w, k, Gone) || next == Move(w, k, Gone).(table := MarkedUnknown(w.table, k, now)))
    // The done-callback: record the result, or fall back to `_unknown`, or fail altogether.
    case NotifyStep(k, now) =>
      k in w.flights && !w.flights[k].notified
      && (w.flights[k].future.Resolved? || w.flights[k].future.Broken?)
      && next == w.(table := next.table, flights := w.flights[k := w.flights[k].(notified := true)])
      && (|| next.table == w.table
          || next.table == MarkedUnknown(w.table, k, now)
          || (w.flights[k].future.Resolved?
              && Prunes(WithResult(w.table, k, codec, policy, w.flights[k].future.value, now), next.table)))
    case PruneStep =>
      Prunes(w.table, next.table) && next == w.(table := next.table)
    case CloseStep(owner) =>
      next == w.(closed := w.closed + {owner})
    // A process opens the journal; of the operations under way some are gone with their process.
    case RestartStep(survivors) =>
      next == w.(table := Recovered(w.table), flights := map k | k in w.flights && k in survivors :: w.flights[k])
  }

  /** A journal just opened, with whatever rows earlier processes stored. */
  ghost predicate Init(w: World) {
    && w.flights == map[] && w.log == [] && w.replies == {}
    && (forall k <- w.table :: !InDoubt(w.table[k].state))
    && (forall k <- w.table | w.table[k].result.Some? :: k in w.answers && w.answers[k] == w.table[k].result.value)
    && w.answers.Keys <= w.table.Keys
  }

  ghost predicate StepAt(codec: Codec, policy: Policy, ws: seq<World>, steps: seq<Step>, i: nat) {
    i < |steps| && |ws| == |steps| + 1 && Next(codec, policy, ws[i], ws[i + 1], steps[i])
  }

  ghost predicate IsRun(codec: Codec, policy: Policy, ws: seq<World>, steps: seq<Step>) {
    && |ws| == |steps| + 1
    && Init(ws[0])
    && forall i: nat | i < |steps| :: StepAt(codec, policy, ws, steps, i)
  }

  function Executions(w: World, k: Key): nat {
    multiset(w.log)[k]
  }

  // ---------------------------------------------------------------- the invariant, key by key

  /** The answer of a key is still to come. */
  predicate Unanswered(f: Flight) {
    f.caller == Reserved || f.caller == Executing || f.future == Pending
  }

  ghost predicate FlightInv(codec: Codec, policy: Policy, w: World, k: Key) {
    k in w.flights ==>
      var f := w.flights[k];
      && (f.caller == Reserved ==> Executions(w, k) == 0)
      && (f.caller == Reserved || f.caller == Executing ==> f.future == NoFuture)
      && (Unanswered(f) ==> k !in w.answers)
      && (f.caller.Holding? ==> k in w.answers && w.answers[k] == Recorded(codec, policy, f.caller.result))
      && (f.future.Resolved? ==> k in w.answers && w.answers[k] == Recorded(codec, policy, f.future.value))
  }

  ghost predicate KeyInv(codec: Codec, policy: Policy, w: World, k: Key) {
    && Executions(w, k) <= 1
    && (k.owner !in w.closed && (Executions(w, k) > 0 || k in w.flights || k in w.answers) ==> k in w.table)
    && FlightInv(codec, policy, w, k)
    && (k in w.table && w.table[k].result.Some? ==> k in w.answers && w.answers[k] == w.table[k].result.value)
    && (forall result :: (k, result) in w.replies ==> k in w.answers && w.answers[k] == result)
  }

  ghost predicate Inv(codec: Codec, policy: Policy, w: World) {
    forall k :: KeyInv(codec, policy, w, k)
  }

  lemma InitInv(codec: Codec, policy: Policy, w: World)
    requires Init(w)
    ensures Inv(codec, policy, w)
  {
  }

  lemma ReservationKeepsKey(codec: Codec, policy: Policy, w: World, next: World, step: Step, k: Key)
    requires KeyInv(codec, policy, w, k) && Next(codec, policy, w, next, step)
    requires step.ReserveStep?
    ensures KeyInv(codec, policy, next, k)
  {
  }

  lemma ReplayKeepsKey(codec: Codec, policy: Policy, w: World, next: World, step: Step, k: Key)
    requires KeyInv(codec, policy, w, k) && Next(codec, policy, w, next, step)
    requires step.ReplayStep?
    ensures KeyInv(codec, policy, next, k)
  {
  }

  lemma ExecutionKeepsKey(codec: Codec, policy: Policy, w: World, next: World, step: Step, k: Key)
    requires KeyInv(codec, policy, w, k) && Next(codec, policy, w, next, step)
    requires step.ExecuteStep?
    ensures KeyInv(codec, policy, next, k)
  {
  }

  lemma OutcomeKeepsKey(codec: Codec, policy: Policy, w: World, next: World, step: Step, k: Key)
    requires KeyInv(codec, policy, w, k) && Next(codec, policy, w, next, step)
    requires step.ReturnStep? || step.DeferStep? || step.RaiseStep?
    ensures KeyInv(codec, policy, next, k)
  {
  }

  lemma FutureKeepsKey(codec: Codec, policy: Policy, w: World, next: World, step: Step, k: Key)
    requires KeyInv(codec, policy, w, k) && Next(codec, policy, w, next, step)
    requires step.ResolveStep? || step.BreakStep?
    ensures KeyInv(codec, policy, next, k)
  {
  }

  lemma WaitKeepsKey(codec: Codec, policy: Policy, w: World, next: World, step: Step, k: Key)
    requires KeyInv(codec, policy, w, k) && Next(codec, policy, w, next, step)
    requires step.FetchStep? || step.TimeoutStep?
    ensures KeyInv(codec, policy, next, k)
  {
  }

  lemma AnswerKeepsKey(codec: Codec, policy: Policy, w: World, next: World, step: Step, k: Key)
    requires KeyInv(codec, policy, w, k) && Next(codec, policy, w, next, step)
    requires step.AnswerStep?
    ensures KeyInv(codec, policy, next, k)
  {
  }

  lemma FailureKeepsKey(codec: Codec, policy: Policy, w: World, next: World, step: Step, k: Key)
    requires KeyInv(codec, policy, w, k) && Next(codec, policy, w, next, step)
    requires step.AnswerFailsStep? || step.AbandonStep?
    ensures KeyInv(codec, policy, next, k)
  {
  }

  lemma CallbackKeepsKey(codec: Codec, policy: Policy, w: World, next: World, step: Step, k: Key)
    requires KeyInv(codec, policy, w, k) && Next(codec, policy, w, next, step)
    requires step.NotifyStep?
    ensures KeyInv(codec, policy, next, k)
  {
  }

  lemma UpkeepKeepsKey(codec: Codec, policy: Policy, w: World, next: World, step: Step, k: Key)
    requires KeyInv(codec, policy, w, k) && Next(codec, policy, w, next, step)
    requires step.PruneStep? || step.CloseStep? || step.RestartStep?
    ensures KeyInv(codec, policy, next, k)
  {
  }

  /** Every step keeps the invariant of every key. */
  lemma StepKeepsInv(codec: Codec, policy: Policy, w: World, next: World, step: Step)
    requires Inv(codec, policy, w) && Next(codec, policy, w, next, step)
    ensures Inv(codec, policy, next)
  {
    forall k ensures KeyInv(codec, policy, next, k) {
      assert KeyInv(codec, policy, w, k);
      StepKeepsKey(codec, policy, w, next, step, k);
    }
  }

  lemma StepKeepsKey(codec: Codec, policy: Policy, w: World, next: World, step: Step, k: Key)
    requires KeyInv(codec, policy, w, k) && Next(codec, policy, w, next, step)
    ensures KeyInv(codec, policy, next, k)
  {
    match step
    case ReserveStep(_, _) => ReservationKeepsKey(codec, policy, w, next, step, k);
    case ReplayStep(_, _) => ReplayKeepsKey(codec, policy, w, next, step, k);
    case ExecuteStep(_) => ExecutionKeepsKey(codec, policy, w, next, step, k);
    case ReturnStep(_, _) => OutcomeKeepsKey(codec, policy, w, next, step, k);
    case DeferStep(_) => OutcomeKeepsKey(codec, policy, w, next, step, k);
    case RaiseStep(_) => OutcomeKeepsKey(codec, policy, w, next, step, k);
    case ResolveStep(_, _) => FutureKeepsKey(codec, policy, w, next, step, k);
    case BreakStep(_) => FutureKeepsKey(codec, policy, w, next, step, k);
    case FetchStep(_) => WaitKeepsKey(codec, policy, w, next, step, k);
    case TimeoutStep(_) => WaitKeepsKey(codec, policy, w, next, step, k);
    case AnswerStep(_, _) => AnswerKeepsKey(codec, policy, w, next, step, k);
    case AnswerFailsStep(_) => FailureKeepsKey(codec, policy, w, next, step, k);
    case AbandonStep(_, _) => FailureKeepsKey(codec, policy, w, next, step, k);
    case NotifyStep(_, _) => CallbackKeepsKey(codec, policy, w, next, step, k);
    case PruneStep => UpkeepKeepsKey(codec, policy, w, next, step, k);
    case CloseStep(_) => UpkeepKeepsKey(codec, policy, w, next, step, k);
    case RestartStep(_) => UpkeepKeepsKey(codec, policy, w, next, step, k);
  }

  lemma {:induction false} RunInv(codec: Codec, policy: Policy, ws: seq<World>, steps: seq<Step>, i: nat)
    requires IsRun(codec, policy, ws, steps) && i < |ws|
    ensures Inv(codec, policy, ws[i])
  {
    if i == 0 {
      InitInv(codec, policy, ws[0]);
    } else {
      RunInv(codec, policy, ws, steps, i - 1);
      assert StepAt(codec, policy, ws, steps, i - 1);
      StepKeepsInv(codec, policy, ws[i - 1], ws[i], steps[i - 1]);
    }
  }

  // ---------------------------------------------------------------- what rows can become

  /** How a receipt changes while it exists. */
  ghost predicate Evolves(a: Row, b: Row) {
    && b.digest == a.digest
    && (Settled(a.state) ==> b.state == a.state && (b.result == a.result || b.result.None?))
    && (InDoubt(b.state) ==> b.state == a.state)
  }

  /** From `w` to `later`, the receipt of `k` evolves or was reclaimed for good. */
  ghost predicate Succeeds(w: World, later: World, k: Key) {
    && w.closed <= later.closed
    && (k in w.table ==> if k in later.table then Evolves(w.table[k], later.table[k]) else k.owner in later.closed)
    && (k !in w.table && k.owner in w.closed ==> k !in later.table)
  }

  lemma StepSucceeds(codec: Codec, policy: Policy, w: World, next: World, step: Step, k: Key)
    requires Next(codec, policy, w, next, step)
    ensures Succeeds(w, next, k)
  {
    match step
    case ReserveStep(own, digest) => ReserveSucceeds(w, next, own, digest, policy.maxRecords, k);
    case _ => OtherStepSucceeds(codec, policy, w, next, step, k);
  }

  lemma ReserveSucceeds(w: World, next: World, own: Key, digest: string, maxRecords: nat, k: Key)
    requires own.owner !in w.closed && own !in w.table && next.closed == w.closed
    requires Admits(w.table, next.table, own, digest, w.closed, maxRecords)
    ensures Succeeds(w, next, k)
  {
    var pruned, kept :| Prunes(w.table, pruned) && Reclaims(pruned, kept, w.closed, own.owner)
                        && Inserts(kept, next.table, own, digest);
  }

  /** Steps that are transactions on the table. */
  predicate TouchesTable(step: Step) {
    step.ReserveStep? || step.ReplayStep? || step.AnswerStep? || step.AbandonStep? || step.NotifyStep?
    || step.PruneStep? || step.RestartStep?
  }

  lemma QuietStepsLeaveTable(codec: Codec, policy: Policy, w: World, next: World, step: Step)
    requires Next(codec, policy, w, next, step) && !TouchesTable(step)
    ensures next.table == w.table && w.closed <= next.closed
  {
  }

  lemma TransactionSucceeds(codec: Codec, policy: Policy, w: World, next: World, step: Step, k: Key)
    requires Next(codec, policy, w, next, step) && TouchesTable(step) && !step.ReserveStep?
    ensures next.closed == w.closed && next.table.Keys == w.table.Keys
    ensures k in w.table ==> Evolves(w.table[k], next.table[k])
  {
  }

  lemma OtherStepSucceeds(codec: Codec, policy: Policy, w: World, next: World, step: Step, k: Key)
    requires Next(codec, policy, w, next, step) && !step.ReserveStep?
    ensures Succeeds(w, next, k) && next.table.Keys == w.table.Keys
  {
    if TouchesTable(step) {
      TransactionSucceeds(codec, policy, w, next, step, k);
    } else {
      QuietStepsLeaveTable(codec, policy, w, next, step);
    }
  }

  lemma {:induction false} RunSucceeds(codec: Codec, policy: Policy, ws: seq<World>, steps: seq<Step>,
                                       i: nat, j: nat, k: Key)
    requires IsRun(codec, policy, ws, steps) && i <= j < |ws|
    ensures Succeeds(ws[i], ws[j], k)
    decreases j - i
  {
    if i < j {
      RunSucceeds(codec, policy, ws, steps, i, j - 1, k);
      assert StepAt(codec, policy, ws, steps, j - 1);
      StepSucceeds(codec, policy, ws[j - 1], ws[j], steps[j - 1], k);
      SucceedsTwice(ws[i], ws[j - 1], ws[j], k);
    }
  }

  lemma SucceedsTwice(a: World, b: World, c: World, k: Key)
    requires Succeeds(a, b, k) && Succeeds(b, c, k)
    ensures Succeeds(a, c, k)
  {
  }

  /** A settled receipt never changes its state or its result, save that the result may be dropped;
      no receipt ever goes back to running; and one that disappears belonged to a closed owner. */
  lemma ReceiptsAreFinal(codec: Codec, policy: Policy, ws: seq<World>, steps: seq<Step>, i: nat, j: nat, k: Key)
    requires IsRun(codec, policy, ws, steps) && i <= j < |ws| && k in ws[i].table
    ensures k !in ws[j].table ==> k.owner in ws[j].closed
    ensures k in ws[j].table ==>
              var a, b := ws[i].table[k], ws[j].table[k];
              && b.digest == a.digest
              && (Settled(a.state) ==> b.state == a.state && (b.result.Some? ==> b.result == a.result))
              && (b.state == Running ==> a.state == Running)
  {
    RunSucceeds(codec, policy, ws, steps, i, j, k);
  }

  // ---------------------------------------------------------------- at most once

  /** Over every interleaving, an operation is executed at most once. */
  lemma AtMostOnce(codec: Codec, policy: Policy, ws: seq<World>, steps: seq<Step>, i: nat, k: Key)
    requires IsRun(codec, policy, ws, steps) && i < |ws|
    ensures Executions(ws[i], k) <= 1
  {
    RunInv(codec, policy, ws, steps, i);
    assert KeyInv(codec, policy, ws[i], k);
  }

  /** A dispatch under way was reserved earlier in the run. */
  lemma {:induction false} FlightWasReserved(codec: Codec, policy: Policy, ws: seq<World>, steps: seq<Step>,
                                             i: nat, k: Key)
    returns (j: nat)
    requires IsRun(codec, policy, ws, steps) && i < |ws| && k in ws[i].flights
    ensures j < i && steps[j].ReserveStep? && steps[j].k == k
  {
    assert StepAt(codec, policy, ws, steps, i - 1);
    if steps[i - 1].ReserveStep? && steps[i - 1].k == k {
      j := i - 1;
    } else {
      j := FlightWasReserved(codec, policy, ws, steps, i - 1, k);
    }
  }

  /** Execution happens only after the running row was committed, and the row is still there. */
  lemma ExecutionFollowsCommit(codec: Codec, policy: Policy, ws: seq<World>, steps: seq<Step>, i: nat, k: Key)
    requires IsRun(codec, policy, ws, steps) && i < |steps| && steps[i] == ExecuteStep(k)
    ensures exists j | 0 <= j < i ::
              && steps[j].ReserveStep? && steps[j].k == k
              && k in ws[j + 1].table && ws[j + 1].table[k].state == Running
    ensures k in ws[i].table || k.owner in ws[i].closed
  {
    assert StepAt(codec, policy, ws, steps, i);
    var j := FlightWasReserved(codec, policy, ws, steps, i, k);
    assert StepAt(codec, policy, ws, steps, j);
    RunInv(codec, policy, ws, steps, i);
    assert KeyInv(codec, policy, ws[i], k);
  }

  lemma RecordsGrow(codec: Codec, policy: Policy, w: World, next: World, step: Step, k: Key)
    requires Next(codec, policy, w, next, step)
    ensures w.replies <= next.replies && Executions(w, k) <= Executions(next, k)
  {
  }

  lemma {:induction false} LogGrows(codec: Codec, policy: Policy, ws: seq<World>, steps: seq<Step>,
                                    i: nat, j: nat, k: Key)
    requires IsRun(codec, policy, ws, steps) && i <= j < |ws|
    ensures Executions(ws[i], k) <= Executions(ws[j], k)
    decreases j - i
  {
    if i < j {
      LogGrows(codec, policy, ws, steps, i, j - 1, k);
      assert StepAt(codec, policy, ws, steps, j - 1);
      RecordsGrow(codec, policy, ws[j - 1], ws[j], steps[j - 1], k);
    }
  }

  /** Neither an expired result nor the reclaiming of capacity lets an executed operation be
      dispatched again. */
  lemma NoReadmission(codec: Codec, policy: Policy, ws: seq<World>, steps: seq<Step>, i: nat, j: nat, k: Key)
    requires IsRun(codec, policy, ws, steps) && i < |steps| && steps[i] == ExecuteStep(k) && i < j < |steps|
    ensures !(steps[j].ReserveStep? && steps[j].k == k)
    ensures steps[j] != ExecuteStep(k)
  {
    assert StepAt(codec, policy, ws, steps, i);
    assert StepAt(codec, policy, ws, steps, j);
    LogGrows(codec, policy, ws, steps, i + 1, j, k);
    RunInv(codec, policy, ws, steps, j);
    assert KeyInv(codec, policy, ws[j], k);
    AtMostOnce(codec, policy, ws, steps, j + 1, k);
  }

  // ---------------------------------------------------------------- one result

  lemma {:induction false} RepliesGrow(codec: Codec, policy: Policy, ws: seq<World>, steps: seq<Step>, i: nat, j: nat)
    requires IsRun(codec, policy, ws, steps) && i <= j < |ws|
    ensures ws[i].replies <= ws[j].replies
    decreases j - i
  {
    if i < j {
      RepliesGrow(codec, policy, ws, steps, i, j - 1);
      assert StepAt(codec, policy, ws, steps, j - 1);
      RecordsGrow(codec, policy, ws[j - 1], ws[j], steps[j - 1], Key("", ""));
    }
  }

  /** All normal returns of `run` for one operation, at any times, carry the same result, and any
      result stored for it is that one. */
  lemma OneResult(codec: Codec, policy: Policy, ws: seq<World>, steps: seq<Step>, i: nat, j: nat, k: Key,
                  a: string, b: string)
    requires IsRun(codec, policy, ws, steps) && i <= j < |ws|
    requires (k, a) in ws[i].replies && (k, b) in ws[j].replies
    ensures a == b
    ensures k in ws[j].table && ws[j].table[k].result.Some? ==> ws[j].table[k].result.value == a
  {
    RepliesGrow(codec, policy, ws, steps, i, j);
    RunInv(codec, policy, ws, steps, j);
    assert KeyInv(codec, policy, ws[j], k);
  }

  // ---------------------------------------------------------------- capacity

  lemma SameKeysSameSize(a: Table, b: Table)
    requires a.Keys == b.Keys
    ensures |a| == |b|
  {
    assert |a| == |a.Keys| && |b| == |b.Keys|;
  }

  lemma InsertGrowsByOne(kept: Table, after: Table, k: Key, digest: string)
    requires Inserts(kept, after, k, digest)
    ensures |after| == |kept| + 1
  {
    assert after.Keys == kept.Keys + {k};
  }

  lemma StepKeepsCapacity(codec: Codec, policy: Policy, w: World, next: World, step: Step)
    requires Next(codec, policy, w, next, step)
    ensures |next.table| <= |w.table| || |next.table| <= policy.maxRecords
  {
    match step
    case ReserveStep(k, digest) =>
      AdmissionKeepsCapacity(w.table, next.table, k, digest, w.closed, policy.maxRecords);
    case _ =>
      OtherStepSucceeds(codec, policy, w, next, step, Key("", ""));
      SameKeysSameSize(next.table, w.table);
  }

  lemma AdmissionKeepsCapacity(before: Table, after: Table, k: Key, digest: string, closed: set<string>, limit: nat)
    requires Admits(before, after, k, digest, closed, limit)
    ensures |after| <= limit
  {
    var pruned, kept :| Prunes(before, pruned) && Reclaims(pruned, kept, closed, k.owner)
                        && Inserts(kept, after, k, digest) && |kept| < limit;
    InsertGrowsByOne(kept, after, k, digest);
  }

  /** The table never outgrows the record limit, or what it held at the start. */
  lemma {:induction false} CapacityHolds(codec: Codec, policy: Policy, ws: seq<World>, steps: seq<Step>, i: nat)
    requires IsRun(codec, policy, ws, steps) && i < |ws|
    ensures |ws[i].table| <= policy.maxRecords || |ws[i].table| <= |ws[0].table|
  {
    if i > 0 {
      CapacityHolds(codec, policy, ws, steps, i - 1);
      assert StepAt(codec, policy, ws, steps, i - 1);
      StepKeepsCapacity(codec, policy, ws[i - 1], ws[i], steps[i - 1]);
    }
  }
}
