/** Tasks, the jobs they own and the windows they claim, as a relation over the atomic regions that
    change them: the ones that hold the store lock, the pieces of claiming a window, which do not, and
    the pieces of ending a task. Every interleaving of the regions is a run. */
module TaskProtocol {
  import opened Wrappers

  type TaskKey(==, !new) = string

  type JobId = nat

  datatype Window = Window(hwnd: int, pid: int)

  datatype Status = Active | Ended

  /** Where the thread that holds the lock to end a task stands. */
  datatype EndPhase = Closed | Unclaimed | Written

  datatype State = State(
    tasks: map<TaskKey, Status>,
    ending: set<TaskKey>,                    // the fence: no new admissions
    enders: set<TaskKey>,                    // tasks whose end lock is held
    locked: Option<(TaskKey, EndPhase)>,     // the store lock, as far as `end` holds it
    jobs: map<TaskKey, seq<JobId>>,          // `_owned_jobs`
    open: set<JobId>,                        // jobs whose processes may run
    claims: map<Window, TaskKey>,            // the claims table
    looking: multiset<(TaskKey, Window)>,    // claims whose task record was read and was active
    pending: multiset<(TaskKey, Window)>,    // claims whose task was not fenced either
    lastOwner: map<Window, TaskKey>)         // who claimed a window last

  function JobsOf(s: State, k: TaskKey): seq<JobId> {
    if k in s.jobs then s.jobs[k] else []
  }

  predicate IsActive(s: State, k: TaskKey) {
    k in s.tasks && s.tasks[k] == Active
  }

  predicate IsEnded(s: State, k: TaskKey) {
    k in s.tasks && s.tasks[k] == Ended
  }

  predicate Fresh(open: set<JobId>, jobs: map<TaskKey, seq<JobId>>, job: JobId) {
    job !in open && forall k <- jobs :: job !in jobs[k]
  }

  datatype Step =
    | BeginStep(k: TaskKey)
    | FenceStep(k: TaskKey)
    | CloseStep(k: TaskKey, left: seq<JobId>, hooksFailed: bool)
    | UnclaimStep(k: TaskKey, ok: bool)
    | WriteStep(k: TaskKey, ok: bool)
    | UnfenceStep(k: TaskKey)
    | SpawnStep(k: TaskKey, job: JobId)
    | SpawnFailsStep(k: TaskKey, job: JobId, closed: bool)
    | StopStep(job: JobId, closed: bool, waited: bool)
    | ReadRecordStep(k: TaskKey, w: Window)
    | CheckFenceStep(k: TaskKey, w: Window)
    | CommitClaimStep(k: TaskKey, w: Window)

  /** Remove every occurrence of a job. */
  function Without(jobs: seq<JobId>, job: JobId): (r: seq<JobId>)
    ensures forall j :: j in r <==> j in jobs && j != job
  {
    if jobs == [] then []
    else if jobs[0] == job then Without(jobs[1..], job)
    else [jobs[0]] + Without(jobs[1..], job)
  }

  /** Release of both locks by a failing `end`: the task stays active and fenced. */
  function GaveUp(s: State, k: TaskKey): State {
    s.(locked := None, enders := s.enders - {k})
  }

  /** Another task that is still active holds the window. */
  predicate HeldByOther(s: State, k: TaskKey, w: Window) {
    w in s.claims && s.claims[w] != k && IsActive(s, s.claims[w])
  }

  ghost predicate Next(s: State, next: State, step: Step) {
    match step
    case BeginStep(k) =>
      s.locked.None? && k !in s.tasks && next == s.(tasks := s.tasks[k := Active])
    // `end` takes the task's end lock, checks the task again and fences it.
    case FenceStep(k) =>
      s.locked.None? && k !in s.enders && IsActive(s, k)
      && next == s.(ending := s.ending + {k}, enders := s.enders + {k})
    // The jobs are closed one by one; those that could not be closed stay, and then, or when a
    // cleanup hook failed, `end` raises.
    case CloseStep(k, left, hooksFailed) =>
      && s.locked.None? && k in s.enders
      && (forall j <- left :: j in JobsOf(s, k))
      && var closed := s.(open := set j | j in s.open && (j !in JobsOf(s, k) || j in left));
         if left == [] && !hooksFailed then
           next == closed.(jobs := s.jobs - {k}, locked := Some((k, Closed)))
         else
           next == GaveUp(closed.(jobs := s.jobs[k := left]), k)
    case UnclaimStep(k, ok) =>
      s.locked == Some((k, Closed))
      && next == if ok then s.(claims := map w | w in s.claims && s.claims[w] != k :: s.claims[w],
                               locked := Some((k, Unclaimed)))
                 else GaveUp(s, k)
    case WriteStep(k, ok) =>
      s.locked == Some((k, Unclaimed))
      && next == if ok then s.(tasks := s.tasks[k := Ended], locked := Some((k, Written))) else GaveUp(s, k)
    case UnfenceStep(k) =>
      s.locked == Some((k, Written))
      && next == s.(ending := s.ending - {k}, locked := None, enders := s.enders - {k})
    case SpawnStep(k, job) =>
      s.locked.None? && IsActive(s, k) && k !in s.ending && Fresh(s.open, s.jobs, job)
      && next == s.(jobs := s.jobs[k := JobsOf(s, k) + [job]], open := s.open + {job})
    // A failed spawn closes its job again; if even that fails the job stays listed and open.
    case SpawnFailsStep(k, job, closed) =>
      s.locked.None? && IsActive(s, k) && k !in s.ending && Fresh(s.open, s.jobs, job)
      && next == if closed then s.(jobs := s.jobs[k := Without(JobsOf(s, k) + [job], job)])
                 else s.(jobs := s.jobs[k := JobsOf(s, k) + [job]], open := s.open + {job})
    case StopStep(job, closed, waited) =>
      s.locked.None?
      && next == if !closed then s
                 else if !waited then s.(open := s.open - {job})
                 else s.(open := s.open - {job}, jobs := map k | k in s.jobs :: Without(s.jobs[k], job))
    // `claim_window` reads its task's record, then looks at the fence, then runs the claim transaction,
    // all without the store lock.
    case ReadRecordStep(k, w) =>
      IsActive(s, k) && next == s.(looking := s.looking + multiset{(k, w)})
    case CheckFenceStep(k, w) =>
      (k, w) in s.looking
      && next == s.(looking := s.looking - multiset{(k, w)},
                    pending := if k in s.ending then s.pending else s.pending + multiset{(k, w)})
    case CommitClaimStep(k, w) =>
      (k, w) in s.pending
      && var done := s.(pending := s.pending - multiset{(k, w)});
         next == if HeldByOther(s, k, w) then done
                 else done.(claims := s.claims[w := k], lastOwner := s.lastOwner[w := k])
  }

  const NOTHING: State := State(map[], {}, {}, None, map[], {}, map[], multiset{}, multiset{}, map[])

  ghost predicate StepAt(ss: seq<State>, steps: seq<Step>, i: nat) {
    i < |steps| && |ss| == |steps| + 1 && Next(ss[i], ss[i + 1], steps[i])
  }

  ghost predicate IsRun(ss: seq<State>, steps: seq<Step>) {
    && |ss| == |steps| + 1
    && ss[0] == NOTHING
    && forall i: nat | i < |steps| :: StepAt(ss, steps, i)
  }

  lemma RunOneMore(ss: seq<State>, steps: seq<Step>, next: State, step: Step)
    requires IsRun(ss, steps) && Next(ss[|steps|], next, step)
    ensures IsRun(ss + [next], steps + [step])
  {
    var longer, more := ss + [next], steps + [step];
    forall i: nat | i < |more| ensures StepAt(longer, more, i) {
      if i < |steps| {
        assert StepAt(ss, steps, i);
      }
    }
  }

  // ---------------------------------------------------------------- the invariant

  ghost predicate Listed(s: State, job: JobId) {
    exists k <- s.jobs :: job in s.jobs[k]
  }

  /** Open jobs are listed with an active task; no job is listed with two. */
  ghost predicate JobsInv(s: State) {
    && (forall k <- s.jobs | s.jobs[k] != [] :: IsActive(s, k))
    && (forall j <- s.open :: Listed(s, j))
    && (forall k <- s.jobs, l <- s.jobs, j | j in s.jobs[k] && j in s.jobs[l] :: k == l)
  }

  /** The fence, the end locks and the store lock fit together. */
  ghost predicate FenceInv(s: State) {
    && (forall k <- s.enders :: k in s.ending)
    && (forall k <- s.ending :: IsActive(s, k) || s.locked == Some((k, Written)))
    && LockOk(s)
  }

  ghost predicate LockOk(s: State) {
    s.locked.Some? ==>
      var (k, phase) := s.locked.value;
      && k in s.enders && JobsOf(s, k) == []
      && (if phase == Written then IsEnded(s, k) else IsActive(s, k))
  }

  /** Ending or ended. */
  ghost predicate Leaving(s: State, k: TaskKey) {
    k in s.ending || !IsActive(s, k)
  }

  /** The claims table names a window's last owner, or has lost an owner that is leaving. */
  ghost predicate ClaimOk(s: State, w: Window) {
    && (w in s.claims ==> w in s.lastOwner && s.lastOwner[w] == s.claims[w])
    && (w in s.lastOwner ==> s.lastOwner[w] in s.tasks && (w in s.claims || Leaving(s, s.lastOwner[w])))
  }

  ghost predicate ClaimsInv(s: State) {
    && (forall w :: ClaimOk(s, w))
    && (forall p <- s.looking :: p.0 in s.tasks)
    && (forall p <- s.pending :: p.0 in s.tasks)
  }

  ghost predicate Inv(s: State) {
    JobsInv(s) && FenceInv(s) && ClaimsInv(s)
  }

  /** A job that stays open stays in its task's list. */
  lemma OpenKeepsItsPlace(s: State, next: State, step: Step, k: TaskKey, job: JobId)
    requires TouchesJobs(step) && Next(s, next, step) && job in next.open
    requires k in s.jobs && job in s.jobs[k]
    ensures k in next.jobs && job in next.jobs[k]
  {
  }

  lemma OpenStaysListed(s: State, next: State, step: Step, job: JobId)
    requires JobsInv(s) && Next(s, next, step) && job in next.open && job in s.open
    ensures Listed(next, job)
  {
    assert Listed(s, job);
    var k :| k in s.jobs && job in s.jobs[k];
    if TouchesJobs(step) {
      OpenKeepsItsPlace(s, next, step, k, job);
    } else {
      OtherStepsLeaveJobs(s, next, step);
    }
  }

  lemma OpenedIsListed(s: State, next: State, step: Step, job: JobId)
    requires Next(s, next, step) && job in next.open && job !in s.open
    ensures Listed(next, job)
  {
    assert step.SpawnStep? || step.SpawnFailsStep?;
    assert job in next.jobs[step.k];
  }

  predicate TouchesJobs(step: Step) {
    step.CloseStep? || step.SpawnStep? || step.SpawnFailsStep? || step.StopStep?
  }

  predicate Spawns(step: Step, k: TaskKey) {
    (step.SpawnStep? || step.SpawnFailsStep?) && step.k == k
  }

  lemma OtherStepsLeaveJobs(s: State, next: State, step: Step)
    requires Next(s, next, step) && !TouchesJobs(step)
    ensures next.jobs == s.jobs && next.open == s.open
  {
  }

  /** A job list changes only by one new job for an active task, or by losing jobs. */
  lemma JobListsChange(s: State, next: State, step: Step, k: TaskKey)
    requires FenceInv(s) && Next(s, next, step)
    ensures forall j <- JobsOf(next, k) :: j in JobsOf(s, k) || (Spawns(step, k) && j == step.job)
    ensures Spawns(step, k) ==> IsActive(next, k) && Fresh(s.open, s.jobs, step.job)
  {
    if !TouchesJobs(step) {
      OtherStepsLeaveJobs(s, next, step);
    }
  }

  /** Jobs are listed with active tasks only: a task with jobs is not at the point of being ended. */
  lemma StepKeepsOwnersActive(s: State, next: State, step: Step, k: TaskKey)
    requires JobsInv(s) && FenceInv(s) && Next(s, next, step) && JobsOf(next, k) != []
    ensures IsActive(next, k)
  {
    JobListsChange(s, next, step, k);
    var j := JobsOf(next, k)[0];
    assert j in JobsOf(next, k);
    if j in JobsOf(s, k) {
      assert IsActive(s, k);
    }
  }

  lemma StepKeepsJobsApart(s: State, next: State, step: Step, k: TaskKey, l: TaskKey, j: JobId)
    requires JobsInv(s) && FenceInv(s) && Next(s, next, step)
    requires j in JobsOf(next, k) && j in JobsOf(next, l)
    ensures k == l
  {
    JobListsChange(s, next, step, k);
    JobListsChange(s, next, step, l);
  }

  lemma StepKeepsJobs(s: State, next: State, step: Step)
    requires JobsInv(s) && FenceInv(s) && Next(s, next, step)
    ensures JobsInv(next)
  {
    forall j <- next.open ensures Listed(next, j) {
      if j in s.open {
        OpenStaysListed(s, next, step, j);
      } else {
        OpenedIsListed(s, next, step, j);
      }
    }
    forall k <- next.jobs | next.jobs[k] != [] ensures IsActive(next, k) {
      StepKeepsOwnersActive(s, next, step, k);
    }
    forall k <- next.jobs, l <- next.jobs, j | j in next.jobs[k] && j in next.jobs[l] ensures k == l {
      StepKeepsJobsApart(s, next, step, k, l, j);
    }
  }

  /** Only a thread that ends a task takes and leaves the store lock for longer than one region. */
  predicate TouchesLock(step: Step) {
    step.FenceStep? || step.CloseStep? || step.UnclaimStep? || step.WriteStep? || step.UnfenceStep?
  }

  lemma EndingKeepsFence(s: State, next: State, step: Step)
    requires FenceInv(s) && Next(s, next, step) && TouchesLock(step)
    ensures forall k <- next.enders :: k in next.ending
    ensures forall k <- next.ending :: IsActive(next, k) || next.locked == Some((k, Written))
  {
  }

  lemma EndingKeepsLock(s: State, next: State, step: Step)
    requires LockOk(s) && Next(s, next, step) && TouchesLock(step)
    requires JobsInv(s) && forall k <- s.enders :: k in s.ending
    requires forall k <- s.ending :: IsActive(s, k) || s.locked == Some((k, Written))
    ensures LockOk(next)
  {
  }

  lemma OthersLeaveFence(s: State, next: State, step: Step)
    requires Next(s, next, step) && !TouchesLock(step)
    ensures next.enders == s.enders && next.ending == s.ending && next.locked == s.locked
    ensures forall k <- s.tasks :: k in next.tasks && next.tasks[k] == s.tasks[k]
    ensures s.locked.Some? ==> next.jobs == s.jobs && next.tasks == s.tasks
  {
  }

  lemma StepKeepsFence(s: State, next: State, step: Step)
    requires JobsInv(s) && FenceInv(s) && Next(s, next, step)
    ensures FenceInv(next)
  {
    if TouchesLock(step) {
      EndingKeepsFence(s, next, step);
      EndingKeepsLock(s, next, step);
    } else {
      OthersLeaveFence(s, next, step);
    }
  }

  lemma TasksStay(s: State, next: State, step: Step)
    requires Next(s, next, step)
    ensures s.tasks.Keys <= next.tasks.Keys && s.lastOwner.Keys <= next.lastOwner.Keys
  {
  }

  lemma LeavingStays(s: State, next: State, step: Step, k: TaskKey)
    requires FenceInv(s) && Next(s, next, step) && k in s.tasks && Leaving(s, k)
    ensures Leaving(next, k)
  {
  }

  lemma ClaimStays(s: State, next: State, step: Step, w: Window)
    requires FenceInv(s) && ClaimOk(s, w) && Next(s, next, step)
    requires !step.CommitClaimStep? && !step.UnclaimStep?
    ensures ClaimOk(next, w)
  {
    TasksStay(s, next, step);
    if w in s.lastOwner && Leaving(s, s.lastOwner[w]) {
      LeavingStays(s, next, step, s.lastOwner[w]);
    }
    assert next.claims == s.claims && next.lastOwner == s.lastOwner;
  }

  lemma ClaimChanges(s: State, next: State, step: Step, w: Window)
    requires FenceInv(s) && ClaimsInv(s) && Next(s, next, step)
    requires step.CommitClaimStep? || step.UnclaimStep?
    ensures ClaimOk(next, w)
  {
    assert ClaimOk(s, w);
    if step.CommitClaimStep? {
      assert (step.k, step.w) in s.pending;
    }
  }

  predicate Claiming(step: Step) {
    step.ReadRecordStep? || step.CheckFenceStep? || step.CommitClaimStep?
  }

  lemma OtherStepsLeaveWaiting(s: State, next: State, step: Step)
    requires Next(s, next, step) && !Claiming(step)
    ensures next.looking == s.looking && next.pending == s.pending
  {
  }

  lemma ClaimingLeavesTasks(s: State, next: State, step: Step)
    requires Next(s, next, step) && Claiming(step)
    ensures next == s.(looking := next.looking, pending := next.pending, claims := next.claims,
                       lastOwner := next.lastOwner)
    ensures forall p <- next.looking :: p in s.looking || (p == (step.k, step.w) && IsActive(s, step.k))
    ensures forall p <- next.pending :: p in s.pending || p in s.looking
  {
  }

  lemma WaitingStays(s: State, next: State, step: Step)
    requires ClaimsInv(s) && Next(s, next, step)
    ensures forall p <- next.looking :: p.0 in next.tasks
    ensures forall p <- next.pending :: p.0 in next.tasks
  {
    TasksStay(s, next, step);
    if Claiming(step) {
      ClaimingLeavesTasks(s, next, step);
    } else {
      OtherStepsLeaveWaiting(s, next, step);
    }
  }

  lemma StepKeepsClaims(s: State, next: State, step: Step)
    requires FenceInv(s) && ClaimsInv(s) && Next(s, next, step)
    ensures ClaimsInv(next)
  {
    WaitingStays(s, next, step);
    forall w ensures ClaimOk(next, w) {
      assert ClaimOk(s, w);
      if step.CommitClaimStep? || step.UnclaimStep? {
        ClaimChanges(s, next, step, w);
      } else {
        ClaimStays(s, next, step, w);
      }
    }
  }

  lemma {:induction false} RunInv(ss: seq<State>, steps: seq<Step>, i: nat)
    requires IsRun(ss, steps) && i < |ss|
    ensures Inv(ss[i])
  {
    if i > 0 {
      RunInv(ss, steps, i - 1);
      assert StepAt(ss, steps, i - 1);
      StepKeepsJobs(ss[i - 1], ss[i], steps[i - 1]);
      StepKeepsFence(ss[i - 1], ss[i], steps[i - 1]);
      StepKeepsClaims(ss[i - 1], ss[i], steps[i - 1]);
    }
  }

  // ---------------------------------------------------------------- ending versus spawning

  lemma {:induction false} EndedStays(ss: seq<State>, steps: seq<Step>, i: nat, j: nat, k: TaskKey)
    requires IsRun(ss, steps) && i <= j < |ss| && IsEnded(ss[i], k)
    ensures IsEnded(ss[j], k)
    decreases j - i
  {
    if i < j {
      EndedStays(ss, steps, i, j - 1, k);
      assert StepAt(ss, steps, j - 1);
      RunInv(ss, steps, j - 1);
      EndedStepStays(ss[j - 1], ss[j], steps[j - 1], k);
    }
  }

  lemma EndedStepStays(s: State, next: State, step: Step, k: TaskKey)
    requires FenceInv(s) && Next(s, next, step) && IsEnded(s, k)
    ensures IsEnded(next, k)
  {
  }

  /** From the moment a task is marked ended it has no listed job, every open job is listed with
      another, active task, and no job is ever listed with it again. */
  lemma EndedOwnsNothing(ss: seq<State>, steps: seq<Step>, i: nat, j: nat, k: TaskKey)
    requires IsRun(ss, steps) && i <= j < |ss| && IsEnded(ss[i], k)
    ensures JobsOf(ss[j], k) == []
    ensures forall job <- ss[j].open ::
              exists l <- ss[j].jobs :: l != k && IsActive(ss[j], l) && job in ss[j].jobs[l]
  {
    EndedStays(ss, steps, i, j, k);
    RunInv(ss, steps, j);
    var s := ss[j];
    forall job <- s.open ensures exists l <- s.jobs :: l != k && IsActive(s, l) && job in s.jobs[l] {
      assert Listed(s, job);
      var l :| l in s.jobs && job in s.jobs[l];
      assert s.jobs[l] != [];
    }
  }

  /** Ended, or fenced and still active. */
  ghost predicate Fenced(s: State, k: TaskKey) {
    IsEnded(s, k) || (IsActive(s, k) && k in s.ending)
  }

  ghost predicate NoNewJobs(s: State, later: State, k: TaskKey) {
    forall job <- JobsOf(later, k) :: job in JobsOf(s, k)
  }

  /** Once fenced, a task stays fenced, and no job is added to it, until it is ended; in particular a
      failed end leaves it active and fenced, with its end lock free so that ending can be retried. */
  lemma {:induction false} FenceHolds(ss: seq<State>, steps: seq<Step>, i: nat, j: nat, k: TaskKey)
    requires IsRun(ss, steps) && i <= j < |ss| && k in ss[i].ending
    ensures Fenced(ss[j], k) && NoNewJobs(ss[i], ss[j], k)
    decreases j - i
  {
    if i == j {
      RunInv(ss, steps, i);
      FencedIsActive(ss[i], k);
    } else {
      FenceHolds(ss, steps, i, j - 1, k);
      RunInv(ss, steps, j - 1);
      assert StepAt(ss, steps, j - 1);
      FenceStepHolds(ss[i], ss[j - 1], ss[j], steps[j - 1], k);
    }
  }

  lemma FencedIsActive(s: State, k: TaskKey)
    requires FenceInv(s) && k in s.ending
    ensures Fenced(s, k)
  {
  }

  lemma FenceStepHolds(start: State, s: State, next: State, step: Step, k: TaskKey)
    requires Inv(s) && Next(s, next, step) && Fenced(s, k) && NoNewJobs(start, s, k)
    ensures Fenced(next, k) && NoNewJobs(start, next, k)
  {
    JobListsChange(s, next, step, k);
    LeavingStays(s, next, step, k);
    TasksStay(s, next, step);
  }

  /** After an end that failed at any point, another end of the same task can begin. */
  lemma FailedEndIsRetryable(s: State, next: State, step: Step, k: TaskKey)
    requires Inv(s) && Next(s, next, step) && k in s.enders && k !in next.enders
    ensures IsEnded(next, k)
            || (IsActive(next, k) && k in next.ending && next.locked.None?
                && Next(next, next.(enders := next.enders + {k}), FenceStep(k)))
  {
    LocksReleased(s, next, step, k);
    if IsActive(next, k) {
      assert next.ending + {k} == next.ending;
    }
  }

  lemma LocksReleased(s: State, next: State, step: Step, k: TaskKey)
    requires FenceInv(s) && Next(s, next, step) && k in s.enders && k !in next.enders
    ensures next.locked.None?
    ensures IsEnded(next, k) || (IsActive(next, k) && k in next.ending)
  {
  }

  // ---------------------------------------------------------------- window claims

  /** A window passes to another task only when the task that claimed it last is ending or ended. */
  lemma ClaimPassesOnlyFromLeaving(ss: seq<State>, steps: seq<Step>, i: nat, w: Window)
    requires IsRun(ss, steps) && i < |steps|
    requires w in ss[i].lastOwner && w in ss[i + 1].lastOwner
    requires ss[i].lastOwner[w] != ss[i + 1].lastOwner[w]
    ensures Leaving(ss[i], ss[i].lastOwner[w])
  {
    RunInv(ss, steps, i);
    assert StepAt(ss, steps, i) && ClaimOk(ss[i], w);
  }

  /** Two tasks that are active and not being ended never both come to hold one window: between two
      claims by different tasks the earlier one began to leave. */
  lemma {:induction false} ClaimsAreExclusive(ss: seq<State>, steps: seq<Step>, i: nat, j: nat, w: Window)
    requires IsRun(ss, steps) && i <= j < |ss|
    requires w in ss[i].lastOwner && w in ss[j].lastOwner && ss[i].lastOwner[w] != ss[j].lastOwner[w]
    ensures Leaving(ss[j], ss[i].lastOwner[w])
    decreases j - i
  {
    var k := ss[i].lastOwner[w];
    OwnersRemembered(ss, steps, i, j - 1, w);
    if ss[j - 1].lastOwner[w] != k {
      ClaimsAreExclusive(ss, steps, i, j - 1, w);
    } else {
      ClaimPassesOnlyFromLeaving(ss, steps, j - 1, w);
    }
    RunInv(ss, steps, j - 1);
    assert StepAt(ss, steps, j - 1);
    LeavingStays(ss[j - 1], ss[j], steps[j - 1], k);
  }

  lemma {:induction false} OwnersRemembered(ss: seq<State>, steps: seq<Step>, i: nat, j: nat, w: Window)
    requires IsRun(ss, steps) && i <= j < |ss| && w in ss[i].lastOwner
    ensures w in ss[j].lastOwner && ss[i].lastOwner[w] in ss[j].tasks
    decreases j - i
  {
    RunInv(ss, steps, i);
    assert ClaimOk(ss[i], w);
    if i < j {
      OwnersRemembered(ss, steps, i, j - 1, w);
      assert StepAt(ss, steps, j - 1);
      TasksStay(ss[j - 1], ss[j], steps[j - 1]);
    }
  }

  // ---------------------------------------------------------------- claims of ended tasks

  /** The claim transaction at this place in the run stores its claim. */
  ghost predicate Grants(ss: seq<State>, steps: seq<Step>, i: nat, w: Window)
    requires |ss| == |steps| + 1
  {
    i < |steps| && steps[i].CommitClaimStep? && steps[i].w == w && !HeldByOther(ss[i], steps[i].k, w)
  }

  /** Of all claims of the window stored before place `n`, the one at `c` by task `k` is the last. */
  ghost predicate LastGrant(ss: seq<State>, steps: seq<Step>, c: nat, n: nat, k: TaskKey, w: Window)
    requires |ss| == |steps| + 1
  {
    && c < n <= |steps| && Grants(ss, steps, c, w) && steps[c].k == k
    && forall j | c < j < n :: !Grants(ss, steps, j, w)
  }

  /** From `u` on the task's end has deleted its claims and not yet recorded more. */
  ghost predicate HoldsUnclaimed(ss: seq<State>, steps: seq<Step>, k: TaskKey, u: nat, i: nat)
    requires |ss| == |steps| + 1
  {
    u < i < |ss| && forall j | u < j <= i :: ss[j].locked == Some((k, Unclaimed))
  }

  /** A successful end of the task: it deletes the claims at `u` and records the task as ended at `e`. */
  ghost predicate EndsTask(ss: seq<State>, steps: seq<Step>, k: TaskKey, u: nat, e: nat)
    requires |ss| == |steps| + 1
  {
    && e < |steps| && HoldsUnclaimed(ss, steps, k, u, e)
    && steps[u] == UnclaimStep(k, true) && steps[e] == WriteStep(k, true)
  }

  ghost predicate HoldsWindow(s: State, k: TaskKey, w: Window) {
    w in s.claims && s.claims[w] == k
  }

  lemma ClaimBefore(s: State, next: State, step: Step, k: TaskKey, w: Window)
    requires Next(s, next, step) && HoldsWindow(next, k, w)
    requires !(step.CommitClaimStep? && step.w == w && !HeldByOther(s, step.k, w))
    ensures HoldsWindow(s, k, w) && step != UnclaimStep(k, true)
  {
  }

  lemma ClaimAfter(s: State, next: State, step: Step, k: TaskKey, w: Window)
    requires Next(s, next, step) && HoldsWindow(s, k, w) && step != UnclaimStep(k, true)
    requires !(step.CommitClaimStep? && step.w == w && !HeldByOther(s, step.k, w))
    ensures HoldsWindow(next, k, w)
  {
  }

  /** A stored claim was granted, and since then neither replaced nor deleted. */
  lemma {:induction false} ClaimHistory(ss: seq<State>, steps: seq<Step>, n: nat, k: TaskKey, w: Window)
    returns (c: nat)
    requires IsRun(ss, steps) && n < |ss| && HoldsWindow(ss[n], k, w)
    ensures LastGrant(ss, steps, c, n, k, w)
    ensures forall j | c < j < n :: steps[j] != UnclaimStep(k, true)
  {
    assert StepAt(ss, steps, n - 1);
    if Grants(ss, steps, n - 1, w) {
      c := n - 1;
    } else {
      ClaimBefore(ss[n - 1], ss[n], steps[n - 1], k, w);
      c := ClaimHistory(ss, steps, n - 1, k, w);
    }
  }

  lemma LockBefore(s: State, next: State, step: Step, k: TaskKey)
    requires Next(s, next, step) && next.locked == Some((k, Unclaimed))
    ensures step == UnclaimStep(k, true) || s.locked == Some((k, Unclaimed))
  {
  }

  /** Whoever is between deleting claims and recording the end has deleted them. */
  lemma {:induction false} LockHistory(ss: seq<State>, steps: seq<Step>, i: nat, k: TaskKey) returns (u: nat)
    requires IsRun(ss, steps) && i < |ss| && ss[i].locked == Some((k, Unclaimed))
    ensures HoldsUnclaimed(ss, steps, k, u, i) && steps[u] == UnclaimStep(k, true)
  {
    assert StepAt(ss, steps, i - 1);
    LockBefore(ss[i - 1], ss[i], steps[i - 1], k);
    if steps[i - 1] == UnclaimStep(k, true) {
      u := i - 1;
    } else {
      u := LockHistory(ss, steps, i - 1, k);
    }
  }

  lemma EndedBefore(s: State, next: State, step: Step, k: TaskKey)
    requires Next(s, next, step) && IsEnded(next, k)
    ensures IsEnded(s, k) || (step == WriteStep(k, true) && s.locked == Some((k, Unclaimed)))
  {
  }

  lemma {:induction false} EndHistory(ss: seq<State>, steps: seq<Step>, n: nat, k: TaskKey) returns (u: nat, e: nat)
    requires IsRun(ss, steps) && n < |ss| && IsEnded(ss[n], k)
    ensures EndsTask(ss, steps, k, u, e) && e < n
  {
    assert StepAt(ss, steps, n - 1);
    EndedBefore(ss[n - 1], ss[n], steps[n - 1], k);
    if IsEnded(ss[n - 1], k) {
      u, e := EndHistory(ss, steps, n - 1, k);
    } else {
      e := n - 1;
      u := LockHistory(ss, steps, e, k);
    }
  }

  /** After a successful end began to delete claims, no end of that task deletes any. */
  lemma NoSecondUnclaim(ss: seq<State>, steps: seq<Step>, k: TaskKey, u: nat, e: nat, j: nat)
    requires IsRun(ss, steps) && EndsTask(ss, steps, k, u, e) && u < j < |steps|
    ensures steps[j] != UnclaimStep(k, true)
  {
    assert StepAt(ss, steps, j);
    if j > e {
      assert StepAt(ss, steps, e);
      EndedStays(ss, steps, e + 1, j, k);
      RunInv(ss, steps, j);
    }
  }

  lemma {:induction false} ClaimLasts(ss: seq<State>, steps: seq<Step>, k: TaskKey, w: Window, u: nat, e: nat,
                                      c: nat, n: nat)
    requires IsRun(ss, steps) && EndsTask(ss, steps, k, u, e) && u < c
    requires LastGrant(ss, steps, c, n, k, w)
    ensures HoldsWindow(ss[n], k, w)
    decreases n
  {
    assert StepAt(ss, steps, n - 1);
    if n - 1 > c {
      ClaimLasts(ss, steps, k, w, u, e, c, n - 1);
      NoSecondUnclaim(ss, steps, k, u, e, n - 1);
      assert !Grants(ss, steps, n - 1, w);
      ClaimAfter(ss[n - 1], ss[n], steps[n - 1], k, w);
    }
  }

  /** The last claim of the window was stored for the task after its successful end had deleted the
      task's claims. */
  ghost predicate StoredTooLate(ss: seq<State>, steps: seq<Step>, n: nat, k: TaskKey, w: Window)
    requires |ss| == |steps| + 1
  {
    exists u: nat, e: nat, c: nat :: EndsTask(ss, steps, k, u, e) && e < n && u < c && LastGrant(ss, steps, c, n, k, w)
  }

  /** In every run, an ended task holds a claim exactly when the claim was stored after its successful
      end had deleted its claims, and nobody has claimed the window since. */
  lemma StaleExactly(ss: seq<State>, steps: seq<Step>, n: nat, k: TaskKey, w: Window)
    requires IsRun(ss, steps) && n < |ss|
    ensures IsEnded(ss[n], k) && HoldsWindow(ss[n], k, w) <==> StoredTooLate(ss, steps, n, k, w)
  {
    if IsEnded(ss[n], k) && HoldsWindow(ss[n], k, w) {
      var c := ClaimHistory(ss, steps, n, k, w);
      var u, e := EndHistory(ss, steps, n, k);
      assert u < c by {
        assert StepAt(ss, steps, c) && StepAt(ss, steps, u);
      }
    }
    if StoredTooLate(ss, steps, n, k, w) {
      var u: nat, e: nat, c: nat :| EndsTask(ss, steps, k, u, e) && e < n && u < c && LastGrant(ss, steps, c, n, k, w);
      ClaimLasts(ss, steps, k, w, u, e, c, n);
      assert StepAt(ss, steps, e);
      EndedStays(ss, steps, e + 1, n, k);
    }
  }

  /** At the commit at `c` the task's end is between deleting claims and recording the end, and the
      recording then succeeds. */
  ghost predicate EndSucceedsNext(ss: seq<State>, steps: seq<Step>, k: TaskKey, c: nat, n: nat)
    requires |ss| == |steps| + 1 && c < n <= |steps|
  {
    && ss[c].locked == Some((k, Unclaimed))
    && exists e | c < e < n :: steps[e] == WriteStep(k, true) && HoldsUnclaimed(ss, steps, k, c, e)
  }

  /** What decides it when the claim is stored: the claim of a task that is ended later, if not replaced
      by then, is left behind exactly when at its commit the task was no longer active or its end had
      deleted its claims already and then succeeded. */
  lemma StaleAtCommit(ss: seq<State>, steps: seq<Step>, c: nat, n: nat, k: TaskKey, w: Window)
    requires IsRun(ss, steps) && LastGrant(ss, steps, c, n, k, w) && IsEnded(ss[n], k)
    ensures HoldsWindow(ss[n], k, w) <==> !IsActive(ss[c], k) || EndSucceedsNext(ss, steps, k, c, n)
  {
    assert StepAt(ss, steps, c);
    RunInv(ss, steps, c);
    assert (k, w) in ss[c].pending;
    if HoldsWindow(ss[n], k, w) {
      LeftBehindWhy(ss, steps, c, n, k, w);
    }
    if !IsActive(ss[c], k) {
      var u, e := EndHistory(ss, steps, c, k);
      ClaimLasts(ss, steps, k, w, u, e, c, n);
    } else if EndSucceedsNext(ss, steps, k, c, n) {
      var e :| c < e < n && steps[e] == WriteStep(k, true) && HoldsUnclaimed(ss, steps, k, c, e);
      var u := LockHistory(ss, steps, c, k);
      assert EndsTask(ss, steps, k, u, e);
      ClaimLasts(ss, steps, k, w, u, e, c, n);
    }
  }

  lemma LeftBehindWhy(ss: seq<State>, steps: seq<Step>, c: nat, n: nat, k: TaskKey, w: Window)
    requires IsRun(ss, steps) && LastGrant(ss, steps, c, n, k, w) && IsEnded(ss[n], k) && HoldsWindow(ss[n], k, w)
    ensures !IsActive(ss[c], k) || EndSucceedsNext(ss, steps, k, c, n)
  {
    StaleExactly(ss, steps, n, k, w);
    var u: nat, e: nat, d: nat :| EndsTask(ss, steps, k, u, e) && e < n && u < d && LastGrant(ss, steps, d, n, k, w);
    assert Grants(ss, steps, c, w) && Grants(ss, steps, d, w);
    assert c == d;
    if c > e {
      assert StepAt(ss, steps, e);
      EndedStays(ss, steps, e + 1, c, k);
    } else {
      assert c != e && HoldsUnclaimed(ss, steps, k, c, e);
    }
  }

  /** The case in point: a claim admitted before its task is ended and stored after. */
  lemma EndedTaskHoldsClaim(k: TaskKey, w: Window) returns (ss: seq<State>, steps: seq<Step>)
    ensures IsRun(ss, steps)
    ensures steps == [BeginStep(k), ReadRecordStep(k, w), CheckFenceStep(k, w), FenceStep(k),
                      CloseStep(k, [], false), UnclaimStep(k, true), WriteStep(k, true), UnfenceStep(k),
                      CommitClaimStep(k, w)]
    ensures IsEnded(ss[9], k) && HoldsWindow(ss[9], k, w)
  {
    var admitted;
    ss, steps, admitted := ClaimAdmitted(k, w);
    var fenced := admitted.(ending := {k}, enders := {k});
    ss, steps := Took(ss, steps, fenced, FenceStep(k));
    ss, steps := Took(ss, steps, fenced.(locked := Some((k, Closed))), CloseStep(k, [], false));
    ss, steps := TaskEnded(k, fenced, ss, steps);
    var ended := admitted.(tasks := map[k := Ended]);
    var stored := ended.(pending := multiset{}, claims := map[w := k], lastOwner := map[w := k]);
    ss, steps := Took(ss, steps, stored, CommitClaimStep(k, w));
  }

  /** The state in which the task is active and its claim is admitted. */
  lemma ClaimAdmitted(k: TaskKey, w: Window) returns (ss: seq<State>, steps: seq<Step>, admitted: State)
    ensures IsRun(ss, steps)
    ensures steps == [BeginStep(k), ReadRecordStep(k, w), CheckFenceStep(k, w)]
    ensures admitted == NOTHING.(tasks := map[k := Active], pending := multiset{(k, w)}) == ss[3]
  {
    var begun := NOTHING.(tasks := map[k := Active]);
    admitted := begun.(pending := multiset{(k, w)});
    ss, steps := [NOTHING], [];
    ss, steps := Took(ss, steps, begun, BeginStep(k));
    ss, steps := Took(ss, steps, begun.(looking := multiset{(k, w)}), ReadRecordStep(k, w));
    ss, steps := Took(ss, steps, admitted, CheckFenceStep(k, w));
  }

  /** A successful end from where its jobs are closed, if the task has no claim yet. */
  lemma TaskEnded(k: TaskKey, fenced: State, before: seq<State>, taken: seq<Step>)
    returns (ss: seq<State>, steps: seq<Step>)
    requires IsRun(before, taken) && before[|taken|] == fenced.(locked := Some((k, Closed)))
    requires fenced.ending == fenced.enders == {k} && fenced.claims == map[] && fenced.locked.None?
    requires fenced.tasks == map[k := Active]
    ensures IsRun(ss, steps) && steps == taken + [UnclaimStep(k, true), WriteStep(k, true), UnfenceStep(k)]
    ensures ss[|steps|] == fenced.(tasks := map[k := Ended], ending := {}, enders := {})
  {
    var written := fenced.(tasks := map[k := Ended], locked := Some((k, Written)));
    ss, steps := Took(before, taken, fenced.(locked := Some((k, Unclaimed))), UnclaimStep(k, true));
    ss, steps := Took(ss, steps, written, WriteStep(k, true));
    ss, steps := Took(ss, steps, written.(ending := {}, enders := {}, locked := None), UnfenceStep(k));
  }

  lemma Took(ss: seq<State>, steps: seq<Step>, next: State, step: Step) returns (longer: seq<State>, more: seq<Step>)
    requires IsRun(ss, steps) && Next(ss[|steps|], next, step)
    ensures IsRun(longer, more) && longer == ss + [next] && more == steps + [step]
  {
    RunOneMore(ss, steps, next, step);
    longer, more := ss + [next], steps + [step];
  }
}
