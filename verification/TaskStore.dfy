/** The task store: its fields, the regions that change them, and `end` as a whole with other threads at
    work between its regions. The store keeps a ghost history, which is always a run of `TaskProtocol`,
    so what is proved of runs holds of every sequence of calls. */
module TaskStore {
  import opened Wrappers
  import opened TaskProtocol

  datatype EndResult = NotActive | CleanupIncomplete | Done

  class TaskStore {
    var tasks: map<TaskKey, Status>
    var ending: set<TaskKey>
    var enders: set<TaskKey>                     // end locks that are held
    var ownedJobs: map<TaskKey, seq<JobId>>
    var open: set<JobId>                         // jobs whose processes may run
    var claims: map<Window, TaskKey>
    var looking: multiset<(TaskKey, Window)>     // threads inside `claim_window`
    var pending: multiset<(TaskKey, Window)>

    ghost var locked: Option<(TaskKey, EndPhase)>
    ghost var lastOwner: map<Window, TaskKey>
    ghost var states: seq<State>
    ghost var steps: seq<Step>
    ghost var faults: nat                        // how often something broke

    ghost function Now(): State
      reads this
    {
      State(tasks, ending, enders, locked, ownedJobs, open, claims, looking, pending, lastOwner)
    }

    ghost predicate Valid()
      reads this
    {
      IsRun(states, steps) && states[|steps|] == Now()
    }

    /** The store took exactly one step. */
    twostate predicate Took(step: Step)
      reads this
    {
      Valid() && steps == old(steps) + [step] && states == old(states) + [Now()]
    }

    /** Whatever was done, it is a continuation of the history. */
    twostate predicate Continues()
      reads this
    {
      Valid() && old(steps) <= steps && old(states) <= states
    }

    constructor ()
      ensures Valid() && Now() == NOTHING && faults == 0
    {
      tasks, ending, enders, ownedJobs, open, claims := map[], {}, {}, map[], {}, map[];
      looking, pending, locked, lastOwner := multiset{}, multiset{}, None, map[];
      states, steps, faults := [NOTHING], [], 0;
    }

    method Fault() returns (fault: bool)
      modifies `faults
      ensures faults == old(faults) + if fault then 1 else 0
    {
      fault := *;
      faults := faults + if fault then 1 else 0;
    }

    ghost method Record(step: Step)
      requires IsRun(states, steps) && Next(states[|steps|], Now(), step)
      modifies `states, `steps
      ensures Valid() && steps == old(steps) + [step] && states == old(states) + [Now()]
    {
      RunOneMore(states, steps, Now(), step);
      states, steps := states + [Now()], steps + [step];
    }

    lemma Invariant()
      requires Valid()
      ensures Inv(Now())
    {
      RunInv(states, steps, |steps|);
    }

    /** `begin`; a token already in use cannot come up. */
    method Begin(k: TaskKey)
      requires Valid() && locked.None? && k !in tasks
      modifies `tasks, `states, `steps
      ensures Took(BeginStep(k))
    {
      tasks := tasks[k := Active];
      Record(BeginStep(k));
    }

    // -------------------------------------------------------------- owned jobs

    /** `spawn_owned`, one region under the store lock. */
    method SpawnOwned(k: TaskKey, job: JobId) returns (ok: bool)
      requires Valid() && locked.None? && Fresh(open, ownedJobs, job)
      modifies `ownedJobs, `open, `states, `steps, `faults
      ensures faults >= old(faults)
      ensures !ok && IsActive(old(Now()), k) && k !in old(ending) ==> faults > old(faults)
      ensures !IsActive(old(Now()), k) || k in old(ending) ==> !ok && Now() == old(Now()) && Valid()
      ensures IsActive(old(Now()), k) && k !in old(ending) ==>
                if ok then Took(SpawnStep(k, job))
                else Took(SpawnFailsStep(k, job, true)) || Took(SpawnFailsStep(k, job, false))
      ensures Continues()
    {
      if k !in tasks || tasks[k] != Active || k in ending {
        return false;
      }
      var broken := Fault();
      ok := !broken;
      var closed: bool := *;
      var jobs := if k in ownedJobs then ownedJobs[k] else [];
      if !ok && closed {
        ownedJobs := ownedJobs[k := Without(jobs + [job], job)];
      } else {
        ownedJobs, open := ownedJobs[k := jobs + [job]], open + {job};
      }
      Record(if ok then SpawnStep(k, job) else SpawnFailsStep(k, job, closed));
    }

    /** `stop_owned`. */
    method StopOwned(job: JobId) returns (closed: bool, waited: bool)
      requires Valid() && locked.None?
      modifies `ownedJobs, `open, `states, `steps
      ensures Took(StopStep(job, closed, waited))
    {
      closed, waited := *, *;
      if closed {
        open := open - {job};
        if waited {
          ownedJobs := map k | k in ownedJobs :: Without(ownedJobs[k], job);
        }
      }
      Record(StopStep(job, closed, waited));
    }

    // -------------------------------------------------------------- claiming a window

    /** `claim_window` reads the record of its task. */
    method ReadRecord(k: TaskKey, w: Window) returns (ok: bool)
      requires Valid()
      modifies `looking, `states, `steps
      ensures ok <==> IsActive(Now(), k)
      ensures if ok then Took(ReadRecordStep(k, w)) else Valid() && Now() == old(Now())
      ensures Continues()
    {
      if k !in tasks || tasks[k] != Active {
        return false;
      }
      looking := looking + multiset{(k, w)};
      Record(ReadRecordStep(k, w));
      return true;
    }

    /** Then it looks at the fence. */
    method CheckFence(k: TaskKey, w: Window) returns (ok: bool)
      requires Valid() && (k, w) in looking
      modifies `looking, `pending, `states, `steps
      ensures Took(CheckFenceStep(k, w))
      ensures ok <==> k !in ending
    {
      looking := looking - multiset{(k, w)};
      ok := k !in ending;
      if ok {
        pending := pending + multiset{(k, w)};
      }
      Record(CheckFenceStep(k, w));
    }

    /** And then it runs the claim transaction. */
    method CommitClaim(k: TaskKey, w: Window) returns (ok: bool)
      requires Valid() && (k, w) in pending
      modifies `pending, `claims, `lastOwner, `states, `steps
      ensures Took(CommitClaimStep(k, w))
      ensures ok <==> !HeldByOther(old(Now()), k, w)
      ensures ok <==> HoldsWindow(Now(), k, w)
    {
      pending := pending - multiset{(k, w)};
      ok := !(w in claims && claims[w] != k && claims[w] in tasks && tasks[claims[w]] == Active);
      if ok {
        claims, lastOwner := claims[w := k], lastOwner[w := k];
      }
      Record(CommitClaimStep(k, w));
    }

    /** Other threads inside `claim_window`, which does not need the store lock. */
    method InterfereClaims()
      requires Valid()
      modifies `claims, `looking, `pending, `lastOwner, `states, `steps
      ensures Continues()
    {
      var n :| 0 <= n;
      for i := 0 to n
        invariant Continues()
      {
        var k: TaskKey, w: Window := *, *;
        if * {
          var _ := ReadRecord(k, w);
        } else if (k, w) in looking {
          var _ := CheckFence(k, w);
        } else if (k, w) in pending {
          var _ := CommitClaim(k, w);
        }
      }
    }

    // -------------------------------------------------------------- ending a task

    /** `end` under its end lock: check the task again and fence it. */
    method Fence(k: TaskKey) returns (ok: bool)
      requires Valid() && locked.None? && k !in enders
      modifies `ending, `enders, `states, `steps
      ensures ok <==> IsActive(Now(), k)
      ensures if ok then Took(FenceStep(k)) else Valid() && Now() == old(Now())
      ensures enders == if ok then old(enders) + {k} else old(enders)
      ensures Continues()
    {
      if k !in tasks || tasks[k] != Active {
        return false;
      }
      ending, enders := ending + {k}, enders + {k};
      Record(FenceStep(k));
      return true;
    }

    /** Closing jobs one by one. Any single close may fail. */
    method CloseEach(jobs: seq<JobId>) returns (left: seq<JobId>, stillOpen: set<JobId>)
      modifies `faults
      ensures faults >= old(faults) && (left != [] ==> faults > old(faults))
      ensures forall j <- left :: j in jobs
      ensures stillOpen == set j | j in open && (j !in jobs || j in left)
    {
      left, stillOpen := [], open;
      for i := 0 to |jobs|
        invariant faults >= old(faults) && (left != [] ==> faults > old(faults))
        invariant forall j <- left :: j in jobs[..i]
        invariant forall j :: j in stillOpen <==> j in open && (j !in jobs[..i] || j in left)
      {
        assert jobs[..i + 1] == jobs[..i] + [jobs[i]];
        var failed := Fault();
        if failed {
          left := left + [jobs[i]];
          stillOpen := if jobs[i] in open then stillOpen + {jobs[i]} else stillOpen;
        } else if jobs[i] !in left {
          stillOpen := stillOpen - {jobs[i]};
        }
      }
      assert jobs[..|jobs|] == jobs;
    }

    /** Closing the owned jobs under the store lock; if that or a hook failed, `end` raises. */
    method CloseJobs(k: TaskKey, hooksFailed: bool) returns (ok: bool, ghost left: seq<JobId>)
      requires Valid() && locked.None? && k in enders
      modifies `ownedJobs, `open, `locked, `enders, `states, `steps, `faults
      ensures faults >= old(faults) && (!ok ==> hooksFailed || faults > old(faults))
      ensures Took(CloseStep(k, left, hooksFailed))
      ensures ok <==> left == [] && !hooksFailed
      ensures if ok then locked == Some((k, Closed)) && enders == old(enders) && k !in ownedJobs
              else locked.None? && enders == old(enders) - {k}
    {
      var jobs := if k in ownedJobs then ownedJobs[k] else [];
      var kept, stillOpen := CloseEach(jobs);
      left, ok := kept, kept == [] && !hooksFailed;
      if ok {
        AllClosed(k, stillOpen);
      } else {
        SomeLeft(k, kept, stillOpen, hooksFailed);
      }
    }

    /** The jobs of a task whose processes may still run. */
    ghost predicate Remains(k: TaskKey, left: seq<JobId>, stillOpen: set<JobId>)
      reads this
    {
      stillOpen == set j | j in open && (j !in JobsOf(Now(), k) || j in left)
    }

    method AllClosed(k: TaskKey, stillOpen: set<JobId>)
      requires Valid() && locked.None? && k in enders && Remains(k, [], stillOpen)
      modifies `ownedJobs, `open, `locked, `states, `steps
      ensures Took(CloseStep(k, [], false)) && locked == Some((k, Closed)) && k !in ownedJobs
    {
      open, ownedJobs, locked := stillOpen, ownedJobs - {k}, Some((k, Closed));
      Record(CloseStep(k, [], false));
    }

    method SomeLeft(k: TaskKey, left: seq<JobId>, stillOpen: set<JobId>, hooksFailed: bool)
      requires Valid() && locked.None? && k in enders && Remains(k, left, stillOpen)
      requires (left != [] || hooksFailed) && forall j <- left :: j in JobsOf(Now(), k)
      modifies `ownedJobs, `open, `enders, `states, `steps
      ensures Took(CloseStep(k, left, hooksFailed)) && enders == old(enders) - {k}
    {
      open, ownedJobs, enders := stillOpen, ownedJobs[k := left], enders - {k};
      Record(CloseStep(k, left, hooksFailed));
    }

    method DeleteClaims(k: TaskKey) returns (ok: bool)
      requires Valid() && locked == Some((k, Closed))
      modifies `claims, `locked, `enders, `states, `steps, `faults
      ensures faults >= old(faults) && (!ok ==> faults > old(faults))
      ensures Took(UnclaimStep(k, ok))
      ensures if ok then locked == Some((k, Unclaimed)) && enders == old(enders)
              else locked.None? && enders == old(enders) - {k}
    {
      var broken := Fault();
      ok := !broken;
      if ok {
        claims, locked := map w | w in claims && claims[w] != k :: claims[w], Some((k, Unclaimed));
      } else {
        locked, enders := None, enders - {k};
      }
      Record(UnclaimStep(k, ok));
    }

    method WriteRecord(k: TaskKey) returns (ok: bool)
      requires Valid() && locked == Some((k, Unclaimed))
      modifies `tasks, `locked, `enders, `states, `steps, `faults
      ensures faults >= old(faults) && (!ok ==> faults > old(faults))
      ensures Took(WriteStep(k, ok))
      ensures if ok then locked == Some((k, Written)) && enders == old(enders) && IsEnded(Now(), k)
              else locked.None? && enders == old(enders) - {k} && tasks == old(tasks)
    {
      var broken := Fault();
      ok := !broken;
      if ok {
        tasks, locked := tasks[k := Ended], Some((k, Written));
      } else {
        locked, enders := None, enders - {k};
      }
      Record(WriteStep(k, ok));
    }

    method LiftFence(k: TaskKey)
      requires Valid() && locked == Some((k, Written))
      modifies `ending, `locked, `enders, `states, `steps
      ensures Took(UnfenceStep(k))
      ensures ending == old(ending) - {k} && locked.None? && enders == old(enders) - {k}
    {
      ending, locked, enders := ending - {k}, None, enders - {k};
      Record(UnfenceStep(k));
    }

    /** Deleting the claims, recording the end and lifting the fence. Threads that claim windows are at
        work all the while, and deleting or recording may fail. */
    method Retire(k: TaskKey) returns (ok: bool)
      requires Valid() && locked == Some((k, Closed))
      modifies `claims, `tasks, `locked, `ending, `enders, `looking, `pending, `lastOwner, `states, `steps, `faults
      ensures faults >= old(faults) && (!ok ==> faults > old(faults))
      ensures Continues() && locked.None? && enders == old(enders) - {k}
      ensures if ok then IsEnded(Now(), k) && k !in ending else tasks == old(tasks) && ending == old(ending)
    {
      InterfereClaims();
      ok := DeleteClaims(k);
      if ok {
        InterfereClaims();
        ok := RecordEnd(k);
      }
    }

    method RecordEnd(k: TaskKey) returns (ok: bool)
      requires Valid() && locked == Some((k, Unclaimed))
      modifies `claims, `tasks, `locked, `ending, `enders, `looking, `pending, `lastOwner, `states, `steps, `faults
      ensures faults >= old(faults) && (!ok ==> faults > old(faults))
      ensures Continues() && locked.None? && enders == old(enders) - {k}
      ensures if ok then IsEnded(Now(), k) && k !in ending else tasks == old(tasks) && ending == old(ending)
    {
      ok := WriteRecord(k);
      if ok {
        InterfereClaims();
        LiftFence(k);
      }
    }

    /** The locked part of `end`. */
    method CleanUp(k: TaskKey, hooksFailed: bool) returns (ok: bool)
      requires Valid() && locked.None? && k in enders
      modifies this
      ensures Continues() && locked.None? && enders == old(enders) - {k}
      ensures faults >= old(faults) && (!ok ==> hooksFailed || faults > old(faults))
      ensures if ok then IsEnded(Now(), k) && k !in ending && JobsOf(Now(), k) == []
              else IsActive(Now(), k) && k in ending
    {
      Invariant();
      ghost var left;
      ok, left := CloseJobs(k, hooksFailed);
      if ok {
        ok := Retire(k);
      }
    }

    /** Everything other threads do while this one holds the end lock of `self` and not the store lock:
        they begin tasks, spawn and stop jobs, claim windows, and end other tasks. */
    method Interfere(self: TaskKey)
      requires Valid() && locked.None? && self in enders
      modifies this
      ensures Continues() && locked.None? && self in enders && faults >= old(faults)
    {
      var n :| 0 <= n;
      for i := 0 to n
        invariant Continues() && locked.None? && self in enders && faults >= old(faults)
      {
        var k: TaskKey, job: JobId, failed: bool := *, *, *;
        if * {
          InterfereClaims();
        } else if k !in tasks {
          Begin(k);
        } else if * {
          if Fresh(open, ownedJobs, job) {
            var _ := SpawnOwned(k, job);
          }
        } else if * {
          var _, _ := StopOwned(job);
        } else if k !in enders {
          var _ := Fence(k);
        } else if k != self {
          var _ := CleanUp(k, failed);
        }
      }
    }

    /** `end`, called while nobody else ends the task. The cleanup hooks run while others are at work. A
        success leaves the task ended, unfenced and without jobs; a failure at any point leaves it active
        and fenced, with its end lock free again. */
    method End(k: TaskKey) returns (r: EndResult)
      requires Valid() && locked.None? && k !in enders
      modifies this
      ensures Continues() && locked.None? && k !in enders
      ensures r == NotActive <==> !IsActive(old(Now()), k)
      ensures r == NotActive ==> Now() == old(Now())
      ensures r == Done ==> IsEnded(Now(), k) && k !in ending && JobsOf(Now(), k) == []
      ensures r == CleanupIncomplete ==> IsActive(Now(), k) && k in ending
      // If nothing breaks meanwhile, here or elsewhere, the task is ended.
      ensures r == CleanupIncomplete ==> faults > old(faults)
    {
      var active := Fence(k);
      if !active {
        return NotActive;
      }
      Interfere(k);
      var hooksFailed := Fault();
      var ok := CleanUp(k, hooksFailed);
      return if ok then Done else CleanupIncomplete;
    }
  }
}
