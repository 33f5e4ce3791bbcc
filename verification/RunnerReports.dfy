/** What an accepted report does, and what a poll hands out: the other half of RunnerRuns, which says
    what they may not change. */
module RunnerReports {
  import opened Wrappers
  import opened Collections
  import opened Runner
  import opened RunnerRuns

  // --- statuses ---

  /** The transitions that SetStatus refuses, by name. */
  predicate Refused(cur: Status, reported: Status) {
    || (cur == Confirmed && reported == WaitingConfirmation)
    || (cur == Running && reported == Waiting)
    || (cur == Stopping && reported in {Waiting, Running, WaitingConfirmation})
    || (cur == Stopped && reported != Stopped)
  }

  /** The reported status is taken over, except for those transitions. */
  lemma SetStatusIff(cur: Status, reported: Status)
    ensures SetStatus(cur, reported) == if Refused(cur, reported) then cur else reported
    ensures !IsFinished(cur) && IsFinished(reported) ==> SetStatus(cur, reported) == reported
  {
  }

  // --- one report ---

  /** A job that the pool holds, unfinished, for this runner. */
  predicate Open(p: Pool, runner: int, id: int) {
    id in p.tasks && p.tasks[id].runner == Some(runner) && !IsFinished(p.tasks[id].status)
  }

  /** A job that makes the handler give up. */
  predicate Bad(p: Pool, runner: int, job: Job) {
    job.id in p.tasks && p.tasks[job.id].runner == Some(runner) && !IsValid(job.status)
  }

  /** The task after a report: records appended in order, the commit if one is reported, the status
      unless the transition is refused, and nothing else. */
  function Reported(t: Task, job: Job): Task {
    Task(t.runner, if Refused(t.status, job.status) then t.status else job.status, t.log + job.records,
         if job.commit == None then t.commit else job.commit, t.survey, t.jwt, t.keys)
  }

  /** An accepted report does exactly this to the task, its row and the finalizations. */
  lemma ReportApplies(p: Pool, runner: int, job: Job, broken: set<int>)
    requires Open(p, runner, job.id) && IsValid(job.status)
    ensures var (p', verdict) := ApplyJob(p, runner, job, broken);
            var t := Reported(p.tasks[job.id], job);
            && verdict == Accepted
            && p'.tasks == p.tasks[job.id := t] && p'.rows == p.rows[job.id := t.status] && p'.next == p.next
            && p'.finalized == p.finalized + if IsFinished(t.status) then [job.id] else []
  {
    SetStatusIff(p.tasks[job.id].status, job.status);
  }

  /** A terminal status is recorded as reported, and finalizes the task. */
  lemma TerminalReportApplies(p: Pool, runner: int, job: Job, broken: set<int>)
    requires Open(p, runner, job.id) && IsFinished(job.status)
    ensures var (p', verdict) := ApplyJob(p, runner, job, broken);
            && verdict == Accepted
            && job.id in p'.tasks && p'.tasks[job.id].status == job.status
            && job.id in p'.rows && p'.rows[job.id] == job.status
            && p'.tasks[job.id].log == p.tasks[job.id].log + job.records
            && p'.tasks[job.id].commit == (if job.commit.Some? then job.commit else p.tasks[job.id].commit)
            && p'.finalized == p.finalized + [job.id]
  {
    SetStatusIff(p.tasks[job.id].status, job.status);
  }

  /** Every other report changes nothing, and is answered by one of the other verdicts. */
  lemma OtherReportsChangeNothing(p: Pool, runner: int, job: Job, broken: set<int>)
    requires !(Open(p, runner, job.id) && IsValid(job.status))
    ensures ApplyJob(p, runner, job, broken).0 == p
    ensures ApplyJob(p, runner, job, broken).1
         == if Bad(p, runner, job) then BadRequest
            else if Orphaned(p, runner, job.id) && (job.id in p.tasks || job.id !in broken) then Terminated
            else Skipped
  {
  }

  // --- a batch, task by task ---

  /** The task after the reports of a batch that name it, up to the one that finishes it. */
  function AfterReports(t: Task, jobs: seq<Job>, id: int): Task
    decreases |jobs|
  {
    if jobs == [] then t
    else if jobs[0].id == id && !IsFinished(t.status) then AfterReports(Reported(t, jobs[0]), jobs[1..], id)
    else AfterReports(t, jobs[1..], id)
  }

  /** n jobs are processed: all of them, or those before the first bad one. */
  predicate Processes(p: Pool, runner: int, jobs: seq<Job>, n: nat) {
    && n <= |jobs| && (n < |jobs| ==> Bad(p, runner, jobs[n]))
    && forall i | 0 <= i < n :: !Bad(p, runner, jobs[i])
  }

  lemma SameBad(p: Pool, p': Pool, runner: int, job: Job)
    requires p'.tasks.Keys == p.tasks.Keys && forall id | id in p.tasks :: p'.tasks[id].runner == p.tasks[id].runner
    ensures Bad(p', runner, job) <==> Bad(p, runner, job)
  {
    assert job.id in p'.tasks.Keys <==> job.id in p.tasks.Keys;
  }

  lemma ProcessesTail(p: Pool, p': Pool, runner: int, jobs: seq<Job>, n: nat)
    requires jobs != [] && n > 0 && Processes(p, runner, jobs, n)
    requires p'.tasks.Keys == p.tasks.Keys && forall id | id in p.tasks :: p'.tasks[id].runner == p.tasks[id].runner
    ensures Processes(p', runner, jobs[1..], n - 1)
  {
    forall i | 0 <= i < |jobs|
      ensures Bad(p', runner, jobs[i]) <==> Bad(p, runner, jobs[i])
    {
      SameBad(p, p', runner, jobs[i]);
    }
    assert forall i | 0 <= i < |jobs[1..]| :: jobs[1..][i] == jobs[i + 1];
  }

  lemma OneReport(p: Pool, runner: int, job: Job, broken: set<int>, id: int)
    requires !Bad(p, runner, job) && id in p.tasks
    ensures var (p', verdict) := ApplyJob(p, runner, job, broken);
            && !verdict.BadRequest? && p'.tasks.Keys == p.tasks.Keys
            && p'.tasks[id] == (if job.id == id && Open(p, runner, id) then Reported(p.tasks[id], job) else p.tasks[id])
            && (forall x | x in p.tasks :: p'.tasks[x].runner == p.tasks[x].runner)
  {
    if Open(p, runner, job.id) && IsValid(job.status) {
      ReportApplies(p, runner, job, broken);
    } else {
      OtherReportsChangeNothing(p, runner, job, broken);
    }
  }

  /** A batch is a sequence of reports to each task: tasks of the runner end up as their own reports say,
      in order, those of others are untouched; the batch is accepted exactly when no job is bad, and
      otherwise the jobs before the first bad one count. */
  lemma {:induction false} BatchApplies(p: Pool, runner: int, jobs: seq<Job>, broken: set<int>, n: nat, id: int)
    requires Processes(p, runner, jobs, n) && id in p.tasks
    ensures var (p', ok, list) := ApplyBatch(p, runner, jobs, broken);
            && (ok <==> n == |jobs|) && p'.tasks.Keys == p.tasks.Keys
            && p'.tasks[id] == if p.tasks[id].runner == Some(runner) then AfterReports(p.tasks[id], jobs[..n], id)
                               else p.tasks[id]
    decreases |jobs|
  {
    if n == 0 {
      assert jobs[..n] == [];
    } else {
      var p1 := ApplyJob(p, runner, jobs[0], broken).0;
      OneReport(p, runner, jobs[0], broken, id);
      ProcessesTail(p, p1, runner, jobs, n);
      BatchApplies(p1, runner, jobs[1..], broken, n - 1, id);
      assert jobs[..n][0] == jobs[0] && jobs[..n][1..] == jobs[1..][..n - 1];
    }
  }

  lemma {:induction false} FirstBad(p: Pool, runner: int, jobs: seq<Job>, from: nat) returns (n: nat)
    requires from <= |jobs| && forall i | 0 <= i < from :: !Bad(p, runner, jobs[i])
    ensures Processes(p, runner, jobs, n)
    decreases |jobs| - from
  {
    n := from;
    if from < |jobs| && !Bad(p, runner, jobs[from]) {
      n := FirstBad(p, runner, jobs, from + 1);
    }
  }

  lemma {:induction false} OneReportOnly(t: Task, jobs: seq<Job>, i: nat, from: nat)
    requires from <= i < |jobs| && !IsFinished(t.status)
    requires forall j | 0 <= j < |jobs| && j != i :: jobs[j].id != jobs[i].id
    ensures AfterReports(t, jobs[from..], jobs[i].id) == Reported(t, jobs[i])
    decreases i - from
  {
    var rest := jobs[from..];
    assert rest[0] == jobs[from] && rest[1..] == jobs[from + 1..];
    if from < i {
      OneReportOnly(t, jobs, i, from + 1);
    } else {
      NoReports(Reported(t, jobs[i]), rest[1..], jobs[i].id);
    }
  }

  lemma {:induction false} NoReports(t: Task, jobs: seq<Job>, id: int)
    requires forall j | 0 <= j < |jobs| :: jobs[j].id != id
    ensures AfterReports(t, jobs, id) == t
    decreases |jobs|
  {
    if jobs != [] {
      NoReports(t, jobs[1..], id);
    }
  }

  /** A job reported once in an accepted batch, for an open task of the runner: the task is as reported. */
  lemma AcceptedBatchRecords(p: Pool, runner: int, jobs: seq<Job>, broken: set<int>, i: nat)
    requires ApplyBatch(p, runner, jobs, broken).1 && i < |jobs| && Open(p, runner, jobs[i].id)
    requires forall j | 0 <= j < |jobs| && j != i :: jobs[j].id != jobs[i].id
    ensures var p' := ApplyBatch(p, runner, jobs, broken).0;
            jobs[i].id in p'.tasks && p'.tasks[jobs[i].id] == Reported(p.tasks[jobs[i].id], jobs[i])
  {
    var n := FirstBad(p, runner, jobs, 0);
    BatchApplies(p, runner, jobs, broken, n, jobs[i].id);
    assert jobs[..n] == jobs[0..];
    OneReportOnly(p.tasks[jobs[i].id], jobs, i, 0);
  }

  /** What a batch newly finalizes: exactly the tasks it took from unfinished to finished, each once. */
  lemma {:induction false} BatchFinalizesIff(p: Pool, runner: int, jobs: seq<Job>, broken: set<int>, id: int)
    requires Inv(p)
    ensures var p' := ApplyBatch(p, runner, jobs, broken).0;
            && p'.tasks.Keys == p.tasks.Keys
            && (id in p'.finalized <==>
                id in p.finalized
                  || (id in p.tasks && !IsFinished(p.tasks[id].status) && IsFinished(p'.tasks[id].status)))
    decreases |jobs|
  {
    BatchIsCareful(p, runner, jobs, broken);
    if jobs != [] {
      var (p1, verdict) := ApplyJob(p, runner, jobs[0], broken);
      JobIsCareful(p, runner, jobs[0], broken);
      JobFinalizesIff(p, runner, jobs[0], broken, id);
      if !verdict.BadRequest? {
        BatchFinalizesIff(p1, runner, jobs[1..], broken, id);
        BatchIsCareful(p1, runner, jobs[1..], broken);
      }
    }
  }

  lemma JobFinalizesIff(p: Pool, runner: int, job: Job, broken: set<int>, id: int)
    ensures var p' := ApplyJob(p, runner, job, broken).0;
            && p'.tasks.Keys == p.tasks.Keys
            && (id in p'.finalized <==>
                id in p.finalized
                  || (id in p.tasks && !IsFinished(p.tasks[id].status) && IsFinished(p'.tasks[id].status)))
  {
    if Open(p, runner, job.id) && IsValid(job.status) {
      ReportApplies(p, runner, job, broken);
    } else {
      OtherReportsChangeNothing(p, runner, job, broken);
    }
  }

  // --- polls ---

  /** The keys a task needs, by where they come from. */
  predicate IsNeeded(k: TaskKeys, ref: KeyRef) {
    k.ssh == Some(ref) || k.become == Some(ref) || Some(ref) in k.vaults || k.inventoryRepo == Some(ref)
      || k.repo == ref
  }

  lemma {:induction false} VaultKeysAre(vaults: seq<Option<KeyRef>>)
    ensures forall ref :: ref in VaultKeys(vaults) <==> Some(ref) in vaults
  {
    if vaults != [] {
      VaultKeysAre(vaults[..|vaults| - 1]);
      assert vaults == vaults[..|vaults| - 1] + [vaults[|vaults| - 1]];
    }
  }

  /** Required lists exactly the keys of the inventory, of becoming another user, of the vaults, of the
      inventory's repository and of the repository. */
  lemma RequiredIff(k: TaskKeys, ref: KeyRef)
    ensures ref in Required(k) <==> IsNeeded(k, ref)
  {
    VaultKeysAre(k.vaults);
  }

  /** Dispatch in terms of the sources of keys: every key of every new job is in the response. */
  lemma EveryNeededKeyIsSent(p: Pool, runner: int, ids: seq<int>, job: JobData, ref: KeyRef)
    requires job in Poll(p, runner, ids).1.newJobs && job.id in p.tasks && IsNeeded(p.tasks[job.id].keys, ref)
    ensures ref.id in Poll(p, runner, ids).1.keys
  {
    DispatchIsAllOrNothing(p, runner, ids);
    RequiredIff(p.tasks[job.id].keys, ref);
    assert Needs(p, job, ref.id);
  }

  predicate ToStart(t: Task) {
    t.status == Waiting || t.status == Starting
  }

  predicate Mine(p: Pool, runner: int, id: int) {
    id in p.tasks && p.tasks[id].runner == Some(runner)
  }

  /** What a poll of one task does. */
  lemma PollOneIs(p: Pool, runner: int, data: RunnerState, id: int)
    ensures var (p', data') := PollOne(p, runner, data, id);
            && (!Mine(p, runner, id) ==> p' == p && data' == data)
            && (Mine(p, runner, id) && !ToStart(p.tasks[id]) ==>
                  && p' == p && data'.newJobs == data.newJobs && data'.keys == data.keys
                  && data'.current == data.current + [(id, p.tasks[id].status)])
            && (Mine(p, runner, id) && ToStart(p.tasks[id]) ==> data'.current == data.current)
            && (Mine(p, runner, id) && ToStart(p.tasks[id]) && Dispatchable(p.tasks[id]) ==>
                  p' == p && data'.newJobs == data.newJobs + [JobOf(id, p.tasks[id])])
            && (Mine(p, runner, id) && ToStart(p.tasks[id]) && !Dispatchable(p.tasks[id]) ==>
                  && data' == data && p'.finalized == p.finalized + [id]
                  && exists reason :: p'.tasks == p.tasks[id := FailedWith(p.tasks[id], reason)])
  {
    if Mine(p, runner, id) && ToStart(p.tasks[id]) {
      FailureLeavesResponse(p, runner, data, id);
    }
  }

  /** Nothing about a task changes before a poll comes to it. */
  lemma {:induction false} NotYetPolled(p: Pool, runner: int, ids: seq<int>, id: int)
    requires id !in ids
    ensures var p' := Poll(p, runner, ids).0;
            (id in p'.tasks <==> id in p.tasks) && (id in p.tasks ==> p'.tasks[id] == p.tasks[id])
  {
    if ids != [] {
      var init, last := ids[..|ids| - 1], ids[|ids| - 1];
      assert ids == init + [last];
      NotYetPolled(p, runner, init, id);
      var (p1, data) := Poll(p, runner, init);
      PollOneIs(p1, runner, data, last);
    }
  }

  /** The response of a poll: a task of this runner that is under way is listed with its status; one to be
      started is handed out if it can be dispatched; and nothing else is in it. */
  lemma {:induction false} PollAnswers(p: Pool, runner: int, ids: seq<int>)
    requires Distinct(ids)
    ensures var data := Poll(p, runner, ids).1;
            && (forall id, status :: (id, status) in data.current <==>
                  id in ids && Mine(p, runner, id) && !ToStart(p.tasks[id]) && status == p.tasks[id].status)
            && (forall job :: job in data.newJobs <==>
                  && job.id in ids && Mine(p, runner, job.id) && ToStart(p.tasks[job.id])
                  && Dispatchable(p.tasks[job.id]) && job == JobOf(job.id, p.tasks[job.id]))
  {
    if ids != [] {
      var init, last := ids[..|ids| - 1], ids[|ids| - 1];
      assert ids == init + [last] && last !in init;
      PollAnswers(p, runner, init);
      NotYetPolled(p, runner, init, last);
      var (p1, data) := Poll(p, runner, init);
      PollOneIs(p1, runner, data, last);
      assert forall x :: x in ids <==> x in init || x == last;
      AnswerStep(p, p1, runner, data, last);
    }
  }

  lemma AnswerStep(p: Pool, p1: Pool, runner: int, data: RunnerState, id: int)
    requires (id in p1.tasks <==> id in p.tasks) && (id in p.tasks ==> p1.tasks[id] == p.tasks[id])
    ensures var data' := PollOne(p1, runner, data, id).1;
            && (forall x, status :: (x, status) in data'.current <==>
                  || (x, status) in data.current
                  || (x == id && Mine(p, runner, id) && !ToStart(p.tasks[id]) && status == p.tasks[id].status))
            && (forall job :: job in data'.newJobs <==>
                  || job in data.newJobs
                  || (&& Mine(p, runner, id) && ToStart(p.tasks[id]) && Dispatchable(p.tasks[id])
                      && job == JobOf(id, p.tasks[id])))
  {
    PollOneIs(p1, runner, data, id);
  }

  /** A task of this runner that was to be started and cannot be dispatched is failed by the poll. */
  lemma {:induction false} PollFails(p: Pool, runner: int, ids: seq<int>, id: int)
    requires Distinct(ids) && id in ids && Mine(p, runner, id) && ToStart(p.tasks[id]) && !Dispatchable(p.tasks[id])
    ensures var p' := Poll(p, runner, ids).0;
            id in p'.tasks && p'.tasks[id].status == Fail && id in p'.finalized
  {
    var init, last := ids[..|ids| - 1], ids[|ids| - 1];
    assert ids == init + [last];
    var (p1, data) := Poll(p, runner, init);
    PollOneIs(p1, runner, data, last);
    if last == id {
      NotYetPolled(p, runner, init, id);
    } else {
      assert id in init;
      PollFails(p, runner, init, id);
    }
  }
}
