/** What dispatch and progress guarantee, poll by poll and over whole runs. */
module RunnerRuns {
  import opened Wrappers
  import opened Collections
  import opened Runner

  // --- dispatch is all or nothing ---

  lemma {:induction false} StageSpec(refs: seq<KeyRef>)
    ensures var r := Stage(refs, map[]);
            && (r.Some? <==> forall k | k in refs :: k.plain.Some?)
            && (r.Some? ==> forall id :: id in r.value <==> exists k :: k in refs && k.id == id)
            && (r.Some? ==> forall id | id in r.value ::
                  exists k :: k in refs && k.id == id && k.plain == Some(r.value[id]))
  {
    if refs != [] {
      StageSpec(refs[..|refs| - 1]);
      assert refs == refs[..|refs| - 1] + [refs[|refs| - 1]];
    }
  }

  ghost predicate Needs(p: Pool, job: JobData, id: int) {
    job.id in p.tasks && exists k :: k in Required(p.tasks[job.id].keys) && k.id == id
  }

  /** The job needs key `id`, and `plain` is what it decrypts to. */
  ghost predicate Supplies(p: Pool, job: JobData, id: int, plain: string) {
    job.id in p.tasks && KeyRef(id, Some(plain)) in Required(p.tasks[job.id].keys)
  }

  /** Every published job has all its keys, and every published key is the plaintext of a key that a
      published job needs. */
  ghost predicate AllOrNothing(p: Pool, data: RunnerState) {
    && (forall job, id | job in data.newJobs && Needs(p, job, id) :: id in data.keys)
    && (forall id | id in data.keys :: exists job :: job in data.newJobs && Supplies(p, job, id, data.keys[id]))
  }

  /** A poll never changes what a task needs. */
  ghost predicate SameNeeds(p: Pool, p': Pool) {
    p'.tasks.Keys == p.tasks.Keys && forall id | id in p.tasks :: p'.tasks[id].keys == p.tasks[id].keys
  }

  lemma PublishKeeps(p: Pool, data: RunnerState, job: JobData, keys: map<int, string>)
    requires AllOrNothing(p, data)
    requires forall id :: Needs(p, job, id) ==> id in keys
    requires forall id | id in keys :: Supplies(p, job, id, keys[id])
    ensures AllOrNothing(p, data.(newJobs := data.newJobs + [job], keys := data.keys + keys))
  {
    var data' := data.(newJobs := data.newJobs + [job], keys := data.keys + keys);
    assert forall j :: j in data'.newJobs <==> j in data.newJobs || j == job;
    forall id | id in data'.keys
      ensures exists j :: j in data'.newJobs && Supplies(p, j, id, data'.keys[id])
    {
      if id in keys {
        assert job in data'.newJobs && Supplies(p, job, id, data'.keys[id]);
      } else {
        var j :| j in data.newJobs && Supplies(p, j, id, data.keys[id]);
        assert j in data'.newJobs;
      }
    }
  }

  lemma ReadyStagesNeeds(p: Pool, id: int)
    requires id in p.tasks && Prepare(id, p.tasks[id]).Ready?
    ensures var r := Prepare(id, p.tasks[id]);
            && (forall kid :: Needs(p, r.job, kid) ==> kid in r.keys)
            && (forall kid | kid in r.keys :: Supplies(p, r.job, kid, r.keys[kid]))
  {
    StageSpec(Required(p.tasks[id].keys));
    var r := Prepare(id, p.tasks[id]);
    forall kid | kid in r.keys
      ensures Supplies(p, r.job, kid, r.keys[kid])
    {
      var k :| k in Required(p.tasks[id].keys) && k.id == kid && k.plain == Some(r.keys[kid]);
      assert k == KeyRef(kid, Some(r.keys[kid]));
    }
  }

  lemma PollOneKeeps(p: Pool, runner: int, data: RunnerState, id: int)
    requires AllOrNothing(p, data)
    ensures SameNeeds(p, PollOne(p, runner, data, id).0)
    ensures AllOrNothing(p, PollOne(p, runner, data, id).1)
  {
    if id in p.tasks && p.tasks[id].runner == Some(runner) {
      if p.tasks[id].status.Waiting? || p.tasks[id].status.Starting? {
        if Prepare(id, p.tasks[id]).Ready? {
          ReadyStagesNeeds(p, id);
          PublishKeeps(p, data, Prepare(id, p.tasks[id]).job, Prepare(id, p.tasks[id]).keys);
        }
      } else {
        SameJobsSameGuarantee(p, data, PollOne(p, runner, data, id).1);
      }
    }
  }

  lemma SameJobsSameGuarantee(p: Pool, data: RunnerState, data': RunnerState)
    requires AllOrNothing(p, data) && data'.newJobs == data.newJobs && data'.keys == data.keys
    ensures AllOrNothing(p, data')
  {
  }

  /** After a poll every new job has all its keys in the response, and every key in the response
      belongs to a new job, whatever tasks failed on the way. */
  lemma {:induction false} DispatchIsAllOrNothing(p: Pool, runner: int, ids: seq<int>)
    ensures SameNeeds(p, Poll(p, runner, ids).0)
    ensures AllOrNothing(p, Poll(p, runner, ids).1)
  {
    if ids != [] {
      var init, id := ids[..|ids| - 1], ids[|ids| - 1];
      DispatchIsAllOrNothing(p, runner, init);
      var (p1, data) := Poll(p, runner, init);
      SameNeedsSameGuarantee(p, p1, data);
      PollOneKeeps(p1, runner, data, id);
      SameNeedsSameGuarantee(p, p1, PollOne(p1, runner, data, id).1);
    }
  }

  lemma SameNeedsSameGuarantee(p: Pool, p': Pool, data: RunnerState)
    requires SameNeeds(p, p')
    ensures AllOrNothing(p, data) <==> AllOrNothing(p', data)
  {
    assert forall job, id :: Needs(p, job, id) <==> Needs(p', job, id);
    assert forall job, id, plain :: Supplies(p, job, id, plain) <==> Supplies(p', job, id, plain);
  }

  lemma StageSomeIff(refs: seq<KeyRef>)
    ensures Stage(refs, map[]).Some? <==> forall k | k in refs :: k.plain.Some?
  {
    StageSpec(refs);
  }

  /** Every stage of the dispatch can go through. */
  ghost predicate Dispatchable(t: Task) {
    t.survey.Some? && !t.jwt.BadTTL? && !t.jwt.SignFails? && forall k | k in Required(t.keys) :: k.plain.Some?
  }

  function JobOf(id: int, t: Task): JobData
    requires t.survey.Some?
  {
    JobData(id, t.survey.value, if t.jwt.Token? then Some(t.jwt.text) else None)
  }

  lemma PrepareSpec(id: int, t: Task)
    ensures Prepare(id, t).Ready? <==> Dispatchable(t)
    ensures Prepare(id, t).Ready? ==> Prepare(id, t).job == JobOf(id, t)
  {
    StageSomeIff(Required(t.keys));
    assert Prepare(id, t).Ready?
      <==> t.survey.Some? && !t.jwt.BadTTL? && !t.jwt.SignFails? && Stage(Required(t.keys), map[]).Some?;
  }

  /** A task that cannot be prepared leaves the response as it was, and is failed and finalized. */
  lemma FailureLeavesResponse(p: Pool, runner: int, data: RunnerState, id: int)
    requires id in p.tasks && p.tasks[id].runner == Some(runner)
    requires p.tasks[id].status.Waiting? || p.tasks[id].status.Starting?
    ensures var (p', data') := PollOne(p, runner, data, id);
            if Dispatchable(p.tasks[id])
            then p' == p && data'.current == data.current && data'.newJobs == data.newJobs + [JobOf(id, p.tasks[id])]
            else && data' == data && p'.finalized == p.finalized + [id] && p'.next == p.next
                 && p'.rows == p.rows[id := Fail]
                 && exists reason :: p'.tasks == p.tasks[id := FailedWith(p.tasks[id], reason)]
  {
    var r := Prepare(id, p.tasks[id]);
    PrepareSpec(id, p.tasks[id]);
    if r.Ready? {
      assert PollOne(p, runner, data, id) == (p, data.(newJobs := data.newJobs + [r.job], keys := data.keys + r.keys));
    } else {
      assert PollOne(p, runner, data, id) == (FailTask(p, id, r.reason), data);
      assert FailTask(p, id, r.reason).tasks == p.tasks[id := FailedWith(p.tasks[id], r.reason)];
    }
  }

  /** The task with the failure in its log and as its status. */
  function FailedWith(t: Task, reason: string): Task {
    t.(log := t.log + [reason], status := Fail)
  }

  // --- runs ---

  datatype Action =
    | Progress(runner: int, jobs: seq<Job>, broken: set<int>)
    | PollAll(runner: int, ids: seq<int>)
    | AddTask(task: Task)
    | Assign(id: int, to: Option<int>)
    | ServerStatus(id: int, status: Status)
    | Drop(id: int)
    | DeleteRow(id: int)

  /** The server itself reassigns and stops unfinished tasks only, drops finished tasks from the pool,
      and deletes rows of tasks that are not in it. */
  predicate Enabled(p: Pool, a: Action) {
    match a
    case AddTask(t) => !IsFinished(t.status)
    case Assign(id, _) => id in p.tasks && !IsFinished(p.tasks[id].status)
    case ServerStatus(id, _) => id in p.tasks && !IsFinished(p.tasks[id].status)
    case Drop(id) => id in p.tasks && IsFinished(p.tasks[id].status)
    case DeleteRow(id) => id !in p.tasks
    case _ => true
  }

  function Apply(p: Pool, a: Action): Pool {
    match a
    case Progress(runner, jobs, broken) => ApplyBatch(p, runner, jobs, broken).0
    case PollAll(runner, ids) => Poll(p, runner, ids).0
    case AddTask(t) => p.(tasks := p.tasks[p.next := t], rows := p.rows[p.next := t.status], next := p.next + 1)
    case Assign(id, to) => if id !in p.tasks then p else p.(tasks := p.tasks[id := p.tasks[id].(runner := to)])
    case ServerStatus(id, status) =>
      if id !in p.tasks then p
      else
        var s := SetStatus(p.tasks[id].status, status);
        p.(tasks := p.tasks[id := p.tasks[id].(status := s)], rows := p.rows[id := s])
    case Drop(id) => p.(tasks := p.tasks - {id})
    case DeleteRow(id) => p.(rows := p.rows - {id})
  }

  /** Finalized tasks are finished, each was finalized once, the row shows the pool's status, and ids
      are never handed out again. */
  ghost predicate Inv(p: Pool) {
    && Distinct(p.finalized)
    && (forall id | id in p.finalized :: id < p.next && (id in p.tasks ==> IsFinished(p.tasks[id].status)))
    && (forall id | id in p.tasks :: id in p.rows && p.rows[id] == p.tasks[id].status)
    && (forall id | id in p.rows :: id < p.next)
  }

  /** Between two states: a finished task keeps its status, log and commit; a task changes only if
      it is assigned to `runner`; and what was newly finalized went from unfinished to finished in between. */
  ghost predicate Careful(p: Pool, p': Pool, runner: int) {
    && p'.tasks.Keys == p.tasks.Keys && p'.next == p.next
    && (forall id | id in p.tasks && IsFinished(p.tasks[id].status) :: p'.tasks[id] == p.tasks[id])
    && (forall id | id in p.tasks && p.tasks[id].runner != Some(runner) :: p'.tasks[id] == p.tasks[id])
    && (forall id | id in p.tasks :: p'.tasks[id].runner == p.tasks[id].runner)
    && (forall id | id !in p.tasks :: (id in p'.rows <==> id in p.rows) && (id in p.rows ==> p'.rows[id] == p.rows[id]))
    && p.finalized <= p'.finalized
    && (forall i | |p.finalized| <= i < |p'.finalized| ::
          var id := p'.finalized[i];
          id in p.tasks && !IsFinished(p.tasks[id].status) && IsFinished(p'.tasks[id].status))
  }

  /** The pool after an unfinished task of `runner` was changed: it is finalized exactly if it finished. */
  function Changed(p: Pool, id: int, t: Task): Pool {
    p.(tasks := p.tasks[id := t], rows := p.rows[id := t.status],
       finalized := if IsFinished(t.status) then p.finalized + [id] else p.finalized)
  }

  lemma ChangeKeepsInv(p: Pool, id: int, t: Task)
    requires Inv(p) && id in p.tasks && !IsFinished(p.tasks[id].status)
    ensures Inv(Changed(p, id, t))
  {
    assert id !in p.finalized;
  }

  lemma ChangeIsCareful(p: Pool, runner: int, id: int, t: Task)
    requires id in p.tasks && !IsFinished(p.tasks[id].status)
    requires p.tasks[id].runner == Some(runner) && t.runner == Some(runner)
    ensures Careful(p, Changed(p, id, t), runner)
  {
  }

  lemma NoChangeIsCareful(p: Pool, runner: int)
    ensures Careful(p, p, runner)
  {
  }

  lemma JobIsCareful(p: Pool, runner: int, job: Job, broken: set<int>)
    requires Inv(p)
    ensures Inv(ApplyJob(p, runner, job, broken).0) && Careful(p, ApplyJob(p, runner, job, broken).0, runner)
  {
    NoChangeIsCareful(p, runner);
    var p' := ApplyJob(p, runner, job, broken).0;
    if ApplyJob(p, runner, job, broken).1.Accepted? {
      ChangeKeepsInv(p, job.id, p'.tasks[job.id]);
      ChangeIsCareful(p, runner, job.id, p'.tasks[job.id]);
      assert p' == Changed(p, job.id, p'.tasks[job.id]);
    }
  }

  lemma CarefulTransitive(p: Pool, p1: Pool, p2: Pool, runner: int)
    requires Careful(p, p1, runner) && Careful(p1, p2, runner)
    ensures Careful(p, p2, runner)
  {
    forall i | |p.finalized| <= i < |p2.finalized|
      ensures var id := p2.finalized[i];
              id in p.tasks && !IsFinished(p.tasks[id].status) && IsFinished(p2.tasks[id].status)
    {
      var id := p2.finalized[i];
      if i < |p1.finalized| {
        assert p1.finalized[i] == id;
      }
    }
  }

  lemma {:induction false} BatchIsCareful(p: Pool, runner: int, jobs: seq<Job>, broken: set<int>)
    requires Inv(p)
    ensures Inv(ApplyBatch(p, runner, jobs, broken).0) && Careful(p, ApplyBatch(p, runner, jobs, broken).0, runner)
    decreases |jobs|
  {
    if jobs != [] {
      var p1 := ApplyJob(p, runner, jobs[0], broken).0;
      JobIsCareful(p, runner, jobs[0], broken);
      BatchIsCareful(p1, runner, jobs[1..], broken);
      CarefulTransitive(p, p1, ApplyBatch(p1, runner, jobs[1..], broken).0, runner);
    }
  }

  lemma PollOneIsCareful(p: Pool, runner: int, data: RunnerState, id: int)
    requires Inv(p)
    ensures Inv(PollOne(p, runner, data, id).0) && Careful(p, PollOne(p, runner, data, id).0, runner)
  {
    NoChangeIsCareful(p, runner);
    var p' := PollOne(p, runner, data, id).0;
    if p' != p {
      ChangeKeepsInv(p, id, p'.tasks[id]);
      ChangeIsCareful(p, runner, id, p'.tasks[id]);
      assert p' == Changed(p, id, p'.tasks[id]);
    }
  }

  lemma {:induction false} PollIsCareful(p: Pool, runner: int, ids: seq<int>)
    requires Inv(p)
    ensures Inv(Poll(p, runner, ids).0) && Careful(p, Poll(p, runner, ids).0, runner)
  {
    if ids != [] {
      var init := ids[..|ids| - 1];
      PollIsCareful(p, runner, init);
      var (p1, data) := Poll(p, runner, init);
      PollOneIsCareful(p1, runner, data, ids[|ids| - 1]);
      CarefulTransitive(p, p1, PollOne(p1, runner, data, ids[|ids| - 1]).0, runner);
    }
  }

  lemma StepKeepsInv(p: Pool, a: Action)
    requires Inv(p) && Enabled(p, a)
    ensures Inv(Apply(p, a))
    ensures p.finalized <= Apply(p, a).finalized
    ensures forall id | id in p.tasks && IsFinished(p.tasks[id].status) && id in Apply(p, a).tasks ::
              Apply(p, a).tasks[id] == p.tasks[id]
    ensures forall id | id in p.tasks && !IsFinished(p.tasks[id].status) :: id in Apply(p, a).tasks
    ensures forall id | id !in p.tasks && id < p.next :: id !in Apply(p, a).tasks
    ensures p.next <= Apply(p, a).next
    ensures forall id | id in p.rows && IsFinished(p.rows[id]) && id in Apply(p, a).rows ::
              Apply(p, a).rows[id] == p.rows[id]
    ensures forall id | id !in p.rows && id < p.next :: id !in Apply(p, a).rows
  {
    match a
    case Progress(runner, jobs, broken) => BatchIsCareful(p, runner, jobs, broken);
    case PollAll(runner, ids) => PollIsCareful(p, runner, ids);
    case _ =>
  }

  predicate EnabledRun(p: Pool, acts: seq<Action>)
    decreases |acts|
  {
    acts == [] || (Enabled(p, acts[0]) && EnabledRun(Apply(p, acts[0]), acts[1..]))
  }

  function Run(p: Pool, acts: seq<Action>): Pool
    decreases |acts|
  {
    if acts == [] then p else Run(Apply(p, acts[0]), acts[1..])
  }

  /** Over every run of reports and polls: each task is finalized at most once, and a finished task
      keeps its status, logs and commit for as long as it is in the pool, never comes back to it, and
      its persisted status never changes while the row exists. */
  lemma {:induction false} FinishedIsFinal(p: Pool, acts: seq<Action>)
    requires Inv(p) && EnabledRun(p, acts)
    ensures Inv(Run(p, acts)) && p.finalized <= Run(p, acts).finalized
    ensures forall id | id in p.tasks && IsFinished(p.tasks[id].status) && id in Run(p, acts).tasks ::
              Run(p, acts).tasks[id] == p.tasks[id]
    ensures forall id | id !in p.tasks && id < p.next :: id !in Run(p, acts).tasks
    ensures forall id | id in p.rows && IsFinished(p.rows[id]) && id in Run(p, acts).rows ::
              Run(p, acts).rows[id] == p.rows[id]
    ensures forall id | id !in p.rows && id < p.next :: id !in Run(p, acts).rows
    decreases |acts|
  {
    if acts != [] {
      var p1 := Apply(p, acts[0]);
      StepKeepsInv(p, acts[0]);
      FinishedIsFinal(p1, acts[1..]);
      assert p.finalized <= p1.finalized <= Run(p, acts).finalized;
      forall id | id in p.tasks && IsFinished(p.tasks[id].status) && id in Run(p, acts).tasks
        ensures Run(p, acts).tasks[id] == p.tasks[id]
      {
        assert id < p1.next;
      }
      forall id | id in p.rows && IsFinished(p.rows[id]) && id in Run(p, acts).rows
        ensures Run(p, acts).rows[id] == p.rows[id]
      {
        assert id < p1.next;
      }
    }
  }

  /** Only the assigned runner's report or poll touches a task, and finalization starts only on the
      edge from unfinished to finished. */
  lemma OnlyAssignedRunner(p: Pool, a: Action)
    requires Inv(p) && (a.Progress? || a.PollAll?)
    ensures Careful(p, Apply(p, a), a.runner)
  {
    match a
    case Progress(runner, jobs, broken) => BatchIsCareful(p, runner, jobs, broken);
    case PollAll(runner, ids) => PollIsCareful(p, runner, ids);
  }

  /** What makes a job of `runner` an orphan: its task is gone, finished, or somebody else's. */
  predicate Orphaned(p: Pool, runner: int, id: int) {
    if id in p.tasks then p.tasks[id].runner != Some(runner) || IsFinished(p.tasks[id].status)
    else id !in p.rows || IsFinished(p.rows[id])
  }

  lemma OrphanStays(p: Pool, p': Pool, runner: int, id: int)
    requires Careful(p, p', runner) && Orphaned(p, runner, id)
    ensures Orphaned(p', runner, id)
  {
  }

  ghost predicate Reported(jobs: seq<Job>, id: int) {
    exists i | 0 <= i < |jobs| :: jobs[i].id == id
  }

  lemma ReportedTail(jobs: seq<Job>, id: int)
    requires jobs != []
    ensures Reported(jobs, id) <==> jobs[0].id == id || Reported(jobs[1..], id)
  {
    assert forall i | 0 < i < |jobs| :: jobs[i] == jobs[1..][i - 1];
    assert forall i | 0 <= i < |jobs[1..]| :: jobs[1..][i] == jobs[i + 1];
  }

  /** The list after one job and the rest of the batch. */
  lemma ListStep(p: Pool, runner: int, jobs: seq<Job>, broken: set<int>, id: int)
    requires jobs != []
    ensures var (p1, verdict) := ApplyJob(p, runner, jobs[0], broken);
            var (p', ok, list) := ApplyBatch(p, runner, jobs, broken);
            var (p2, ok2, rest) := ApplyBatch(p1, runner, jobs[1..], broken);
            if verdict.BadRequest? then !ok && list == []
            else && p' == p2 && ok == ok2
                 && (id in list <==> id in rest || (ok && verdict.Terminated? && id == jobs[0].id))
  {
  }

  lemma {:induction false} ListedIsReportedOrphan(p: Pool, runner: int, jobs: seq<Job>, broken: set<int>, id: int)
    requires Inv(p) && id in ApplyBatch(p, runner, jobs, broken).2
    ensures Reported(jobs, id) && Orphaned(ApplyBatch(p, runner, jobs, broken).0, runner, id)
    decreases |jobs|
  {
    var (p1, verdict) := ApplyJob(p, runner, jobs[0], broken);
    var (p2, ok, rest) := ApplyBatch(p1, runner, jobs[1..], broken);
    ListStep(p, runner, jobs, broken, id);
    ReportedTail(jobs, id);
    JobIsCareful(p, runner, jobs[0], broken);
    if id in rest {
      ListedIsReportedOrphan(p1, runner, jobs[1..], broken, id);
    } else {
      BatchIsCareful(p1, runner, jobs[1..], broken);
      TerminatedIsOrphan(p, runner, jobs[0], broken);
      OrphanStays(p1, p2, runner, id);
    }
  }

  lemma TerminatedIsOrphan(p: Pool, runner: int, job: Job, broken: set<int>)
    requires ApplyJob(p, runner, job, broken).1.Terminated?
    ensures ApplyJob(p, runner, job, broken).0 == p && Orphaned(p, runner, job.id)
  {
  }

  lemma OrphanIsTerminated(p: Pool, runner: int, job: Job, broken: set<int>)
    requires Orphaned(p, runner, job.id) && (job.id in p.tasks || job.id !in broken)
    ensures var verdict := ApplyJob(p, runner, job, broken).1; verdict.Terminated? || verdict.BadRequest?
  {
  }

  lemma {:induction false} OrphanIsListed(p: Pool, runner: int, jobs: seq<Job>, broken: set<int>, id: int)
    requires Inv(p) && ApplyBatch(p, runner, jobs, broken).1
    requires Reported(jobs, id) && Orphaned(p, runner, id) && (id in p.tasks || id !in broken)
    ensures id in ApplyBatch(p, runner, jobs, broken).2
    decreases |jobs|
  {
    var p1 := ApplyJob(p, runner, jobs[0], broken).0;
    ListStep(p, runner, jobs, broken, id);
    ReportedTail(jobs, id);
    if jobs[0].id == id {
      OrphanIsTerminated(p, runner, jobs[0], broken);
    } else {
      JobIsCareful(p, runner, jobs[0], broken);
      OrphanStays(p, p1, runner, id);
      OrphanIsListed(p1, runner, jobs[1..], broken, id);
    }
  }

  /** The runner is told to stop exactly jobs that are orphaned: every job on the list was reported and
      is one when the batch is done, and a reported job that is an orphan from the start, whatever
      status it claims, is on the list unless it is not in the pool and its row could not be loaded. */
  lemma TerminatedAreOrphans(p: Pool, runner: int, jobs: seq<Job>, broken: set<int>)
    requires Inv(p)
    ensures var (p', ok, list) := ApplyBatch(p, runner, jobs, broken);
            && (forall id | id in list :: Reported(jobs, id) && Orphaned(p', runner, id))
            && (ok ==> forall id | Reported(jobs, id) && Orphaned(p, runner, id) && (id in p.tasks || id !in broken) ::
                  id in list)
  {
    var (p', ok, list) := ApplyBatch(p, runner, jobs, broken);
    forall id | id in list
      ensures Reported(jobs, id) && Orphaned(p', runner, id)
    {
      ListedIsReportedOrphan(p, runner, jobs, broken, id);
    }
    if ok {
      forall id | Reported(jobs, id) && Orphaned(p, runner, id) && (id in p.tasks || id !in broken)
        ensures id in list
      {
        OrphanIsListed(p, runner, jobs, broken, id);
      }
    }
  }

  /** The terminal test in the handler carries this: SetStatus alone would let a succeeded task fail. */
  lemma SetStatusIsNotAbsorbing(s: Status)
    ensures (forall t :: SetStatus(s, t) == s) <==> s == Stopped
  {
    if s != Stopped {
      assert SetStatus(s, Stopped) == Stopped;
    }
  }
}
