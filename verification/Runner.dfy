/** The remote-runner protocol: a runner polls for jobs and their decrypted keys, and reports progress
    in batches; the server finalizes a task when it reaches a terminal status. */
module Runner {
  import opened Wrappers

  datatype Status =
    | Waiting | Starting | WaitingConfirmation | Confirmed | Rejected | Running | Stopping
    | Stopped | Success | Fail
    | Unknown(text: string)

  predicate IsValid(s: Status) {
    !s.Unknown?
  }

  predicate IsFinished(s: Status) {
    s.Stopped? || s.Success? || s.Fail?
  }

  /** TaskRunner.SetStatus. A Go switch does not fall through, so of the terminal statuses only
      Stopped refuses to change here. */
  function SetStatus(cur: Status, new_: Status): Status {
    if new_ == cur then cur
    else
      match cur
      case Confirmed => if new_.WaitingConfirmation? then cur else new_
      case Running => if new_.Waiting? then cur else new_
      case Stopping => if new_.Waiting? || new_.Running? || new_.WaitingConfirmation? then cur else new_
      case Stopped => cur
      case _ => new_
  }

  /** An access key by id, with its plaintext when it can be decrypted. */
  datatype KeyRef = KeyRef(id: int, plain: Option<string>)

  datatype TaskKeys = TaskKeys(
    ssh: Option<KeyRef>, become: Option<KeyRef>, vaults: seq<Option<KeyRef>>,
    inventoryRepo: Option<KeyRef>, repo: KeyRef)

  datatype JwtPlan = NoJwt | BadTTL | SignFails | Token(text: string)

  /** A task in the pool: its assignment and progress, and what dispatching it needs. */
  datatype Task = Task(
    runner: Option<int>, status: Status, log: seq<string>, commit: Option<string>,
    survey: Option<string>, jwt: JwtPlan, keys: TaskKeys)

  /** The pool, the persisted status of every task row, the ids handed to finalization in order, and
      the next free task id. */
  datatype Pool = Pool(tasks: map<int, Task>, rows: map<int, Status>, finalized: seq<int>, next: int)

  // --- progress reports ---

  datatype Job = Job(id: int, status: Status, records: seq<string>, commit: Option<string>)
  datatype Verdict = Accepted | Terminated | Skipped | BadRequest

  /** One job of a report; `broken` are rows that cannot be loaded. */
  function ApplyJob(p: Pool, runner: int, job: Job, broken: set<int>): (Pool, Verdict) {
    if job.id !in p.tasks then
      if job.id in broken then (p, Skipped)
      else if job.id !in p.rows || IsFinished(p.rows[job.id]) then (p, Terminated)
      else (p, Skipped)
    else
      var t := p.tasks[job.id];
      if t.runner != Some(runner) then (p, Terminated)
      else if !IsValid(job.status) then (p, BadRequest)
      else if IsFinished(t.status) then (p, Terminated)
      else
        var status := SetStatus(t.status, job.status);
        var commit := if job.commit.Some? then job.commit else t.commit;
        var t' := t.(log := t.log + job.records, status := status, commit := commit);
        (p.(tasks := p.tasks[job.id := t'], rows := p.rows[job.id := status],
            finalized := if IsFinished(status) then p.finalized + [job.id] else p.finalized),
         Accepted)
  }

  /** A batch, cut short by the first invalid status. */
  function ApplyBatch(p: Pool, runner: int, jobs: seq<Job>, broken: set<int>): (Pool, bool, seq<int>)
    decreases |jobs|
  {
    if jobs == [] then (p, true, [])
    else
      var (p1, verdict) := ApplyJob(p, runner, jobs[0], broken);
      if verdict.BadRequest? then (p1, false, [])
      else
        var (p2, ok, rest) := ApplyBatch(p1, runner, jobs[1..], broken);
        (p2, ok, if ok && verdict.Terminated? then [jobs[0].id] + rest else rest)
  }

  // --- polling ---

  datatype JobData = JobData(id: int, secret: string, jwt: Option<string>)
  datatype RunnerState = RunnerState(newJobs: seq<JobData>, keys: map<int, string>, current: seq<(int, Status)>)

  function Optional(k: Option<KeyRef>): seq<KeyRef> {
    if k.Some? then [k.value] else []
  }

  function VaultKeys(vaults: seq<Option<KeyRef>>): seq<KeyRef> {
    if vaults == [] then [] else VaultKeys(vaults[..|vaults| - 1]) + Optional(vaults[|vaults| - 1])
  }

  /** Every key the dispatched task needs. */
  function Required(k: TaskKeys): seq<KeyRef> {
    Optional(k.ssh) + Optional(k.become) + VaultKeys(k.vaults) + Optional(k.inventoryRepo) + [k.repo]
  }

  /** Staging keys in order; None as soon as one cannot be decrypted. */
  function Stage(refs: seq<KeyRef>, staged: map<int, string>): Option<map<int, string>> {
    if refs == [] then Some(staged)
    else
      var init :- Stage(refs[..|refs| - 1], staged);
      var last := refs[|refs| - 1];
      if last.plain == None then None else Some(init[last.id := last.plain.value])
  }

  datatype Prepared = Failed(reason: string) | Ready(job: JobData, keys: map<int, string>)

  /** The stages of prepareRemoteJob: survey secrets, token, keys. */
  function Prepare(id: int, t: Task): Prepared {
    if t.survey == None then Failed("survey secrets")
    else if t.jwt.BadTTL? then Failed("token lifetime")
    else if t.jwt.SignFails? then Failed("token")
    else
      var staged := Stage(Required(t.keys), map[]);
      if staged == None then Failed("access keys")
      else Ready(JobData(id, t.survey.value, if t.jwt.Token? then Some(t.jwt.text) else None), staged.value)
  }

  function FailTask(p: Pool, id: int, reason: string): Pool
    requires id in p.tasks
  {
    var t := p.tasks[id];
    var status := SetStatus(t.status, Fail);
    p.(tasks := p.tasks[id := t.(log := t.log + [reason], status := status)], rows := p.rows[id := status],
       finalized := p.finalized + [id])
  }

  function PollOne(p: Pool, runner: int, data: RunnerState, id: int): (Pool, RunnerState) {
    if id !in p.tasks || p.tasks[id].runner != Some(runner) then (p, data)
    else
      var t := p.tasks[id];
      if t.status.Waiting? || t.status.Starting? then
        match Prepare(id, t)
        case Failed(reason) => (FailTask(p, id, reason), data)
        case Ready(job, keys) => (p, data.(newJobs := data.newJobs + [job], keys := data.keys + keys))
      else (p, data.(current := data.current + [(id, t.status)]))
  }

  const NOTHING := RunnerState([], map[], [])

  /** One poll over the running tasks, in the order the pool lists them. */
  function Poll(p: Pool, runner: int, ids: seq<int>): (Pool, RunnerState) {
    if ids == [] then (p, NOTHING)
    else
      var (p1, data) := Poll(p, runner, ids[..|ids| - 1]);
      PollOne(p1, runner, data, ids[|ids| - 1])
  }

  // --- the server in place ---

  class Server {
    var tasks: map<int, Task>
    var rows: map<int, Status>
    var finalized: seq<int>
    var next: int

    constructor ()
      ensures Value() == Pool(map[], map[], [], 1)
    {
      tasks, rows, finalized, next := map[], map[], [], 1;
    }

    function Value(): Pool
      reads this
    {
      Pool(tasks, rows, finalized, next)
    }

    method UpdateOne(runner: int, job: Job, broken: set<int>) returns (verdict: Verdict)
      modifies this
      ensures (Value(), verdict) == ApplyJob(old(Value()), runner, job, broken)
    {
      if job.id !in tasks {
        if job.id in broken {
          return Skipped;
        }
        if job.id !in rows || IsFinished(rows[job.id]) {
          return Terminated;
        }
        return Skipped;
      }
      if tasks[job.id].runner != Some(runner) {
        return Terminated;
      }
      if !IsValid(job.status) {
        return BadRequest;
      }
      if IsFinished(tasks[job.id].status) {
        return Terminated;
      }
      var t := tasks[job.id];
      for i := 0 to |job.records|
        invariant t == tasks[job.id].(log := tasks[job.id].log + job.records[..i])
      {
        assert job.records[..i + 1] == job.records[..i] + [job.records[i]];
        t := t.(log := t.log + [job.records[i]]);
      }
      assert job.records[..|job.records|] == job.records;
      t := t.(status := SetStatus(t.status, job.status));
      if job.commit.Some? {
        t := t.(commit := job.commit);
      }
      tasks, rows := tasks[job.id := t], rows[job.id := t.status];
      if IsFinished(t.status) {
        finalized := finalized + [job.id];
      }
      return Accepted;
    }

    /** UpdateRunner: 204 for a report without jobs, 400 at the first invalid status, else 200 with
        the jobs the runner must stop. */
    method UpdateRunner(runner: int, jobs: Option<seq<Job>>, broken: set<int>) returns (code: int, terminated: seq<int>)
      modifies this
      ensures jobs == None ==> code == 204 && terminated == [] && Value() == old(Value())
      ensures jobs.Some? ==> var (p, ok, list) := ApplyBatch(old(Value()), runner, jobs.value, broken);
                             Value() == p && code == (if ok then 200 else 400) && terminated == list
    {
      terminated := [];
      if jobs == None {
        return 204, [];
      }
      var list := jobs.value;
      ghost var start := Value();
      assert list[0..] == list;
      BatchRejectedIsEmpty(start, runner, list, broken);
      for i := 0 to |list|
        invariant var (p, ok, rest) := ApplyBatch(start, runner, list, broken);
                  var (p', ok', rest') := ApplyBatch(Value(), runner, list[i..], broken);
                  p == p' && ok == ok' && rest == (if ok then terminated + rest' else [])
      {
        assert list[i..][0] == list[i] && list[i..][1..] == list[i + 1..];
        BatchRejectedIsEmpty(Value(), runner, list[i..], broken);
        var verdict := UpdateOne(runner, list[i], broken);
        if verdict.BadRequest? {
          return 400, [];
        }
        BatchRejectedIsEmpty(Value(), runner, list[i + 1..], broken);
        if verdict.Terminated? {
          terminated := terminated + [list[i].id];
        }
      }
      return 200, terminated;
    }

    method CollectTaskAccessKeys(k: TaskKeys) returns (r: Option<map<int, string>>)
      ensures r == Stage(Required(k), map[])
    {
      var vaults := RefsOfVaults(k.vaults);
      r := StageAll(Optional(k.ssh) + Optional(k.become) + vaults + Optional(k.inventoryRepo) + [k.repo]);
    }

    method FailAndFinalize(id: int, reason: string)
      requires id in tasks
      modifies this
      ensures Value() == FailTask(old(Value()), id, reason)
    {
      var t := tasks[id];
      t := t.(log := t.log + [reason]);
      t := t.(status := SetStatus(t.status, Fail));
      tasks, rows := tasks[id := t], rows[id := t.status];
      finalized := finalized + [id];
    }

    method PrepareRemoteJob(id: int, data: RunnerState) returns (data': RunnerState)
      requires id in tasks
      modifies this
      ensures match Prepare(id, old(tasks)[id])
              case Failed(reason) => Value() == FailTask(old(Value()), id, reason) && data' == data
              case Ready(job, keys) =>
                && Value() == old(Value())
                && data' == data.(newJobs := data.newJobs + [job], keys := data.keys + keys)
    {
      var t := tasks[id];
      data' := data;
      if t.survey == None {
        FailAndFinalize(id, "survey secrets");
        return;
      }
      var job := JobData(id, t.survey.value, None);
      if t.jwt.BadTTL? {
        FailAndFinalize(id, "token lifetime");
        return;
      }
      if t.jwt.SignFails? {
        FailAndFinalize(id, "token");
        return;
      }
      if t.jwt.Token? {
        job := job.(jwt := Some(t.jwt.text));
      }
      var taskKeys := CollectTaskAccessKeys(t.keys);
      if taskKeys == None {
        FailAndFinalize(id, "access keys");
        return;
      }
      data' := data.(newJobs := data.newJobs + [job], keys := data.keys + taskKeys.value);
    }

    method GetRunner(runner: int, ids: seq<int>) returns (data: RunnerState)
      modifies this
      ensures (Value(), data) == Poll(old(Value()), runner, ids)
    {
      data := NOTHING;
      for i := 0 to |ids|
        invariant (Value(), data) == Poll(old(Value()), runner, ids[..i])
      {
        assert ids[..i + 1][..i] == ids[..i];
        var id := ids[i];
        if id !in tasks || tasks[id].runner != Some(runner) {
          continue;
        }
        if tasks[id].status.Waiting? || tasks[id].status.Starting? {
          data := PrepareRemoteJob(id, data);
        } else {
          data := data.(current := data.current + [(id, tasks[id].status)]);
        }
      }
      assert ids[..|ids|] == ids;
    }
  }

  method RefsOfVaults(vaults: seq<Option<KeyRef>>) returns (refs: seq<KeyRef>)
    ensures refs == VaultKeys(vaults)
  {
    refs := [];
    for i := 0 to |vaults|
      invariant refs == VaultKeys(vaults[..i])
    {
      assert vaults[..i + 1][..i] == vaults[..i];
      if vaults[i] == None {
        continue;
      }
      refs := refs + [vaults[i].value];
    }
    assert vaults[..|vaults|] == vaults;
  }

  /** Decrypting into the staging map one key after another, giving up at the first failure. */
  method StageAll(refs: seq<KeyRef>) returns (r: Option<map<int, string>>)
    ensures r == Stage(refs, map[])
  {
    var staged: map<int, string> := map[];
    for i := 0 to |refs|
      invariant Stage(refs[..i], map[]) == Some(staged)
    {
      assert refs[..i + 1][..i] == refs[..i];
      if refs[i].plain == None {
        StageStops(refs, i + 1, map[]);
        return None;
      }
      staged := staged[refs[i].id := refs[i].plain.value];
    }
    assert refs[..|refs|] == refs;
    return Some(staged);
  }

  lemma {:induction false} BatchRejectedIsEmpty(p: Pool, runner: int, jobs: seq<Job>, broken: set<int>)
    ensures !ApplyBatch(p, runner, jobs, broken).1 ==> ApplyBatch(p, runner, jobs, broken).2 == []
    decreases |jobs|
  {
    if jobs != [] {
      BatchRejectedIsEmpty(ApplyJob(p, runner, jobs[0], broken).0, runner, jobs[1..], broken);
    }
  }

  lemma {:induction false} StageStops(refs: seq<KeyRef>, n: nat, staged: map<int, string>)
    requires n <= |refs| && Stage(refs[..n], staged) == None
    ensures Stage(refs, staged) == None
    decreases |refs| - n
  {
    if n == |refs| {
      assert refs[..n] == refs;
    } else {
      assert refs[..n + 1][..n] == refs[..n];
      StageStops(refs, n + 1, staged);
    }
  }
}
