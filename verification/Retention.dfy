/** Task retention of one template: a counter column decides when to prune, drifts because deletes
    do not touch it, and is recounted at random. */
module Retention {
  import opened Wrappers
  import opened Collections

  /** Task rows by id, holding their creation time, and the template's counter. */
  datatype Template = Template(tasks: map<int, int>, counter: int)

  function Newer(tasks: map<int, int>, t: int): set<int> {
    set i | i in tasks && tasks[i] > t
  }

  function NoOlder(tasks: map<int, int>, t: int): set<int> {
    set i | i in tasks && tasks[i] >= t
  }

  /** `t` is the creation time in row `m - 1` of the tasks ordered by creation time descending. */
  predicate IsCutoff(tasks: map<int, int>, m: nat, t: int) {
    (exists i | i in tasks :: tasks[i] == t) && |Newer(tasks, t)| < m <= |NoOlder(tasks, t)|
  }

  lemma {:induction false} Latest(tasks: map<int, int>, s: set<int>) returns (i: int)
    requires s != {} && forall x | x in s :: x in tasks
    ensures i in s && forall x | x in s :: tasks[x] <= tasks[i]
    decreases |s|
  {
    HasElement(s);
    i :| i in s;
    if s != {i} {
      assert s - {i} != {};
      var j := Latest(tasks, s - {i});
      if tasks[j] > tasks[i] {
        i := j;
      }
    }
  }

  lemma {:induction false} CutoffExists(tasks: map<int, int>, m: nat) returns (t: int)
    requires 1 <= m <= |tasks|
    ensures IsCutoff(tasks, m, t)
    decreases m
  {
    assert |tasks.Keys| == |tasks|;
    if m == 1 {
      var i := Latest(tasks, tasks.Keys);
      t := tasks[i];
      assert forall x :: x !in Newer(tasks, t);
      assert Newer(tasks, t) == {};
      assert i in NoOlder(tasks, t);
    } else {
      t := CutoffExists(tasks, m - 1);
      var kept := NoOlder(tasks, t);
      if |kept| < m {
        var rest := tasks.Keys - kept;
        assert |rest| == |tasks| - |kept|;
        var i := Latest(tasks, rest);
        assert forall x :: x in Newer(tasks, tasks[i]) <==> x in kept;
        assert Newer(tasks, tasks[i]) == kept;
        assert kept + {i} <= NoOlder(tasks, tasks[i]);
        SubsetSize(kept + {i}, NoOlder(tasks, tasks[i]));
        t := tasks[i];
      }
    }
  }

  lemma CutoffUnique(tasks: map<int, int>, m: nat, t: int, t': int)
    requires IsCutoff(tasks, m, t) && IsCutoff(tasks, m, t')
    ensures t == t'
  {
    if t < t' {
      SubsetSize(NoOlder(tasks, t'), Newer(tasks, t));
    } else if t' < t {
      SubsetSize(NoOlder(tasks, t), Newer(tasks, t'));
    }
  }

  /** SELECT created ... ORDER BY created DESC LIMIT 1 OFFSET m-1; None when there are fewer rows. */
  function Cutoff(tasks: map<int, int>, m: nat): (r: Option<int>)
    requires m >= 1
    ensures r.Some? <==> |tasks| >= m
    ensures r.Some? ==> IsCutoff(tasks, m, r.value)
  {
    if |tasks| < m then None
    else
      assert exists t :: IsCutoff(tasks, m, t) by {
        var t := CutoffExists(tasks, m);
      }
      assert forall t, t' | IsCutoff(tasks, m, t) && IsCutoff(tasks, m, t') :: t == t' by {
        forall t, t' | IsCutoff(tasks, m, t) && IsCutoff(tasks, m, t') {
          CutoffUnique(tasks, m, t, t');
        }
      }
      var t :| t in tasks.Values && IsCutoff(tasks, m, t);
      Some(t)
  }

  function Kept(tasks: map<int, int>, t: int): map<int, int> {
    map i | i in tasks && tasks[i] >= t :: tasks[i]
  }

  /** clearTasks; `recount` is the outcome of the random draw. A recount that disagrees with the
      counter stores the limit, not the true count. */
  function Clear(s: Template, m: nat, recount: bool): Template
    requires m >= 1
  {
    var counter := if recount && |s.tasks| != s.counter then m else s.counter;
    var n := if recount then |s.tasks| else s.counter;
    if n < m + m / 10 then s.(counter := counter)
    else
      match Cutoff(s.tasks, m)
      case None => s.(counter := counter)
      case Some(t) => Template(Kept(s.tasks, t), m)
  }

  function Create(s: Template, id: int, created: int, m: int, recount: bool): Template {
    var s1 := Template(s.tasks[id := created], s.counter + 1);
    if m > 0 then Clear(s1, m, recount) else s1
  }

  function Delete(s: Template, id: int): Template {
    s.(tasks := s.tasks - {id})
  }

  /** The rows in place. */
  class TaskTable {
    var tasks: map<int, int>
    var counter: int

    constructor ()
      ensures Value() == Template(map[], 0)
    {
      tasks, counter := map[], 0;
    }

    function Value(): Template
      reads this
    {
      Template(tasks, counter)
    }

    method ClearTasks(m: nat, recount: bool)
      requires m >= 1
      modifies this
      ensures Value() == Clear(old(Value()), m, recount)
    {
      var n := counter;
      if recount {
        if |tasks| != n {
          counter := m;
        }
        n := |tasks|;
      }
      if n < m + m / 10 {
        return;
      }
      var oldest := Cutoff(tasks, m);
      if oldest == None {
        return;
      }
      tasks := map i | i in tasks && tasks[i] >= oldest.value :: tasks[i];
      counter := m;
    }

    method CreateTask(id: int, created: int, m: int, recount: bool)
      modifies this
      ensures Value() == Create(old(Value()), id, created, m, recount)
    {
      tasks := tasks[id := created];
      counter := counter + 1;
      if m > 0 {
        ClearTasks(m, recount);
      }
    }

    method DeleteTaskWithOutputs(id: int)
      modifies this
      ensures Value() == Delete(old(Value()), id)
      ensures forall m: nat, k: nat :: Inv(old(Value()), m, k) ==> Inv(Value(), m, k)
    {
      tasks := tasks - {id};
      forall m: nat, k: nat | Inv(old(Value()), m, k)
        ensures Inv(Value(), m, k)
      {
        DeleteKeepsInv(old(Value()), m, k, id);
      }
    }
  }

  // --- what pruning may delete ---

  /** Whatever the counter says and however creation times tie, a task is pruned only when at least
      m strictly newer tasks stay: the m newest are never deleted. */
  lemma PrunedHasNewer(s: Template, m: nat, recount: bool, id: int)
    requires m >= 1 && id in s.tasks && id !in Clear(s, m, recount).tasks
    ensures |Newer(Clear(s, m, recount).tasks, s.tasks[id])| >= m
  {
    var t := Cutoff(s.tasks, m).value;
    var kept := Kept(s.tasks, t);
    SubsetSize(NoOlder(s.tasks, t), Newer(kept, s.tasks[id]));
  }

  /** Which tasks a prune deletes, exactly: when the number it goes by has reached the limit plus a
      tenth, those that have at least m strictly newer ones; nothing is added or changed. */
  lemma PrunesIff(s: Template, m: nat, recount: bool, id: int)
    requires m >= 1
    ensures var s' := Clear(s, m, recount);
            && (id in s'.tasks ==> id in s.tasks && s'.tasks[id] == s.tasks[id])
            && (id in s.tasks ==>
                  (id !in s'.tasks <==>
                   (if recount then |s.tasks| else s.counter) >= m + m / 10 && |Newer(s.tasks, s.tasks[id])| >= m))
  {
    assert |s.tasks.Keys| == |s.tasks|;
    if id in s.tasks {
      var newer := Newer(s.tasks, s.tasks[id]);
      if |s.tasks| < m {
        SubsetSize(newer, s.tasks.Keys);
      } else {
        var t := Cutoff(s.tasks, m).value;
        if s.tasks[id] >= t {
          SubsetSize(newer, Newer(s.tasks, t));
        } else {
          SubsetSize(NoOlder(s.tasks, t), newer);
        }
      }
    }
  }

  /** Without a limit nothing is ever pruned, and the counter counts creations. */
  lemma NoLimitKeepsAll(s: Template, id: int, created: int, m: int, recount: bool)
    requires m <= 0
    ensures Create(s, id, created, m, recount) == Template(s.tasks[id := created], s.counter + 1)
  {
  }

  /** The created task itself is never pruned at once unless m tasks are newer. */
  lemma CreatedStays(s: Template, id: int, created: int, m: int, recount: bool)
    requires id !in s.tasks && (m <= 0 || |Newer(s.tasks, created)| < m)
    ensures var s' := Create(s, id, created, m, recount); id in s'.tasks && s'.tasks[id] == created
  {
    if m > 0 {
      var s1 := Template(s.tasks[id := created], s.counter + 1);
      assert forall x :: x in Newer(s1.tasks, created) <==> x in Newer(s.tasks, created);
      assert Newer(s1.tasks, created) == Newer(s.tasks, created);
      PrunesIff(s1, m, recount, id);
    }
  }

  // --- how much a prune leaves ---

  function At(tasks: map<int, int>, t: int): set<int> {
    set i | i in tasks && tasks[i] == t
  }

  lemma NobodyAt(tasks: map<int, int>, t: int)
    requires forall i | i in tasks :: tasks[i] != t
    ensures At(tasks, t) == {}
  {
    assert forall x :: x !in At(tasks, t);
  }

  lemma CutoffIs(tasks: map<int, int>, m: nat, t: int)
    requires m >= 1 && IsCutoff(tasks, m, t)
    ensures Cutoff(tasks, m) == Some(t)
  {
    SubsetSize(NoOlder(tasks, t), tasks.Keys);
    assert |tasks.Keys| == |tasks|;
    CutoffUnique(tasks, m, t, Cutoff(tasks, m).value);
  }

  lemma KeptSize(tasks: map<int, int>, t: int)
    ensures |Kept(tasks, t)| == |NoOlder(tasks, t)| == |Newer(tasks, t)| + |At(tasks, t)|
  {
    assert Kept(tasks, t).Keys == NoOlder(tasks, t);
    assert |Kept(tasks, t).Keys| == |Kept(tasks, t)|;
    assert forall x :: x in NoOlder(tasks, t) <==> x in Newer(tasks, t) + At(tasks, t);
    assert NoOlder(tasks, t) == Newer(tasks, t) + At(tasks, t);
    assert Newer(tasks, t) !! At(tasks, t);
  }

  /** A prune leaves exactly m tasks if and only if rows m and m + 1 differ in creation time, or there
      is no row m + 1; otherwise it leaves more. */
  lemma KeepsExactlyIff(tasks: map<int, int>, m: nat)
    requires 1 <= m <= |tasks|
    ensures |Kept(tasks, Cutoff(tasks, m).value)| >= m
    ensures |Kept(tasks, Cutoff(tasks, m).value)| == m <==> Cutoff(tasks, m + 1) != Cutoff(tasks, m)
  {
    var t := Cutoff(tasks, m).value;
    KeptSize(tasks, t);
    if |NoOlder(tasks, t)| > m {
      CutoffIs(tasks, m + 1, t);
    }
  }

  /** At most k tasks share a creation time. */
  ghost predicate TiesWithin(tasks: map<int, int>, k: nat) {
    forall t :: |At(tasks, t)| <= k
  }

  lemma KeepsAtMost(tasks: map<int, int>, m: nat, k: nat)
    requires 1 <= m <= |tasks| && TiesWithin(tasks, k)
    ensures |Kept(tasks, Cutoff(tasks, m).value)| <= m + k - 1
  {
    KeptSize(tasks, Cutoff(tasks, m).value);
  }

  lemma TiesShrink(tasks: map<int, int>, fewer: map<int, int>, k: nat)
    requires TiesWithin(tasks, k) && forall i | i in fewer :: i in tasks && tasks[i] == fewer[i]
    ensures TiesWithin(fewer, k)
  {
    forall t
      ensures |At(fewer, t)| <= k
    {
      assert forall x | x in At(fewer, t) :: x in At(tasks, t);
      SubsetSize(At(fewer, t), At(tasks, t));
    }
  }

  lemma TiesGrow(tasks: map<int, int>, id: int, created: int, k: nat)
    requires TiesWithin(tasks, k) && id !in tasks && |At(tasks, created)| < k
    ensures TiesWithin(tasks[id := created], k)
  {
    var tasks' := tasks[id := created];
    forall t
      ensures |At(tasks', t)| <= k
    {
      assert forall x :: x in At(tasks', t) <==> x in At(tasks, t) || (t == created && x == id);
      assert At(tasks', t) == At(tasks, t) + if t == created then {id} else {};
    }
  }

  // --- the bound over runs ---

  datatype Action = DoCreate(id: int, created: int, recount: bool) | DoDelete(id: int)

  function Apply(s: Template, a: Action, m: nat): Template {
    match a
    case DoCreate(id, created, recount) => Create(s, id, created, m, recount)
    case DoDelete(id) => Delete(s, id)
  }

  /** A created task has a new id, and at most k tasks ever share a creation time. */
  predicate Enabled(s: Template, a: Action, k: nat) {
    a.DoCreate? ==> a.id !in s.tasks && |At(s.tasks, a.created)| < k
  }

  function Max(x: int, y: int): int {
    if x >= y then x else y
  }

  /** How far the true count may run ahead of the counter. */
  function Slack(m: nat, k: nat): int {
    Max(0, Max(m / 10, k) - 1)
  }

  function Bound(m: nat, k: nat): int {
    Max(m + k - 1, m + m / 10 - 1 + Slack(m, k))
  }

  /** With distinct creation times the bound is m + max(0, 2D - 2), where D = m / 10. */
  lemma BoundOfDistinct(m: nat)
    ensures Bound(m, 1) == m + Max(0, 2 * (m / 10) - 2)
  {
  }

  ghost predicate Inv(s: Template, m: nat, k: nat) {
    TiesWithin(s.tasks, k) && |s.tasks| - s.counter <= Slack(m, k)
  }

  lemma ClearKeepsInv(s: Template, m: nat, k: nat, recount: bool)
    requires m >= 1 && k >= 1 && Inv(s, m, k)
    ensures Inv(Clear(s, m, recount), m, k) && |Clear(s, m, recount).tasks| <= Bound(m, k)
  {
    if |s.tasks| >= m {
      KeepsAtMost(s.tasks, m, k);
      TiesShrink(s.tasks, Kept(s.tasks, Cutoff(s.tasks, m).value), k);
    }
  }

  lemma CreateKeepsInv(s: Template, m: nat, k: nat, id: int, created: int, recount: bool)
    requires m >= 1 && k >= 1 && Inv(s, m, k) && Enabled(s, DoCreate(id, created, recount), k)
    ensures Inv(Create(s, id, created, m, recount), m, k)
    ensures |Create(s, id, created, m, recount).tasks| <= Bound(m, k)
  {
    var s1 := Template(s.tasks[id := created], s.counter + 1);
    assert s1.tasks.Keys == s.tasks.Keys + {id};
    assert |s1.tasks.Keys| == |s1.tasks| && |s.tasks.Keys| == |s.tasks|;
    TiesGrow(s.tasks, id, created, k);
    ClearKeepsInv(s1, m, k, recount);
  }

  /** A delete leaves the counter alone, so it can only make the counter run ahead: the slack and the
      number of ties stay within their limits, and other tasks are untouched. */
  lemma DeleteKeepsInv(s: Template, m: nat, k: nat, id: int)
    requires Inv(s, m, k)
    ensures Inv(Delete(s, id), m, k)
    ensures |Delete(s, id).tasks| == |s.tasks| - if id in s.tasks then 1 else 0
    ensures |Delete(s, id).tasks| - Delete(s, id).counter <= |s.tasks| - s.counter
  {
    var s' := Delete(s, id);
    assert s'.tasks.Keys == s.tasks.Keys - {id};
    assert |s'.tasks.Keys| == |s'.tasks| && |s.tasks.Keys| == |s.tasks|;
    TiesShrink(s.tasks, s'.tasks, k);
  }

  predicate EnabledRun(s: Template, acts: seq<Action>, m: nat, k: nat)
    decreases |acts|
  {
    acts == [] || (Enabled(s, acts[0], k) && EnabledRun(Apply(s, acts[0], m), acts[1..], m, k))
  }

  function Run(s: Template, acts: seq<Action>, m: nat): Template
    decreases |acts|
  {
    if acts == [] then s else Run(Apply(s, acts[0], m), acts[1..], m)
  }

  predicate Creates(acts: seq<Action>) {
    exists i | 0 <= i < |acts| :: acts[i].DoCreate?
  }

  lemma CreatesLater(acts: seq<Action>)
    requires acts != [] && Creates(acts) && !acts[0].DoCreate?
    ensures Creates(acts[1..])
  {
    var i :| 0 <= i < |acts| && acts[i].DoCreate?;
    assert acts[1..][i - 1] == acts[i];
  }

  /** The retention bound: for every run of creates and deletes in which at most k tasks share a
      creation time, and every outcome of the draws, there are never more than Bound(m, k) tasks once
      a task has been created. */
  lemma {:induction false} RetentionBound(s: Template, acts: seq<Action>, m: nat, k: nat)
    requires m >= 1 && k >= 1 && Inv(s, m, k) && EnabledRun(s, acts, m, k)
    requires |s.tasks| <= Bound(m, k) || Creates(acts)
    ensures Inv(Run(s, acts, m), m, k) && |Run(s, acts, m).tasks| <= Bound(m, k)
    decreases |acts|
  {
    if acts != [] {
      match acts[0]
      case DoCreate(id, created, recount) =>
        CreateKeepsInv(s, m, k, id, created, recount);
        RetentionBound(Apply(s, acts[0], m), acts[1..], m, k);
      case DoDelete(id) =>
        DeleteKeepsInv(s, m, k, id);
        if |s.tasks| > Bound(m, k) {
          CreatesLater(acts);
        }
        RetentionBound(Apply(s, acts[0], m), acts[1..], m, k);
    }
  }

  // --- the bound is attained ---

  lemma {:induction false} RunAppend(s: Template, a: seq<Action>, b: seq<Action>, m: nat)
    ensures Run(s, a + b, m) == Run(Run(s, a, m), b, m)
    decreases |a|
  {
    if a == [] {
      assert a + b == b;
    } else {
      RunAppend(Apply(s, a[0], m), a[1..], b, m);
      assert (a + b)[1..] == a[1..] + b;
    }
  }

  lemma {:induction false} EnabledAppend(s: Template, a: seq<Action>, b: seq<Action>, m: nat, k: nat)
    requires EnabledRun(s, a, m, k) && EnabledRun(Run(s, a, m), b, m, k)
    ensures EnabledRun(s, a + b, m, k)
    decreases |a|
  {
    if a == [] {
      assert a + b == b;
    } else {
      var c := a + b;
      EnabledAppend(Apply(s, a[0], m), a[1..], b, m, k);
      assert c[0] == a[0] && c[1..] == a[1..] + b;
      assert Enabled(s, c[0], k) && EnabledRun(Apply(s, c[0], m), c[1..], m, k);
    }
  }

  lemma RunConcat(s: Template, a: seq<Action>, b: seq<Action>, m: nat, k: nat)
    requires EnabledRun(s, a, m, k) && EnabledRun(Run(s, a, m), b, m, k)
    ensures EnabledRun(s, a + b, m, k) && Run(s, a + b, m) == Run(Run(s, a, m), b, m)
  {
    RunAppend(s, a, b, m);
    EnabledAppend(s, a, b, m, k);
  }

  /** n creations with ids and times from `from` on, none recounted. */
  function Burst(from: int, n: nat): seq<Action>
    decreases n
  {
    if n == 0 then [] else [DoCreate(from, from, false)] + Burst(from + 1, n - 1)
  }

  predicate Below(s: Template, from: int) {
    forall i | i in s.tasks :: i < from && s.tasks[i] < from
  }

  lemma {:induction false} BurstFills(s: Template, m: nat, k: nat, from: int, n: nat)
    requires m >= 1 && k >= 1 && Below(s, from) && s.counter + n < m + m / 10
    ensures EnabledRun(s, Burst(from, n), m, k)
    ensures var s' := Run(s, Burst(from, n), m);
            Below(s', from + n) && |s'.tasks| == |s.tasks| + n && s'.counter == s.counter + n
            && (n > 0 ==> from in s'.tasks)
            && forall i | i in s.tasks :: i in s'.tasks
    decreases n
  {
    if n > 0 {
      var s1 := BurstStep(s, m, k, from);
      BurstFills(s1, m, k, from + 1, n - 1);
      RunCons(s, DoCreate(from, from, false), Burst(from + 1, n - 1), s1, m, k);
    }
  }

  lemma BurstStep(s: Template, m: nat, k: nat, from: int) returns (s1: Template)
    requires m >= 1 && k >= 1 && Below(s, from) && s.counter + 1 < m + m / 10
    ensures Enabled(s, DoCreate(from, from, false), k) && Apply(s, DoCreate(from, from, false), m) == s1
    ensures s1 == Template(s.tasks[from := from], s.counter + 1)
    ensures Below(s1, from + 1) && |s1.tasks| == |s.tasks| + 1
  {
    s1 := Template(s.tasks[from := from], s.counter + 1);
    assert s1.tasks.Keys == s.tasks.Keys + {from};
    assert |s1.tasks.Keys| == |s1.tasks| && |s.tasks.Keys| == |s.tasks|;
    NobodyAt(s.tasks, from);
  }

  /** One delete and one unlucky recount leave the counter D-1 behind the truth. */
  lemma RecountDrifts(m: nat, k: nat, s: Template, from: int)
    requires m >= 10 && k >= 1 && Below(s, from) && |s.tasks| == s.counter == m + m / 10 - 1 && 0 in s.tasks
    ensures var acts := [DoDelete(0), DoCreate(from, from, true)];
            EnabledRun(s, acts, m, k) && Below(Run(s, acts, m), from + 1)
            && |Run(s, acts, m).tasks| == m + m / 10 - 1 && Run(s, acts, m).counter == m
  {
    var acts := [DoDelete(0), DoCreate(from, from, true)];
    var s1 := Delete(s, 0);
    assert s1.tasks.Keys == s.tasks.Keys - {0};
    assert |s1.tasks.Keys| == |s1.tasks| && |s.tasks.Keys| == |s.tasks|;
    var t2 := s1.tasks[from := from];
    assert t2.Keys == s1.tasks.Keys + {from};
    assert |t2.Keys| == |t2|;
    NobodyAt(s1.tasks, from);
    var s2 := Create(s1, from, from, m, true);
    assert s2 == Template(t2, m);
    assert acts[1..] == [DoCreate(from, from, true)] && acts[1..][1..] == [];
    assert Run(s2, [], m) == s2 && EnabledRun(s2, [], m, k);
    assert Run(s1, acts[1..], m) == s2 && EnabledRun(s1, acts[1..], m, k);
  }

  /** Filling up to just below the pruning threshold. */
  lemma FillUp(m: nat, k: nat) returns (acts: seq<Action>)
    requires m >= 10 && k >= 1
    ensures EnabledRun(Template(map[], 0), acts, m, k)
    ensures var s := Run(Template(map[], 0), acts, m);
            Below(s, m + m / 10 - 1) && |s.tasks| == s.counter == m + m / 10 - 1 && 0 in s.tasks
  {
    acts := Burst(0, m + m / 10 - 1);
    BurstFills(Template(map[], 0), m, k, 0, m + m / 10 - 1);
  }

  /** From there the drift lets the template grow by another D-1. */
  lemma DriftAndFill(m: nat, k: nat, s: Template, from: int) returns (acts: seq<Action>)
    requires m >= 10 && k >= 1 && from == m + m / 10 - 1
    requires Below(s, from) && |s.tasks| == s.counter == from && 0 in s.tasks
    ensures EnabledRun(s, acts, m, k) && |Run(s, acts, m).tasks| == m + 2 * (m / 10) - 2
  {
    var drift := [DoDelete(0), DoCreate(from, from, true)];
    RecountDrifts(m, k, s, from);
    var s' := Run(s, drift, m);
    var fill := Burst(from + 1, m / 10 - 1);
    BurstFills(s', m, k, from + 1, m / 10 - 1);
    RunConcat(s, drift, fill, m, k);
    acts := drift + fill;
  }

  /** The bound through drift: reached when D is at least the number of ties. */
  lemma DriftAttains(m: nat, k: nat) returns (acts: seq<Action>)
    requires 1 <= k <= m / 10
    ensures EnabledRun(Template(map[], 0), acts, m, k)
    ensures |Run(Template(map[], 0), acts, m).tasks| == Bound(m, k)
  {
    var a := FillUp(m, k);
    var b := DriftAndFill(m, k, Run(Template(map[], 0), a, m), m + m / 10 - 1);
    RunConcat(Template(map[], 0), a, b, m, k);
    acts := a + b;
  }

  // --- the bound through ties ---

  function Range(a: int, b: int): (r: set<int>)
    ensures forall x :: x in r <==> a <= x < b
    ensures a <= b ==> |r| == b - a
    decreases b - a
  {
    if a >= b then {} else Range(a, b - 1) + {b - 1}
  }

  /** While the oldest instant has fewer than m newer tasks, no create prunes anything, whatever the
      counter and the draw. */
  lemma OldestInstantStays(s: Template, m: nat, id: int, created: int, oldest: int, recount: bool)
    requires m >= 1
    requires var tasks := s.tasks[id := created];
             && (exists i | i in tasks :: tasks[i] == oldest) && (forall i | i in tasks :: tasks[i] >= oldest)
             && |Newer(tasks, oldest)| < m
    ensures Create(s, id, created, m, recount).tasks == s.tasks[id := created]
    ensures recount && |s.tasks[id := created]| >= m + m / 10 ==> Create(s, id, created, m, recount).counter == m
  {
    var tasks := s.tasks[id := created];
    if |tasks| >= m {
      assert forall x :: x in NoOlder(tasks, oldest) <==> x in tasks.Keys;
      assert NoOlder(tasks, oldest) == tasks.Keys;
      assert |tasks.Keys| == |tasks|;
      CutoffIs(tasks, m, oldest);
      assert Kept(tasks, oldest) == tasks;
    }
  }

  /** k tasks at time 0, then one at each of the times 1, 2, ... */
  function TieTime(k: nat, i: int): int {
    if i < k then 0 else i - k + 1
  }

  /** The first n of these tasks, under the ids 0, 1, ... */
  ghost predicate Tied(tasks: map<int, int>, k: nat, n: nat) {
    (forall i :: i in tasks <==> 0 <= i < n) && forall i | i in tasks :: tasks[i] == TieTime(k, i)
  }

  lemma TieCount(tasks: map<int, int>, k: nat, n: nat)
    requires Tied(tasks, k, n)
    ensures |tasks| == n
  {
    assert forall x :: x in tasks.Keys <==> x in Range(0, n);
    assert tasks.Keys == Range(0, n);
    assert |tasks.Keys| == |tasks|;
  }

  lemma TieNewer(tasks: map<int, int>, k: nat, n: nat)
    requires Tied(tasks, k, n)
    ensures |Newer(tasks, 0)| == if n > k then n - k else 0
  {
    assert forall x :: x in Newer(tasks, 0) <==> x in Range(k, n);
    assert Newer(tasks, 0) == Range(k, n);
  }

  lemma TieAt(tasks: map<int, int>, k: nat, n: nat)
    requires Tied(tasks, k, n) && k >= 1
    ensures |At(tasks, TieTime(k, n))| < k
  {
    if n < k {
      assert forall x :: x in At(tasks, 0) <==> x in Range(0, n);
      assert At(tasks, 0) == Range(0, n);
    } else {
      NobodyAt(tasks, TieTime(k, n));
    }
  }

  lemma TieStep(k: nat, m: nat, s: Template, n: nat) returns (s1: Template)
    requires m >= 1 && k >= 1 && n + 1 <= m + k - 1 && Tied(s.tasks, k, n)
    ensures Enabled(s, DoCreate(n, TieTime(k, n), true), k) && Apply(s, DoCreate(n, TieTime(k, n), true), m) == s1
    ensures Tied(s1.tasks, k, n + 1)
    ensures n + 1 >= m + m / 10 ==> s1.counter == m
  {
    s1 := Create(s, n, TieTime(k, n), m, true);
    var tasks := s.tasks[n := TieTime(k, n)];
    TieAt(s.tasks, k, n);
    assert Tied(tasks, k, n + 1);
    TieCount(tasks, k, n + 1);
    TieNewer(tasks, k, n + 1);
    assert 0 in tasks && tasks[0] == 0;
    OldestInstantStays(s, m, n, TieTime(k, n), 0, true);
  }

  /** Filling up with ties until a prune that deletes nothing sets the counter back. */
  lemma {:induction false} TieFill(k: nat, m: nat, s: Template, from: nat) returns (acts: seq<Action>, s': Template)
    requires m >= 1 && k > m / 10 && from < m + k - 1 && Tied(s.tasks, k, from)
    ensures EnabledRun(s, acts, m, k) && Run(s, acts, m) == s'
    ensures Tied(s'.tasks, k, m + k - 1) && s'.counter == m
    decreases m + k - from
  {
    var s1 := TieStep(k, m, s, from);
    acts, s' := [], s1;
    if from + 1 < m + k - 1 {
      acts, s' := TieFill(k, m, s1, from + 1);
    }
    RunCons(s, DoCreate(from, TieTime(k, from), true), acts, s1, m, k);
    acts := [DoCreate(from, TieTime(k, from), true)] + acts;
  }

  lemma RunCons(s: Template, a: Action, rest: seq<Action>, s1: Template, m: nat, k: nat)
    requires Enabled(s, a, k) && Apply(s, a, m) == s1 && EnabledRun(s1, rest, m, k)
    ensures EnabledRun(s, [a] + rest, m, k) && Run(s, [a] + rest, m) == Run(s1, rest, m)
  {
    assert ([a] + rest)[1..] == rest;
  }

  /** The bound through ties: reached when more tasks share an instant than D. */
  lemma TiesAttain(m: nat, k: nat) returns (acts: seq<Action>)
    requires m >= 1 && k > m / 10
    ensures EnabledRun(Template(map[], 0), acts, m, k)
    ensures |Run(Template(map[], 0), acts, m).tasks| == Bound(m, k)
  {
    var ties, s := TieFill(k, m, Template(map[], 0), 0);
    TieCount(s.tasks, k, m + k - 1);
    var n: nat := if m / 10 >= 1 then m / 10 - 1 else 0;
    var fill := if m / 10 >= 1 then Burst(m + k - 1, n) else [];
    if m / 10 >= 1 {
      BurstFills(s, m, k, m + k - 1, n);
    }
    RunConcat(Template(map[], 0), ties, fill, m, k);
    acts := ties + fill;
  }

  /** The bound is exact: for every limit and every number of ties some run from an empty template
      reaches it. In particular no bound holds for all runs. */
  lemma BoundIsAttained(m: nat, k: nat) returns (acts: seq<Action>)
    requires m >= 1 && k >= 1
    ensures EnabledRun(Template(map[], 0), acts, m, k)
    ensures |Run(Template(map[], 0), acts, m).tasks| == Bound(m, k) >= m + k - 1
  {
    if k <= m / 10 {
      acts := DriftAttains(m, k);
    } else {
      acts := TiesAttain(m, k);
    }
  }
}
