/** The schema migration engine: versions, their order, and applying or rolling back an ordered list
    up to a target version. */
module Migration {
  import opened Wrappers
  import opened Strings
  import opened Decimal

  datatype Version = Version(major: int, minor: int, patch: int)

  /** ParseVersion: at least two dotted numbers; a missing patch counts as the largest one, and parts
      after the third are ignored. */
  function ParseVersion(text: string): Option<Version> {
    var parts := Split(text, '.');
    if |parts| < 2 then None
    else
      var major :- Atoi(parts[0]);
      var minor :- Atoi(parts[1]);
      if |parts| < 3 then Some(Version(major, minor, MAX_INT))
      else
        var patch :- Atoi(parts[2]);
        Some(Version(major, minor, patch))
  }

  function Compare(v: Version, o: Version): int {
    if v.major < o.major then -1
    else if v.major > o.major then 1
    else if v.minor < o.minor then -1
    else if v.minor > o.minor then 1
    else if v.patch < o.patch then -1
    else if v.patch > o.patch then 1
    else 0
  }

  /** Compare is a total order on versions. */
  lemma CompareIsTotalOrder(a: Version, b: Version, c: Version)
    ensures Compare(a, b) == -Compare(b, a)
    ensures Compare(a, b) == 0 <==> a == b
    ensures Compare(a, b) <= 0 && Compare(b, c) <= 0 ==> Compare(a, c) <= 0
    ensures Compare(a, b) < 0 && Compare(b, c) <= 0 ==> Compare(a, c) < 0
  {
  }

  predicate Parses(text: string) {
    ParseVersion(text).Some?
  }

  function Order(a: string, b: string): int
    requires Parses(a) && Parses(b)
  {
    Compare(ParseVersion(a).value, ParseVersion(b).value)
  }

  lemma PatchFits(text: string)
    requires Parses(text)
    ensures ParseVersion(text).value.patch <= MAX_INT
  {
  }

  /** A two-part target bounds its whole minor series: every version of the series, whatever its
      patch, is at most the target, and every version of a later series is above it. */
  lemma TwoPartBoundsSeries(major: string, minor: string, text: string)
    requires '.' !in major && '.' !in minor && Atoi(major).Some? && Atoi(minor).Some? && Parses(text)
    ensures Parses(major + "." + minor)
    ensures var v := ParseVersion(text).value;
            var (a, b) := (Atoi(major).value, Atoi(minor).value);
            Order(text, major + "." + minor) <= 0 <==> v.major < a || (v.major == a && v.minor <= b)
  {
    var target := major + "." + minor;
    assert Join([major, minor], '.') == target by {
      assert [major, minor][1..] == [minor];
    }
    SplitUndoesJoin([major, minor], '.');
    PatchFits(text);
  }

  /** Which texts parse, and as what: at least two parts, of which the first three are numbers. */
  lemma ParsesIff(parts: seq<string>)
    requires parts != [] && forall p | p in parts :: '.' !in p
    ensures Parses(Join(parts, '.')) <==>
            && |parts| >= 2 && Atoi(parts[0]).Some? && Atoi(parts[1]).Some? && (|parts| >= 3 ==> Atoi(parts[2]).Some?)
    ensures Parses(Join(parts, '.')) ==>
              var v := ParseVersion(Join(parts, '.')).value;
              && v.major == Atoi(parts[0]).value && v.minor == Atoi(parts[1]).value
              && v.patch == if |parts| >= 3 then Atoi(parts[2]).value else MAX_INT
  {
    SplitUndoesJoin(parts, '.');
  }

  // --- the engine ---

  /** A migration script: the version text it is recorded under, and the version that text parses to. */
  datatype Script = Script(text: string, version: Version)

  ghost predicate Ascending(list: seq<Script>) {
    forall i, j | 0 <= i < j < |list| :: Compare(list[i].version, list[j].version) < 0 && list[i].text != list[j].text
  }

  /** Applied versions leave no gap below them. */
  ghost predicate DownwardClosed(list: seq<Script>, applied: set<string>) {
    forall i, j | 0 <= i < j < |list| && list[j].text in applied :: list[i].text in applied
  }

  ghost function First(list: seq<Script>, n: nat): set<string>
    requires n <= |list|
  {
    set i | 0 <= i < n :: list[i].text
  }

  predicate AtMost(v: Version, target: Version) {
    Compare(v, target) <= 0
  }

  ghost function UpTo(list: seq<Script>, target: Version): set<string> {
    set i | 0 <= i < |list| && AtMost(list[i].version, target) :: list[i].text
  }

  datatype Outcome = Done | Error | Panic

  /** Which versions' queries, migrations and rollbacks fail. */
  datatype Faults = Faults(query: set<string>, apply: set<string>, rollback: set<string>)

  /** Breaking off the loop at the first version above the target is filtering by the target. */
  lemma BreakIsFilter(list: seq<Script>, n: nat, target: Version)
    requires Ascending(list) && n <= |list|
    requires n > 0 ==> AtMost(list[n - 1].version, target)
    requires n < |list| ==> !AtMost(list[n].version, target)
    ensures First(list, n) == UpTo(list, target)
  {
    forall i | 0 <= i < |list|
      ensures AtMost(list[i].version, target) <==> i < n
    {
      if i < n - 1 {
        CompareIsTotalOrder(list[i].version, list[n - 1].version, target);
      } else if i > n {
        CompareIsTotalOrder(list[n].version, list[i].version, target);
      }
    }
  }

  lemma FirstNext(list: seq<Script>, n: nat)
    requires Ascending(list) && n < |list|
    ensures First(list, n + 1) == First(list, n) + {list[n].text}
    ensures list[n].text !in First(list, n) && list[n].text in First(list, |list|)
  {
  }

  /** Adding the versions of any prefix keeps what is applied downward closed. */
  lemma PrefixKeepsClosed(list: seq<Script>, applied: set<string>, n: nat)
    requires Ascending(list) && n <= |list| && DownwardClosed(list, applied)
    ensures DownwardClosed(list, applied + First(list, n))
  {
  }

  /** Applying version i cannot go through: its status cannot be queried, or it is not applied and its
      script fails. */
  ghost predicate FailsAt(list: seq<Script>, applied: set<string>, f: Faults, i: nat)
    requires i < |list|
  {
    list[i].text in f.query || (list[i].text !in applied && list[i].text in f.apply)
  }

  class Store {
    var applied: set<string>

    constructor ()
      ensures applied == {}
    {
      applied := {};
    }

    /** The body of Migrate's loop from a version that is not above the target. */
    method ApplyOne(text: string, f: Faults) returns (ok: bool)
      modifies this
      ensures ok <==> text !in f.query && (text in old(applied) || text !in f.apply)
      ensures applied == if ok then old(applied) + {text} else old(applied)
    {
      if text in f.query {
        return false;
      }
      if text in applied {
        return true;
      }
      if text in f.apply {
        return false;
      }
      applied := applied + {text};
      return true;
    }

    /** Migrate. `target` is None without a target version, Some(None) for one that does not parse.
        Whatever happens, the versions of a prefix of the list have been added, so nothing is ever
        applied over a gap; on success that prefix is exactly the versions up to the target. */
    method Migrate(list: seq<Script>, target: Option<Option<Version>>, f: Faults) returns (r: Outcome, ghost n: nat)
      requires Ascending(list)
      modifies this
      ensures n <= |list| && applied == old(applied) + First(list, n)
      ensures DownwardClosed(list, old(applied)) ==> DownwardClosed(list, applied)
      ensures r == Panic <==> list != [] && target == Some(None)
      ensures r == Panic ==> n == 0
      ensures r == Done && target == None ==> n == |list|
      ensures r == Done && target.Some? && target.value.Some? ==>
                applied == old(applied) + UpTo(list, target.value.value)
      ensures forall i | 0 <= i < n :: !FailsAt(list, old(applied), f, i)
      ensures r == Error ==> n < |list| && FailsAt(list, old(applied), f, n)
    {
      r, n := ApplyUpTo(list, target, f);
      if DownwardClosed(list, old(applied)) {
        PrefixKeepsClosed(list, old(applied), n);
      }
    }

    /** The loop of Migrate. */
    method ApplyUpTo(list: seq<Script>, target: Option<Option<Version>>, f: Faults) returns (r: Outcome, ghost n: nat)
      requires Ascending(list)
      modifies this
      ensures n <= |list| && applied == old(applied) + First(list, n)
      ensures r == Panic <==> list != [] && target == Some(None)
      ensures r == Panic ==> n == 0
      ensures r == Done && target == None ==> n == |list|
      ensures r == Done && target.Some? && target.value.Some? ==> First(list, n) == UpTo(list, target.value.value)
      ensures forall i | 0 <= i < n :: !FailsAt(list, old(applied), f, i)
      ensures r == Error ==> n < |list| && FailsAt(list, old(applied), f, n)
    {
      n := 0;
      var i := 0;
      while i < |list|
        invariant 0 <= i <= |list| && n == i
        invariant applied == old(applied) + First(list, i)
        invariant forall j | 0 <= j < i :: !FailsAt(list, old(applied), f, j)
        invariant i > 0 && target.Some? ==> target.value.Some? && AtMost(list[i - 1].version, target.value.value)
      {
        if target.Some? {
          if target.value == None {
            return Panic, 0;
          }
          if !AtMost(list[i].version, target.value.value) {
            BreakIsFilter(list, i, target.value.value);
            return Done, i;
          }
        }
        FirstNext(list, i);
        var ok := ApplyOne(list[i].text, f);
        if !ok {
          return Error, i;
        }
        i := i + 1;
        n := i;
      }
      if target.Some? && target.value.Some? {
        BreakIsFilter(list, i, target.value.value);
      }
      return Done, n;
    }

    /** Rollback walks the list backwards; TryRollbackMigration does not report a failure. On success
        it leaves exactly what was applied up to the target if and only if no applied version above
        the target failed to roll back; and, finished or not, it leaves no gap if and only if no
        failure outlives a success below it. */
    method Rollback(list: seq<Script>, target: Option<Version>, f: Faults) returns (r: Outcome, ghost n: nat)
      requires Ascending(list)
      modifies this
      ensures n <= |list| && applied == RolledBack(list, old(applied), n, f)
      ensures r == Panic <==> list != [] && target == None
      ensures r == Panic ==> n == |list|
      ensures forall i | n <= i < |list| :: list[i].text !in f.query
      ensures r == Error ==>
                n > 0 && list[n - 1].text in f.query && target.Some? && !AtMost(list[n - 1].version, target.value)
      ensures r == Done && target.Some? ==> First(list, n) == UpTo(list, target.value)
      ensures r == Done && target.Some? && old(applied) <= First(list, |list|) ==>
                (applied == old(applied) * UpTo(list, target.value) <==>
                 forall v | v in old(applied) && v in f.rollback :: v in UpTo(list, target.value))
      ensures DownwardClosed(list, old(applied)) ==>
                (DownwardClosed(list, applied) <==> FailuresAtBottom(list, old(applied), n, f))
    {
      r, n := UndoDownTo(list, target, f);
      if DownwardClosed(list, old(applied)) {
        RollbackClosedIff(list, old(applied), n, f);
      }
      if old(applied) <= First(list, |list|) {
        RollbackIntersectsIff(list, old(applied), n, f);
      }
    }

    /** The loop of Rollback. */
    method UndoDownTo(list: seq<Script>, target: Option<Version>, f: Faults) returns (r: Outcome, ghost n: nat)
      requires Ascending(list)
      modifies this
      ensures n <= |list| && applied == RolledBack(list, old(applied), n, f)
      ensures r == Panic <==> list != [] && target == None
      ensures r == Panic ==> n == |list|
      ensures forall i | n <= i < |list| :: list[i].text !in f.query
      ensures r == Error ==>
                n > 0 && list[n - 1].text in f.query && target.Some? && !AtMost(list[n - 1].version, target.value)
      ensures r == Done && target.Some? ==> First(list, n) == UpTo(list, target.value)
    {
      n := |list|;
      var i := |list|;
      while i > 0
        invariant 0 <= i <= |list| && n == i
        invariant i < |list| ==> target.Some? && !AtMost(list[i].version, target.value)
        invariant applied == RolledBack(list, old(applied), i, f)
        invariant forall j | i <= j < |list| :: list[j].text !in f.query
      {
        if target == None {
          return Panic, i;
        }
        var v := list[i - 1];
        if AtMost(v.version, target.value) {
          BreakIsFilter(list, i, target.value);
          return Done, i;
        }
        if v.text in f.query {
          return Error, i;
        }
        RollbackNext(list, old(applied), i - 1, f);
        if v.text in applied && v.text !in f.rollback {
          applied := applied - {v.text};
        }
        i := i - 1;
        n := i;
      }
      if target.Some? {
        BreakIsFilter(list, 0, target.value);
      }
      return Done, n;
    }
  }

  // --- what a rollback leaves ---

  /** The versions of the list from position n on. */
  ghost function From(list: seq<Script>, n: nat): set<string>
    requires n <= |list|
  {
    set i | n <= i < |list| :: list[i].text
  }

  /** Versions from position n on are gone, but for those whose own rollback failed. */
  ghost function RolledBack(list: seq<Script>, applied: set<string>, n: nat, f: Faults): set<string>
    requires n <= |list|
  {
    set v | v in applied && (v !in From(list, n) || v in f.rollback)
  }

  lemma RollbackNext(list: seq<Script>, applied: set<string>, n: nat, f: Faults)
    requires Ascending(list) && n < |list|
    ensures var v := list[n].text;
            && (v in RolledBack(list, applied, n + 1, f) <==> v in applied)
            && RolledBack(list, applied, n, f)
                 == RolledBack(list, applied, n + 1, f) - if v in f.rollback then {} else {v}
  {
    assert From(list, n) == From(list, n + 1) + {list[n].text};
    assert list[n].text !in From(list, n + 1);
  }

  lemma SplitList(list: seq<Script>, n: nat)
    requires Ascending(list) && n <= |list|
    ensures First(list, |list|) == First(list, n) + From(list, n) && First(list, n) !! From(list, n)
  {
  }

  /** A rollback intersects with the versions it keeps exactly when no applied version it should have
      removed failed. */
  lemma RollbackIntersectsIff(list: seq<Script>, applied: set<string>, n: nat, f: Faults)
    requires Ascending(list) && n <= |list| && applied <= First(list, |list|)
    ensures RolledBack(list, applied, n, f) == applied * First(list, n)
       <==> forall v | v in applied && v in f.rollback :: v in First(list, n)
  {
    SplitList(list, n);
    if v :| v in applied && v in f.rollback && v !in First(list, n) {
      assert v in RolledBack(list, applied, n, f);
    } else {
      assert forall v :: v in RolledBack(list, applied, n, f) <==> v in applied * First(list, n);
    }
  }

  /** Of the applied versions from position n on, the failing ones come first. */
  ghost predicate FailuresAtBottom(list: seq<Script>, applied: set<string>, n: nat, f: Faults)
    requires n <= |list|
  {
    forall i, j | n <= i < j < |list| && list[j].text in applied && list[j].text in f.rollback ::
      list[i].text in f.rollback
  }

  lemma RollbackClosedIff(list: seq<Script>, applied: set<string>, n: nat, f: Faults)
    requires Ascending(list) && n <= |list| && DownwardClosed(list, applied)
    ensures DownwardClosed(list, RolledBack(list, applied, n, f)) <==> FailuresAtBottom(list, applied, n, f)
  {
    var left := RolledBack(list, applied, n, f);
    forall i | 0 <= i < |list|
      ensures list[i].text in left <==> list[i].text in applied && (i < n || list[i].text in f.rollback)
    {
      if i < n {
        assert list[i].text !in From(list, n);
      }
    }
  }

  /** A failed rollback that goes unnoticed: of two applied versions the upper one fails, and rolling
      both back leaves it applied over a gap. */
  lemma FailedRollbackLeavesGap(a: Script, b: Script)
    requires Ascending([a, b])
    ensures var f := Faults({}, {}, {b.text});
            && DownwardClosed([a, b], {a.text, b.text})
            && RolledBack([a, b], {a.text, b.text}, 0, f) == {b.text}
            && !DownwardClosed([a, b], {b.text})
  {
    var list, f := [a, b], Faults({}, {}, {b.text});
    assert list[0] == a && list[1] == b;
    assert a.text in From(list, 0) && b.text in From(list, 0);
    assert forall v :: v in RolledBack(list, {a.text, b.text}, 0, f) <==> v in {b.text};
    assert list[1].text in {b.text} && list[0].text !in {b.text};
  }

  // --- the shipped lists ---

  /** Each version is above the one before it. */
  predicate StepsUp(vs: seq<Version>) {
    forall i | 0 <= i < |vs| :: Small(vs[i]) && (i == 0 || Compare(vs[i - 1], vs[i]) < 0)
  }

  /** Strictly ascending step by step, by construction. */
  type Climb = vs: seq<Version> | StepsUp(vs)

  // Transcribed in runs of eight.
  const INIT_0: Climb := [
    Version(0, 0, 0), Version(1, 0, 0), Version(1, 2, 0), Version(1, 3, 0),
    Version(1, 4, 0), Version(1, 5, 0), Version(1, 6, 0), Version(1, 7, 0)]

  const INIT_1: Climb := [
    Version(1, 8, 0), Version(1, 9, 0), Version(2, 2, 1), Version(2, 3, 0),
    Version(2, 3, 1), Version(2, 3, 2), Version(2, 4, 0), Version(2, 5, 0)]

  const INIT_2: Climb := [
    Version(2, 5, 2), Version(2, 7, 1), Version(2, 7, 4), Version(2, 7, 6),
    Version(2, 7, 8), Version(2, 7, 9), Version(2, 7, 10), Version(2, 7, 12)]

  const INIT_3: Climb := [
    Version(2, 7, 13), Version(2, 8, 0), Version(2, 8, 1), Version(2, 8, 7),
    Version(2, 8, 8), Version(2, 8, 20), Version(2, 8, 25), Version(2, 8, 26)]

  const INIT_4: Climb := [
    Version(2, 8, 36), Version(2, 8, 38), Version(2, 8, 39), Version(2, 8, 40),
    Version(2, 8, 42), Version(2, 8, 51), Version(2, 8, 57), Version(2, 8, 58)]

  const INIT_5: Climb := [
    Version(2, 8, 91), Version(2, 9, 6), Version(2, 9, 46), Version(2, 9, 60),
    Version(2, 9, 61), Version(2, 9, 62), Version(2, 9, 70), Version(2, 9, 97)]

  const INIT_6: Climb := [
    Version(2, 9, 100), Version(2, 10, 12), Version(2, 10, 15), Version(2, 10, 16),
    Version(2, 10, 24), Version(2, 10, 26), Version(2, 10, 28), Version(2, 10, 33)]

  const INIT_7: Climb := [
    Version(2, 10, 46), Version(2, 11, 5), Version(2, 12, 0), Version(2, 12, 3),
    Version(2, 12, 4), Version(2, 12, 5), Version(2, 12, 15), Version(2, 13, 0)]

  const INIT_8: Climb := [
    Version(2, 14, 0), Version(2, 14, 1), Version(2, 14, 5), Version(2, 14, 7),
    Version(2, 14, 12), Version(2, 15, 0), Version(2, 15, 1)]

  /** The history before 2.15.2. */
  const INIT := INIT_0 + INIT_1 + INIT_2 + INIT_3 + INIT_4 + INIT_5 + INIT_6 + INIT_7 + INIT_8

  const COMMON_0: Climb := [
    Version(2, 15, 2), Version(2, 15, 3), Version(2, 15, 4), Version(2, 16, 0),
    Version(2, 16, 1), Version(2, 16, 2), Version(2, 16, 3), Version(2, 16, 8)]

  const COMMON_1: Climb := [
    Version(2, 16, 50), Version(2, 17, 0), Version(2, 17, 1), Version(2, 17, 2),
    Version(2, 17, 15), Version(2, 17, 16), Version(2, 17, 17), Version(2, 18, 1)]

  const COMMON_2: Climb := [
    Version(2, 18, 2), Version(2, 18, 4), Version(2, 18, 5), Version(2, 18, 6),
    Version(2, 18, 7), Version(2, 18, 15), Version(2, 19, 2), Version(2, 19, 11)]

  const COMMON_3: Climb := [
    Version(2, 19, 12), Version(2, 19, 14), Version(2, 20, 0), Version(2, 20, 1)]

  /** The scripts shared by all dialects. */
  const COMMON := COMMON_0 + COMMON_1 + COMMON_2 + COMMON_3

  function Text(v: Version): string
    requires v.major >= 0 && v.minor >= 0 && v.patch >= 0
  {
    Print(v.major) + "." + Print(v.minor) + "." + Print(v.patch)
  }

  predicate Small(v: Version) {
    0 <= v.major <= MAX_INT && 0 <= v.minor <= MAX_INT && 0 <= v.patch <= MAX_INT
  }

  ghost predicate Shipped(vs: seq<Version>) {
    && (forall i | 0 <= i < |vs| :: Small(vs[i]))
    && (forall i, j | 0 <= i < j < |vs| :: Compare(vs[i], vs[j]) < 0)
  }

  lemma Extend(a: seq<Version>, b: seq<Version>)
    requires Shipped(a) && Shipped(b) && a != [] && b != [] && Compare(a[|a| - 1], b[0]) < 0
    ensures Shipped(a + b)
  {
    forall i, j | 0 <= i < |a| && 0 <= j < |b|
      ensures Compare(a[i], b[j]) < 0
    {
      CompareIsTotalOrder(a[i], a[|a| - 1], b[0]);
      CompareIsTotalOrder(a[i], b[0], b[j]);
    }
  }

  lemma {:induction false} StepsUpIsShipped(vs: seq<Version>, n: nat)
    requires StepsUp(vs) && n <= |vs|
    ensures Shipped(vs[..n])
    ensures n == |vs| ==> Shipped(vs)
    decreases n
  {
    if n == |vs| {
      assert vs[..n] == vs;
    }
    if n == 1 {
      assert Small(vs[0]);
    } else if n > 1 {
      StepsUpIsShipped(vs, n - 1);
      assert Small(vs[n - 1]) && Compare(vs[n - 2], vs[n - 1]) < 0;
      Extend(vs[..n - 1], [vs[n - 1]]);
      assert vs[..n] == vs[..n - 1] + [vs[n - 1]];
    }
  }

  lemma InitIsShipped()
    ensures Shipped(INIT) && |INIT| > 0 && INIT[0] == INIT_0[0] && INIT[|INIT| - 1] == INIT_8[|INIT_8| - 1]
  {
    StepsUpIsShipped(INIT_0, |INIT_0|);
    StepsUpIsShipped(INIT_1, |INIT_1|);
    StepsUpIsShipped(INIT_2, |INIT_2|);
    StepsUpIsShipped(INIT_3, |INIT_3|);
    StepsUpIsShipped(INIT_4, |INIT_4|);
    StepsUpIsShipped(INIT_5, |INIT_5|);
    StepsUpIsShipped(INIT_6, |INIT_6|);
    StepsUpIsShipped(INIT_7, |INIT_7|);
    StepsUpIsShipped(INIT_8, |INIT_8|);
    Extend(INIT_0, INIT_1);
    Extend(INIT_0 + INIT_1, INIT_2);
    Extend(INIT_0 + INIT_1 + INIT_2, INIT_3);
    Extend(INIT_0 + INIT_1 + INIT_2 + INIT_3, INIT_4);
    Extend(INIT_0 + INIT_1 + INIT_2 + INIT_3 + INIT_4, INIT_5);
    Extend(INIT_0 + INIT_1 + INIT_2 + INIT_3 + INIT_4 + INIT_5, INIT_6);
    Extend(INIT_0 + INIT_1 + INIT_2 + INIT_3 + INIT_4 + INIT_5 + INIT_6, INIT_7);
    Extend(INIT_0 + INIT_1 + INIT_2 + INIT_3 + INIT_4 + INIT_5 + INIT_6 + INIT_7, INIT_8);
  }

  lemma CommonIsShipped()
    ensures Shipped(COMMON) && |COMMON| > 0 && COMMON[0] == COMMON_0[0]
              && COMMON[|COMMON| - 1] == COMMON_3[|COMMON_3| - 1]
  {
    StepsUpIsShipped(COMMON_0, |COMMON_0|);
    StepsUpIsShipped(COMMON_1, |COMMON_1|);
    StepsUpIsShipped(COMMON_2, |COMMON_2|);
    StepsUpIsShipped(COMMON_3, |COMMON_3|);
    Extend(COMMON_0, COMMON_1);
    Extend(COMMON_0 + COMMON_1, COMMON_2);
    Extend(COMMON_0 + COMMON_1 + COMMON_2, COMMON_3);
  }

  /** SQLite starts from one squashed script, the other dialects from the full history. */
  ghost function Releases(sqlite: bool): seq<Version> {
    (if sqlite then [Version(2, 15, 1)] else INIT) + COMMON
  }

  lemma ReleasesAscend(sqlite: bool)
    ensures Shipped(Releases(sqlite))
  {
    CommonIsShipped();
    InitIsShipped();
    Extend(if sqlite then [Version(2, 15, 1)] else INIT, COMMON);
  }

  ghost function GetMigrations(sqlite: bool): seq<Script> {
    ReleasesAscend(sqlite);
    var vs := Releases(sqlite);
    seq(|vs|, i requires 0 <= i < |vs| =>
        Script(if sqlite && i == 0 then Text(vs[i]) + ".sqlite" else Text(vs[i]), vs[i]))
  }

  lemma ShippedScriptParses(sqlite: bool, i: nat)
    requires i < |GetMigrations(sqlite)|
    ensures var m := GetMigrations(sqlite)[i]; ParseVersion(m.text) == Some(m.version)
  {
    ReleasesAscend(sqlite);
    ParseScriptText(Releases(sqlite)[i]);
  }

  lemma ParseScriptText(v: Version)
    requires Small(v)
    ensures ParseVersion(Text(v)) == Some(v) && ParseVersion(Text(v) + ".sqlite") == Some(v)
  {
    ParseText(v, ["sqlite"]);
    assert "." + ["sqlite"][0] == ".sqlite";
    ParseText(v, []);
    assert Text(v) + "" == Text(v);
  }

  /** Both shipped lists parse as what they are filed under and are strictly ascending, so the engine's
      laws apply to them. */
  lemma ShippedListsAscend(sqlite: bool)
    ensures Ascending(GetMigrations(sqlite))
    ensures forall i | 0 <= i < |GetMigrations(sqlite)| ::
              ParseVersion(GetMigrations(sqlite)[i].text) == Some(GetMigrations(sqlite)[i].version)
  {
    ReleasesAscend(sqlite);
    var list := GetMigrations(sqlite);
    forall i | 0 <= i < |list|
      ensures ParseVersion(list[i].text) == Some(list[i].version)
    {
      ShippedScriptParses(sqlite, i);
    }
    forall i, j | 0 <= i < j < |list|
      ensures Compare(list[i].version, list[j].version) < 0 && list[i].text != list[j].text
    {
      assert list[i].version == Releases(sqlite)[i] && list[j].version == Releases(sqlite)[j];
      assert list[i].version != list[j].version;
      assert ParseVersion(list[i].text) != ParseVersion(list[j].text);
    }
  }

  lemma PrintHasNoDot(n: nat)
    ensures '.' !in Print(n)
  {
    assert forall i | 0 <= i < |Print(n)| :: IsDigit(Print(n)[i]);
  }

  lemma JoinText(a: string, b: string, c: string, suffix: seq<string>)
    requires |suffix| <= 1
    ensures Join([a, b, c] + suffix, '.') == a + "." + b + "." + c + if suffix == [] then "" else "." + suffix[0]
  {
    var parts := [a, b, c] + suffix;
    assert parts[1..] == [b, c] + suffix;
    assert parts[1..][1..] == [c] + suffix;
    assert parts[1..][1..][1..] == suffix;
    if suffix == [] {
      assert parts == [a, b, c] && parts[1..] == [b, c];
      assert Join([c], '.') == c;
      assert Join([b, c], '.') == b + "." + c by {
        assert [b, c][1..] == [c];
      }
    } else {
      assert Join(suffix, '.') == suffix[0];
      assert Join([c] + suffix, '.') == c + "." + suffix[0];
      assert Join([b, c] + suffix, '.') == b + "." + (c + "." + suffix[0]) by {
        assert ([b, c] + suffix)[1..] == [c] + suffix;
      }
    }
  }

  lemma SplitText(v: Version, suffix: seq<string>)
    requires v.major >= 0 && v.minor >= 0 && v.patch >= 0
    requires |suffix| <= 1 && forall p | p in suffix :: '.' !in p
    ensures Split(Text(v) + if suffix == [] then "" else "." + suffix[0], '.')
              == [Print(v.major), Print(v.minor), Print(v.patch)] + suffix
  {
    PrintHasNoDot(v.major);
    PrintHasNoDot(v.minor);
    PrintHasNoDot(v.patch);
    SplitUndoesJoin([Print(v.major), Print(v.minor), Print(v.patch)] + suffix, '.');
    JoinText(Print(v.major), Print(v.minor), Print(v.patch), suffix);
  }

  /** Reading a version back from its text, with or without a further suffix part. */
  lemma ParseText(v: Version, suffix: seq<string>)
    requires 0 <= v.major <= MAX_INT && 0 <= v.minor <= MAX_INT && 0 <= v.patch <= MAX_INT
    requires |suffix| <= 1 && forall p | p in suffix :: '.' !in p
    ensures ParseVersion(Text(v) + if suffix == [] then "" else "." + suffix[0]) == Some(v)
  {
    SplitText(v, suffix);
    AtoiOfPrint(v.major);
    AtoiOfPrint(v.minor);
    AtoiOfPrint(v.patch);
  }
}
