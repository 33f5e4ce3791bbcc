/** The vault commands' walk over stored access keys: paging, counting for `vault check`, backup
    and rollback. */
module VaultRows {
  import opened Wrappers
  import opened Collections
  import opened Base64
  import opened Aead
  import opened Envelope
  import opened Keyring
  import opened Rotation
  import opened RotationGuard
  import opened Rekey

  /** Rows by id, and per project the order in which GetAccessKeys lists them. */
  datatype Store = Store(projects: seq<int>, rows: map<int, Row>, listing: map<int, seq<int>>)

  ghost predicate Valid(s: Store) {
    && Distinct(s.projects)
    && (forall p | p in s.projects :: p in s.listing)
    && (forall p | p in s.listing :: Distinct(s.listing[p]))
    && (forall p, r | p in s.listing && r in s.listing[p] :: r in s.rows && s.rows[r].project == p)
    && (forall r | r in s.rows :: s.rows[r].project in s.listing && r in s.listing[s.rows[r].project])
  }

  function ListedProjects(s: Store): seq<int> {
    if |s.projects| <= PROJECT_LIMIT then s.projects else s.projects[..PROJECT_LIMIT]
  }

  /** One page of a project's keys; an offset past the end gives none. */
  function GetAccessKeys(s: Store, project: int, count: nat, offset: nat): seq<int>
    requires project in s.listing
  {
    var all := s.listing[project];
    if offset >= |all| then [] else if offset + count <= |all| then all[offset..offset + count] else all[offset..]
  }

  function LocalOf(s: Store, ids: seq<int>): seq<int>
    requires forall r | r in ids :: r in s.rows
  {
    if ids == [] then []
    else
      var r := ids[|ids| - 1];
      LocalOf(s, ids[..|ids| - 1]) + if s.rows[r].local then [r] else []
  }

  function LocalKeysOf(s: Store, projects: seq<int>): seq<int>
    requires forall p | p in projects :: p in s.listing
    requires forall p, r | p in s.listing && r in s.listing[p] :: r in s.rows
  {
    if projects == [] then []
    else
      var p := projects[|projects| - 1];
      assert p in projects;
      LocalKeysOf(s, projects[..|projects| - 1]) + LocalOf(s, s.listing[p])
  }

  /** The keys the callback is to be called with, in order. */
  function LocalKeys(s: Store): seq<int>
    requires forall p | p in s.projects :: p in s.listing
    requires forall p, r | p in s.listing && r in s.listing[p] :: r in s.rows
  {
    LocalKeysOf(s, ListedProjects(s))
  }

  function LocalSet(s: Store): set<int>
    requires forall p | p in s.projects :: p in s.listing
    requires forall p, r | p in s.listing && r in s.listing[p] :: r in s.rows
  {
    set r | r in LocalKeys(s)
  }

  lemma LocalOfAppend(s: Store, ids: seq<int>, r: int)
    requires r in s.rows && forall x | x in ids :: x in s.rows
    ensures LocalOf(s, ids + [r]) == LocalOf(s, ids) + if s.rows[r].local then [r] else []
  {
    assert (ids + [r])[..|ids|] == ids;
  }

  method AppendLocal(s: Store, page: seq<int>, acc: seq<int>) returns (visited: seq<int>)
    requires forall r | r in page :: r in s.rows
    ensures visited == acc + LocalOf(s, page)
  {
    visited := acc;
    for j := 0 to |page|
      invariant visited == acc + LocalOf(s, page[..j])
    {
      assert page[..j + 1] == page[..j] + [page[j]];
      LocalOfAppend(s, page[..j], page[j]);
      if s.rows[page[j]].local {
        visited := visited + [page[j]];
      }
    }
    assert page[..|page|] == page;
  }

  lemma {:induction false} LocalOfConcat(s: Store, a: seq<int>, b: seq<int>)
    requires forall r | r in a :: r in s.rows
    requires forall r | r in b :: r in s.rows
    ensures LocalOf(s, a + b) == LocalOf(s, a) + LocalOf(s, b)
  {
    if b == [] {
      assert a + b == a;
    } else {
      var init, r := b[..|b| - 1], b[|b| - 1];
      LocalOfConcat(s, a, init);
      LocalOfAppend(s, a + init, r);
      assert a + b == a + init + [r];
    }
  }

  /** The offset loop over one project. */
  method EachOfProject(s: Store, p: int, batch: nat, acc: seq<int>) returns (visited: seq<int>)
    requires p in s.listing && batch > 0 && forall r | r in s.listing[p] :: r in s.rows
    ensures visited == acc + LocalOf(s, s.listing[p])
  {
    visited := acc;
    ghost var all := s.listing[p];
    var offset := 0;
    while true
      invariant 0 <= offset
      invariant visited == acc + LocalOf(s, all[..Min(offset, |all|)])
      decreases |all| - offset
    {
      var page := GetAccessKeys(s, p, batch, offset);
      if |page| == 0 {
        assert all[..Min(offset, |all|)] == all;
        break;
      }
      PageExtends(s, p, batch, offset);
      visited := AppendLocal(s, page, visited);
      offset := offset + batch;
    }
  }

  lemma PageExtends(s: Store, p: int, batch: nat, offset: nat)
    requires p in s.listing && offset < |s.listing[p]| && forall r | r in s.listing[p] :: r in s.rows
    ensures var all := s.listing[p];
            LocalOf(s, all[..Min(offset + batch, |all|)])
            == LocalOf(s, all[..offset]) + LocalOf(s, GetAccessKeys(s, p, batch, offset))
  {
    var all, page := s.listing[p], GetAccessKeys(s, p, batch, offset);
    assert all[..Min(offset + batch, |all|)] == all[..offset] + page;
    LocalOfConcat(s, all[..offset], page);
  }

  function Min(a: nat, b: nat): nat {
    if a <= b then a else b
  }

  /** eachLocalAccessKey: for every positive batch size it ends, having called the function with
      exactly the local keys of the listed projects, in order. */
  method EachLocalAccessKey(s: Store, batch: nat) returns (visited: seq<int>)
    requires Valid(s) && batch > 0
    ensures visited == LocalKeys(s)
  {
    visited := [];
    var projects := ListedProjects(s);
    for i := 0 to |projects|
      invariant visited == LocalKeysOf(s, projects[..i])
    {
      assert projects[..i + 1][..i] == projects[..i];
      visited := EachOfProject(s, projects[i], batch, visited);
    }
    assert projects[..|projects|] == projects;
  }

  lemma {:induction false} LocalOfSpec(s: Store, ids: seq<int>)
    requires Distinct(ids) && forall r | r in ids :: r in s.rows
    ensures Distinct(LocalOf(s, ids))
    ensures forall r :: r in LocalOf(s, ids) <==> r in ids && s.rows[r].local
  {
    if ids != [] {
      var init, r := ids[..|ids| - 1], ids[|ids| - 1];
      LocalOfSpec(s, init);
      assert ids == init + [r];
      assert r !in init;
    }
  }

  lemma {:induction false} LocalKeysOfSpec(s: Store, projects: seq<int>)
    requires Valid(s) && Distinct(projects) && forall p | p in projects :: p in s.listing
    ensures Distinct(LocalKeysOf(s, projects))
    ensures forall r :: r in LocalKeysOf(s, projects)
              <==> r in s.rows && s.rows[r].local && s.rows[r].project in projects
  {
    if projects != [] {
      var init, p := projects[..|projects| - 1], projects[|projects| - 1];
      LocalKeysOfSpec(s, init);
      LocalOfSpec(s, s.listing[p]);
      assert projects == init + [p] && p !in init;
      var a, b := LocalKeysOf(s, init), LocalOf(s, s.listing[p]);
      assert forall x, y | x in a && y in b :: x != y;
      forall i, j | 0 <= i < j < |a + b|
        ensures (a + b)[i] != (a + b)[j]
      {
        assert i < |a| <= j ==> a[i] in a && b[j - |a|] in b;
      }
    }
  }

  /** Exactly once per local key of the listed projects. */
  lemma VisitsExactlyOnce(s: Store)
    requires Valid(s)
    ensures Distinct(LocalKeys(s))
    ensures forall r :: r in LocalKeys(s) <==> r in s.rows && s.rows[r].local && s.rows[r].project in ListedProjects(s)
  {
    LocalKeysOfSpec(s, ListedProjects(s));
  }

  // --- vault check ---

  ghost predicate Represents(s: Store, v: Vault) {
    v.rows == s.rows && v.projects == s.projects
  }

  /** The id check files a row under, if it counts the row at all. */
  function StampOf(row: Row): Option<string> {
    if row.secret == None || row.secret.value == "" then None else Some(SecretKeyID(row.secret.value))
  }

  ghost function StampedAmong(s: Store, visited: seq<int>, id: string): set<int> {
    set r | r in visited && r in s.rows && StampOf(s.rows[r]) == Some(id)
  }

  predicate MissesKey(row: Row, ks: Keyset) {
    StampOf(row).Some? && StampOf(row).value != "" && StampOf(row).value !in ks.byID
  }

  function At(counts: map<string, nat>, id: string): nat {
    if id in counts then counts[id] else 0
  }

  lemma StampedStep(s: Store, visited: seq<int>, i: nat, id: string)
    requires Distinct(visited) && i < |visited| && visited[i] in s.rows
    ensures |StampedAmong(s, visited[..i + 1], id)|
         == |StampedAmong(s, visited[..i], id)| + if StampOf(s.rows[visited[i]]) == Some(id) then 1 else 0
  {
    var r := visited[i];
    assert visited[..i + 1] == visited[..i] + [r];
    assert r !in visited[..i];
    var extra := if StampOf(s.rows[r]) == Some(id) then {r} else {};
    assert StampedAmong(s, visited[..i + 1], id) == StampedAmong(s, visited[..i], id) + extra;
  }

  ghost function SecretsAmong(s: Store, visited: seq<int>): set<int> {
    set r | r in visited && r in s.rows && StampOf(s.rows[r]).Some?
  }

  ghost function MissingAmong(s: Store, ks: Keyset, visited: seq<int>): set<int> {
    set r | r in visited && r in s.rows && MissesKey(s.rows[r], ks)
  }

  lemma SecretsStep(s: Store, visited: seq<int>, i: nat)
    requires Distinct(visited) && i < |visited| && visited[i] in s.rows
    ensures |SecretsAmong(s, visited[..i + 1])|
              == |SecretsAmong(s, visited[..i])| + if StampOf(s.rows[visited[i]]).Some? then 1 else 0
  {
    var r := visited[i];
    assert visited[..i + 1] == visited[..i] + [r];
    assert r !in visited[..i];
    var extra := if StampOf(s.rows[r]).Some? then {r} else {};
    assert SecretsAmong(s, visited[..i + 1]) == SecretsAmong(s, visited[..i]) + extra;
  }

  lemma MissingStep(s: Store, ks: Keyset, visited: seq<int>, i: nat)
    requires Distinct(visited) && i < |visited| && visited[i] in s.rows
    ensures |MissingAmong(s, ks, visited[..i + 1])|
              == |MissingAmong(s, ks, visited[..i])| + if MissesKey(s.rows[visited[i]], ks) then 1 else 0
  {
    var r := visited[i];
    assert visited[..i + 1] == visited[..i] + [r];
    assert r !in visited[..i];
    var extra := if MissesKey(s.rows[r], ks) then {r} else {};
    assert MissingAmong(s, ks, visited[..i + 1]) == MissingAmong(s, ks, visited[..i]) + extra;
  }

  /** The counting loop: rows per stamped id ("" for legacy), rows in all, and rows that name a key
      that is gone. */
  method CountRows(s: Store, ks: Keyset, visited: seq<int>) returns (counts: map<string, nat>, total: nat, missing: nat)
    requires Distinct(visited) && forall j | 0 <= j < |visited| :: visited[j] in s.rows
    ensures forall id :: At(counts, id) == |StampedAmong(s, visited, id)|
    ensures total == |SecretsAmong(s, visited)|
    ensures missing == |MissingAmong(s, ks, visited)|
  {
    counts, total, missing := map[], 0, 0;
    for i := 0 to |visited|
      invariant forall id :: At(counts, id) == |StampedAmong(s, visited[..i], id)|
      invariant total == |SecretsAmong(s, visited[..i])|
      invariant missing == |MissingAmong(s, ks, visited[..i])|
    {
      forall id {
        StampedStep(s, visited, i, id);
      }
      SecretsStep(s, visited, i);
      MissingStep(s, ks, visited, i);
      var stamp := StampOf(s.rows[visited[i]]);
      if stamp == None {
        continue;
      }
      total := total + 1;
      counts := counts[stamp.value := At(counts, stamp.value) + 1];
      if stamp.value != "" && stamp.value !in ks.byID {
        missing := missing + 1;
      }
    }
    assert visited[..|visited|] == visited;
  }

  /** vault check reports the counts that the rotation guard speaks about, the number of visited
      secrets, and how many of them name a key that is gone. */
  method CheckCounts(s: Store, ks: Keyset, batch: nat, ghost v: Vault)
    returns (counts: map<string, nat>, total: nat, missing: nat)
    requires Valid(s) && batch > 0 && Represents(s, v)
    ensures forall id :: At(counts, id) == Count(v, id)
    ensures total == |set r | r in v.rows && Visited(v, r)|
    ensures missing == |set r | r in v.rows && Visited(v, r) && MissesKey(v.rows[r], ks)|
  {
    var visited := EachLocalAccessKey(s, batch);
    WalkSeesVisited(s, v);
    counts, total, missing := CountRows(s, ks, visited);
    assert forall id :: StampedAmong(s, visited, id) == StampedRows(v, id);
    assert SecretsAmong(s, visited) == set r | r in v.rows && Visited(v, r);
    assert MissingAmong(s, ks, visited) == set r | r in v.rows && Visited(v, r) && MissesKey(v.rows[r], ks);
  }

  /** The rows with a secret that the walk comes by are those the rotation model calls visited. */
  lemma WalkSeesVisited(s: Store, v: Vault)
    requires Valid(s) && Represents(s, v)
    ensures Distinct(LocalKeys(s)) && forall j | 0 <= j < |LocalKeys(s)| :: LocalKeys(s)[j] in s.rows
    ensures forall r :: Visited(v, r) <==> r in LocalKeys(s) && r in s.rows && StampOf(s.rows[r]).Some?
  {
    VisitsExactlyOnce(s);
    forall j | 0 <= j < |LocalKeys(s)|
      ensures LocalKeys(s)[j] in s.rows
    {
      var r := LocalKeys(s)[j];
      assert r in LocalKeys(s);
    }
  }

  // --- backup ---

  datatype Entry = Entry(keyID: int, secret: string)

  function BackupOf(rows: map<int, Row>, ids: seq<int>): seq<Entry>
    requires forall r | r in ids :: r in rows
  {
    if ids == [] then []
    else
      var r := ids[|ids| - 1];
      BackupOf(rows, ids[..|ids| - 1]) + if rows[r].secret == None then [] else [Entry(r, rows[r].secret.value)]
  }

  method BackupAccessKeys(s: Store, batch: nat) returns (file: seq<Entry>)
    requires Valid(s) && batch > 0
    ensures forall r | r in LocalKeys(s) :: r in s.rows
    ensures file == BackupOf(s.rows, LocalKeys(s))
  {
    VisitsExactlyOnce(s);
    var visited := EachLocalAccessKey(s, batch);
    file := AppendEntries(s.rows, visited);
  }

  method AppendEntries(rows: map<int, Row>, visited: seq<int>) returns (file: seq<Entry>)
    requires forall r | r in visited :: r in rows
    ensures file == BackupOf(rows, visited)
  {
    file := [];
    for i := 0 to |visited|
      invariant file == BackupOf(rows, visited[..i])
    {
      var r := visited[i];
      assert r in visited;
      assert visited[..i + 1][..i] == visited[..i];
      if rows[r].secret.Some? {
        file := file + [Entry(r, rows[r].secret.value)];
      }
    }
    assert visited[..|visited|] == visited;
  }

  lemma {:induction false} BackupEntries(rows: map<int, Row>, ids: seq<int>)
    requires forall r | r in ids :: r in rows
    ensures forall e :: e in BackupOf(rows, ids) <==> e.keyID in ids && rows[e.keyID].secret == Some(e.secret)
  {
    if ids != [] {
      BackupEntries(rows, ids[..|ids| - 1]);
      assert ids == ids[..|ids| - 1] + [ids[|ids| - 1]];
    }
  }

  // --- rollback ---

  /** Restoring entries one by one; an entry whose current value cannot be read (`unreadable`) stops
      the rollback with what was restored so far. */
  function Restore(rows: map<int, Row>, current: set<int>, unreadable: set<int>, file: seq<Entry>)
    : (map<int, Row>, bool)
    requires forall r | r in current :: r in rows
    decreases |file|
  {
    if file == [] then (rows, true)
    else
      var e := file[0];
      if e.keyID !in current then Restore(rows, current, unreadable, file[1..])
      else if e.keyID in unreadable then (rows, false)
      else Restore(rows[e.keyID := rows[e.keyID].(secret := Some(e.secret))], current, unreadable, file[1..])
  }

  predicate ReadableRow(c: Cipher, ks: Keyset, row: Row, order: seq<string>)
    requires forall id | id in order :: id in ks.byID
  {
    row.secret == None || row.secret.value == "" || DecryptAccessSecret(c, ks, row.secret.value, order).Some?
  }

  /** The rows whose current value reads as nothing under the keyset. */
  function Unreadable(c: Cipher, ks: Keyset, rows: map<int, Row>, order: seq<string>): set<int>
    requires forall id | id in order :: id in ks.byID
  {
    set r | r in rows && !ReadableRow(c, ks, rows[r], order)
  }

  method CanRead(c: Cipher, ks: Keyset, row: Row, candidates: seq<string>, ghost order: seq<string>) returns (ok: bool)
    requires Enumerates(order, ks.byID) && candidates == Candidates([ks.legacyAccess], MaterialsInOrder(ks, order))
    ensures ok <==> ReadableRow(c, ks, row, order)
  {
    if row.secret == None || row.secret.value == "" {
      return true;
    }
    var e := ParseEnvelope(row.secret.value);
    if e.hasID {
      return e.id in ks.byID && DecryptAESGCM(c, e.ct, ks.byID[e.id]).Some?;
    }
    var r := TrialDecrypt(c, e.ct, candidates);
    return r.Some?;
  }

  /** The rows of a live store, updated in place by rollback. */
  class LiveStore {
    var state: Store

    constructor (s: Store)
      ensures state == s
    {
      state := s;
    }

    /** rollbackAccessKeys: an entry is written back only if the row's current value can be decrypted
        and the row is not `refused` for another reason, such as an expired key. */
    method RollbackAccessKeys(c: Cipher, ks: Keyset, file: seq<Entry>, batch: nat, refused: set<int>)
      returns (ok: bool, order: seq<string>)
      requires Valid(state) && batch > 0
      modifies this
      ensures Enumerates(order, ks.byID)
      ensures state.projects == old(state.projects) && state.listing == old(state.listing)
      ensures var (was, current) := (old(state).rows, LocalSet(old(state)));
              && (forall r | r in current :: r in was)
              && (state.rows, ok) == Restore(was, current, Unreadable(c, ks, was, order) + refused, file)
    {
      var visited := EachLocalAccessKey(state, batch);
      VisitsExactlyOnce(state);
      var current := set r | r in visited;
      var was := state.rows;
      var candidates;
      candidates, order := LegacyCandidates(ks, [ks.legacyAccess]);
      ghost var unreadable := Unreadable(c, ks, was, order) + refused;
      var i := 0;
      while i < |file|
        invariant 0 <= i <= |file|
        invariant state.projects == old(state.projects) && state.listing == old(state.listing)
        invariant forall r | r in current :: r in state.rows && r in was
        invariant Restore(was, current, unreadable, file) == Restore(state.rows, current, unreadable, file[i..])
      {
        var e := file[i];
        assert file[i..][0] == e && file[i..][1..] == file[i + 1..];
        i := i + 1;
        if e.keyID !in current {
          continue;
        }
        var readable := CanRead(c, ks, was[e.keyID], candidates, order);
        if !readable || e.keyID in refused {
          return false, order;
        }
        state := state.(rows := state.rows[e.keyID := state.rows[e.keyID].(secret := Some(e.secret))]);
      }
      return true, order;
    }
  }

  /** Restoring a file in which each key occurs with one secret only. */
  lemma {:induction false} RestoreSpec(rows: map<int, Row>, current: set<int>, unreadable: set<int>, file: seq<Entry>)
    requires forall r | r in current :: r in rows
    requires forall e, e' | e in file && e' in file && e.keyID == e'.keyID :: e == e'
    ensures var (rows', ok) := Restore(rows, current, unreadable, file);
            && rows'.Keys == rows.Keys
            && (ok <==> forall e | e in file :: !(e.keyID in current && e.keyID in unreadable))
            && (ok ==> forall e | e in file && e.keyID in current ::
                  rows'[e.keyID] == rows[e.keyID].(secret := Some(e.secret)))
            && (forall r | r in rows && (r !in current || forall e | e in file :: e.keyID != r) :: rows'[r] == rows[r])
            && (forall r | r in rows ::
                  || rows'[r] == rows[r]
                  || exists e :: e in file && e.keyID == r && rows'[r] == rows[r].(secret := Some(e.secret)))
    decreases |file|
  {
    if file != [] {
      var e0 := file[0];
      assert file == [e0] + file[1..];
      if e0.keyID !in current {
        RestoreSpec(rows, current, unreadable, file[1..]);
      } else if e0.keyID !in unreadable {
        var next := rows[e0.keyID := rows[e0.keyID].(secret := Some(e0.secret))];
        RestoreSpec(next, current, unreadable, file[1..]);
      }
    }
  }

  /** The row has a backed-up value. */
  predicate BackedUp(was: map<int, Row>, ids: seq<int>, r: int) {
    r in ids && r in was && was[r].secret.Some?
  }

  /** Restoring a backup of `ids` succeeds exactly when no row to restore is unreadable, and then puts
      back every backed-up ciphertext of a current row verbatim and changes nothing else. */
  lemma RestoreOfBackup(was: map<int, Row>, ids: seq<int>, rows: map<int, Row>, current: set<int>, unreadable: set<int>)
    requires (forall r | r in ids :: r in was) && forall r | r in current :: r in rows
    ensures var (rows', ok) := Restore(rows, current, unreadable, BackupOf(was, ids));
            && (ok <==> forall r | BackedUp(was, ids, r) :: !(r in current && r in unreadable))
            && rows'.Keys == rows.Keys
            && (ok ==> forall r | r in rows ::
                  rows'[r] == if r in current && BackedUp(was, ids, r)
                              then rows[r].(secret := was[r].secret) else rows[r])
  {
    var file := BackupOf(was, ids);
    BackupEntries(was, ids);
    RestoreSpec(rows, current, unreadable, file);
    forall r | BackedUp(was, ids, r)
      ensures Entry(r, was[r].secret.value) in file
    {
    }
  }

  /** A rollback goes through exactly when every backed-up row that is still there, and holds a secret,
      reads as something under the keyset. */
  lemma RollbackSucceedsIff(
    c: Cipher, keys: set<Bytes>, ks: Keyset, order: seq<string>, was: map<int, Row>, ids: seq<int>,
    rows: map<int, Row>, current: set<int>)
    requires KeysetOk(c, keys, ks) && Enumerates(order, ks.byID)
    requires (forall r | r in ids :: r in was) && forall r | r in current :: r in rows
    ensures Restore(rows, current, Unreadable(c, ks, rows, order), BackupOf(was, ids)).1 <==>
            forall r | BackedUp(was, ids, r) && r in current && rows[r].secret.Some? && rows[r].secret.value != "" ::
              exists p :: ReadsAs(c, ks, rows[r].secret.value, p)
  {
    RestoreOfBackup(was, ids, rows, current, Unreadable(c, ks, rows, order));
    forall r | r in rows
      ensures r in Unreadable(c, ks, rows, order) <==>
              rows[r].secret.Some? && rows[r].secret.value != "" && forall p :: !ReadsAs(c, ks, rows[r].secret.value, p)
    {
      UnreadableIff(c, keys, ks, order, rows, r);
    }
  }

  lemma UnreadableIff(c: Cipher, keys: set<Bytes>, ks: Keyset, order: seq<string>, rows: map<int, Row>, r: int)
    requires KeysetOk(c, keys, ks) && Enumerates(order, ks.byID) && r in rows
    ensures r in Unreadable(c, ks, rows, order) <==>
            rows[r].secret.Some? && rows[r].secret.value != "" && forall p :: !ReadsAs(c, ks, rows[r].secret.value, p)
  {
    if rows[r].secret.Some? && rows[r].secret.value != "" {
      var s := rows[r].secret.value;
      var d := DecryptAccessSecret(c, ks, s, order);
      if d.Some? {
        AccessReads(c, keys, ks, s, order, d.value);
      }
      if p :| ReadsAs(c, ks, s, p) {
        AccessReads(c, keys, ks, s, order, p);
      }
    }
  }

  /** Backup, then anything at all, then a rollback that succeeds: every backed-up ciphertext of a
      key that is still there is back verbatim, and no other row and no other column changed. */
  lemma BackupThenRollback(before: Store, after: Store, unreadable: set<int>)
    requires Valid(before) && Valid(after)
    ensures forall r | r in LocalKeys(before) :: r in before.rows
    ensures forall r | r in LocalKeys(after) :: r in after.rows
    ensures var (rows', ok) := Restore(after.rows, LocalSet(after), unreadable,
                                       BackupOf(before.rows, LocalKeys(before)));
            ok ==> && rows'.Keys == after.rows.Keys
                   && forall r | r in after.rows ::
                        rows'[r] == if r in LocalKeys(after) && BackedUp(before.rows, LocalKeys(before), r)
                                    then after.rows[r].(secret := before.rows[r].secret)
                                    else after.rows[r]
  {
    VisitsExactlyOnce(before);
    VisitsExactlyOnce(after);
    RestoreOfBackup(before.rows, LocalKeys(before), after.rows, LocalSet(after), unreadable);
  }

  // --- backup, rekey, rollback ---

  /** The stores differ in secrets only. */
  ghost predicate SamePlaces(s: Store, s': Store) {
    && s'.projects == s.projects && s'.listing == s.listing && s'.rows.Keys == s.rows.Keys
    && forall r | r in s.rows :: s'.rows[r].project == s.rows[r].project && s'.rows[r].local == s.rows[r].local
  }

  lemma SamePlacesValid(s: Store, s': Store)
    requires Valid(s) && SamePlaces(s, s')
    ensures Valid(s')
  {
  }

  lemma SamePlacesSameKeys(s: Store, s': Store)
    requires Valid(s) && Valid(s') && SamePlaces(s, s')
    ensures forall r :: r in LocalKeys(s') <==> r in LocalKeys(s)
  {
    VisitsExactlyOnce(s);
    VisitsExactlyOnce(s');
  }

  lemma RestoredRow(was: Row, now: Row)
    requires now == was || now == was.(secret := now.secret)
    ensures was.secret.Some? ==> now.(secret := was.secret) == was
  {
  }

  /** Rolling `after` back with the backup of `before` succeeds and gives the rows of `before`. */
  ghost predicate RollsBack(c: Cipher, ks: Keyset, order: seq<string>, before: Store, after: Store) {
    && Valid(before) && Valid(after) && Enumerates(order, ks.byID)
    && (forall r | r in LocalKeys(before) :: r in before.rows) && (forall r | r in LocalSet(after) :: r in after.rows)
    && Restore(after.rows, LocalSet(after), Unreadable(c, ks, after.rows, order),
               BackupOf(before.rows, LocalKeys(before)))
       == (before.rows, true)
  }

  ghost predicate LocalReadable(c: Cipher, ks: Keyset, rows: map<int, Row>, order: seq<string>) {
    Enumerates(order, ks.byID) && forall r | r in rows && rows[r].local :: r !in Unreadable(c, ks, rows, order)
  }

  /** Under a usable keyset that reads every secret no local row is unreadable. */
  lemma ReadableIsLocal(c: Cipher, keys: set<Bytes>, ks: Keyset, v: Vault, order: seq<string>)
    requires KeysetOk(c, keys, ks) && Readable(c, ks, v) && Enumerates(order, ks.byID)
    ensures LocalReadable(c, ks, v.rows, order)
  {
    forall r | r in v.rows && v.rows[r].local
      ensures r !in Unreadable(c, ks, v.rows, order)
    {
      if HasSecret(v, r) {
        AccessReads(c, keys, ks, v.rows[r].secret.value, order, v.plain[r]);
      }
    }
  }

  /** Secrets of local keys were rewritten, where there were any. */
  ghost predicate Rewritten(s: Store, s': Store)
    requires Valid(s)
  {
    && SamePlaces(s, s')
    && forall r | r in s.rows ::
         || s'.rows[r] == s.rows[r]
         || (r in LocalKeys(s) && s.rows[r].secret.Some? && s'.rows[r] == s.rows[r].(secret := s'.rows[r].secret))
  }

  lemma RekeyRewrites(s: Store, v: Vault, v': Vault)
    requires Valid(s) && Represents(s, v) && OnlySecrets(v, v')
    ensures Rewritten(s, s.(rows := v'.rows))
  {
    VisitedAreListed(s, v);
  }

  lemma RollbackUndoes(c: Cipher, ks: Keyset, order: seq<string>, before: Store, after: Store)
    requires Valid(before) && Valid(after) && Rewritten(before, after) && LocalReadable(c, ks, after.rows, order)
    ensures RollsBack(c, ks, order, before, after)
  {
    LocalsAre(before);
    LocalsAre(after);
    SamePlacesSameKeys(before, after);
    RestoredIsOriginal(before.rows, LocalKeys(before), after.rows, LocalSet(after),
                       Unreadable(c, ks, after.rows, order));
  }

  /** Rolling back after a rewrite of readable secrets, with the vaults the stores represent. */
  lemma RollbackUndoesRewrite(c: Cipher, ks: Keyset, order: seq<string>, before: Store, v: Vault, v': Vault)
    requires Valid(before) && Represents(before, v) && OnlySecrets(v, v') && LocalReadable(c, ks, v'.rows, order)
    ensures RollsBack(c, ks, order, before, before.(rows := v'.rows))
  {
    var after := before.(rows := v'.rows);
    RekeyRewrites(before, v, v');
    SamePlacesValid(before, after);
    RollbackUndoes(c, ks, order, before, after);
  }

  lemma LocalsAre(s: Store)
    requires Valid(s)
    ensures forall r | r in LocalKeys(s) :: r in s.rows && s.rows[r].local
    ensures forall r :: r in LocalSet(s) <==> r in LocalKeys(s)
  {
    VisitsExactlyOnce(s);
  }

  lemma VisitedAreListed(s: Store, v: Vault)
    requires Valid(s) && Represents(s, v)
    ensures forall r | Visited(v, r) :: r in LocalKeys(s) && s.rows[r].secret.Some?
  {
    VisitsExactlyOnce(s);
  }

  lemma RekeyRunReads(c: Cipher, keys: set<Bytes>, v: Vault, acts: seq<Action>, order: seq<string>)
    requires Inv(c, keys, v) && EnabledRun(c, keys, v, acts) && RekeyOnly(acts) && Enumerates(order, v.ks.byID)
    ensures var v' := Run(c, keys, v, acts);
            OnlySecrets(v, v') && Inv(c, keys, v') && LocalReadable(c, v.ks, v'.rows, order)
  {
    RunKeepsInv(c, keys, v, acts);
    RunOnlySecrets(c, keys, v, acts);
    ReadableIsLocal(c, keys, v.ks, Run(c, keys, v, acts), order);
  }

  /** The documented safety net: back up, rekey, roll back. Whatever rows and signing keys were rekeyed,
      finished or given up, with whatever old keys, orders and nonces, the rollback succeeds in every
      order of the registry and the table is what it was. */
  lemma RollbackUndoesRekey(
    c: Cipher, keys: set<Bytes>, before: Store, v: Vault, acts: seq<Action>, order: seq<string>)
    requires Valid(before) && Represents(before, v)
    requires Inv(c, keys, v) && EnabledRun(c, keys, v, acts) && RekeyOnly(acts) && Enumerates(order, v.ks.byID)
    ensures RollsBack(c, v.ks, order, before, before.(rows := Run(c, keys, v, acts).rows))
  {
    RekeyRunReads(c, keys, v, acts, order);
    RollbackUndoesRewrite(c, v.ks, order, before, v, Run(c, keys, v, acts));
  }

  // --- rollback after a removal ---

  /** The values of `v` that the key `id` opens. */
  ghost predicate NeedsKey(c: Cipher, v: Vault, id: string, r: int) {
    HasSecret(v, r) && r in v.plain && OpensUnder(c, v.ks, v.rows[r].secret.value, id, v.plain[r])
  }

  lemma RemovalLosesExactly(c: Cipher, keys: set<Bytes>, v: Vault, id: string)
    requires Inv(c, keys, v) && id in v.ks.byID && !IsActive(v.ks, id)
    ensures forall r | HasSecret(v, r) ::
              ReadsAs(c, RemoveKey(c, v.ks, id), v.rows[r].secret.value, v.plain[r]) <==> !NeedsKey(c, v, id, r)
  {
    forall r | HasSecret(v, r)
      ensures ReadsAs(c, RemoveKey(c, v.ks, id), v.rows[r].secret.value, v.plain[r]) <==> !NeedsKey(c, v, id, r)
    {
      RemovalReadsIff(c, keys, v.ks, v.rows[r].secret.value, v.plain[r], id);
    }
  }

  lemma RestoredTableReads(c: Cipher, ks: Keyset, v: Vault, v': Vault)
    requires OnlySecrets(v, v') && Readable(c, ks, v') && forall r | HasSecret(v, r) :: r in v.plain
    ensures Readable(c, ks, v'.(rows := v.rows))
       <==> forall r | HasSecret(v, r) :: ReadsAs(c, ks, v.rows[r].secret.value, v.plain[r])
  {
    assert forall r :: HasSecret(v'.(rows := v.rows), r) <==> HasSecret(v, r);
  }

  lemma RemovalIsOk(c: Cipher, keys: set<Bytes>, ks: Keyset, id: string)
    requires KeysetOk(c, keys, ks) && id in ks.byID && !IsActive(ks, id)
    ensures KeysetOk(c, keys, RemoveKey(c, ks, id))
  {
    RemovalIsUsable(c, keys, ks, id);
  }

  /** A removal whose guard passed after a rekey run: everything is readable, and the stores that a
      rollback starts from are too. */
  lemma RemovedReads(c: Cipher, keys: set<Bytes>, v: Vault, acts: seq<Action>, id: string, order: seq<string>)
    requires Inv(c, keys, v) && EnabledRun(c, keys, v, acts) && RekeyOnly(acts) && Guard(Run(c, keys, v, acts), id)
    requires Enumerates(order, RemoveKey(c, v.ks, id).byID)
    ensures var (v', ks) := (Run(c, keys, v, acts), RemoveKey(c, v.ks, id));
            && OnlySecrets(v, v') && SafeRemoval(c, v', id) && LocalReadable(c, ks, v'.rows, order)
  {
    var v' := Run(c, keys, v, acts);
    RunKeepsInv(c, keys, v, acts);
    RunOnlySecrets(c, keys, v, acts);
    GuardSuffices(c, keys, v', id);
    RemovalIsOk(c, keys, v.ks, id);
    ReadableIsLocal(c, keys, RemoveKey(c, v.ks, id), v', order);
  }

  /** What a restored table is worth under the reduced keyset. */
  ghost predicate LosesExactly(c: Cipher, v: Vault, v': Vault, id: string) {
    var ks := RemoveKey(c, v.ks, id);
    && (forall r | HasSecret(v, r) ::
          r in v.plain && (ReadsAs(c, ks, v.rows[r].secret.value, v.plain[r]) <==> !NeedsKey(c, v, id, r)))
    && (Readable(c, ks, v'.(rows := v.rows)) <==> forall r | HasSecret(v, r) :: !NeedsKey(c, v, id, r))
  }

  lemma RestoredLosesExactly(c: Cipher, keys: set<Bytes>, v: Vault, v': Vault, id: string)
    requires Inv(c, keys, v) && OnlySecrets(v, v') && SafeRemoval(c, v', id)
    requires id in v.ks.byID && !IsActive(v.ks, id)
    ensures LosesExactly(c, v, v', id)
  {
    RemovalLosesExactly(c, keys, v, id);
    RestoredTableReads(c, RemoveKey(c, v.ks, id), v, v');
  }

  /** A backup outlives the guard. After any rekey run, and the removal of a key whose guard passed,
      everything is readable. Rolling the whole backup back then always reports success, restores the
      table, and loses exactly the values that the removed key opens, stamped or legacy. */
  lemma RollbackAfterRemoval(
    c: Cipher, keys: set<Bytes>, before: Store, v: Vault, acts: seq<Action>, id: string, order: seq<string>)
    requires Valid(before) && Represents(before, v) && Inv(c, keys, v)
    requires EnabledRun(c, keys, v, acts) && RekeyOnly(acts) && Guard(Run(c, keys, v, acts), id)
    requires Enumerates(order, RemoveKey(c, v.ks, id).byID)
    ensures var v' := Run(c, keys, v, acts);
            && SafeRemoval(c, v', id)
            && RollsBack(c, RemoveKey(c, v.ks, id), order, before, before.(rows := v'.rows))
            && LosesExactly(c, v, v', id)
  {
    RemovedReads(c, keys, v, acts, id, order);
    RestoredLosesExactly(c, keys, v, Run(c, keys, v, acts), id);
    RollbackUndoesRewrite(c, RemoveKey(c, v.ks, id), order, before, v, Run(c, keys, v, acts));
  }

  /** The same for the command: rekey every row and the signing key, with or without an old key; if it
      got through, remove any retired key, and roll back. */
  lemma RollbackAfterRotation(
    c: Cipher, keys: set<Bytes>, before: Store, v: Vault, oldKey: string, draws: seq<Draw>, order: seq<string>,
    nonce: Nonce, id: string, order': seq<string>)
    requires Valid(before) && Represents(before, v) && Inv(c, keys, v)
    requires Drawn(v.ks, draws) && Enumerates(order, v.ks.byID) && InPlay(keys, oldKey)
    requires forall r | HasSecret(v, r) :: Covers(draws, r)
    requires VaultRekey(c, v, oldKey, draws, order, nonce).1
    requires id in v.ks.byID && !IsActive(v.ks, id) && Enumerates(order', RemoveKey(c, v.ks, id).byID)
    ensures var v' := VaultRekey(c, v, oldKey, draws, order, nonce).0;
            && Guard(v', id) && SafeRemoval(c, v', id)
            && RollsBack(c, RemoveKey(c, v.ks, id), order', before, before.(rows := v'.rows))
            && LosesExactly(c, v, v', id)
  {
    RotationCompletes(c, keys, v, oldKey, draws, order, nonce);
    var acts := RekeyIsRun(c, keys, v, oldKey, draws, order, nonce);
    RollbackAfterRemoval(c, keys, before, v, acts, id, order');
  }

  lemma RestoredIsOriginal(
    was: map<int, Row>, ids: seq<int>, rows: map<int, Row>, current: set<int>, unreadable: set<int>)
    requires (forall r | r in ids :: r in was) && (forall r | r in current :: r in rows) && rows.Keys == was.Keys
    requires forall r :: r in current <==> r in ids
    requires forall r | r in current :: r !in unreadable
    requires forall r | r in was ::
               rows[r] == was[r] || (r in ids && was[r].secret.Some? && rows[r] == was[r].(secret := rows[r].secret))
    ensures Restore(rows, current, unreadable, BackupOf(was, ids)) == (was, true)
  {
    RestoreOfBackup(was, ids, rows, current, unreadable);
    var (rows', ok) := Restore(rows, current, unreadable, BackupOf(was, ids));
    forall r | r in was
      ensures rows'[r] == was[r]
    {
      RestoredRow(was[r], rows[r]);
    }
    assert rows' == was;
  }
}
