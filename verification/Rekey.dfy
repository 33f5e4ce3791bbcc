/** The `vault rekey` command: every row in turn, then the signing key, giving up at the first failure.
    Each value is encrypted with a nonce of its own and each legacy value is tried in an order of its
    own; an explicit old key replaces the keyset for rows, and comes after it for the signing key. */
module Rekey {
  import opened Wrappers
  import opened Collections
  import opened Base64
  import opened Aead
  import opened Envelope
  import opened Keyring
  import opened Rotation
  import opened RotationGuard

  /** One row of the walk, with what chance decides for it. */
  datatype Draw = Draw(row: int, order: seq<string>, nonce: Nonce)

  ghost predicate Drawn(ks: Keyset, draws: seq<Draw>) {
    forall i | 0 <= i < |draws| :: Enumerates(draws[i].order, ks.byID)
  }

  ghost predicate Covers(draws: seq<Draw>, r: int) {
    exists i | 0 <= i < |draws| :: draws[i].row == r
  }

  function StepOf(d: Draw, oldKey: string): Action {
    RekeyRow(d.row, oldKey, d.order, d.nonce)
  }

  /** A row that cannot be decrypted or encrypted. */
  ghost predicate Fails(c: Cipher, v: Vault, oldKey: string, d: Draw)
    requires Enumerates(d.order, v.ks.byID)
  {
    && Visited(v, d.row)
    && var p := DecryptForRekey(c, v.ks, v.rows[d.row].secret.value, oldKey, d.order);
       p == None || EncryptAccessSecret(c, v.ks, p.value, d.nonce) == None
  }

  ghost function RowRekeyed(c: Cipher, v: Vault, oldKey: string, d: Draw): (v': Vault)
    requires Enumerates(d.order, v.ks.byID)
    ensures v'.ks == v.ks
  {
    if !Visited(v, d.row) then v
    else AfterRekeyRow(c, v, d.row, DecryptForRekey(c, v.ks, v.rows[d.row].secret.value, oldKey, d.order), d.nonce)
  }

  /** RekeyAccessKeys: the store it leaves, and whether it got through. */
  ghost function RekeyRows(c: Cipher, v: Vault, oldKey: string, draws: seq<Draw>): (r: (Vault, bool))
    requires Drawn(v.ks, draws)
    ensures r.0.ks == v.ks
    decreases |draws|
  {
    if draws == [] then (v, true)
    else if Fails(c, v, oldKey, draws[0]) then (v, false)
    else RekeyRows(c, RowRekeyed(c, v, oldKey, draws[0]), oldKey, draws[1..])
  }

  ghost predicate JwtFails(c: Cipher, v: Vault, oldKey: string, order: seq<string>, nonce: Nonce)
    requires Enumerates(order, v.ks.byID)
  {
    && v.jwt != ""
    && var p := DecryptJwtForRekey(c, v.ks, v.jwt, oldKey, order);
       p == None || EncryptOption(c, v.ks, p.value, nonce) == None
  }

  ghost function JwtRekeyed(c: Cipher, v: Vault, oldKey: string, order: seq<string>, nonce: Nonce): Vault
    requires Enumerates(order, v.ks.byID)
  {
    if v.jwt == "" then v else AfterRekeyJwt(c, v, DecryptJwtForRekey(c, v.ks, v.jwt, oldKey, order), nonce)
  }

  /** The whole command. */
  ghost function VaultRekey(
    c: Cipher, v: Vault, oldKey: string, draws: seq<Draw>, order: seq<string>, nonce: Nonce): (Vault, bool)
    requires Drawn(v.ks, draws) && Enumerates(order, v.ks.byID)
  {
    var (v1, ok) := RekeyRows(c, v, oldKey, draws);
    if !ok || JwtFails(c, v1, oldKey, order, nonce) then (v1, false)
    else (JwtRekeyed(c, v1, oldKey, order, nonce), true)
  }

  /** The two parts are steps of the rotation model. */
  lemma RowStepIs(c: Cipher, keys: set<Bytes>, v: Vault, oldKey: string, d: Draw)
    requires Enumerates(d.order, v.ks.byID) && InPlay(keys, oldKey)
    ensures Enabled(c, keys, v, StepOf(d, oldKey))
    ensures Apply(c, keys, v, StepOf(d, oldKey)) == RowRekeyed(c, v, oldKey, d)
  {
  }

  lemma JwtStepIs(c: Cipher, keys: set<Bytes>, v: Vault, oldKey: string, order: seq<string>, nonce: Nonce)
    requires Enumerates(order, v.ks.byID) && InPlay(keys, oldKey)
    ensures Enabled(c, keys, v, RekeyJwt(oldKey, order, nonce))
    ensures Apply(c, keys, v, RekeyJwt(oldKey, order, nonce)) == JwtRekeyed(c, v, oldKey, order, nonce)
  {
  }

  // --- one row ---

  /** A row fails exactly when an explicit old key does not open it. */
  lemma FailsIff(c: Cipher, keys: set<Bytes>, v: Vault, oldKey: string, d: Draw)
    requires Inv(c, keys, v) && Enumerates(d.order, v.ks.byID) && InPlay(keys, oldKey)
    ensures Fails(c, v, oldKey, d) <==>
            && HasSecret(v, d.row) && oldKey != ""
            && DecryptAESGCM(c, ParseEnvelope(v.rows[d.row].secret.value).ct, oldKey) == None
  {
    if HasSecret(v, d.row) {
      assert Visited(v, d.row);
      RekeyReadsOriginal(c, keys, v.ks, v.rows[d.row].secret.value, oldKey, d.order, v.plain[d.row]);
      NewValueReads(c, keys, v.ks, v.plain[d.row], d.nonce);
    }
  }

  lemma NotFailing(c: Cipher, keys: set<Bytes>, v: Vault, oldKey: string, d: Draw)
    requires Inv(c, keys, v) && Enumerates(d.order, v.ks.byID) && InPlay(keys, oldKey)
    requires Visited(v, d.row) && !Fails(c, v, oldKey, d)
    ensures DecryptForRekey(c, v.ks, v.rows[d.row].secret.value, oldKey, d.order) == Some(v.plain[d.row])
  {
    RekeyReadsOriginal(c, keys, v.ks, v.rows[d.row].secret.value, oldKey, d.order, v.plain[d.row]);
  }

  ghost predicate Restamped(v: Vault, v': Vault, r: int, s: string)
    requires r in v.rows
  {
    && s != "" && SecretKeyID(s) == v.ks.accessID
    && v' == v.(rows := v.rows[r := v.rows[r].(secret := Some(s))])
  }

  lemma AfterIs(c: Cipher, keys: set<Bytes>, v: Vault, r: int, p: Bytes, nonce: Nonce) returns (s: string)
    requires KeysetOk(c, keys, v.ks) && r in v.rows
    ensures Restamped(v, AfterRekeyRow(c, v, r, Some(p), nonce), r, s)
  {
    NewValueReads(c, keys, v.ks, p, nonce);
    s := EncryptAccessSecret(c, v.ks, p, nonce).value;
    assert SecretKeyID("") == "";
  }

  lemma StepResult(c: Cipher, keys: set<Bytes>, v: Vault, oldKey: string, d: Draw) returns (s: string)
    requires Inv(c, keys, v) && Enumerates(d.order, v.ks.byID) && InPlay(keys, oldKey) && !Fails(c, v, oldKey, d)
    ensures var v' := RowRekeyed(c, v, oldKey, d);
            if HasSecret(v, d.row) then Restamped(v, v', d.row, s) else v' == v
  {
    s := "";
    if HasSecret(v, d.row) {
      assert Visited(v, d.row);
      NotFailing(c, keys, v, oldKey, d);
      s := AfterIs(c, keys, v, d.row, v.plain[d.row], d.nonce);
    }
  }

  lemma ReplaceSecret(v: Vault, r: int, s: string)
    requires HasSecret(v, r) && s != ""
    ensures var v' := v.(rows := v.rows[r := v.rows[r].(secret := Some(s))]);
            && (forall x :: HasSecret(v', x) <==> HasSecret(v, x))
            && (forall x | HasSecret(v, x) && x != r :: v'.rows[x] == v.rows[x])
            && v'.rows[r].secret == Some(s)
  {
  }

  /** What a rekey never changes. */
  ghost predicate Keeps(v: Vault, v': Vault) {
    && v'.ks == v.ks && v'.plain == v.plain && v'.pem == v.pem && v'.projects == v.projects
    && forall x :: HasSecret(v', x) <==> HasSecret(v, x)
  }

  lemma RowKeepsInv(c: Cipher, keys: set<Bytes>, v: Vault, oldKey: string, d: Draw)
    requires Inv(c, keys, v) && Enumerates(d.order, v.ks.byID) && InPlay(keys, oldKey)
    ensures Inv(c, keys, RowRekeyed(c, v, oldKey, d))
  {
    RowStepIs(c, keys, v, oldKey, d);
    StepKeepsInv(c, keys, v, StepOf(d, oldKey));
  }

  lemma StepStamps(c: Cipher, keys: set<Bytes>, v: Vault, oldKey: string, d: Draw)
    requires Inv(c, keys, v) && Enumerates(d.order, v.ks.byID) && InPlay(keys, oldKey) && !Fails(c, v, oldKey, d)
    ensures var v' := RowRekeyed(c, v, oldKey, d);
            && Inv(c, keys, v') && Keeps(v, v') && v'.jwt == v.jwt
            && (forall x | HasSecret(v, x) && x != d.row :: v'.rows[x] == v.rows[x])
            && (HasSecret(v, d.row) ==> SecretKeyID(v'.rows[d.row].secret.value) == v.ks.accessID)
  {
    RowKeepsInv(c, keys, v, oldKey, d);
    var s := StepResult(c, keys, v, oldKey, d);
    if HasSecret(v, d.row) {
      ReplaceSecret(v, d.row, s);
    }
  }

  // --- all rows ---

  lemma CoversTail(draws: seq<Draw>, r: int)
    requires draws != [] && Covers(draws, r) && draws[0].row != r
    ensures Covers(draws[1..], r)
  {
    var i :| 0 <= i < |draws| && draws[i].row == r;
    assert draws[1..][i - 1] == draws[i];
  }

  ghost predicate Stamped(v: Vault, x: int) {
    HasSecret(v, x) && SecretKeyID(v.rows[x].secret.value) == v.ks.accessID
  }

  /** The old key opens the row, if it holds a secret. */
  ghost predicate Opened(c: Cipher, v: Vault, oldKey: string, r: int) {
    HasSecret(v, r) ==> DecryptAESGCM(c, ParseEnvelope(v.rows[r].secret.value).ct, oldKey).Some?
  }

  /** One row was restamped, if it holds a secret, and the others left alone. */
  ghost predicate Stepped(v: Vault, v': Vault, r: int) {
    && Keeps(v, v') && v'.jwt == v.jwt
    && (forall x | HasSecret(v, x) && x != r :: v'.rows[x] == v.rows[x])
    && (HasSecret(v, r) ==> Stamped(v', r))
  }

  /** One row of the walk: it gives up, or goes on from a store in which that row is restamped. */
  lemma WalkOne(c: Cipher, keys: set<Bytes>, v: Vault, oldKey: string, draws: seq<Draw>) returns (v1: Vault)
    requires Inv(c, keys, v) && Drawn(v.ks, draws) && InPlay(keys, oldKey) && draws != []
    ensures if oldKey == "" || Opened(c, v, oldKey, draws[0].row)
            then && Inv(c, keys, v1) && Stepped(v, v1, draws[0].row) && Drawn(v1.ks, draws[1..])
                 && RekeyRows(c, v, oldKey, draws) == RekeyRows(c, v1, oldKey, draws[1..])
            else RekeyRows(c, v, oldKey, draws) == (v, false)
  {
    v1 := v;
    FailsIff(c, keys, v, oldKey, draws[0]);
    if oldKey == "" || Opened(c, v, oldKey, draws[0].row) {
      v1 := RowRekeyed(c, v, oldKey, draws[0]);
      StepStamps(c, keys, v, oldKey, draws[0]);
    }
  }

  /** Finished or given up, the walk keeps every secret readable; finished, it has stamped every row it
      covers with the active key. */
  lemma {:induction false} RekeyRowsStamps(c: Cipher, keys: set<Bytes>, v: Vault, oldKey: string, draws: seq<Draw>)
    requires Inv(c, keys, v) && Drawn(v.ks, draws) && InPlay(keys, oldKey)
    ensures var (v', ok) := RekeyRows(c, v, oldKey, draws);
            && Inv(c, keys, v') && Keeps(v, v') && v'.jwt == v.jwt
            && (forall x | Stamped(v, x) :: Stamped(v', x))
            && (ok ==> forall x | HasSecret(v, x) && Covers(draws, x) :: Stamped(v', x))
    decreases |draws|
  {
    if draws != [] {
      var v1 := WalkOne(c, keys, v, oldKey, draws);
      if oldKey == "" || Opened(c, v, oldKey, draws[0].row) {
        RekeyRowsStamps(c, keys, v1, oldKey, draws[1..]);
        StampedOrCovered(v, v1, draws);
      }
    }
  }

  lemma StampedOrCovered(v: Vault, v1: Vault, draws: seq<Draw>)
    requires draws != [] && Stepped(v, v1, draws[0].row)
    ensures forall x | Stamped(v, x) :: Stamped(v1, x)
    ensures forall x | HasSecret(v, x) && Covers(draws, x) :: Stamped(v1, x) || Covers(draws[1..], x)
  {
    forall x | HasSecret(v, x) && Covers(draws, x)
      ensures Stamped(v1, x) || Covers(draws[1..], x)
    {
      if draws[0].row != x {
        CoversTail(draws, x);
      }
    }
  }

  ghost predicate AllOpened(c: Cipher, v: Vault, oldKey: string, draws: seq<Draw>) {
    forall i | 0 <= i < |draws| :: Opened(c, v, oldKey, draws[i].row)
  }

  lemma AllOpenedCons(c: Cipher, v: Vault, oldKey: string, draws: seq<Draw>)
    requires draws != []
    ensures AllOpened(c, v, oldKey, draws)
       <==> Opened(c, v, oldKey, draws[0].row) && AllOpened(c, v, oldKey, draws[1..])
  {
    assert forall i | 0 < i < |draws| :: draws[i] == draws[1..][i - 1];
  }

  lemma SameRowsSameOpened(c: Cipher, v: Vault, v': Vault, oldKey: string, draws: seq<Draw>)
    requires Keeps(v, v')
    requires forall i | 0 <= i < |draws| && HasSecret(v, draws[i].row) :: v'.rows[draws[i].row] == v.rows[draws[i].row]
    ensures AllOpened(c, v', oldKey, draws) <==> AllOpened(c, v, oldKey, draws)
  {
    assert forall i | 0 <= i < |draws| ::
             Opened(c, v', oldKey, draws[i].row) <==> Opened(c, v, oldKey, draws[i].row);
  }

  ghost predicate DistinctRows(draws: seq<Draw>) {
    forall i, j | 0 <= i < j < |draws| :: draws[i].row != draws[j].row
  }

  /** The walk gets through exactly when it decrypts by the keyset, or the old key opens every row. */
  lemma {:induction false} RekeySucceedsIff(c: Cipher, keys: set<Bytes>, v: Vault, oldKey: string, draws: seq<Draw>)
    requires Inv(c, keys, v) && Drawn(v.ks, draws) && InPlay(keys, oldKey) && DistinctRows(draws)
    ensures RekeyRows(c, v, oldKey, draws).1 <==> oldKey == "" || AllOpened(c, v, oldKey, draws)
    decreases |draws|
  {
    if draws != [] {
      var v1 := WalkOne(c, keys, v, oldKey, draws);
      if oldKey == "" || Opened(c, v, oldKey, draws[0].row) {
        OpenedAlong(c, v, v1, oldKey, draws);
        RekeySucceedsIff(c, keys, v1, oldKey, draws[1..]);
      } else {
        AllOpenedCons(c, v, oldKey, draws);
      }
    }
  }

  lemma OpenedAlong(c: Cipher, v: Vault, v1: Vault, oldKey: string, draws: seq<Draw>)
    requires draws != [] && DistinctRows(draws) && Stepped(v, v1, draws[0].row)
    ensures DistinctRows(draws[1..])
    ensures AllOpened(c, v, oldKey, draws)
       <==> Opened(c, v, oldKey, draws[0].row) && AllOpened(c, v1, oldKey, draws[1..])
  {
    AllOpenedCons(c, v, oldKey, draws);
    assert forall i | 0 <= i < |draws[1..]| :: draws[1..][i].row != draws[0].row;
    SameRowsSameOpened(c, v, v1, oldKey, draws[1..]);
  }

  // --- the signing key, and the whole command ---

  lemma JwtNeverFails(c: Cipher, keys: set<Bytes>, v: Vault, oldKey: string, order: seq<string>, nonce: Nonce)
    requires KeysetOk(c, keys, v.ks) && Enumerates(order, v.ks.byID)
    requires v.jwt != "" ==> ReadsAs(c, v.ks, v.jwt, v.pem)
    ensures !JwtFails(c, v, oldKey, order, nonce)
  {
    if v.jwt != "" {
      RekeyReadsJwt(c, keys, v.ks, v.jwt, oldKey, order, v.pem);
      NewValueReads(c, keys, v.ks, v.pem, nonce);
    }
  }

  ghost predicate JwtIsActive(v: Vault) {
    v.jwt != "" ==> ParseEnvelope(v.jwt).hasID && ParseEnvelope(v.jwt).id == ActiveOptionID(v.ks)
  }

  lemma NewJwtIsActive(c: Cipher, keys: set<Bytes>, v: Vault, p: Bytes, nonce: Nonce)
    requires KeysetOk(c, keys, v.ks)
    ensures var e := EncryptOption(c, v.ks, p, nonce); e.Some? && JwtIsActive(v.(jwt := e.value))
  {
    NewValueReads(c, keys, v.ks, p, nonce);
    EncodeUndoesParse(EncryptOption(c, v.ks, p, nonce).value);
  }

  lemma JwtStamps(c: Cipher, keys: set<Bytes>, v: Vault, oldKey: string, order: seq<string>, nonce: Nonce)
    requires KeysetOk(c, keys, v.ks) && Enumerates(order, v.ks.byID)
    requires v.jwt != "" ==> ReadsAs(c, v.ks, v.jwt, v.pem)
    ensures var v' := JwtRekeyed(c, v, oldKey, order, nonce); v' == v.(jwt := v'.jwt) && JwtIsActive(v')
  {
    if v.jwt != "" {
      RekeyReadsJwt(c, keys, v.ks, v.jwt, oldKey, order, v.pem);
      NewJwtIsActive(c, keys, v, v.pem, nonce);
    }
  }

  lemma StampedPassesGuard(v: Vault, id: string)
    requires id != "" && id in v.ks.byID && !IsActive(v.ks, id) && v.ks.accessID != ""
    requires forall x | HasSecret(v, x) :: Stamped(v, x)
    requires JwtIsActive(v)
    ensures Guard(v, id)
  {
    assert StampedRows(v, id) == {} && StampedRows(v, "") == {};
  }

  /** The documented rotation ends. Whatever the nonces, the orders and the old key, the command keeps
      every secret readable even if it gives up; without an old key it never does; and once it got
      through every row, every key that is not active passes the guard. */
  lemma RotationCompletes(
    c: Cipher, keys: set<Bytes>, v: Vault, oldKey: string, draws: seq<Draw>, order: seq<string>, nonce: Nonce)
    requires Inv(c, keys, v) && Drawn(v.ks, draws) && Enumerates(order, v.ks.byID) && InPlay(keys, oldKey)
    requires forall r | HasSecret(v, r) :: Covers(draws, r)
    ensures var (v', ok) := VaultRekey(c, v, oldKey, draws, order, nonce);
            && Inv(c, keys, v') && Keeps(v, v')
            && (oldKey == "" ==> ok)
            && (ok ==> forall id | id in v.ks.byID && !IsActive(v.ks, id) :: Guard(v', id))
  {
    var (v1, ok1) := RekeyRows(c, v, oldKey, draws);
    RekeyRowsStamps(c, keys, v, oldKey, draws);
    if oldKey == "" {
      KeysetNeverFails(c, keys, v, draws);
    }
    JwtNeverFails(c, keys, v1, oldKey, order, nonce);
    if ok1 {
      JwtStepIs(c, keys, v1, oldKey, order, nonce);
      StepKeepsInv(c, keys, v1, RekeyJwt(oldKey, order, nonce));
      JwtCompletes(c, keys, v1, oldKey, order, nonce);
    }
  }

  /** With every row stamped, rekeying the signing key leaves no retired key in use. */
  lemma JwtCompletes(c: Cipher, keys: set<Bytes>, v: Vault, oldKey: string, order: seq<string>, nonce: Nonce)
    requires KeysetOk(c, keys, v.ks) && Readable(c, v.ks, v) && Enumerates(order, v.ks.byID)
    requires forall x | HasSecret(v, x) :: Stamped(v, x)
    ensures var v' := JwtRekeyed(c, v, oldKey, order, nonce);
            Keeps(v, v') && forall id | id in v.ks.byID && !IsActive(v.ks, id) :: Guard(v', id)
  {
    var v' := JwtRekeyed(c, v, oldKey, order, nonce);
    JwtStamps(c, keys, v, oldKey, order, nonce);
    assert forall x :: HasSecret(v', x) <==> HasSecret(v, x);
    assert forall x | HasSecret(v', x) :: Stamped(v, x) && Stamped(v', x);
    forall id | id in v.ks.byID && !IsActive(v.ks, id)
      ensures Guard(v', id)
    {
      KeyIDShape(c, v.ks.byID[id]);
      StampedPassesGuard(v', id);
    }
  }

  lemma {:induction false} KeysetNeverFails(c: Cipher, keys: set<Bytes>, v: Vault, draws: seq<Draw>)
    requires Inv(c, keys, v) && Drawn(v.ks, draws)
    ensures InPlay(keys, "") && RekeyRows(c, v, "", draws).1
    decreases |draws|
  {
    assert RawKey("") == None;
    if draws != [] {
      var v1 := WalkOne(c, keys, v, "", draws);
      KeysetNeverFails(c, keys, v1, draws[1..]);
    }
  }

  // --- rekeys as runs ---

  predicate IsRekey(a: Action) {
    a.RekeyRow? || a.RekeyJwt? || a.Check?
  }

  predicate RekeyOnly(acts: seq<Action>) {
    forall i | 0 <= i < |acts| :: IsRekey(acts[i])
  }

  /** A rekey rewrites the secrets of visited rows and the signing key, and nothing else. */
  ghost predicate OnlySecrets(v: Vault, v': Vault) {
    && v'.ks == v.ks && v'.projects == v.projects && v'.rows.Keys == v.rows.Keys
    && v'.plain == v.plain && v'.pem == v.pem
    && forall r | r in v.rows ::
         v'.rows[r] == v.rows[r] || (Visited(v, r) && v'.rows[r] == v.rows[r].(secret := v'.rows[r].secret))
  }

  lemma OnlySecretsChain(v: Vault, v1: Vault, v2: Vault)
    requires OnlySecrets(v, v1) && OnlySecrets(v1, v2)
    ensures OnlySecrets(v, v2)
  {
    forall r | r in v.rows && v2.rows[r] != v.rows[r]
      ensures Visited(v, r) && v2.rows[r] == v.rows[r].(secret := v2.rows[r].secret)
    {
      if v1.rows[r] == v.rows[r] {
        assert Visited(v1, r);
      }
    }
  }

  lemma StepOnlySecrets(c: Cipher, keys: set<Bytes>, v: Vault, a: Action)
    requires Enabled(c, keys, v, a) && IsRekey(a)
    ensures OnlySecrets(v, Apply(c, keys, v, a))
  {
  }

  lemma {:induction false} RunOnlySecrets(c: Cipher, keys: set<Bytes>, v: Vault, acts: seq<Action>)
    requires EnabledRun(c, keys, v, acts) && RekeyOnly(acts)
    ensures OnlySecrets(v, Run(c, keys, v, acts))
    decreases |acts|
  {
    if acts != [] {
      var v1 := Apply(c, keys, v, acts[0]);
      assert IsRekey(acts[0]);
      StepOnlySecrets(c, keys, v, acts[0]);
      RunOnlySecrets(c, keys, v1, acts[1..]);
      OnlySecretsChain(v, v1, Run(c, keys, v, acts));
    }
  }

  lemma RunCons(c: Cipher, keys: set<Bytes>, v: Vault, a: Action, acts: seq<Action>)
    requires Enabled(c, keys, v, a) && IsRekey(a) && RekeyOnly(acts)
    requires EnabledRun(c, keys, Apply(c, keys, v, a), acts)
    ensures EnabledRun(c, keys, v, [a] + acts) && RekeyOnly([a] + acts)
    ensures Run(c, keys, v, [a] + acts) == Run(c, keys, Apply(c, keys, v, a), acts)
  {
    assert ([a] + acts)[1..] == acts;
  }

  lemma {:induction false} RowsThen(
    c: Cipher, keys: set<Bytes>, v: Vault, oldKey: string, draws: seq<Draw>, last: seq<Action>)
    returns (acts: seq<Action>)
    requires Drawn(v.ks, draws) && InPlay(keys, oldKey)
    requires RekeyOnly(last) && EnabledRun(c, keys, RekeyRows(c, v, oldKey, draws).0, last)
    ensures EnabledRun(c, keys, v, acts) && RekeyOnly(acts)
    ensures Run(c, keys, v, acts) == Run(c, keys, RekeyRows(c, v, oldKey, draws).0, last)
    decreases |draws|
  {
    if draws == [] || Fails(c, v, oldKey, draws[0]) {
      acts := last;
    } else {
      var a := StepOf(draws[0], oldKey);
      RowStepIs(c, keys, v, oldKey, draws[0]);
      acts := RowsThen(c, keys, Apply(c, keys, v, a), oldKey, draws[1..], last);
      RunCons(c, keys, v, a, acts);
      acts := [a] + acts;
    }
  }

  /** The command is a run of the rotation model, so what holds of every rekey run holds of it. */
  lemma RekeyIsRun(
    c: Cipher, keys: set<Bytes>, v: Vault, oldKey: string, draws: seq<Draw>, order: seq<string>, nonce: Nonce)
    returns (acts: seq<Action>)
    requires Drawn(v.ks, draws) && Enumerates(order, v.ks.byID) && InPlay(keys, oldKey)
    ensures EnabledRun(c, keys, v, acts) && RekeyOnly(acts)
    ensures Run(c, keys, v, acts) == VaultRekey(c, v, oldKey, draws, order, nonce).0
  {
    var (v1, ok) := RekeyRows(c, v, oldKey, draws);
    var a := RekeyJwt(oldKey, order, nonce);
    if !ok || JwtFails(c, v1, oldKey, order, nonce) {
      acts := RowsThen(c, keys, v, oldKey, draws, []);
    } else {
      JwtStepIs(c, keys, v1, oldKey, order, nonce);
      RunCons(c, keys, v1, a, []);
      acts := RowsThen(c, keys, v, oldKey, draws, [a] + []);
    }
  }
}
