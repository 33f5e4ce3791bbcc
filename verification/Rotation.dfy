/** Key rotation over a live store: writes, hot reloads, rekey, check and key removal interleave in
    any order. `vault check` and the later removal are separate steps, so a removal acts on a report
    that may be stale by then. */
module Rotation {
  import opened Wrappers
  import opened Collections
  import opened Base64
  import opened Aead
  import opened Envelope
  import opened Keyring

  /** GetAllProjects returns at most this many projects, ordered by name. */
  const PROJECT_LIMIT := 200

  datatype Row = Row(project: int, local: bool, secret: Option<string>)

  /** The store, the installed keyset, the ids an operator has been told are removable, and the
      plaintexts that were last written. */
  datatype Vault = Vault(
    projects: seq<int>,
    rows: map<int, Row>,
    jwt: string,
    ks: Keyset,
    cleared: set<string>,
    plain: map<int, Bytes>,
    pem: Bytes)

  ghost predicate HasSecret(v: Vault, r: int) {
    r in v.rows && v.rows[r].local && v.rows[r].secret.Some? && v.rows[r].secret.value != ""
  }

  ghost function Listed(v: Vault): seq<int> {
    if |v.projects| <= PROJECT_LIMIT then v.projects else v.projects[..PROJECT_LIMIT]
  }

  /** Rows that check and rekey get to see. */
  ghost predicate Visited(v: Vault, r: int) {
    HasSecret(v, r) && v.rows[r].project in Listed(v)
  }

  ghost predicate AllListed(v: Vault) {
    |v.projects| <= PROJECT_LIMIT && forall r | r in v.rows :: v.rows[r].project in v.projects
  }

  // --- vault check ---

  ghost function StampedRows(v: Vault, id: string): set<int> {
    set r | r in v.rows && Visited(v, r) && SecretKeyID(v.rows[r].secret.value) == id
  }

  ghost function Count(v: Vault, id: string): nat {
    |StampedRows(v, id)|
  }

  ghost function JwtSlot(v: Vault): Slot {
    if v.jwt == "" then NotSet else Classify(v.ks, v.jwt, ActiveOptionID(v.ks))
  }

  predicate IsActive(ks: Keyset, id: string) {
    id != "" && (id == ks.accessID || id == ActiveOptionID(ks))
  }

  /** The line check prints as "0 rows - retired, SAFE TO REMOVE". */
  ghost predicate SafeToRemove(v: Vault, id: string) {
    id != "" && id in v.ks.byID && !IsActive(v.ks, id) && Count(v, id) == 0
  }

  /** What an operator must read off the whole report before removing a key: that line, no legacy
      rows, and a JWT slot that is neither legacy nor pending on this key. */
  ghost predicate Guard(v: Vault, id: string) {
    SafeToRemove(v, id) && Count(v, "") == 0 && JwtSlot(v) != Legacy && JwtSlot(v) != RekeyPending(id)
  }

  // --- steps ---

  datatype Action =
    | WriteSecret(row: int, project: int, plaintext: Bytes, nonce: Nonce)
    | DeleteRow(row: int)
    | SetProjects(projects: seq<int>)
    | LoadOrCreateJwt(pem: Bytes, nonce: Nonce)
    | RekeyRow(row: int, oldKey: string, order: seq<string>, nonce: Nonce)
    | RekeyJwt(oldKey: string, order: seq<string>, nonce: Nonce)
    | Check
    | Reload(ks: Keyset)

  ghost function DecryptForRekey(c: Cipher, ks: Keyset, stored: string, oldKey: string, order: seq<string>)
    : Option<Bytes>
    requires forall id | id in order :: id in ks.byID
  {
    if oldKey == "" then DecryptAccessSecret(c, ks, stored, order)
    else DecryptAESGCM(c, ParseEnvelope(stored).ct, oldKey)
  }

  ghost function DecryptJwtForRekey(c: Cipher, ks: Keyset, stored: string, oldKey: string, order: seq<string>)
    : Option<Bytes>
    requires forall id | id in order :: id in ks.byID
  {
    var r := DecryptOption(c, ks, stored, order);
    if r == None && oldKey != "" then DecryptAESGCM(c, ParseEnvelope(stored).ct, oldKey) else r
  }

  /** What may happen: nonces and orders are arbitrary, keys come from the keys in play, projects
      stay within the limit, and a reload installs a well-formed keyset that keeps an active access
      key and drops only cleared ids. */
  ghost predicate Enabled(c: Cipher, keys: set<Bytes>, v: Vault, a: Action) {
    match a
    case WriteSecret(_, project, _, _) => project in v.projects
    case SetProjects(projects) => |projects| <= PROJECT_LIMIT && forall r | r in v.rows :: v.rows[r].project in projects
    case RekeyRow(_, oldKey, order, _) => Enumerates(order, v.ks.byID) && InPlay(keys, oldKey)
    case RekeyJwt(oldKey, order, _) => Enumerates(order, v.ks.byID) && InPlay(keys, oldKey)
    case Reload(ks) =>
      && WellFormed(c, ks) && KeysWithin(ks, keys) && ks.accessID != ""
      && v.ks.byID.Keys - ks.byID.Keys <= v.cleared
    case _ => true
  }

  ghost predicate InPlay(keys: set<Bytes>, material: string) {
    RawKey(material).Some? ==> RawKey(material).value in keys
  }

  /** Re-encryption of a decrypted row; a failure on either side leaves it as it is. */
  ghost function AfterRekeyRow(c: Cipher, v: Vault, r: int, d: Option<Bytes>, nonce: Nonce): Vault
    requires r in v.rows
  {
    if d == None then v
    else
      var e := EncryptAccessSecret(c, v.ks, d.value, nonce);
      if e == None then v else v.(rows := v.rows[r := v.rows[r].(secret := e)])
  }

  ghost function AfterRekeyJwt(c: Cipher, v: Vault, d: Option<Bytes>, nonce: Nonce): Vault {
    if d == None then v
    else
      var e := EncryptOption(c, v.ks, d.value, nonce);
      if e == None then v else v.(jwt := e.value)
  }

  /** One step; an operation that fails leaves the store as it is. */
  ghost function Apply(c: Cipher, keys: set<Bytes>, v: Vault, a: Action): Vault
    requires Enabled(c, keys, v, a)
  {
    match a
    case WriteSecret(r, project, p, nonce) =>
      var e := EncryptAccessSecret(c, v.ks, p, nonce);
      if e == None then v else v.(rows := v.rows[r := Row(project, true, e)], plain := v.plain[r := p])
    case DeleteRow(r) => v.(rows := v.rows - {r}, plain := v.plain - {r})
    case SetProjects(projects) => v.(projects := projects)
    case LoadOrCreateJwt(pem, nonce) =>
      var e := EncryptOption(c, v.ks, pem, nonce);
      if v.jwt != "" || e == None then v else v.(jwt := e.value, pem := pem)
    case RekeyRow(r, oldKey, order, nonce) =>
      if !Visited(v, r) then v
      else AfterRekeyRow(c, v, r, DecryptForRekey(c, v.ks, v.rows[r].secret.value, oldKey, order), nonce)
    case RekeyJwt(oldKey, order, nonce) =>
      if v.jwt == "" then v else AfterRekeyJwt(c, v, DecryptJwtForRekey(c, v.ks, v.jwt, oldKey, order), nonce)
    case Check => v.(cleared := set id | id in v.ks.byID && Guard(v, id))
    case Reload(ks) => v.(ks := ks, cleared := v.cleared - {ks.accessID, ActiveOptionID(ks)})
  }

  // --- the invariant ---

  /** Every stored secret still opens to what was written. */
  ghost predicate Readable(c: Cipher, ks: Keyset, v: Vault) {
    && (forall r | HasSecret(v, r) :: r in v.plain && ReadsAs(c, ks, v.rows[r].secret.value, v.plain[r]))
    && (v.jwt != "" ==> ReadsAs(c, ks, v.jwt, v.pem))
  }

  /** No stored value, visible to check or not, needs this key. */
  ghost predicate Unused(v: Vault, id: string) {
    && !IsActive(v.ks, id)
    && (forall r | HasSecret(v, r) :: SecretKeyID(v.rows[r].secret.value) !in {"", id})
    && (v.jwt != "" ==> SecretKeyID(v.jwt) !in {"", id})
  }

  ghost predicate KeysetOk(c: Cipher, keys: set<Bytes>, ks: Keyset) {
    Ideal(c, keys) && WellFormed(c, ks) && KeysWithin(ks, keys) && ks.accessID != ""
  }

  ghost predicate Inv(c: Cipher, keys: set<Bytes>, v: Vault) {
    && KeysetOk(c, keys, v.ks)
    && AllListed(v)
    && Readable(c, v.ks, v)
    && forall id | id in v.cleared :: Unused(v, id)
  }

  lemma GuardMeansUnused(v: Vault, id: string)
    requires AllListed(v) && Guard(v, id)
    ensures Unused(v, id)
  {
    forall r | HasSecret(v, r)
      ensures SecretKeyID(v.rows[r].secret.value) !in {"", id}
    {
      assert Visited(v, r);
      assert r in StampedRows(v, SecretKeyID(v.rows[r].secret.value));
    }
    if v.jwt != "" {
      EncodeUndoesParse(v.jwt);
    }
  }

  /** An id that is registered before and after a swap opens the same ciphertexts. */
  lemma SwapOpens(c: Cipher, keys: set<Bytes>, was: Keyset, now: Keyset, id: string, ct: string)
    requires KeysetOk(c, keys, was) && KeysWithin(now, keys) && WellFormed(c, now)
    requires id in was.byID && id in now.byID
    ensures DecryptAESGCM(c, ct, was.byID[id]) == DecryptAESGCM(c, ct, now.byID[id])
  {
    assert was.byID[id] in Materials(was) && now.byID[id] in Materials(now);
    SameIDSameKey(c, keys, was.byID[id], now.byID[id]);
    SameKeyOpensSame(c, ct, was.byID[id], now.byID[id]);
  }

  /** Swapping the keyset keeps a value readable when its stamped id, or for a legacy value every
      id, is still registered. */
  lemma ReadsAfterSwap(c: Cipher, keys: set<Bytes>, was: Keyset, now: Keyset, stored: string, p: Bytes)
    requires KeysetOk(c, keys, was) && KeysWithin(now, keys) && WellFormed(c, now)
    requires ReadsAs(c, was, stored, p)
    requires if SecretKeyID(stored) == "" then was.byID.Keys <= now.byID.Keys else SecretKeyID(stored) in now.byID
    ensures ReadsAs(c, now, stored, p)
  {
    var e := ParseEnvelope(stored);
    EncodeUndoesParse(stored);
    var id :| id in was.byID && DecryptAESGCM(c, e.ct, was.byID[id]) == Some(p) && (e.hasID ==> id == e.id);
    assert id in now.byID;
    SwapOpens(c, keys, was, now, id, e.ct);
  }

  /** Whatever key a rekey decrypts a readable value with, it obtains the original plaintext. */
  lemma AnyKeyReadsTheSame(c: Cipher, keys: set<Bytes>, ks: Keyset, stored: string, key: string, p: Bytes)
    requires KeysetOk(c, keys, ks) && InPlay(keys, key) && key != ""
    requires ReadsAs(c, ks, stored, p)
    ensures var d := DecryptAESGCM(c, ParseEnvelope(stored).ct, key); d == None || d == Some(p)
  {
    var ct := ParseEnvelope(stored).ct;
    var id :| id in ks.byID && DecryptAESGCM(c, ct, ks.byID[id]) == Some(p);
    assert ks.byID[id] in Materials(ks);
    if DecryptAESGCM(c, ct, key).Some? {
      OneKeyOpens(c, keys, ct, ks.byID[id], key);
    }
  }

  lemma RekeyReadsOriginal(
    c: Cipher, keys: set<Bytes>, ks: Keyset, stored: string, oldKey: string, order: seq<string>, p: Bytes)
    requires KeysetOk(c, keys, ks) && InPlay(keys, oldKey) && Enumerates(order, ks.byID)
    requires ReadsAs(c, ks, stored, p)
    ensures var d := DecryptForRekey(c, ks, stored, oldKey, order); d == Some(p) || (oldKey != "" && d == None)
  {
    if oldKey == "" {
      AccessReads(c, keys, ks, stored, order, p);
    } else {
      AnyKeyReadsTheSame(c, keys, ks, stored, oldKey, p);
    }
  }

  lemma RekeyReadsJwt(
    c: Cipher, keys: set<Bytes>, ks: Keyset, stored: string, oldKey: string, order: seq<string>, p: Bytes)
    requires KeysetOk(c, keys, ks) && Enumerates(order, ks.byID)
    requires ReadsAs(c, ks, stored, p)
    ensures DecryptJwtForRekey(c, ks, stored, oldKey, order) == Some(p)
  {
    OptionReads(c, keys, ks, stored, order, p);
  }

  lemma NewValueReads(c: Cipher, keys: set<Bytes>, ks: Keyset, p: Bytes, nonce: Nonce)
    requires KeysetOk(c, keys, ks)
    ensures var e := EncryptAccessSecret(c, ks, p, nonce);
            e.Some? && SecretKeyID(e.value) == ks.accessID && ReadsAs(c, ks, e.value, p)
    ensures var e := EncryptOption(c, ks, p, nonce);
            e.Some? && SecretKeyID(e.value) == ActiveOptionID(ks) && ReadsAs(c, ks, e.value, p)
    ensures ks.accessID != "" && ActiveOptionID(ks) != ""
  {
    EncryptReads(c, keys, ks, p, ks.accessID, nonce);
    EncryptReads(c, keys, ks, p, ActiveOptionID(ks), nonce);
  }

  /** A swap that drops only ids in `cleared` keeps a value readable that is neither legacy nor
      stamped with one of them (any value, when `cleared` is empty). */
  lemma ReloadKeepsValue(
    c: Cipher, keys: set<Bytes>, was: Keyset, now: Keyset, cleared: set<string>, stored: string, p: Bytes)
    requires KeysetOk(c, keys, was) && KeysWithin(now, keys) && WellFormed(c, now)
    requires forall id | id in was.byID && id !in now.byID :: id in cleared
    requires ReadsAs(c, was, stored, p)
    requires forall id | id in cleared :: SecretKeyID(stored) !in {"", id}
    ensures ReadsAs(c, now, stored, p)
  {
    var id := SecretKeyID(stored);
    EncodeUndoesParse(stored);
    if id == "" {
      assert forall x | x in was.byID :: x in now.byID;
    } else {
      assert id in was.byID && id !in cleared;
    }
    ReadsAfterSwap(c, keys, was, now, stored, p);
  }

  lemma ReloadKeepsReadable(c: Cipher, keys: set<Bytes>, v: Vault, ks: Keyset)
    requires Inv(c, keys, v) && Enabled(c, keys, v, Reload(ks))
    ensures Readable(c, ks, v)
  {
    assert forall id | id in v.ks.byID && id !in ks.byID :: id in v.ks.byID.Keys - ks.byID.Keys;
    forall r | HasSecret(v, r)
      ensures ReadsAs(c, ks, v.rows[r].secret.value, v.plain[r])
    {
      assert forall id | id in v.cleared :: Unused(v, id);
      ReloadKeepsValue(c, keys, v.ks, ks, v.cleared, v.rows[r].secret.value, v.plain[r]);
    }
    if v.jwt != "" {
      assert forall id | id in v.cleared :: Unused(v, id);
      ReloadKeepsValue(c, keys, v.ks, ks, v.cleared, v.jwt, v.pem);
    }
  }

  lemma ReloadKeepsInv(c: Cipher, keys: set<Bytes>, v: Vault, ks: Keyset)
    requires Inv(c, keys, v) && Enabled(c, keys, v, Reload(ks))
    ensures Inv(c, keys, Apply(c, keys, v, Reload(ks)))
  {
    var v' := Apply(c, keys, v, Reload(ks));
    ReloadKeepsReadable(c, keys, v, ks);
    assert forall r :: HasSecret(v', r) <==> HasSecret(v, r);
    assert Readable(c, ks, v');
    forall id | id in v'.cleared
      ensures Unused(v', id)
    {
      assert Unused(v, id);
    }
  }

  /** The store with one row's value and plaintext replaced. */
  ghost function WithRow(v: Vault, r: int, row: Row, p: Bytes): Vault {
    v.(rows := v.rows[r := row], plain := v.plain[r := p])
  }

  lemma RowUpdateReadable(c: Cipher, ks: Keyset, v: Vault, r: int, row: Row, p: Bytes)
    requires Readable(c, ks, v) && row.secret.Some? && ReadsAs(c, ks, row.secret.value, p)
    ensures Readable(c, ks, WithRow(v, r, row, p))
  {
    var v' := WithRow(v, r, row, p);
    forall x | HasSecret(v', x)
      ensures x in v'.plain && ReadsAs(c, ks, v'.rows[x].secret.value, v'.plain[x])
    {
      if x != r {
        assert HasSecret(v, x);
      }
    }
  }

  lemma RowUpdateUnused(v: Vault, r: int, row: Row, p: Bytes, id: string)
    requires Unused(v, id) && row.secret.Some? && SecretKeyID(row.secret.value) !in {"", id}
    ensures Unused(WithRow(v, r, row, p), id)
  {
    var v' := WithRow(v, r, row, p);
    forall x | HasSecret(v', x)
      ensures SecretKeyID(v'.rows[x].secret.value) !in {"", id}
    {
      if x != r {
        assert HasSecret(v, x);
      }
    }
  }

  lemma RowUpdateKeepsInv(c: Cipher, keys: set<Bytes>, v: Vault, r: int, row: Row, p: Bytes)
    requires Inv(c, keys, v)
    requires row.project in v.projects && row.local && row.secret.Some?
    requires SecretKeyID(row.secret.value) == v.ks.accessID && ReadsAs(c, v.ks, row.secret.value, p)
    ensures Inv(c, keys, WithRow(v, r, row, p))
  {
    RowUpdateReadable(c, v.ks, v, r, row, p);
    forall id | id in v.cleared
      ensures Unused(WithRow(v, r, row, p), id)
    {
      assert Unused(v, id);
      RowUpdateUnused(v, r, row, p, id);
    }
  }

  lemma JwtUpdateKeepsInv(c: Cipher, keys: set<Bytes>, v: Vault, jwt: string, pem: Bytes)
    requires Inv(c, keys, v)
    requires SecretKeyID(jwt) == ActiveOptionID(v.ks) && ReadsAs(c, v.ks, jwt, pem)
    ensures Inv(c, keys, v.(jwt := jwt, pem := pem))
  {
    var v' := v.(jwt := jwt, pem := pem);
    assert forall x | HasSecret(v', x) :: HasSecret(v, x);
    forall id | id in v'.cleared
      ensures Unused(v', id)
    {
      assert Unused(v, id);
    }
  }

  lemma ShrinkKeepsInv(c: Cipher, keys: set<Bytes>, v: Vault, v': Vault)
    requires Inv(c, keys, v)
    requires v'.ks == v.ks && v'.jwt == v.jwt && v'.pem == v.pem
    requires forall r | r in v'.rows ::
               r in v.rows && v'.rows[r] == v.rows[r] && (r in v.plain ==> r in v'.plain && v'.plain[r] == v.plain[r])
    requires AllListed(v')
    requires forall id | id in v'.cleared :: id in v.cleared || Guard(v', id)
    ensures Inv(c, keys, v')
  {
    assert forall x | HasSecret(v', x) :: HasSecret(v, x);
    forall id | id in v'.cleared
      ensures Unused(v', id)
    {
      if id in v.cleared {
        assert Unused(v, id);
      } else {
        GuardMeansUnused(v', id);
      }
    }
  }

  ghost predicate NewSecret(c: Cipher, ks: Keyset, s: string, p: Bytes) {
    s != "" && SecretKeyID(s) == ks.accessID && ReadsAs(c, ks, s, p)
  }

  /** A rekeyed row is untouched, or re-encrypted from its original plaintext. */
  lemma RekeyRowResult(c: Cipher, keys: set<Bytes>, v: Vault, r: int, oldKey: string, order: seq<string>, nonce: Nonce)
    returns (s: string)
    requires Inv(c, keys, v) && Enabled(c, keys, v, RekeyRow(r, oldKey, order, nonce))
    ensures var v' := Apply(c, keys, v, RekeyRow(r, oldKey, order, nonce));
            || (v' == v && (oldKey != "" || !Visited(v, r)))
            || (Visited(v, r) && NewSecret(c, v.ks, s, v.plain[r])
                && v' == v.(rows := v.rows[r := v.rows[r].(secret := Some(s))]))
  {
    s := "";
    if Visited(v, r) {
      RekeyReadsOriginal(c, keys, v.ks, v.rows[r].secret.value, oldKey, order, v.plain[r]);
      NewValueReads(c, keys, v.ks, v.plain[r], nonce);
      s := EncryptAccessSecret(c, v.ks, v.plain[r], nonce).value;
      EncodeUndoesParse(s);
    }
  }

  lemma RekeyJwtResult(c: Cipher, keys: set<Bytes>, v: Vault, oldKey: string, order: seq<string>, nonce: Nonce)
    requires KeysetOk(c, keys, v.ks) && Enumerates(order, v.ks.byID) && InPlay(keys, oldKey)
    requires v.jwt != "" && ReadsAs(c, v.ks, v.jwt, v.pem)
    ensures var e := EncryptOption(c, v.ks, v.pem, nonce);
            e.Some? && Apply(c, keys, v, RekeyJwt(oldKey, order, nonce)) == v.(jwt := e.value)
  {
    RekeyReadsJwt(c, keys, v.ks, v.jwt, oldKey, order, v.pem);
    NewValueReads(c, keys, v.ks, v.pem, nonce);
    RekeyJwtIs(c, keys, v, oldKey, order, nonce, v.pem);
  }

  lemma RekeyJwtIs(c: Cipher, keys: set<Bytes>, v: Vault, oldKey: string, order: seq<string>, nonce: Nonce, p: Bytes)
    requires Enumerates(order, v.ks.byID) && InPlay(keys, oldKey) && v.jwt != ""
    requires DecryptJwtForRekey(c, v.ks, v.jwt, oldKey, order) == Some(p)
    ensures Apply(c, keys, v, RekeyJwt(oldKey, order, nonce)) == AfterRekeyJwt(c, v, Some(p), nonce)
  {
    var d := DecryptJwtForRekey(c, v.ks, v.jwt, oldKey, order);
    assert Apply(c, keys, v, RekeyJwt(oldKey, order, nonce)) == AfterRekeyJwt(c, v, d, nonce);
  }

  lemma RekeyRowKeepsInv(
    c: Cipher, keys: set<Bytes>, v: Vault, r: int, oldKey: string, order: seq<string>, nonce: Nonce)
    requires Inv(c, keys, v) && Enabled(c, keys, v, RekeyRow(r, oldKey, order, nonce))
    ensures Inv(c, keys, Apply(c, keys, v, RekeyRow(r, oldKey, order, nonce)))
  {
    var s := RekeyRowResult(c, keys, v, r, oldKey, order, nonce);
    if Visited(v, r) && NewSecret(c, v.ks, s, v.plain[r]) {
      RowUpdateKeepsInv(c, keys, v, r, v.rows[r].(secret := Some(s)), v.plain[r]);
      assert v.plain[r := v.plain[r]] == v.plain;
    }
  }

  /** Every step keeps every stored secret readable. */
  lemma StepKeepsInv(c: Cipher, keys: set<Bytes>, v: Vault, a: Action)
    requires Inv(c, keys, v) && Enabled(c, keys, v, a)
    ensures Inv(c, keys, Apply(c, keys, v, a))
  {
    match a
    case WriteSecret(r, project, p, nonce) =>
      NewValueReads(c, keys, v.ks, p, nonce);
      RowUpdateKeepsInv(c, keys, v, r, Row(project, true, EncryptAccessSecret(c, v.ks, p, nonce)), p);
    case LoadOrCreateJwt(pem, nonce) =>
      if v.jwt == "" {
        NewValueReads(c, keys, v.ks, pem, nonce);
        JwtUpdateKeepsInv(c, keys, v, EncryptOption(c, v.ks, pem, nonce).value, pem);
      }
    case RekeyRow(r, oldKey, order, nonce) =>
      RekeyRowKeepsInv(c, keys, v, r, oldKey, order, nonce);
    case RekeyJwt(oldKey, order, nonce) =>
      if v.jwt != "" {
        RekeyJwtResult(c, keys, v, oldKey, order, nonce);
        NewValueReads(c, keys, v.ks, v.pem, nonce);
        JwtUpdateKeepsInv(c, keys, v, EncryptOption(c, v.ks, v.pem, nonce).value, v.pem);
      }
    case Reload(ks) =>
      ReloadKeepsInv(c, keys, v, ks);
    case DeleteRow(_) =>
      ShrinkKeepsInv(c, keys, v, Apply(c, keys, v, a));
    case SetProjects(_) =>
      ShrinkKeepsInv(c, keys, v, Apply(c, keys, v, a));
    case Check =>
      CheckSameGuards(v, Apply(c, keys, v, a));
      ShrinkKeepsInv(c, keys, v, Apply(c, keys, v, a));
  }

  lemma CheckSameGuards(v: Vault, v': Vault)
    requires v' == v.(cleared := v'.cleared)
    ensures forall id :: Guard(v, id) <==> Guard(v', id)
  {
    assert forall r :: Visited(v, r) <==> Visited(v', r);
    assert forall id :: StampedRows(v, id) == StampedRows(v', id);
  }

  // --- whole runs ---

  ghost predicate EnabledRun(c: Cipher, keys: set<Bytes>, v: Vault, acts: seq<Action>)
    decreases |acts|
  {
    acts == [] || (Enabled(c, keys, v, acts[0]) && EnabledRun(c, keys, Apply(c, keys, v, acts[0]), acts[1..]))
  }

  ghost function Run(c: Cipher, keys: set<Bytes>, v: Vault, acts: seq<Action>): Vault
    requires EnabledRun(c, keys, v, acts)
    decreases |acts|
  {
    if acts == [] then v else Run(c, keys, Apply(c, keys, v, acts[0]), acts[1..])
  }

  predicate Touches(a: Action, r: int) {
    (a.WriteSecret? || a.DeleteRow?) && a.row == r
  }

  ghost predicate Untouched(acts: seq<Action>, r: int) {
    forall i | 0 <= i < |acts| :: !Touches(acts[i], r)
  }

  lemma {:induction false} RunKeepsInv(c: Cipher, keys: set<Bytes>, v: Vault, acts: seq<Action>)
    requires Inv(c, keys, v) && EnabledRun(c, keys, v, acts)
    ensures Inv(c, keys, Run(c, keys, v, acts))
    decreases |acts|
  {
    if acts != [] {
      StepKeepsInv(c, keys, v, acts[0]);
      RunKeepsInv(c, keys, Apply(c, keys, v, acts[0]), acts[1..]);
    }
  }

  lemma {:induction false} RunKeepsPlain(c: Cipher, keys: set<Bytes>, v: Vault, acts: seq<Action>, r: int)
    requires Inv(c, keys, v) && EnabledRun(c, keys, v, acts) && HasSecret(v, r) && Untouched(acts, r)
    ensures var v' := Run(c, keys, v, acts); HasSecret(v', r) && r in v'.plain && v'.plain[r] == v.plain[r]
    decreases |acts|
  {
    if acts != [] {
      StepKeepsInv(c, keys, v, acts[0]);
      StepKeepsPlain(c, keys, v, acts[0]);
      assert !Touches(acts[0], r);
      RunKeepsPlain(c, keys, Apply(c, keys, v, acts[0]), acts[1..], r);
    }
  }

  lemma {:induction false} RunKeepsPem(c: Cipher, keys: set<Bytes>, v: Vault, acts: seq<Action>)
    requires Inv(c, keys, v) && EnabledRun(c, keys, v, acts) && v.jwt != ""
    ensures Run(c, keys, v, acts).jwt != "" && Run(c, keys, v, acts).pem == v.pem
    decreases |acts|
  {
    if acts != [] {
      StepKeepsInv(c, keys, v, acts[0]);
      StepKeepsPlain(c, keys, v, acts[0]);
      RunKeepsPem(c, keys, Apply(c, keys, v, acts[0]), acts[1..]);
    }
  }

  /** Rotation safety over every run: whatever the interleaving, the invariant holds at the end (so
      after every prefix too), and a secret nobody rewrote or deleted still decrypts, in every order
      of the registry, to the plaintext it had at the start. */
  lemma RotationSafety(c: Cipher, keys: set<Bytes>, v: Vault, acts: seq<Action>, r: int, order: seq<string>)
    requires Inv(c, keys, v) && EnabledRun(c, keys, v, acts)
    requires Enumerates(order, Run(c, keys, v, acts).ks.byID)
    ensures Inv(c, keys, Run(c, keys, v, acts))
    ensures HasSecret(v, r) && Untouched(acts, r) ==>
              && HasSecret(Run(c, keys, v, acts), r)
              && DecryptAccessSecret(c, Run(c, keys, v, acts).ks, Run(c, keys, v, acts).rows[r].secret.value, order)
                   == Some(v.plain[r])
    ensures v.jwt != "" ==> DecryptOption(c, Run(c, keys, v, acts).ks, Run(c, keys, v, acts).jwt, order) == Some(v.pem)
  {
    RunKeepsInv(c, keys, v, acts);
    var v' := Run(c, keys, v, acts);
    if HasSecret(v, r) && Untouched(acts, r) {
      RunKeepsPlain(c, keys, v, acts, r);
      AccessReads(c, keys, v'.ks, v'.rows[r].secret.value, order, v'.plain[r]);
    }
    if v.jwt != "" {
      RunKeepsPem(c, keys, v, acts);
      OptionReads(c, keys, v'.ks, v'.jwt, order, v'.pem);
    }
  }

  lemma RekeyRowKeepsPlain(c: Cipher, v: Vault, r: int, d: Option<Bytes>, nonce: Nonce)
    requires r in v.rows && v.ks.accessID != ""
    ensures var v' := AfterRekeyRow(c, v, r, d, nonce);
            && v'.plain == v.plain && v'.jwt == v.jwt && v'.pem == v.pem
            && forall x | HasSecret(v, x) :: HasSecret(v', x)
  {
  }

  lemma RekeyJwtKeepsPem(c: Cipher, v: Vault, d: Option<Bytes>, nonce: Nonce)
    requires v.ks.accessID != ""
    ensures var v' := AfterRekeyJwt(c, v, d, nonce);
            && v'.rows == v.rows && v'.plain == v.plain && v'.pem == v.pem
            && (v.jwt != "" ==> v'.jwt != "")
  {
  }

  ghost predicate Keeps(v: Vault, v': Vault, a: Action) {
    && (forall r | HasSecret(v, r) && !Touches(a, r) ::
        HasSecret(v', r) && r in v.plain && r in v'.plain && v'.plain[r] == v.plain[r])
    && (v.jwt != "" ==> v'.jwt != "" && v'.pem == v.pem)
  }

  /** A step changes no plaintext but that of the row it writes or deletes. */
  lemma StepKeepsPlain(c: Cipher, keys: set<Bytes>, v: Vault, a: Action)
    requires v.ks.accessID != "" && (forall r | HasSecret(v, r) :: r in v.plain) && Enabled(c, keys, v, a)
    ensures Keeps(v, Apply(c, keys, v, a), a)
  {
    match a
    case RekeyRow(r, oldKey, order, nonce) =>
      if Visited(v, r) {
        RekeyRowKeepsPlain(c, v, r, DecryptForRekey(c, v.ks, v.rows[r].secret.value, oldKey, order), nonce);
      }
    case RekeyJwt(oldKey, order, nonce) =>
      if v.jwt != "" {
        RekeyJwtKeepsPem(c, v, DecryptJwtForRekey(c, v.ks, v.jwt, oldKey, order), nonce);
      }
    case _ =>
  }
}
