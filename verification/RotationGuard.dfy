/** When may a retired key be removed? What `vault check` prints as SAFE TO REMOVE looks at access
    rows only; here is the weakest reading of the whole report that is actually safe. */
module RotationGuard {
  import opened Wrappers
  import opened Collections
  import opened Base64
  import opened Aead
  import opened Envelope
  import opened Keyring
  import opened Rotation

  const ZERO_NONCE: Nonce := [0, 0, 0, 0, 0, 0, 0, 0, 0, 0, 0, 0]

  /** The keyset an operator ends up with after deleting one key everywhere it is configured. */
  ghost function RemoveKey(c: Cipher, ks: Keyset, id: string): Keyset {
    ks.(byID := ks.byID - {id},
        legacyAccess := if KeyID(c, ks.legacyAccess) == id then "" else ks.legacyAccess,
        legacyOption := if KeyID(c, ks.legacyOption) == id then "" else ks.legacyOption)
  }

  /** Two stores check cannot tell apart. */
  ghost predicate SameReport(v: Vault, v': Vault) {
    && v'.ks == v.ks && v'.projects == v.projects && JwtSlot(v') == JwtSlot(v)
    && forall id :: Count(v', id) == Count(v, id)
  }

  /** A value sealed before key ids existed. */
  function LegacySeal(c: Cipher, raw: Bytes, p: Bytes): string {
    Encode(ZERO_NONCE + c.seal(raw, ZERO_NONCE, p))
  }

  lemma LegacySealShape(c: Cipher, keys: set<Bytes>, material: string, p: Bytes)
    requires Ideal(c, keys) && RawKey(material).Some?
    ensures var s := LegacySeal(c, RawKey(material).value, p);
            s != "" && ParseEnvelope(s) == Parsed("", s, false) && DecryptAESGCM(c, s, material) == Some(p)
  {
    assert RawKey("") == None;
    DecryptUndoesEncrypt(c, keys, p, material, ZERO_NONCE);
    ParseLegacy(LegacySeal(c, RawKey(material).value, p));
  }

  /** A legacy value sealed under a key is lost with that key. */
  lemma LegacySealNeedsItsKey(c: Cipher, keys: set<Bytes>, ks: Keyset, id: string, p: Bytes)
    requires KeysetOk(c, keys, ks) && id in ks.byID
    ensures var s := LegacySeal(c, RawKey(ks.byID[id]).value, p);
            && s != "" && !ParseEnvelope(s).hasID && SecretKeyID(s) == ""
            && ReadsAs(c, ks, s, p) && !ReadsAs(c, RemoveKey(c, ks, id), s, p)
  {
    var s := LegacySeal(c, RawKey(ks.byID[id]).value, p);
    LegacySealShape(c, keys, ks.byID[id], p);
    forall id' | id' in ks.byID && DecryptAESGCM(c, s, ks.byID[id']).Some?
      ensures id' == id
    {
      assert ks.byID[id] in Materials(ks) && ks.byID[id'] in Materials(ks);
      OneKeyOpens(c, keys, s, ks.byID[id], ks.byID[id']);
      SameRawSameID(c, ks.byID[id], ks.byID[id']);
    }
  }

  lemma SameRawSameID(c: Cipher, m1: string, m2: string)
    requires RawKey(m1).Some? && RawKey(m1) == RawKey(m2)
    ensures KeyID(c, m1) == KeyID(c, m2)
  {
    assert RawKey("") == None;
  }

  lemma RemovalKeepsOthers(c: Cipher, v: Vault, id: string)
    requires Readable(c, v.ks, v) && Unused(v, id)
    ensures Readable(c, RemoveKey(c, v.ks, id), v)
  {
    var ks' := RemoveKey(c, v.ks, id);
    forall r | HasSecret(v, r)
      ensures ReadsAs(c, ks', v.rows[r].secret.value, v.plain[r])
    {
      RemovalKeepsStamped(c, v.ks, id, v.rows[r].secret.value, v.plain[r]);
    }
    if v.jwt != "" {
      RemovalKeepsStamped(c, v.ks, id, v.jwt, v.pem);
    }
  }

  lemma RemovalKeepsStamped(c: Cipher, ks: Keyset, id: string, stored: string, p: Bytes)
    requires ReadsAs(c, ks, stored, p) && SecretKeyID(stored) !in {"", id}
    ensures ReadsAs(c, RemoveKey(c, ks, id), stored, p)
  {
    EncodeUndoesParse(stored);
  }

  ghost function WithSecret(v: Vault, r: int, s: string): Vault
    requires r in v.rows
  {
    v.(rows := v.rows[r := v.rows[r].(secret := Some(s))], cleared := {})
  }

  /** Check cannot see a legacy value being exchanged for another one. */
  lemma ExchangeKeepsReport(v: Vault, r: int, s: string)
    requires Visited(v, r) && SecretKeyID(v.rows[r].secret.value) == "" && SecretKeyID(s) == "" && s != ""
    ensures SameReport(v, WithSecret(v, r, s))
    ensures forall x :: HasSecret(WithSecret(v, r, s), x) <==> HasSecret(v, x)
  {
    var v' := WithSecret(v, r, s);
    assert forall x :: HasSecret(v', x) <==> HasSecret(v, x);
    assert forall x :: Visited(v', x) <==> Visited(v, x);
    assert forall i :: StampedRows(v', i) == StampedRows(v, i);
  }

  lemma ExchangeKeepsInv(c: Cipher, keys: set<Bytes>, v: Vault, r: int, s: string)
    requires Inv(c, keys, v) && HasSecret(v, r) && s != "" && ReadsAs(c, v.ks, s, v.plain[r])
    ensures Inv(c, keys, WithSecret(v, r, s))
  {
    ExchangeKeepsReadable(c, v.ks, v, r, s);
  }

  lemma ExchangeKeepsReadable(c: Cipher, ks: Keyset, v: Vault, r: int, s: string)
    requires Readable(c, ks, v) && HasSecret(v, r) && ReadsAs(c, ks, s, v.plain[r])
    ensures Readable(c, ks, WithSecret(v, r, s))
  {
    assert forall x | HasSecret(WithSecret(v, r, s), x) :: HasSecret(v, x);
  }

  /** An adversarial store with the same report, when some visible row is legacy. */
  lemma LegacyRowWitness(c: Cipher, keys: set<Bytes>, v: Vault, id: string) returns (v': Vault)
    requires Inv(c, keys, v) && id in v.ks.byID && Count(v, "") > 0
    ensures SameReport(v, v') && Inv(c, keys, v') && !Readable(c, RemoveKey(c, v'.ks, id), v')
  {
    assert StampedRows(v, "") != {};
    var r :| r in StampedRows(v, "");
    var s := LegacySeal(c, RawKey(v.ks.byID[id]).value, v.plain[r]);
    LegacySealNeedsItsKey(c, keys, v.ks, id, v.plain[r]);
    v' := WithSecret(v, r, s);
    ExchangeKeepsReport(v, r, s);
    ExchangeKeepsInv(c, keys, v, r, s);
    assert HasSecret(v', r);
  }

  /** An adversarial store with the same report, when the signing key is legacy. */
  lemma LegacyJwtWitness(c: Cipher, keys: set<Bytes>, v: Vault, id: string) returns (v': Vault)
    requires Inv(c, keys, v) && id in v.ks.byID && JwtSlot(v) == Legacy
    ensures SameReport(v, v') && Inv(c, keys, v') && !Readable(c, RemoveKey(c, v'.ks, id), v')
  {
    var s := LegacySeal(c, RawKey(v.ks.byID[id]).value, v.pem);
    LegacySealNeedsItsKey(c, keys, v.ks, id, v.pem);
    v' := v.(jwt := s, cleared := {});
    JwtExchangeKeepsReport(v, s);
    JwtExchangeKeepsInv(c, keys, v, s);
  }

  lemma JwtExchangeKeepsReport(v: Vault, s: string)
    requires JwtSlot(v) == Legacy && s != "" && !ParseEnvelope(s).hasID
    ensures SameReport(v, v.(jwt := s, cleared := {}))
  {
    var v' := v.(jwt := s, cleared := {});
    assert forall x :: Visited(v', x) <==> Visited(v, x);
    assert forall i :: StampedRows(v', i) == StampedRows(v, i);
  }

  lemma JwtExchangeKeepsInv(c: Cipher, keys: set<Bytes>, v: Vault, s: string)
    requires Inv(c, keys, v) && ReadsAs(c, v.ks, s, v.pem)
    ensures Inv(c, keys, v.(jwt := s, cleared := {}))
  {
    var v' := v.(jwt := s, cleared := {});
    assert forall x | HasSecret(v', x) :: HasSecret(v, x);
  }

  lemma PendingJwtBreaks(c: Cipher, v: Vault, id: string)
    requires JwtSlot(v) == RekeyPending(id)
    ensures !Readable(c, RemoveKey(c, v.ks, id), v)
  {
  }

  lemma SameReportSameGuard(v: Vault, v': Vault, id: string)
    requires SameReport(v, v')
    ensures Guard(v, id) <==> Guard(v', id)
  {
  }

  /** Removing a key leaves a usable keyset that still reads everything. */
  ghost predicate SafeRemoval(c: Cipher, v: Vault, id: string) {
    WellFormed(c, RemoveKey(c, v.ks, id)) && Readable(c, RemoveKey(c, v.ks, id), v)
  }

  lemma ActiveIsNeeded(c: Cipher, ks: Keyset, id: string)
    requires IsActive(ks, id)
    ensures !WellFormed(c, RemoveKey(c, ks, id))
  {
  }

  lemma RemovalKeepsWellFormed(c: Cipher, ks: Keyset, id: string)
    requires WellFormed(c, ks) && id != "" && !IsActive(ks, id)
    ensures WellFormed(c, RemoveKey(c, ks, id))
  {
  }

  lemma StampedIsLost(c: Cipher, v: Vault, id: string)
    requires id != "" && Count(v, id) > 0
    ensures !Readable(c, RemoveKey(c, v.ks, id), v)
  {
    assert StampedRows(v, id) != {};
    var r :| r in StampedRows(v, id);
    EncodeUndoesParse(v.rows[r].secret.value);
  }

  lemma GuardSuffices(c: Cipher, keys: set<Bytes>, v: Vault, id: string)
    requires KeysetOk(c, keys, v.ks) && AllListed(v) && Readable(c, v.ks, v) && Guard(v, id)
    ensures SafeRemoval(c, v, id)
  {
    GuardMeansUnused(v, id);
    RemovalKeepsOthers(c, v, id);
    RemovalKeepsWellFormed(c, v.ks, id);
  }

  /** Each conjunct of the guard is needed: without it some store with this report is harmed. */
  lemma GuardIsNeeded(c: Cipher, keys: set<Bytes>, v: Vault, id: string) returns (v': Vault)
    requires Inv(c, keys, v) && id in v.ks.byID && !Guard(v, id)
    ensures SameReport(v, v') && Inv(c, keys, v') && !SafeRemoval(c, v', id)
  {
    v' := v;
    KeyIDShape(c, v.ks.byID[id]);
    if IsActive(v.ks, id) {
      ActiveIsNeeded(c, v.ks, id);
    } else if Count(v, id) > 0 {
      StampedIsLost(c, v, id);
    } else if JwtSlot(v) == RekeyPending(id) {
      PendingJwtBreaks(c, v, id);
    } else if JwtSlot(v) == Legacy {
      v' := LegacyJwtWitness(c, keys, v, id);
    } else {
      v' := LegacyRowWitness(c, keys, v, id);
    }
  }

  /** The guard is exact: a registered key may be removed from every store with this report, leaving a
      well-formed keyset that reads every stored secret, if and only if it is not active, no row is
      stamped with it, no row is legacy, and the signing key is neither legacy nor pending on it. */
  lemma GuardIsExact(c: Cipher, keys: set<Bytes>, v: Vault, id: string)
    requires Inv(c, keys, v) && id in v.ks.byID
    ensures Guard(v, id) <==> forall v' | SameReport(v, v') && Inv(c, keys, v') :: SafeRemoval(c, v', id)
  {
    if Guard(v, id) {
      forall v' | SameReport(v, v') && Inv(c, keys, v')
        ensures SafeRemoval(c, v', id)
      {
        SameReportSameGuard(v, v', id);
        GuardSuffices(c, keys, v', id);
      }
    } else {
      var v' := GuardIsNeeded(c, keys, v, id);
    }
  }

  /** Two keys, the first active; `m2` is retired. */
  ghost function TwoKeys(c: Cipher, m1: string, m2: string): Keyset {
    Keyset(map[KeyID(c, m1) := m1, KeyID(c, m2) := m2], KeyID(c, m1), "", "", "")
  }

  lemma TwoKeysOk(c: Cipher, keys: set<Bytes>, m1: string, m2: string)
    requires Ideal(c, keys)
    requires RawKey(m1).Some? && RawKey(m1).value in keys
    requires RawKey(m2).Some? && RawKey(m2).value in keys
    requires RawKey(m1) != RawKey(m2)
    ensures KeysetOk(c, keys, TwoKeys(c, m1, m2)) && KeyID(c, m1) != KeyID(c, m2)
    ensures KeyID(c, m2) in TwoKeys(c, m1, m2).byID && TwoKeys(c, m1, m2).byID[KeyID(c, m2)] == m2
    ensures KeyID(c, m2) != "" && !IsActive(TwoKeys(c, m1, m2), KeyID(c, m2))
  {
    if KeyID(c, m1) == KeyID(c, m2) {
      SameIDSameKey(c, keys, m1, m2);
    }
    TwoKeysWellFormed(c, m1, m2);
    TwoKeysWithin(c, keys, m1, m2);
  }

  lemma TwoKeysWithin(c: Cipher, keys: set<Bytes>, m1: string, m2: string)
    requires RawKey(m1).Some? && RawKey(m1).value in keys
    requires RawKey(m2).Some? && RawKey(m2).value in keys
    ensures KeysWithin(TwoKeys(c, m1, m2), keys)
  {
    assert forall m | m in Materials(TwoKeys(c, m1, m2)) :: m == m1 || m == m2;
  }

  lemma TwoKeysWellFormed(c: Cipher, m1: string, m2: string)
    requires RawKey(m1).Some? && RawKey(m2).Some?
    requires KeyID(c, m1) != KeyID(c, m2)
    ensures WellFormed(c, TwoKeys(c, m1, m2))
    ensures KeyID(c, m1) != "" && KeyID(c, m2) != ""
  {
    KeyIDShape(c, m1);
    KeyIDShape(c, m2);
    var ks := TwoKeys(c, m1, m2);
    assert forall id | id in ks.byID :: id == KeyID(c, m1) || id == KeyID(c, m2);
  }

  /** A store that holds nothing but the signing key. */
  ghost function OnlyJwt(ks: Keyset, jwt: string, pem: Bytes): Vault {
    Vault([], map[], jwt, ks, {}, map[], pem)
  }

  lemma OnlyJwtIsFine(c: Cipher, keys: set<Bytes>, ks: Keyset, jwt: string, pem: Bytes)
    requires KeysetOk(c, keys, ks) && ReadsAs(c, ks, jwt, pem)
    ensures Inv(c, keys, OnlyJwt(ks, jwt, pem))
  {
  }

  lemma OnlyJwtReport(ks: Keyset, jwt: string, pem: Bytes, id: string)
    requires id != "" && id in ks.byID && !IsActive(ks, id) && SecretKeyID(jwt) == id
    ensures SafeToRemove(OnlyJwt(ks, jwt, pem), id) && JwtSlot(OnlyJwt(ks, jwt, pem)) == RekeyPending(id)
  {
    assert StampedRows(OnlyJwt(ks, jwt, pem), id) == {};
    EncodeUndoesParse(jwt);
    assert SecretKeyID("") == "";
  }

  /** The SAFE TO REMOVE line alone is not enough: in a store that holds nothing but a signing key
      still on the retired key, it is printed, and following it loses the signing key. */
  lemma SafeToRemoveLosesSigningKey(c: Cipher, keys: set<Bytes>, m1: string, m2: string, pem: Bytes)
    requires Ideal(c, keys)
    requires RawKey(m1).Some? && RawKey(m1).value in keys
    requires RawKey(m2).Some? && RawKey(m2).value in keys
    requires RawKey(m1) != RawKey(m2)
    ensures var id := KeyID(c, m2);
            exists v :: Inv(c, keys, v) && SafeToRemove(v, id) && !Readable(c, RemoveKey(c, v.ks, id), v)
  {
    var id, ks := KeyID(c, m2), TwoKeys(c, m1, m2);
    TwoKeysOk(c, keys, m1, m2);
    EncryptReads(c, keys, ks, pem, id, ZERO_NONCE);
    var jwt := EncryptUnder(c, ks, pem, id, ZERO_NONCE).value;
    OnlyJwtIsFine(c, keys, ks, jwt, pem);
    OnlyJwtReport(ks, jwt, pem, id);
    PendingJwtBreaks(c, OnlyJwt(ks, jwt, pem), id);
  }

  function Repeated(b: Byte): (k: Bytes)
    ensures |k| == 16 && k[0] == b
  {
    seq(16, _ => b)
  }

  lemma MaterialOf(k: Bytes)
    requires |k| == 16
    ensures RawKey(Encode(k)) == Some(k)
  {
    RoundTrip(k);
  }

  lemma TwoKeysAreIdeal(k: Bytes, k': Bytes)
    requires |k| == |k'| == 16 && k[0] != k'[0]
    ensures Ideal(TransparentCipher, {k, k'})
  {
    assert k[..8][0] != k'[..8][0];
    IdealIsSatisfiable({k, k'});
  }

  lemma TwoKeyCipher(k: Bytes, k': Bytes) returns (c: Cipher, keys: set<Bytes>, m1: string, m2: string)
    requires |k| == |k'| == 16 && k[0] != k'[0]
    ensures Ideal(c, keys)
    ensures RawKey(m1).Some? && RawKey(m1).value in keys
    ensures RawKey(m2).Some? && RawKey(m2).value in keys
    ensures RawKey(m1) != RawKey(m2)
  {
    c, keys, m1, m2 := TransparentCipher, {k, k'}, Encode(k), Encode(k');
    TwoKeysAreIdeal(k, k');
    MaterialOf(k);
    MaterialOf(k');
  }

  /** The invariant and the hypotheses about the cipher can be met together. */
  lemma InvIsSatisfiable()
    ensures exists c, keys, v :: Inv(c, keys, v)
  {
    var c, keys, m1, m2 := TwoKeyCipher(Repeated(0), Repeated(1));
    SafeToRemoveLosesSigningKey(c, keys, m1, m2, []);
  }

  /** One row, in the 201st project by name. */
  ghost function HiddenRow(ks: Keyset, secret: string, p: Bytes): Vault {
    Vault(seq(PROJECT_LIMIT + 1, i => i), map[7 := Row(PROJECT_LIMIT, true, Some(secret))], "", ks, {}, map[7 := p], [])
  }

  lemma HiddenRowIsInvisible(ks: Keyset, secret: string, p: Bytes, id: string)
    ensures StampedRows(HiddenRow(ks, secret, p), id) == {}
  {
    var v := HiddenRow(ks, secret, p);
    assert PROJECT_LIMIT !in Listed(v);
  }

  /** Past 200 projects even the full guard is blind: a row of the 201st project by name is not
      counted, and removal loses it. */
  lemma GuardIsBlindPastTheLimit(c: Cipher, keys: set<Bytes>, m1: string, m2: string, p: Bytes)
    requires Ideal(c, keys)
    requires RawKey(m1).Some? && RawKey(m1).value in keys
    requires RawKey(m2).Some? && RawKey(m2).value in keys
    requires RawKey(m1) != RawKey(m2)
    ensures var id := KeyID(c, m2);
            exists v: Vault :: |v.projects| == PROJECT_LIMIT + 1 && KeysetOk(c, keys, v.ks) && Readable(c, v.ks, v)
                     && Guard(v, id) && !Readable(c, RemoveKey(c, v.ks, id), v)
  {
    var id := KeyID(c, m2);
    var ks := TwoKeys(c, m1, m2);
    TwoKeysOk(c, keys, m1, m2);
    EncryptReads(c, keys, ks, p, id, ZERO_NONCE);
    var s := EncryptUnder(c, ks, p, id, ZERO_NONCE).value;
    EncodeUndoesParse(s);
    var v := HiddenRow(ks, s, p);
    HiddenRowIsInvisible(ks, s, p, id);
    HiddenRowIsInvisible(ks, s, p, "");
    HiddenRowNeedsKey(c, ks, s, p, id);
    assert Guard(v, id);
  }

  lemma HiddenRowNeedsKey(c: Cipher, ks: Keyset, secret: string, p: Bytes, id: string)
    requires secret != "" && ReadsAs(c, ks, secret, p) && ParseEnvelope(secret).hasID && ParseEnvelope(secret).id == id
    ensures Readable(c, ks, HiddenRow(ks, secret, p)) && !Readable(c, RemoveKey(c, ks, id), HiddenRow(ks, secret, p))
  {
    assert HasSecret(HiddenRow(ks, secret, p), 7);
  }

  ghost predicate Placed(v: Vault) {
    forall r | r in v.rows :: v.rows[r].project in v.projects
  }

  /** The store with one more row, in a project past the limit. */
  ghost function WithHidden(v: Vault, r: int, secret: string, p: Bytes): Vault
    requires |v.projects| > PROJECT_LIMIT
  {
    WithRow(v, r, Row(v.projects[PROJECT_LIMIT], true, Some(secret)), p)
  }

  lemma HiddenKeepsReport(v: Vault, r: int, secret: string, p: Bytes)
    requires |v.projects| > PROJECT_LIMIT && Distinct(v.projects) && r !in v.rows
    ensures SameReport(v, WithHidden(v, r, secret, p))
  {
    var v' := WithHidden(v, r, secret, p);
    assert v.projects[PROJECT_LIMIT] !in Listed(v);
    assert forall x :: Visited(v', x) <==> Visited(v, x);
    assert forall i :: StampedRows(v', i) == StampedRows(v, i);
  }

  /** A store that check cannot tell from this one, in which removing the key loses a row. */
  lemma HiddenRowWitness(c: Cipher, keys: set<Bytes>, v: Vault, id: string, p: Bytes) returns (v': Vault)
    requires KeysetOk(c, keys, v.ks) && Readable(c, v.ks, v) && Placed(v) && Distinct(v.projects)
    requires id in v.ks.byID && |v.projects| > PROJECT_LIMIT
    ensures SameReport(v, v') && Readable(c, v'.ks, v') && Placed(v') && !SafeRemoval(c, v', id)
  {
    var r := UpperBound(v.rows.Keys);
    assert r !in v.rows;
    EncryptReads(c, keys, v.ks, p, id, ZERO_NONCE);
    var s := EncryptUnder(c, v.ks, p, id, ZERO_NONCE).value;
    v' := WithHidden(v, r, s, p);
    HiddenKeepsReport(v, r, s, p);
    RowUpdateReadable(c, v.ks, v, r, Row(v.projects[PROJECT_LIMIT], true, Some(s)), p);
    HiddenIsLost(c, v, r, s, p, id);
  }

  lemma HiddenIsLost(c: Cipher, v: Vault, r: int, s: string, p: Bytes, id: string)
    requires |v.projects| > PROJECT_LIMIT && IsKeyID(id) && SecretKeyID(s) == id
    ensures !SafeRemoval(c, WithHidden(v, r, s, p), id)
  {
    EncodeUndoesParse(s);
    assert s != "" by {
      assert SecretKeyID("") == "";
    }
    assert HasSecret(WithHidden(v, r, s, p), r);
  }

  /** The limit is exact: a passed guard makes removal safe in every store with this report if and
      only if there are at most 200 projects. */
  lemma GuardNeedsTheLimit(c: Cipher, keys: set<Bytes>, v: Vault, id: string)
    requires KeysetOk(c, keys, v.ks) && Readable(c, v.ks, v) && Placed(v) && Distinct(v.projects)
    requires Guard(v, id)
    ensures |v.projects| <= PROJECT_LIMIT <==>
            forall v' | SameReport(v, v') && Readable(c, v'.ks, v') && Placed(v') :: SafeRemoval(c, v', id)
  {
    if |v.projects| <= PROJECT_LIMIT {
      forall v' | SameReport(v, v') && Readable(c, v'.ks, v') && Placed(v')
        ensures SafeRemoval(c, v', id)
      {
        SameReportSameGuard(v, v', id);
        GuardSuffices(c, keys, v', id);
      }
    } else {
      var v' := HiddenRowWitness(c, keys, v, id, []);
    }
  }

  // --- values from before a removal ---

  /** `id` names the key that opens the value: its stamp, or for a legacy value any key that fits. */
  ghost predicate OpensUnder(c: Cipher, ks: Keyset, stored: string, id: string, p: Bytes) {
    var e := ParseEnvelope(stored);
    id in ks.byID && DecryptAESGCM(c, e.ct, ks.byID[id]) == Some(p) && (e.hasID ==> id == e.id)
  }

  lemma SameOpener(
    c: Cipher, keys: set<Bytes>, was: Keyset, now: Keyset, stored: string, id: string, id': string, p: Bytes)
    requires KeysetOk(c, keys, was) && KeysWithin(now, keys) && WellFormed(c, now)
    requires OpensUnder(c, was, stored, id, p) && OpensUnder(c, now, stored, id', p)
    ensures id == id'
  {
    var m, m' := was.byID[id], now.byID[id'];
    assert m in Materials(was) && m' in Materials(now);
    OneKeyOpens(c, keys, ParseEnvelope(stored).ct, m, m');
    SameRawSameID(c, m, m');
  }

  lemma OpenerOf(c: Cipher, ks: Keyset, stored: string, p: Bytes) returns (id: string)
    requires ReadsAs(c, ks, stored, p)
    ensures OpensUnder(c, ks, stored, id, p)
    ensures SecretKeyID(stored) != "" ==> id == SecretKeyID(stored)
  {
    var e := ParseEnvelope(stored);
    EncodeUndoesParse(stored);
    if e.hasID {
      id := e.id;
    } else {
      id :| id in ks.byID && DecryptAESGCM(c, e.ct, ks.byID[id]) == Some(p);
    }
  }

  lemma OpenedReads(c: Cipher, ks: Keyset, stored: string, id: string, p: Bytes)
    requires OpensUnder(c, ks, stored, id, p)
    ensures ReadsAs(c, ks, stored, p)
  {
  }

  /** A value restored from a backup is readable under a later keyset if and only if the key that
      opened it at backup time, for a stamped value its stamp, is still registered. */
  lemma RestoredReadsIff(c: Cipher, keys: set<Bytes>, was: Keyset, now: Keyset, stored: string, p: Bytes)
    returns (id: string)
    requires KeysetOk(c, keys, was) && KeysWithin(now, keys) && WellFormed(c, now)
    requires ReadsAs(c, was, stored, p)
    ensures OpensUnder(c, was, stored, id, p) && (SecretKeyID(stored) != "" ==> id == SecretKeyID(stored))
    ensures ReadsAs(c, now, stored, p) <==> id in now.byID
  {
    id := OpenerOf(c, was, stored, p);
    if id in now.byID {
      SwapOpens(c, keys, was, now, id, ParseEnvelope(stored).ct);
      OpenedReads(c, now, stored, id, p);
    }
    if ReadsAs(c, now, stored, p) {
      var id' := OpenerOf(c, now, stored, p);
      SameOpener(c, keys, was, now, stored, id, id', p);
    }
  }

  lemma RemovalReadsIff(c: Cipher, keys: set<Bytes>, ks: Keyset, stored: string, p: Bytes, id: string)
    requires KeysetOk(c, keys, ks) && id in ks.byID && !IsActive(ks, id) && ReadsAs(c, ks, stored, p)
    ensures ReadsAs(c, RemoveKey(c, ks, id), stored, p) <==> !OpensUnder(c, ks, stored, id, p)
  {
    RemovalIsUsable(c, keys, ks, id);
    var opener := RestoredReadsIff(c, keys, ks, RemoveKey(c, ks, id), stored, p);
    if OpensUnder(c, ks, stored, id, p) {
      SameOpener(c, keys, ks, ks, stored, opener, id, p);
    }
  }

  lemma RemovalIsUsable(c: Cipher, keys: set<Bytes>, ks: Keyset, id: string)
    requires KeysetOk(c, keys, ks) && id in ks.byID && !IsActive(ks, id)
    ensures WellFormed(c, RemoveKey(c, ks, id)) && KeysWithin(RemoveKey(c, ks, id), keys)
    ensures forall x :: x in RemoveKey(c, ks, id).byID <==> x in ks.byID && x != id
  {
    KeyIDShape(c, ks.byID[id]);
    RemovalKeepsWellFormed(c, ks, id);
    assert forall m | m in Materials(RemoveKey(c, ks, id)) :: m in Materials(ks);
  }
}
