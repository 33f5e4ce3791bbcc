/** What each step of the rotation model does to the store, in terms of what a reader of the store
    gets back: the other half of Rotation, which says what the steps may not break. */
module RotationSteps {
  import opened Wrappers
  import opened Collections
  import opened Base64
  import opened Aead
  import opened Envelope
  import opened Keyring
  import opened Rotation

  /** Every row but r is as it was. */
  ghost predicate SameRowsBut(v: Vault, v': Vault, r: int) {
    forall x | x != r :: (x in v'.rows <==> x in v.rows) && (x in v.rows ==> v'.rows[x] == v.rows[x])
  }

  /** The row is a local one of the project, and decrypts to p. */
  ghost predicate Holds(c: Cipher, v: Vault, r: int, p: Bytes, order: seq<string>)
    requires Enumerates(order, v.ks.byID)
  {
    HasSecret(v, r) && DecryptAccessSecret(c, v.ks, v.rows[r].secret.value, order) == Some(p)
  }

  /** What encryption under the active keys yields. */
  lemma NewSecretValue(c: Cipher, keys: set<Bytes>, ks: Keyset, p: Bytes, nonce: Nonce) returns (s: string)
    requires KeysetOk(c, keys, ks)
    ensures EncryptAccessSecret(c, ks, p, nonce) == Some(s)
    ensures s != "" && SecretKeyID(s) == ks.accessID && ReadsAs(c, ks, s, p)
  {
    EncryptReads(c, keys, ks, p, ks.accessID, nonce);
    s := EncryptAccessSecret(c, ks, p, nonce).value;
    StampedIsNotEmpty(s);
  }

  lemma NewOption(c: Cipher, keys: set<Bytes>, ks: Keyset, p: Bytes, nonce: Nonce) returns (s: string)
    requires KeysetOk(c, keys, ks)
    ensures EncryptOption(c, ks, p, nonce) == Some(s)
    ensures s != "" && SecretKeyID(s) == ActiveOptionID(ks) && ReadsAs(c, ks, s, p)
  {
    EncryptReads(c, keys, ks, p, ActiveOptionID(ks), nonce);
    s := EncryptOption(c, ks, p, nonce).value;
    StampedIsNotEmpty(s);
  }

  lemma StampedIsNotEmpty(s: string)
    ensures SecretKeyID(s) != "" ==> s != ""
  {
    assert SecretKeyID("") == "";
  }

  lemma WriteIs(c: Cipher, keys: set<Bytes>, v: Vault, r: int, project: int, p: Bytes, nonce: Nonce) returns (s: string)
    requires KeysetOk(c, keys, v.ks) && project in v.projects
    ensures Apply(c, keys, v, WriteSecret(r, project, p, nonce)) == WithRow(v, r, Row(project, true, Some(s)), p)
    ensures s != "" && SecretKeyID(s) == v.ks.accessID && ReadsAs(c, v.ks, s, p)
  {
    s := NewSecretValue(c, keys, v.ks, p, nonce);
  }

  /** A written secret is in the project it was written for, stamped with the active key, decrypts to the
      plaintext that was given, in every order of the registry, and no other row changed. */
  lemma WriteStores(
    c: Cipher, keys: set<Bytes>, v: Vault, r: int, project: int, p: Bytes, nonce: Nonce, order: seq<string>)
    requires KeysetOk(c, keys, v.ks) && project in v.projects && Enumerates(order, v.ks.byID)
    ensures var v' := Apply(c, keys, v, WriteSecret(r, project, p, nonce));
            && v'.ks == v.ks && v'.jwt == v.jwt && v'.projects == v.projects && SameRowsBut(v, v', r)
            && Holds(c, v', r, p, order) && v'.rows[r].project == project
            && SecretKeyID(v'.rows[r].secret.value) == v.ks.accessID
  {
    var s := WriteIs(c, keys, v, r, project, p, nonce);
    AccessReads(c, keys, v.ks, s, order, p);
  }

  /** Written, then anything at all that does not touch the row: it still decrypts to what was written. */
  lemma WrittenStays(
    c: Cipher, keys: set<Bytes>, v: Vault, r: int, project: int, p: Bytes, nonce: Nonce,
    acts: seq<Action>, order: seq<string>)
    requires Inv(c, keys, v) && project in v.projects
    requires EnabledRun(c, keys, Apply(c, keys, v, WriteSecret(r, project, p, nonce)), acts) && Untouched(acts, r)
    requires Enumerates(order, Run(c, keys, Apply(c, keys, v, WriteSecret(r, project, p, nonce)), acts).ks.byID)
    ensures Holds(c, Run(c, keys, Apply(c, keys, v, WriteSecret(r, project, p, nonce)), acts), r, p, order)
  {
    StepKeepsInv(c, keys, v, WriteSecret(r, project, p, nonce));
    var s := WriteIs(c, keys, v, r, project, p, nonce);
    var v1 := WithRow(v, r, Row(project, true, Some(s)), p);
    assert HasSecret(v1, r) && v1.plain[r] == p;
    RotationSafety(c, keys, v1, acts, r, order);
  }

  /** A deleted row is gone, and no other. */
  lemma DeleteRemoves(c: Cipher, keys: set<Bytes>, v: Vault, r: int)
    ensures var v' := Apply(c, keys, v, DeleteRow(r));
            && r !in v'.rows && SameRowsBut(v, v', r)
            && v'.ks == v.ks && v'.jwt == v.jwt && v'.projects == v.projects
  {
  }

  /** The project list is replaced, and nothing else changes. */
  lemma SetProjectsReplaces(c: Cipher, keys: set<Bytes>, v: Vault, projects: seq<int>)
    requires Enabled(c, keys, v, SetProjects(projects))
    ensures Apply(c, keys, v, SetProjects(projects)).projects == projects
    ensures Apply(c, keys, v, SetProjects(projects)).(projects := v.projects) == v
  {
  }

  /** The signing key is created once: an empty slot is filled with a value that decrypts to the
      generated key and is stamped with the active option key, a filled one is left alone. */
  lemma JwtIsCreatedOnce(c: Cipher, keys: set<Bytes>, v: Vault, pem: Bytes, nonce: Nonce, order: seq<string>)
    requires KeysetOk(c, keys, v.ks) && Enumerates(order, v.ks.byID)
    ensures var v' := Apply(c, keys, v, LoadOrCreateJwt(pem, nonce));
            if v.jwt != "" then v' == v
            else && v'.jwt != "" && v' == v.(jwt := v'.jwt, pem := pem)
                 && DecryptOption(c, v.ks, v'.jwt, order) == Some(pem)
                 && SecretKeyID(v'.jwt) == ActiveOptionID(v.ks)
  {
    if v.jwt == "" {
      var s := CreatedIs(c, keys, v, pem, nonce);
      OptionReads(c, keys, v.ks, s, order, pem);
      var v' := v.(jwt := s, pem := pem);
      assert Apply(c, keys, v, LoadOrCreateJwt(pem, nonce)) == v' && v'.jwt == s;
    }
  }

  lemma CreatedIs(c: Cipher, keys: set<Bytes>, v: Vault, pem: Bytes, nonce: Nonce) returns (s: string)
    requires KeysetOk(c, keys, v.ks) && v.jwt == ""
    ensures Apply(c, keys, v, LoadOrCreateJwt(pem, nonce)) == v.(jwt := s, pem := pem)
    ensures s != "" && SecretKeyID(s) == ActiveOptionID(v.ks) && ReadsAs(c, v.ks, s, pem)
  {
    s := NewOption(c, keys, v.ks, pem, nonce);
  }

  /** Created, then anything at all: the slot still decrypts to the key that was generated. */
  lemma CreatedJwtStays(
    c: Cipher, keys: set<Bytes>, v: Vault, pem: Bytes, nonce: Nonce, order0: seq<string>,
    acts: seq<Action>, order: seq<string>)
    requires Inv(c, keys, v) && v.jwt == "" && Enumerates(order0, v.ks.byID)
    requires EnabledRun(c, keys, Apply(c, keys, v, LoadOrCreateJwt(pem, nonce)), acts)
    requires Enumerates(order, Run(c, keys, Apply(c, keys, v, LoadOrCreateJwt(pem, nonce)), acts).ks.byID)
    ensures var v' := Run(c, keys, Apply(c, keys, v, LoadOrCreateJwt(pem, nonce)), acts);
            DecryptOption(c, v'.ks, v'.jwt, order) == Some(pem)
  {
    StepKeepsInv(c, keys, v, LoadOrCreateJwt(pem, nonce));
    JwtIsCreatedOnce(c, keys, v, pem, nonce, order0);
    RotationSafety(c, keys, Apply(c, keys, v, LoadOrCreateJwt(pem, nonce)), acts, 0, order);
  }

  /** A reload installs the new keyset, touches no stored value, and withdraws the clearance of the keys
      it makes active and of no others. */
  lemma ReloadInstalls(c: Cipher, keys: set<Bytes>, v: Vault, ks: Keyset)
    requires Enabled(c, keys, v, Reload(ks))
    ensures var v' := Apply(c, keys, v, Reload(ks));
            && v'.ks == ks && v'.rows == v.rows && v'.jwt == v.jwt && v'.projects == v.projects
            && v'.plain == v.plain && v'.pem == v.pem
            && forall id :: id in v'.cleared <==> id in v.cleared && id != ks.accessID && id != ActiveOptionID(ks)
  {
  }

  /** From then on, writes are stamped with the new keyset's active key. */
  lemma ReloadThenWrite(
    c: Cipher, keys: set<Bytes>, v: Vault, ks: Keyset, r: int, project: int, p: Bytes, nonce: Nonce, order: seq<string>)
    requires Inv(c, keys, v) && Enabled(c, keys, v, Reload(ks)) && project in v.projects && Enumerates(order, ks.byID)
    ensures var v1 := Apply(c, keys, v, Reload(ks));
            && Enabled(c, keys, v1, WriteSecret(r, project, p, nonce))
            && var v2 := Apply(c, keys, v1, WriteSecret(r, project, p, nonce));
               v2.ks == ks && Holds(c, v2, r, p, order) && SecretKeyID(v2.rows[r].secret.value) == ks.accessID
  {
    StepKeepsInv(c, keys, v, Reload(ks));
    WriteStores(c, keys, Apply(c, keys, v, Reload(ks)), r, project, p, nonce, order);
  }

  lemma NoneStampedIff(v: Vault, id: string)
    ensures Count(v, id) == 0 <==> forall r | Visited(v, r) :: SecretKeyID(v.rows[r].secret.value) != id
  {
    if Count(v, id) == 0 {
      forall r | Visited(v, r)
        ensures SecretKeyID(v.rows[r].secret.value) != id
      {
        assert r !in StampedRows(v, id);
      }
    } else {
      assert StampedRows(v, id) != {};
      var r :| r in StampedRows(v, id);
    }
  }

  lemma JwtCleanIff(v: Vault, id: string)
    requires id in v.ks.byID && id != ActiveOptionID(v.ks)
    ensures JwtSlot(v) != Legacy && JwtSlot(v) != RekeyPending(id)
       <==> (v.jwt != "" ==> SecretKeyID(v.jwt) !in {"", id})
  {
    EncodeUndoesParse(v.jwt);
  }

  /** Registered, not active, and neither an unstamped value nor one stamped with it in sight. */
  ghost predicate Removable(v: Vault, id: string) {
    && id in v.ks.byID && id != v.ks.accessID
    && id != (if v.ks.optionID != "" then v.ks.optionID else v.ks.accessID)
    && (forall r | Visited(v, r) :: SecretKeyID(v.rows[r].secret.value) !in {"", id})
    && (v.jwt != "" ==> SecretKeyID(v.jwt) !in {"", id})
  }

  lemma GuardIff(v: Vault, id: string)
    requires "" !in v.ks.byID
    ensures Guard(v, id) <==> Removable(v, id)
  {
    NoneStampedIff(v, id);
    NoneStampedIff(v, "");
    if id in v.ks.byID && id != ActiveOptionID(v.ks) {
      JwtCleanIff(v, id);
    }
  }

  /** A check clears exactly the registered keys that are not active and that no value it sees is stamped
      with, provided that it sees no unstamped value; and it changes nothing else. */
  lemma CheckClears(c: Cipher, keys: set<Bytes>, v: Vault, id: string)
    requires "" !in v.ks.byID
    ensures var v' := Apply(c, keys, v, Check);
            v'.(cleared := v.cleared) == v && (id in v'.cleared <==> Removable(v, id))
  {
    GuardIff(v, id);
  }

  // --- explicit old keys ---

  /** An explicit old key rescues a row whose key is not registered: the row is re-encrypted, from what
      the old key opens it to, under the active key. */
  lemma OldKeyRescuesRow(
    c: Cipher, keys: set<Bytes>, v: Vault, r: int, oldKey: string, order: seq<string>, nonce: Nonce, p: Bytes,
    order': seq<string>)
    requires KeysetOk(c, keys, v.ks) && Enumerates(order, v.ks.byID) && Enumerates(order', v.ks.byID)
    requires InPlay(keys, oldKey) && oldKey != "" && Visited(v, r)
    requires DecryptAESGCM(c, ParseEnvelope(v.rows[r].secret.value).ct, oldKey) == Some(p)
    ensures var v' := Apply(c, keys, v, RekeyRow(r, oldKey, order, nonce));
            && SameRowsBut(v, v', r) && Holds(c, v', r, p, order')
            && SecretKeyID(v'.rows[r].secret.value) == v.ks.accessID
  {
    RescuedRow(c, keys, v, r, nonce, p, order');
    var d := DecryptForRekey(c, v.ks, v.rows[r].secret.value, oldKey, order);
    assert Apply(c, keys, v, RekeyRow(r, oldKey, order, nonce)) == AfterRekeyRow(c, v, r, d, nonce);
  }

  lemma RescuedRow(c: Cipher, keys: set<Bytes>, v: Vault, r: int, nonce: Nonce, p: Bytes, order: seq<string>)
    requires KeysetOk(c, keys, v.ks) && Enumerates(order, v.ks.byID) && HasSecret(v, r)
    ensures var v' := AfterRekeyRow(c, v, r, Some(p), nonce);
            && v'.ks == v.ks && SameRowsBut(v, v', r) && Holds(c, v', r, p, order)
            && SecretKeyID(v'.rows[r].secret.value) == v.ks.accessID
  {
    var s := RescuedIs(c, keys, v, r, nonce, p);
    AccessReads(c, keys, v.ks, s, order, p);
  }

  lemma RescuedIs(c: Cipher, keys: set<Bytes>, v: Vault, r: int, nonce: Nonce, p: Bytes) returns (s: string)
    requires KeysetOk(c, keys, v.ks) && r in v.rows
    ensures AfterRekeyRow(c, v, r, Some(p), nonce) == v.(rows := v.rows[r := v.rows[r].(secret := Some(s))])
    ensures s != "" && SecretKeyID(s) == v.ks.accessID && ReadsAs(c, v.ks, s, p)
  {
    s := NewSecretValue(c, keys, v.ks, p, nonce);
  }

  /** For the signing key the keyset comes first: the old key is used exactly when it reads nothing. */
  lemma OldKeyRescuesJwt(
    c: Cipher, keys: set<Bytes>, v: Vault, oldKey: string, order: seq<string>, nonce: Nonce, p: Bytes)
    requires KeysetOk(c, keys, v.ks) && Enumerates(order, v.ks.byID) && InPlay(keys, oldKey) && oldKey != ""
    requires v.jwt != "" && DecryptOption(c, v.ks, v.jwt, order) == None
    requires DecryptAESGCM(c, ParseEnvelope(v.jwt).ct, oldKey) == Some(p)
    ensures var v' := Apply(c, keys, v, RekeyJwt(oldKey, order, nonce));
            v' == v.(jwt := v'.jwt) && ReadsAs(c, v.ks, v'.jwt, p) && SecretKeyID(v'.jwt) == ActiveOptionID(v.ks)
  {
    NewValueReads(c, keys, v.ks, p, nonce);
    RekeyJwtIs(c, keys, v, oldKey, order, nonce, p);
  }
}
