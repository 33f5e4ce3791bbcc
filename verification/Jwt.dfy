/** The stored JWT signing key: one option slot, encrypted under the active option key. */
module Jwt {
  import opened Wrappers
  import opened Collections
  import opened Base64
  import opened Aead
  import opened Envelope
  import opened Keyring
  import opened Rotation
  import opened RotationGuard

  /** DecryptOption with its trial loop run out. */
  method DecryptStored(c: Cipher, ks: Keyset, stored: string) returns (r: Option<Bytes>, order: seq<string>)
    ensures Enumerates(order, ks.byID)
    ensures r == DecryptOption(c, ks, stored, order)
  {
    var legacy;
    legacy, order := LegacyCandidates(ks, [ks.legacyOption, ks.legacyAccess]);
    var e := ParseEnvelope(stored);
    if e.hasID {
      r := if e.id in ks.byID then DecryptAESGCM(c, e.ct, ks.byID[e.id]) else None;
    } else {
      r := TrialDecrypt(c, e.ct, legacy);
    }
  }

  /** The option store, as far as the signing key is concerned. */
  class OptionStore {
    var signingKey: string

    constructor ()
      ensures signingKey == ""
    {
      signingKey := "";
    }

    /** loadOrCreateJWTKey; `generated` is the key pair it would generate. The slot ends up as in the
        rotation model's step, and the result is the plaintext of what the slot holds. */
    method LoadOrCreateJWTKey(
      c: Cipher, ghost keys: set<Bytes>, ks: Keyset, generated: Bytes, nonce: Nonce, ghost v: Vault)
      returns (r: Option<Bytes>, order: seq<string>)
      requires v.jwt == signingKey && v.ks == ks
      modifies this
      ensures Enumerates(order, ks.byID)
      ensures signingKey == Apply(c, keys, v, LoadOrCreateJwt(generated, nonce)).jwt
      ensures old(signingKey) != "" ==> r == DecryptOption(c, ks, signingKey, order)
      ensures old(signingKey) == "" ==>
                r == if EncryptOption(c, ks, generated, nonce) == None then None else Some(generated)
    {
      r, order := DecryptStored(c, ks, signingKey);
      if signingKey != "" {
        return;
      }
      var encrypted := EncryptOption(c, ks, generated, nonce);
      if encrypted == None {
        return None, order;
      }
      signingKey := encrypted.value;
      r := Some(generated);
    }

    /** CheckJWTSigningKey: the slot line of `vault check`, and what it says about the stored value: a
        missing key reads as nothing, and a named one is the only key that can open it. */
    method CheckJWTSigningKey(ghost c: Cipher, ks: Keyset, ghost v: Vault) returns (slot: Slot)
      requires v.jwt == signingKey && v.ks == ks
      ensures slot == JwtSlot(v)
      ensures slot.MissingKey? ==> forall p :: !ReadsAs(c, ks, signingKey, p)
      ensures slot.Active? || slot.RekeyPending? ==>
                slot.id in ks.byID && forall id, p | OpensUnder(c, ks, signingKey, id, p) :: id == slot.id
    {
      if signingKey == "" {
        return NotSet;
      }
      slot := Classify(ks, signingKey, ActiveOptionID(ks));
      SlotNamesOpener(c, ks, signingKey);
    }

    /** RekeyJWTSigningKey: decrypt by the keyset, then by the explicit old key, and re-encrypt. */
    method RekeyJWTSigningKey(
      c: Cipher, ghost keys: set<Bytes>, ks: Keyset, oldKey: string, nonce: Nonce, ghost v: Vault)
      returns (ok: bool, order: seq<string>)
      requires v.jwt == signingKey && v.ks == ks && InPlay(keys, oldKey)
      modifies this
      ensures Enumerates(order, ks.byID)
      ensures signingKey == Apply(c, keys, v, RekeyJwt(oldKey, order, nonce)).jwt
      ensures ok <==> old(signingKey) == "" ||
                      (DecryptJwtForRekey(c, ks, old(signingKey), oldKey, order).Some?
                       && var pem := DecryptJwtForRekey(c, ks, old(signingKey), oldKey, order).value;
                          EncryptOption(c, ks, pem, nonce).Some?)
    {
      var pem;
      pem, order := DecryptStored(c, ks, signingKey);
      if signingKey == "" {
        return true, order;
      }
      if pem == None && oldKey != "" {
        pem := DecryptAESGCM(c, ParseEnvelope(signingKey).ct, oldKey);
      }
      assert pem == DecryptJwtForRekey(c, ks, signingKey, oldKey, order);
      assert Apply(c, keys, v, RekeyJwt(oldKey, order, nonce)) == AfterRekeyJwt(c, v, pem, nonce);
      if pem == None {
        return false, order;
      }
      var reEncrypted := EncryptOption(c, ks, pem.value, nonce);
      if reEncrypted == None {
        return false, order;
      }
      if reEncrypted.value != signingKey {
        signingKey := reEncrypted.value;
      }
      return true, order;
    }
  }

  lemma SlotNamesOpener(c: Cipher, ks: Keyset, stored: string)
    ensures var slot := Classify(ks, stored, ActiveOptionID(ks));
            && (slot.MissingKey? ==> forall p :: !ReadsAs(c, ks, stored, p))
            && (slot.Active? || slot.RekeyPending? ==>
                  slot.id in ks.byID && forall id, p | OpensUnder(c, ks, stored, id, p) :: id == slot.id)
  {
  }

  /** A signing key that was readable stays the same key through a rekey, which always succeeds, and is
      then stamped with the active option key. */
  lemma RekeyKeepsSigningKey(c: Cipher, keys: set<Bytes>, v: Vault, oldKey: string, order: seq<string>, nonce: Nonce)
    requires Inv(c, keys, v) && v.jwt != "" && Enumerates(order, v.ks.byID) && InPlay(keys, oldKey)
    ensures DecryptJwtForRekey(c, v.ks, v.jwt, oldKey, order) == Some(v.pem)
    ensures EncryptOption(c, v.ks, v.pem, nonce).Some?
    ensures var jwt := Apply(c, keys, v, RekeyJwt(oldKey, order, nonce)).jwt;
            && ReadsAs(c, v.ks, jwt, v.pem)
            && SecretKeyID(jwt) == ActiveOptionID(v.ks)
            && Classify(v.ks, jwt, ActiveOptionID(v.ks)) == Active(ActiveOptionID(v.ks))
  {
    RekeyReadsJwt(c, keys, v.ks, v.jwt, oldKey, order, v.pem);
    RekeyJwtResult(c, keys, v, oldKey, order, nonce);
    NewValueReads(c, keys, v.ks, v.pem, nonce);
    EncodeUndoesParse(EncryptOption(c, v.ks, v.pem, nonce).value);
  }

  /** What the slot line tells an operator about removing a retired key: an active slot is safe, a
      pending one is lost exactly with the key it names, a legacy one exactly with the key that opens
      it; and a slot whose key is missing cannot be read at all. */
  lemma SlotDecidesRemoval(c: Cipher, keys: set<Bytes>, v: Vault, id: string)
    requires KeysetOk(c, keys, v.ks) && v.jwt != "" && id in v.ks.byID && !IsActive(v.ks, id)
    ensures JwtSlot(v).MissingKey? ==> forall p :: !ReadsAs(c, v.ks, v.jwt, p)
    ensures ReadsAs(c, v.ks, v.jwt, v.pem) ==>
              (ReadsAs(c, RemoveKey(c, v.ks, id), v.jwt, v.pem) <==>
               match JwtSlot(v)
               case Active(_) => true
               case RekeyPending(stamp) => stamp != id
               case Legacy => !OpensUnder(c, v.ks, v.jwt, id, v.pem)
               case _ => false)
  {
    EncodeUndoesParse(v.jwt);
    if ReadsAs(c, v.ks, v.jwt, v.pem) {
      RemovalReadsIff(c, keys, v.ks, v.jwt, v.pem, id);
    }
  }
}
