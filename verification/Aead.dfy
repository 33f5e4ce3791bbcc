/** The AES-GCM framing of a secret: nonce || sealed payload, in base64, with the empty key
    meaning "store the plaintext". The primitive itself is a parameter: a Cipher holds AES-GCM's
    seal and open and SHA-256, and Ideal states what is taken for granted about them. */
module Aead {
  import opened Wrappers
  import opened Base64

  const NONCE_SIZE := 12
  const TAG_SIZE := 16

  type Nonce = b: Bytes | |b| == NONCE_SIZE witness [0, 0, 0, 0, 0, 0, 0, 0, 0, 0, 0, 0]
  type Digest = b: Bytes | |b| == 32 witness seq(32, _ => 0)

  datatype Cipher = Cipher(
    seal: (Bytes, Nonce, Bytes) -> Bytes,
    open: (Bytes, Nonce, Bytes) -> Option<Bytes>,
    digest: Bytes -> Digest)

  /** Authenticated encryption for the keys in play: what is sealed opens, what opens was sealed,
      the payload grows by the tag, a payload sealed under one of the keys opens under no other of
      them, and their truncated fingerprints differ. The last two are asked only of the finite set
      of keys a deployment uses; over all keys a 128-bit tag and a 64-bit id could not provide them. */
  ghost predicate Ideal(c: Cipher, keys: set<Bytes>) {
    && (forall k, n, p :: c.open(k, n, c.seal(k, n, p)) == Some(p))
    && (forall k, n, x :: c.open(k, n, x).Some? ==> c.seal(k, n, c.open(k, n, x).value) == x)
    && (forall k, n, p :: |c.seal(k, n, p)| == |p| + TAG_SIZE)
    && (forall k, k', n, p :: k in keys && k' in keys && k != k' ==> c.open(k', n, c.seal(k, n, p)) == None)
    && (forall k, k' :: k in keys && k' in keys && c.digest(k)[..8] == c.digest(k')[..8] ==> k == k')
  }

  /** The AES key behind base64 material, when newGCM accepts it. */
  function RawKey(material: string): Option<Bytes> {
    var raw :- Decode(material);
    if |raw| in {16, 24, 32} then Some(raw) else None
  }

  function EncryptAESGCM(c: Cipher, plaintext: Bytes, material: string, nonce: Nonce): Option<string> {
    if material == "" then Some(Encode(plaintext))
    else
      var raw :- RawKey(material);
      Some(Encode(nonce + c.seal(raw, nonce, plaintext)))
  }

  function DecryptAESGCM(c: Cipher, ciphertext: string, material: string): Option<Bytes> {
    var x :- Decode(ciphertext);
    if material == "" then Some(x)
    else
      var raw :- RawKey(material);
      if |x| < NONCE_SIZE then None
      else c.open(raw, x[..NONCE_SIZE], x[NONCE_SIZE..])
  }

  lemma DecryptUndoesEncrypt(c: Cipher, keys: set<Bytes>, p: Bytes, material: string, nonce: Nonce)
    requires Ideal(c, keys)
    requires material == "" || RawKey(material).Some?
    ensures EncryptAESGCM(c, p, material, nonce).Some?
    ensures Plain(EncryptAESGCM(c, p, material, nonce).value)
    ensures DecryptAESGCM(c, EncryptAESGCM(c, p, material, nonce).value, material) == Some(p)
  {
    if material == "" {
      RoundTrip(p);
      EncodePlain(p);
    } else {
      var raw := RawKey(material).value;
      var x := nonce + c.seal(raw, nonce, p);
      RoundTrip(x);
      EncodePlain(x);
      assert x[..NONCE_SIZE] == nonce && x[NONCE_SIZE..] == c.seal(raw, nonce, p);
    }
  }

  /** No ciphertext opens under two different keys in play, so two materials that both open it
      hold the same raw key and give the same plaintext. */
  lemma OneKeyOpens(c: Cipher, keys: set<Bytes>, ct: string, m1: string, m2: string)
    requires Ideal(c, keys)
    requires RawKey(m1).Some? && RawKey(m2).Some?
    requires RawKey(m1).value in keys && RawKey(m2).value in keys
    requires DecryptAESGCM(c, ct, m1).Some? && DecryptAESGCM(c, ct, m2).Some?
    ensures RawKey(m1) == RawKey(m2) && DecryptAESGCM(c, ct, m1) == DecryptAESGCM(c, ct, m2)
  {
    assert RawKey("") == None;
    var x := Decode(ct).value;
    var k1 := RawKey(m1).value;
    var n, y := x[..NONCE_SIZE], x[NONCE_SIZE..];
    assert c.seal(k1, n, c.open(k1, n, y).value) == y;
  }

  lemma SameKeyOpensSame(c: Cipher, ct: string, m1: string, m2: string)
    requires RawKey(m1).Some? && RawKey(m1) == RawKey(m2)
    ensures DecryptAESGCM(c, ct, m1) == DecryptAESGCM(c, ct, m2)
  {
    assert RawKey("") == None;
  }

  /** A key never opens a stored plaintext to itself: opening strips the nonce and the tag. */
  lemma PassthroughNeverOpens(c: Cipher, keys: set<Bytes>, p: Bytes, material: string)
    requires Ideal(c, keys)
    requires RawKey(material).Some?
    ensures DecryptAESGCM(c, Encode(p), material) != Some(p)
  {
    RoundTrip(p);
    assert RawKey("") == None;
    if |p| >= NONCE_SIZE {
      var n, y := p[..NONCE_SIZE], p[NONCE_SIZE..];
      var r := c.open(RawKey(material).value, n, y);
      if r.Some? {
        assert |c.seal(RawKey(material).value, n, r.value)| == |r.value| + TAG_SIZE;
      }
    }
  }

  /** The hypotheses are consistent: this transparent cipher meets them for every set of 16-byte
      keys that differ in their first 8 bytes. */
  const TransparentCipher := Cipher(
    (k: Bytes, n: Nonce, p: Bytes) => p + Tag(k),
    (k: Bytes, n: Nonce, x: Bytes) =>
      if |x| >= TAG_SIZE && x[|x| - TAG_SIZE..] == Tag(k) then Some(x[..|x| - TAG_SIZE]) else None,
    (k: Bytes) => Tag(k) + Tag(k))

  function Tag(k: Bytes): (t: Bytes)
    ensures |t| == TAG_SIZE
  {
    (k + seq(TAG_SIZE, _ => 0))[..TAG_SIZE]
  }

  lemma IdealIsSatisfiable(keys: set<Bytes>)
    requires forall k | k in keys :: |k| == 16
    requires forall k, k' | k in keys && k' in keys && k[..8] == k'[..8] :: k == k'
    ensures Ideal(TransparentCipher, keys)
  {
    var c := TransparentCipher;
    forall k: Bytes, n: Nonce, p: Bytes
      ensures c.open(k, n, c.seal(k, n, p)) == Some(p)
    {
      assert (p + Tag(k))[|p|..] == Tag(k) && (p + Tag(k))[..|p|] == p;
    }
    forall k: Bytes, n: Nonce, x: Bytes | c.open(k, n, x).Some?
      ensures c.seal(k, n, c.open(k, n, x).value) == x
    {
      assert x == x[..|x| - TAG_SIZE] + x[|x| - TAG_SIZE..];
    }
    assert forall k | k in keys :: Tag(k) == k;
    forall k, k', n: Nonce, p: Bytes | k in keys && k' in keys && k != k'
      ensures c.open(k', n, c.seal(k, n, p)) == None
    {
      assert (p + k)[|p|..] == k;
    }
    forall k, k' | k in keys && k' in keys && c.digest(k)[..8] == c.digest(k')[..8]
      ensures k == k'
    {
      assert (k + k)[..8] == k[..8] && (k' + k')[..8] == k'[..8];
    }
  }
}
