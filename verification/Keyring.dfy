/** The runtime key registry: encryption under the active key id, decryption by the stamped id,
    and trial decryption of legacy (un-stamped) values. A Go map has no iteration order, so every
    walk over the registry takes the order as a parameter. */
module Keyring {
  import opened Wrappers
  import opened Collections
  import opened Base64
  import opened Aead
  import opened Envelope

  datatype Keyset = Keyset(
    byID: map<string, string>,
    accessID: string,
    optionID: string,
    legacyAccess: string,
    legacyOption: string)

  /** Content-addressed id of key material; "" for empty or undecodable material. */
  function KeyID(c: Cipher, material: string): string {
    if material == "" then ""
    else
      match Decode(material)
      case None => ""
      case Some(raw) => if raw == [] then "" else RawUrlEncode(c.digest(raw)[..KEY_ID_LEN])
  }

  /** What every resolved keyset satisfies (see KeyConfig). */
  ghost predicate WellFormed(c: Cipher, ks: Keyset) {
    && (forall id | id in ks.byID :: RawKey(ks.byID[id]).Some? && KeyID(c, ks.byID[id]) == id)
    && (ks.accessID == "" || ks.accessID in ks.byID)
    && (ks.optionID == "" || ks.optionID in ks.byID)
    && FlatRegistered(c, ks, ks.legacyAccess)
    && FlatRegistered(c, ks, ks.legacyOption)
  }

  ghost predicate FlatRegistered(c: Cipher, ks: Keyset, flat: string) {
    flat == "" || (RawKey(flat).Some? && KeyID(c, flat) in ks.byID)
  }

  /** Every key the keyset can use is one of the keys in play. */
  ghost predicate KeysWithin(ks: Keyset, keys: set<Bytes>) {
    forall m | m in Materials(ks) :: RawKey(m).Some? && RawKey(m).value in keys
  }

  ghost function Materials(ks: Keyset): set<string> {
    ks.byID.Values + FlatSet(ks.legacyAccess) + FlatSet(ks.legacyOption)
  }

  ghost function FlatSet(flat: string): set<string> {
    if flat == "" then {} else {flat}
  }

  lemma KeyIDShape(c: Cipher, material: string)
    ensures KeyID(c, material) == "" || IsKeyID(KeyID(c, material))
    ensures RawKey(material).Some? ==> IsKeyID(KeyID(c, material))
  {
    if material != "" && Decode(material).Some? && Decode(material).value != [] {
      RawUrlEncodeIsKeyID(c.digest(Decode(material).value)[..KEY_ID_LEN]);
    }
  }

  lemma UrlCharInjective(i: Sextet, j: Sextet)
    requires UrlChar(i) == UrlChar(j)
    ensures i == j
  {
  }

  lemma UrlQuadInjective(x: Byte, y: Byte, z: Byte, x': Byte, y': Byte, z': Byte)
    requires UrlChar(x / 4) == UrlChar(x' / 4)
    requires UrlChar(x % 4 * 16 + y / 16) == UrlChar(x' % 4 * 16 + y' / 16)
    requires UrlChar(y % 16 * 4 + z / 64) == UrlChar(y' % 16 * 4 + z' / 64)
    requires UrlChar(z % 64) == UrlChar(z' % 64)
    ensures x == x' && y == y' && z == z'
  {
    UrlCharInjective(x / 4, x' / 4);
    UrlCharInjective(x % 4 * 16 + y / 16, x' % 4 * 16 + y' / 16);
    UrlCharInjective(y % 16 * 4 + z / 64, y' % 16 * 4 + z' / 64);
    UrlCharInjective(z % 64, z' % 64);
  }

  lemma UrlTailInjective(x: Byte, y: Byte, x': Byte, y': Byte)
    requires UrlChar(x / 4) == UrlChar(x' / 4)
    requires UrlChar(x % 4 * 16 + y / 16) == UrlChar(x' % 4 * 16 + y' / 16)
    requires UrlChar(y % 16 * 4) == UrlChar(y' % 16 * 4)
    ensures x == x' && y == y'
  {
    UrlCharInjective(x / 4, x' / 4);
    UrlCharInjective(x % 4 * 16 + y / 16, x' % 4 * 16 + y' / 16);
    UrlCharInjective(y % 16 * 4, y' % 16 * 4);
  }

  lemma EightBytes(b: Bytes)
    requires |b| == KEY_ID_LEN
    ensures RawUrlEncode(b) == RawUrlEncode(b[..3]) + RawUrlEncode(b[3..6]) + RawUrlEncode(b[6..])
  {
    TripleThenRest(b);
    TripleThenRest(b[3..]);
    assert b[3..][..3] == b[3..6] && b[3..][3..] == b[6..];
  }

  lemma TripleThenRest(b: Bytes)
    requires |b| >= 3
    ensures RawUrlEncode(b) == RawUrlEncode(b[..3]) + RawUrlEncode(b[3..])
  {
    var t := b[..3];
    TripleIs(t);
    assert t[0] == b[0] && t[1] == b[1] && t[2] == b[2];
  }

  lemma TripleIs(b: Bytes)
    requires |b| == 3
    ensures RawUrlEncode(b) == UrlQuad(b[0], b[1], b[2])
  {
    assert b[3..] == [] && RawUrlEncode([]) == "";
  }

  lemma TripleInjective(a: Bytes, b: Bytes)
    requires |a| == |b| == 3 && RawUrlEncode(a) == RawUrlEncode(b)
    ensures a == b
  {
    TripleIs(a);
    TripleIs(b);
    var x, y := RawUrlEncode(a), RawUrlEncode(b);
    assert x[0] == y[0] && x[1] == y[1] && x[2] == y[2] && x[3] == y[3];
    UrlQuadInjective(a[0], a[1], a[2], b[0], b[1], b[2]);
  }

  lemma PairInjective(a: Bytes, b: Bytes)
    requires |a| == |b| == 2 && RawUrlEncode(a) == RawUrlEncode(b)
    ensures a == b
  {
    var x, y := RawUrlEncode(a), RawUrlEncode(b);
    assert x[0] == y[0] && x[1] == y[1] && x[2] == y[2];
    UrlTailInjective(a[0], a[1], b[0], b[1]);
  }

  lemma Lengths(b: Bytes)
    ensures |b| == 3 ==> |RawUrlEncode(b)| == 4
    ensures |b| == 2 ==> |RawUrlEncode(b)| == 3
  {
    if |b| == 3 {
      assert b[3..] == [] && RawUrlEncode([]) == "";
    }
  }

  /** Encoding a truncated fingerprint loses nothing, so equal ids mean equal fingerprints. */
  lemma RawUrlEncodeInjective(a: Bytes, b: Bytes)
    requires |a| == |b| == KEY_ID_LEN && RawUrlEncode(a) == RawUrlEncode(b)
    ensures a == b
  {
    EightBytes(a);
    EightBytes(b);
    Lengths(a[..3]);
    Lengths(a[3..6]);
    Lengths(b[..3]);
    Lengths(b[3..6]);
    var x, y := RawUrlEncode(a), RawUrlEncode(b);
    assert x[..4] == RawUrlEncode(a[..3]) && y[..4] == RawUrlEncode(b[..3]);
    assert x[4..8] == RawUrlEncode(a[3..6]) && y[4..8] == RawUrlEncode(b[3..6]);
    assert x[8..] == RawUrlEncode(a[6..]) && y[8..] == RawUrlEncode(b[6..]);
    TripleInjective(a[..3], b[..3]);
    TripleInjective(a[3..6], b[3..6]);
    PairInjective(a[6..], b[6..]);
    assert a == a[..3] + a[3..6] + a[6..] && b == b[..3] + b[3..6] + b[6..];
  }

  /** Among the keys in play, an id names one raw key. */
  lemma SameIDSameKey(c: Cipher, keys: set<Bytes>, m1: string, m2: string)
    requires Ideal(c, keys)
    requires RawKey(m1).Some? && RawKey(m1).value in keys
    requires RawKey(m2).Some? && RawKey(m2).value in keys
    requires KeyID(c, m1) == KeyID(c, m2)
    ensures RawKey(m1) == RawKey(m2)
  {
    assert RawKey("") == None;
    RawUrlEncodeInjective(c.digest(RawKey(m1).value)[..KEY_ID_LEN], c.digest(RawKey(m2).value)[..KEY_ID_LEN]);
  }

  // --- candidates for legacy values ---

  function NonEmpty(s: seq<string>): seq<string> {
    if s == [] then []
    else (if s[0] == "" then [] else [s[0]]) + NonEmpty(s[1..])
  }

  lemma {:induction false} NonEmptyMembers(s: seq<string>)
    ensures forall k :: k in NonEmpty(s) <==> k in s && k != ""
  {
    if s != [] {
      NonEmptyMembers(s[1..]);
      assert s == [s[0]] + s[1..];
    }
  }

  lemma {:induction false} NonEmptyNone(s: seq<string>)
    requires forall k | k in s :: k == ""
    ensures NonEmpty(s) == []
  {
    if s != [] {
      assert s[0] in s && forall k | k in s[1..] :: k in s;
      NonEmptyNone(s[1..]);
    }
  }

  /** The first occurrence of each key, in order. */
  function Dedupe(s: seq<string>): seq<string> {
    if s == [] then []
    else
      var init, last := s[..|s| - 1], s[|s| - 1];
      if last in init then Dedupe(init) else Dedupe(init) + [last]
  }

  ghost function FirstIndex(s: seq<string>, k: string): (i: nat)
    requires k in s
    ensures i < |s| && s[i] == k && k !in s[..i]
  {
    if s[0] == k then 0
    else
      var r := FirstIndex(s[1..], k);
      assert s[..r + 1] == [s[0]] + s[1..][..r];
      r + 1
  }

  /** Dedupe keeps exactly the keys of its input, each once, ordered by first occurrence. */
  lemma {:induction false} DedupeSpec(s: seq<string>)
    ensures Distinct(Dedupe(s))
    ensures forall k :: k in Dedupe(s) <==> k in s
    ensures forall i, j | 0 <= i < j < |Dedupe(s)| :: FirstIndex(s, Dedupe(s)[i]) < FirstIndex(s, Dedupe(s)[j])
  {
    if s != [] {
      var init, last := s[..|s| - 1], s[|s| - 1];
      DedupeSpec(init);
      assert s == init + [last];
      forall k | k in init
        ensures FirstIndex(s, k) == FirstIndex(init, k)
      {
        FirstIndexUnique(s, k, FirstIndex(init, k));
      }
      if last !in init {
        FirstIndexUnique(s, last, |s| - 1);
      }
    }
  }

  lemma FirstIndexUnique(s: seq<string>, k: string, i: nat)
    requires i < |s| && s[i] == k && k !in s[..i]
    ensures k in s && FirstIndex(s, k) == i
  {
    var j := FirstIndex(s, k);
    assert forall m | 0 <= m < i :: s[..i][m] == s[m];
    assert forall m | 0 <= m < j :: s[..j][m] == s[m];
  }

  lemma DedupeAppend(s: seq<string>, k: string)
    ensures Dedupe(s + [k]) == if k in s then Dedupe(s) else Dedupe(s) + [k]
  {
    assert (s + [k])[..|s|] == s;
  }

  /** dedupeKeys in place: the kept keys overwrite a prefix of the slice that has already been
      read, so no element is lost before it is looked at. */
  method DedupeKeys(keys: array<string>) returns (n: nat)
    modifies keys
    ensures n <= keys.Length
    ensures keys[..n] == Dedupe(old(keys[..]))
  {
    var seen: set<string> := {};
    n := 0;
    for i := 0 to keys.Length
      invariant n <= i
      invariant keys[i..] == old(keys[..])[i..]
      invariant seen == set k | k in old(keys[..])[..i]
      invariant keys[..n] == Dedupe(old(keys[..])[..i])
    {
      ghost var was := old(keys[..]);
      var k := keys[i];
      assert k == keys[i..][0] == was[i];
      DedupeAppend(was[..i], k);
      assert was[..i + 1] == was[..i] + [k];
      assert keys[i + 1..] == keys[i..][1..] == was[i + 1..];
      if k !in seen {
        seen := seen + {k};
        keys[n] := k;
        n := n + 1;
        assert keys[..n] == Dedupe(was[..i]) + [k];
        assert keys[i + 1..] == was[i + 1..];
      }
    }
    assert old(keys[..])[..keys.Length] == old(keys[..]);
  }

  lemma EmptyOrder(order: seq<string>, ks: Keyset)
    requires Enumerates(order, ks.byID) && ks.byID == map[]
    ensures order == []
  {
    if order != [] {
      HeadIsIn(order);
    }
  }

  function MaterialsInOrder(ks: Keyset, order: seq<string>): seq<string>
    requires forall id | id in order :: id in ks.byID
  {
    if order == [] then [] else [ks.byID[order[0]]] + MaterialsInOrder(ks, order[1..])
  }

  lemma {:induction false} MaterialsMembers(ks: Keyset, order: seq<string>)
    requires forall id | id in order :: id in ks.byID
    ensures forall m :: m in MaterialsInOrder(ks, order) <==> exists id :: id in order && ks.byID[id] == m
  {
    if order != [] {
      MaterialsMembers(ks, order[1..]);
      assert order == [order[0]] + order[1..];
    }
  }

  lemma {:induction false} MaterialsAppend(ks: Keyset, order: seq<string>, id: string)
    requires forall i | i in order :: i in ks.byID
    requires id in ks.byID
    ensures MaterialsInOrder(ks, order + [id]) == MaterialsInOrder(ks, order) + [ks.byID[id]]
  {
    if order != [] {
      MaterialsAppend(ks, order[1..], id);
      assert (order + [id])[1..] == order[1..] + [id];
    }
  }

  function Candidates(flats: seq<string>, materials: seq<string>): seq<string> {
    var out := Dedupe(NonEmpty(flats) + NonEmpty(materials));
    if out == [] then [""] else out
  }

  lemma {:induction false} NonEmptyAppend(s: seq<string>, k: string)
    ensures NonEmpty(s + [k]) == NonEmpty(s) + if k == "" then [] else [k]
  {
    if s != [] {
      NonEmptyAppend(s[1..], k);
      assert (s + [k])[1..] == s[1..] + [k];
    }
  }

  method AppendFlats(flats: seq<string>) returns (out: seq<string>)
    ensures out == NonEmpty(flats)
  {
    out := [];
    for i := 0 to |flats|
      invariant out == NonEmpty(flats[..i])
    {
      NonEmptyAppend(flats[..i], flats[i]);
      assert flats[..i + 1] == flats[..i] + [flats[i]];
      if flats[i] != "" {
        out := out + [flats[i]];
      }
    }
    assert flats[..|flats|] == flats;
  }

  method AppendRegistry(ks: Keyset, start: seq<string>) returns (out: seq<string>, order: seq<string>)
    ensures Enumerates(order, ks.byID)
    ensures out == start + NonEmpty(MaterialsInOrder(ks, order))
  {
    out, order := start, [];
    var ids := ks.byID.Keys;
    while ids != {}
      invariant ids <= ks.byID.Keys
      invariant Distinct(order)
      invariant forall id :: id in order <==> id in ks.byID && id !in ids
      invariant out == start + NonEmpty(MaterialsInOrder(ks, order))
    {
      var id :| id in ids;
      MaterialsAppend(ks, order, id);
      NonEmptyAppend(MaterialsInOrder(ks, order), ks.byID[id]);
      order := order + [id];
      if ks.byID[id] != "" {
        out := out + [ks.byID[id]];
      }
      ids := ids - {id};
    }
  }

  /** legacyCandidates with its two loops and the in-place dedupe; `order` is the order in which
      the map happened to be walked. */
  method LegacyCandidates(ks: Keyset, flats: seq<string>) returns (out: seq<string>, order: seq<string>)
    ensures Enumerates(order, ks.byID)
    ensures out == Candidates(flats, MaterialsInOrder(ks, order))
  {
    out := AppendFlats(flats);
    out, order := AppendRegistry(ks, out);
    var a := new string[|out|](i requires 0 <= i < |out| => out[i]);
    assert a[..] == out;
    var n := DedupeKeys(a);
    out := if n == 0 then [""] else a[..n];
  }

  lemma RealMaterial(c: Cipher, ks: Keyset, id: string)
    requires WellFormed(c, ks) && id in ks.byID
    ensures ks.byID[id] != "" && ks.byID[id] in ks.byID.Values
  {
    assert RawKey("") == None;
  }

  /** The non-empty candidates are the registered and flat keys, whatever the walking order. */
  lemma CandidateMembers(c: Cipher, ks: Keyset, flats: seq<string>, order: seq<string>, k: string)
    requires WellFormed(c, ks) && Enumerates(order, ks.byID) && k != ""
    ensures k in Candidates(flats, MaterialsInOrder(ks, order)) <==> k in flats || k in ks.byID.Values
  {
    var mats := MaterialsInOrder(ks, order);
    MaterialsMembers(ks, order);
    NonEmptyMembers(flats);
    NonEmptyMembers(mats);
    DedupeSpec(NonEmpty(flats) + NonEmpty(mats));
  }

  /** The empty (passthrough) key is a candidate only when there is no real key at all. */
  lemma CandidatesNeverMixEmpty(c: Cipher, ks: Keyset, flats: seq<string>, order: seq<string>)
    requires WellFormed(c, ks) && Enumerates(order, ks.byID)
    ensures var out := Candidates(flats, MaterialsInOrder(ks, order));
            && out != []
            && ("" in out <==> out == [""])
            && (out == [""] <==> ks.byID == map[] && forall k | k in flats :: k == "")
  {
    var mats := MaterialsInOrder(ks, order);
    var out := Candidates(flats, mats);
    NonEmptyMembers(flats);
    NonEmptyMembers(mats);
    DedupeSpec(NonEmpty(flats) + NonEmpty(mats));
    assert "" in out <==> out == [""];
    if ks.byID != map[] {
      var id :| id in ks.byID;
      RealMaterial(c, ks, id);
      CandidateMembers(c, ks, flats, order, ks.byID[id]);
    } else {
      EmptyOrder(order, ks);
      if k :| k in flats && k != "" {
        CandidateMembers(c, ks, flats, order, k);
      } else {
        NonEmptyNone(flats);
      }
    }
  }

  // --- encryption and decryption ---

  function EncryptUnder(c: Cipher, ks: Keyset, plaintext: Bytes, id: string, nonce: Nonce): Option<string> {
    var material := if id in ks.byID then ks.byID[id] else "";
    var ct :- EncryptAESGCM(c, plaintext, material, nonce);
    Some(EncodeEnvelope(id, ct))
  }

  function ActiveOptionID(ks: Keyset): string {
    if ks.optionID != "" then ks.optionID else ks.accessID
  }

  function EncryptAccessSecret(c: Cipher, ks: Keyset, plaintext: Bytes, nonce: Nonce): Option<string> {
    EncryptUnder(c, ks, plaintext, ks.accessID, nonce)
  }

  function EncryptOption(c: Cipher, ks: Keyset, plaintext: Bytes, nonce: Nonce): Option<string> {
    EncryptUnder(c, ks, plaintext, ActiveOptionID(ks), nonce)
  }

  function FirstOpen(c: Cipher, ct: string, keys: seq<string>): Option<Bytes> {
    if keys == [] then None
    else
      var r := DecryptAESGCM(c, ct, keys[0]);
      if r.Some? then r else FirstOpen(c, ct, keys[1..])
  }

  function DecryptWithKeys(c: Cipher, ct: string, keys: seq<string>): Option<Bytes> {
    FirstOpen(c, ct, if keys == [] then [""] else keys)
  }

  /** The loop of decryptWithKeys. */
  method TrialDecrypt(c: Cipher, ct: string, candidates: seq<string>) returns (r: Option<Bytes>)
    ensures r == DecryptWithKeys(c, ct, candidates)
  {
    var keys := if |candidates| == 0 then [""] else candidates;
    for i := 0 to |keys|
      invariant FirstOpen(c, ct, keys) == FirstOpen(c, ct, keys[i..])
    {
      r := DecryptAESGCM(c, ct, keys[i]);
      if r.Some? {
        return;
      }
      assert keys[i..][1..] == keys[i + 1..];
    }
    r := None;
  }

  function Decrypt(c: Cipher, ks: Keyset, stored: string, legacy: seq<string>): Option<Bytes> {
    var e := ParseEnvelope(stored);
    if e.hasID then
      if e.id in ks.byID then DecryptAESGCM(c, e.ct, ks.byID[e.id]) else None
    else
      DecryptWithKeys(c, e.ct, legacy)
  }

  function DecryptAccessSecret(c: Cipher, ks: Keyset, stored: string, order: seq<string>): Option<Bytes>
    requires forall id | id in order :: id in ks.byID
  {
    Decrypt(c, ks, stored, Candidates([ks.legacyAccess], MaterialsInOrder(ks, order)))
  }

  function DecryptOption(c: Cipher, ks: Keyset, stored: string, order: seq<string>): Option<Bytes>
    requires forall id | id in order :: id in ks.byID
  {
    Decrypt(c, ks, stored, Candidates([ks.legacyOption, ks.legacyAccess], MaterialsInOrder(ks, order)))
  }

  lemma {:induction false} FirstOpenSome(c: Cipher, ct: string, keys: seq<string>)
    ensures FirstOpen(c, ct, keys).Some? ==> exists k :: k in keys && DecryptAESGCM(c, ct, k) == FirstOpen(c, ct, keys)
    ensures (exists k :: k in keys && DecryptAESGCM(c, ct, k).Some?) ==> FirstOpen(c, ct, keys).Some?
  {
    if keys != [] {
      FirstOpenSome(c, ct, keys[1..]);
      assert keys == [keys[0]] + keys[1..];
    }
  }

  /** What a stored value reads as, with no mention of any order: the plaintext its stamped key
      opens it to, or, for a legacy value, the plaintext some registered key opens it to. */
  ghost predicate ReadsAs(c: Cipher, ks: Keyset, stored: string, p: Bytes) {
    var e := ParseEnvelope(stored);
    if e.hasID then e.id in ks.byID && DecryptAESGCM(c, e.ct, ks.byID[e.id]) == Some(p)
    else exists id :: id in ks.byID && DecryptAESGCM(c, e.ct, ks.byID[id]) == Some(p)
  }

  /** The flats passed to the trial: the keyset's own flat fields. */
  ghost predicate OwnFlats(ks: Keyset, flats: seq<string>) {
    forall f | f in flats :: f == "" || f == ks.legacyAccess || f == ks.legacyOption
  }

  /** A flat key opens what its registry entry opens. */
  lemma FlatOpensLikeRegistry(c: Cipher, keys: set<Bytes>, ks: Keyset, ct: string, flat: string)
    requires Ideal(c, keys) && WellFormed(c, ks) && KeysWithin(ks, keys)
    requires flat != "" && (flat == ks.legacyAccess || flat == ks.legacyOption)
    ensures KeyID(c, flat) in ks.byID
    ensures DecryptAESGCM(c, ct, flat) == DecryptAESGCM(c, ct, ks.byID[KeyID(c, flat)])
  {
    var m := ks.byID[KeyID(c, flat)];
    assert m in Materials(ks) && flat in Materials(ks);
    SameIDSameKey(c, keys, flat, m);
    SameKeyOpensSame(c, ct, flat, m);
  }

  /** A candidate that opens a legacy value does so as some registry entry does. */
  lemma CandidateReads(
    c: Cipher, keys: set<Bytes>, ks: Keyset, ct: string, flats: seq<string>, order: seq<string>, k: string)
    returns (id: string)
    requires Ideal(c, keys) && WellFormed(c, ks) && KeysWithin(ks, keys)
    requires ks.byID != map[] && Enumerates(order, ks.byID) && OwnFlats(ks, flats)
    requires k in Candidates(flats, MaterialsInOrder(ks, order))
    ensures id in ks.byID && DecryptAESGCM(c, ct, ks.byID[id]) == DecryptAESGCM(c, ct, k)
    ensures k in Materials(ks)
  {
    CandidatesNeverMixEmpty(c, ks, flats, order);
    CandidateMembers(c, ks, flats, order, k);
    if k in ks.byID.Values {
      id :| id in ks.byID && ks.byID[id] == k;
    } else {
      FlatOpensLikeRegistry(c, keys, ks, ct, k);
      id := KeyID(c, k);
    }
  }

  /** Decryption is deterministic: with any real key registered, any order of the registry gives
      Some(p) exactly when the value reads as p, for every stored string whatsoever. */
  lemma DecryptIffReadsAs(
    c: Cipher, keys: set<Bytes>, ks: Keyset, stored: string, flats: seq<string>, order: seq<string>, p: Bytes)
    requires Ideal(c, keys) && WellFormed(c, ks) && KeysWithin(ks, keys)
    requires ks.byID != map[] && Enumerates(order, ks.byID) && OwnFlats(ks, flats)
    ensures Decrypt(c, ks, stored, Candidates(flats, MaterialsInOrder(ks, order))) == Some(p)
       <==> ReadsAs(c, ks, stored, p)
  {
    var ct := ParseEnvelope(stored).ct;
    if !ParseEnvelope(stored).hasID {
      var cands := Candidates(flats, MaterialsInOrder(ks, order));
      CandidatesNeverMixEmpty(c, ks, flats, order);
      FirstOpenSome(c, ct, cands);
      var r := FirstOpen(c, ct, cands);
      if r == Some(p) {
        var k :| k in cands && DecryptAESGCM(c, ct, k) == r;
        var id := CandidateReads(c, keys, ks, ct, flats, order, k);
      }
      if ReadsAs(c, ks, stored, p) {
        var id :| id in ks.byID && DecryptAESGCM(c, ct, ks.byID[id]) == Some(p);
        RealMaterial(c, ks, id);
        CandidateMembers(c, ks, flats, order, ks.byID[id]);
        var k :| k in cands && DecryptAESGCM(c, ct, k) == r;
        var _ := CandidateReads(c, keys, ks, ct, flats, order, k);
        OneKeyOpens(c, keys, ct, ks.byID[id], k);
      }
    }
  }

  lemma AccessReads(c: Cipher, keys: set<Bytes>, ks: Keyset, stored: string, order: seq<string>, p: Bytes)
    requires Ideal(c, keys) && WellFormed(c, ks) && KeysWithin(ks, keys)
    requires ks.byID != map[] && Enumerates(order, ks.byID)
    ensures DecryptAccessSecret(c, ks, stored, order) == Some(p) <==> ReadsAs(c, ks, stored, p)
  {
    DecryptIffReadsAs(c, keys, ks, stored, [ks.legacyAccess], order, p);
  }

  lemma OptionReads(c: Cipher, keys: set<Bytes>, ks: Keyset, stored: string, order: seq<string>, p: Bytes)
    requires Ideal(c, keys) && WellFormed(c, ks) && KeysWithin(ks, keys)
    requires ks.byID != map[] && Enumerates(order, ks.byID)
    ensures DecryptOption(c, ks, stored, order) == Some(p) <==> ReadsAs(c, ks, stored, p)
  {
    var flats := [ks.legacyOption, ks.legacyAccess];
    assert OwnFlats(ks, flats);
    DecryptIffReadsAs(c, keys, ks, stored, flats, order, p);
  }

  lemma SameOption<T>(a: Option<T>, b: Option<T>)
    requires a.Some? ==> b == Some(a.value)
    requires b.Some? ==> a == Some(b.value)
    ensures a == b
  {
  }

  lemma AccessOrderIrrelevant(
    c: Cipher, keys: set<Bytes>, ks: Keyset, stored: string, order: seq<string>, order': seq<string>)
    requires Ideal(c, keys) && WellFormed(c, ks) && KeysWithin(ks, keys) && ks.byID != map[]
    requires Enumerates(order, ks.byID) && Enumerates(order', ks.byID)
    ensures DecryptAccessSecret(c, ks, stored, order) == DecryptAccessSecret(c, ks, stored, order')
  {
    var a, b := DecryptAccessSecret(c, ks, stored, order), DecryptAccessSecret(c, ks, stored, order');
    if a.Some? {
      AccessReads(c, keys, ks, stored, order, a.value);
      AccessReads(c, keys, ks, stored, order', a.value);
    }
    if b.Some? {
      AccessReads(c, keys, ks, stored, order, b.value);
      AccessReads(c, keys, ks, stored, order', b.value);
    }
    SameOption(a, b);
  }

  lemma OptionOrderIrrelevant(
    c: Cipher, keys: set<Bytes>, ks: Keyset, stored: string, order: seq<string>, order': seq<string>)
    requires Ideal(c, keys) && WellFormed(c, ks) && KeysWithin(ks, keys) && ks.byID != map[]
    requires Enumerates(order, ks.byID) && Enumerates(order', ks.byID)
    ensures DecryptOption(c, ks, stored, order) == DecryptOption(c, ks, stored, order')
  {
    var a, b := DecryptOption(c, ks, stored, order), DecryptOption(c, ks, stored, order');
    if a.Some? {
      OptionReads(c, keys, ks, stored, order, a.value);
      OptionReads(c, keys, ks, stored, order', a.value);
    }
    if b.Some? {
      OptionReads(c, keys, ks, stored, order, b.value);
      OptionReads(c, keys, ks, stored, order', b.value);
    }
    SameOption(a, b);
  }

  /** The same plaintext, or failure, for every two orders in which the registry may be walked. */
  lemma LegacyOrderIrrelevant(
    c: Cipher, keys: set<Bytes>, ks: Keyset, stored: string, order: seq<string>, order': seq<string>)
    requires Ideal(c, keys) && WellFormed(c, ks) && KeysWithin(ks, keys)
    requires Enumerates(order, ks.byID) && Enumerates(order', ks.byID)
    ensures DecryptAccessSecret(c, ks, stored, order) == DecryptAccessSecret(c, ks, stored, order')
    ensures DecryptOption(c, ks, stored, order) == DecryptOption(c, ks, stored, order')
  {
    if ks.byID == map[] {
      EmptyOrder(order, ks);
      EmptyOrder(order', ks);
    } else {
      AccessOrderIrrelevant(c, keys, ks, stored, order, order');
      OptionOrderIrrelevant(c, keys, ks, stored, order, order');
    }
  }

  /** Encryption under a registered id stamps that id and reads back. */
  lemma EncryptReads(c: Cipher, keys: set<Bytes>, ks: Keyset, p: Bytes, id: string, nonce: Nonce)
    requires Ideal(c, keys) && WellFormed(c, ks)
    requires id in ks.byID
    ensures IsKeyID(id)
    ensures var r := EncryptUnder(c, ks, p, id, nonce);
            r.Some? && SecretKeyID(r.value) == id && ReadsAs(c, ks, r.value, p)
  {
    KeyIDShape(c, ks.byID[id]);
    DecryptUndoesEncrypt(c, keys, p, ks.byID[id], nonce);
    ParseUndoesEncode(id, EncryptAESGCM(c, p, ks.byID[id], nonce).value);
  }

  /** With encryption disabled a value is stored in the clear. Reading it back returns it exactly
      when no key is registered: as soon as one is, the trial refuses or mangles it. */
  lemma PassthroughReads(
    c: Cipher, keys: set<Bytes>, ks: Keyset, p: Bytes, flats: seq<string>, nonce: Nonce, order: seq<string>)
    requires Ideal(c, keys) && WellFormed(c, ks) && KeysWithin(ks, keys)
    requires Enumerates(order, ks.byID) && OwnFlats(ks, flats)
    ensures EncryptUnder(c, ks, p, "", nonce).Some?
    ensures Decrypt(c, ks, EncryptUnder(c, ks, p, "", nonce).value, Candidates(flats, MaterialsInOrder(ks, order)))
              == Some(p)
       <==> ks.byID == map[]
  {
    assert "" !in ks.byID by {
      if "" in ks.byID {
        KeyIDShape(c, ks.byID[""]);
      }
    }
    var ct := Encode(p);
    RoundTrip(p);
    EncodePlain(p);
    ParseLegacy(ct);
    CandidatesNeverMixEmpty(c, ks, flats, order);
    if ks.byID == map[] {
      EmptyOrder(order, ks);
      assert forall k | k in flats :: k == "";
    } else {
      DecryptIffReadsAs(c, keys, ks, ct, flats, order, p);
      forall id | id in ks.byID
        ensures DecryptAESGCM(c, ct, ks.byID[id]) != Some(p)
      {
        PassthroughNeverOpens(c, keys, p, ks.byID[id]);
      }
    }
  }

  lemma RoundTripUnder(
    c: Cipher, keys: set<Bytes>, ks: Keyset, p: Bytes, id: string, flats: seq<string>, nonce: Nonce, order: seq<string>)
    requires Ideal(c, keys) && WellFormed(c, ks) && KeysWithin(ks, keys)
    requires Enumerates(order, ks.byID) && OwnFlats(ks, flats)
    requires id == "" || id in ks.byID
    ensures EncryptUnder(c, ks, p, id, nonce).Some?
    ensures Decrypt(c, ks, EncryptUnder(c, ks, p, id, nonce).value, Candidates(flats, MaterialsInOrder(ks, order)))
              == Some(p)
       <==> id != "" || ks.byID == map[]
  {
    if id == "" {
      PassthroughReads(c, keys, ks, p, flats, nonce, order);
    } else {
      EncryptReads(c, keys, ks, p, id, nonce);
      DecryptIffReadsAs(c, keys, ks, EncryptUnder(c, ks, p, id, nonce).value, flats, order, p);
    }
  }

  /** The secret round trip and its exact condition: an active access key, or no key at all. */
  lemma AccessRoundTrip(c: Cipher, keys: set<Bytes>, ks: Keyset, p: Bytes, nonce: Nonce, order: seq<string>)
    requires Ideal(c, keys) && WellFormed(c, ks) && KeysWithin(ks, keys) && Enumerates(order, ks.byID)
    ensures EncryptAccessSecret(c, ks, p, nonce).Some?
    ensures DecryptAccessSecret(c, ks, EncryptAccessSecret(c, ks, p, nonce).value, order) == Some(p)
       <==> ks.accessID != "" || ks.byID == map[]
  {
    RoundTripUnder(c, keys, ks, p, ks.accessID, [ks.legacyAccess], nonce, order);
  }

  /** The failing family is reachable: a registry whose only key is the option key stores access
      secrets in the clear and then cannot read any of them. */
  lemma OptionKeyOnlyBreaksAccess(c: Cipher, material: string, p: Bytes, nonce: Nonce)
    requires RawKey(material).Some? && Ideal(c, {RawKey(material).value})
    ensures var id := KeyID(c, material);
            var ks := Keyset(map[id := material], "", id, "", "");
            && WellFormed(c, ks)
            && EncryptAccessSecret(c, ks, p, nonce).Some?
            && DecryptAccessSecret(c, ks, EncryptAccessSecret(c, ks, p, nonce).value, [id]) != Some(p)
  {
    var id := KeyID(c, material);
    var ks := Keyset(map[id := material], "", id, "", "");
    assert forall m | m in Materials(ks) :: m == material;
    assert id in ks.byID;
    AccessRoundTrip(c, {RawKey(material).value}, ks, p, nonce, [id]);
  }

  /** The same for options, whose key falls back to the access key. */
  lemma OptionRoundTrip(c: Cipher, keys: set<Bytes>, ks: Keyset, p: Bytes, nonce: Nonce, order: seq<string>)
    requires Ideal(c, keys) && WellFormed(c, ks) && KeysWithin(ks, keys) && Enumerates(order, ks.byID)
    ensures EncryptOption(c, ks, p, nonce).Some?
    ensures DecryptOption(c, ks, EncryptOption(c, ks, p, nonce).value, order) == Some(p)
       <==> ks.optionID != "" || ks.accessID != "" || ks.byID == map[]
  {
    RoundTripUnder(c, keys, ks, p, ActiveOptionID(ks), [ks.legacyOption, ks.legacyAccess], nonce, order);
  }

  // --- comparison and classification ---

  predicate KeysetsEqual(a: Keyset, b: Keyset) {
    && a.accessID == b.accessID && a.optionID == b.optionID
    && a.legacyAccess == b.legacyAccess && a.legacyOption == b.legacyOption
    && |a.byID| == |b.byID|
    && forall id | id in a.byID :: (if id in b.byID then b.byID[id] else "") == a.byID[id]
  }

  /** The size test plus one-way inclusion is structural equality as soon as the first registry
      holds no empty material, which a well-formed one never does. */
  lemma KeysetsEqualIsEquality(a: Keyset, b: Keyset)
    requires forall id | id in a.byID :: a.byID[id] != ""
    ensures KeysetsEqual(a, b) <==> a == b
  {
    if KeysetsEqual(a, b) {
      assert a.byID.Keys <= b.byID.Keys;
      SubsetSize(a.byID.Keys, b.byID.Keys);
      assert a.byID == b.byID;
    }
  }

  /** The comparison recognises a keyset exactly, among all others, if and only if it holds no empty
      material: an id with an empty one can be exchanged for any other id unnoticed. */
  lemma KeysetsEqualIff(a: Keyset)
    ensures (forall b :: KeysetsEqual(a, b) <==> a == b) <==> forall id | id in a.byID :: a.byID[id] != ""
  {
    if id :| id in a.byID && a.byID[id] == "" {
      var other := NewID(a.byID.Keys);
      var b := a.(byID := (a.byID - {id})[other := ""]);
      SameSizeSwap(a.byID, id, other);
      assert other in b.byID && other !in a.byID;
      assert KeysetsEqual(a, b) && a != b;
    } else {
      forall b
        ensures KeysetsEqual(a, b) <==> a == b
      {
        KeysetsEqualIsEquality(a, b);
      }
    }
  }

  lemma SameSizeSwap(m: map<string, string>, id: string, other: string)
    requires id in m && other !in m
    ensures |(m - {id})[other := ""]| == |m|
  {
    var m' := (m - {id})[other := ""];
    assert m'.Keys == m.Keys - {id} + {other};
    assert |m'.Keys| == |m'| && |m.Keys| == |m|;
  }

  /** A string longer than all of a finite set. */
  lemma {:induction false} NewID(ids: set<string>) returns (s: string)
    ensures forall id | id in ids :: |id| < |s|
    decreases ids
  {
    if ids == {} {
      s := "";
    } else {
      var id :| id in ids;
      s := NewID(ids - {id});
      assert forall x | x in ids :: x == id || x in ids - {id};
      if |s| <= |id| {
        s := id + "x";
      }
    }
  }

  datatype Slot = NotSet | Active(id: string) | RekeyPending(id: string) | Legacy | MissingKey(id: string)

  function Classify(ks: Keyset, stored: string, activeID: string): Slot {
    var e := ParseEnvelope(stored);
    if !e.hasID then Legacy
    else if e.id !in ks.byID then MissingKey(e.id)
    else if e.id == activeID then Active(e.id)
    else RekeyPending(e.id)
  }
}
