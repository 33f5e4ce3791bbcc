/** Key ids and the "<id>:<base64 ciphertext>" envelope of a stored secret. */
module Envelope {
  import opened Wrappers
  import opened Base64
  import opened Strings

  const KEY_ID_LEN := 8
  const ENCODED_KEY_ID_LEN := 11

  function EncodeEnvelope(id: string, ct: string): string {
    if id == "" then ct else id + ":" + ct
  }

  predicate IsKeyIDChar(ch: char) {
    || 'A' <= ch <= 'Z' || 'a' <= ch <= 'z' || '0' <= ch <= '9' || ch == '-' || ch == '_'
  }

  predicate IsKeyID(s: string) {
    |s| == ENCODED_KEY_ID_LEN && forall i | 0 <= i < |s| :: IsKeyIDChar(s[i])
  }

  datatype Parsed = Parsed(id: string, ct: string, hasID: bool)

  function ParseEnvelope(s: string): Parsed {
    var i := IndexOf(s, ':');
    if i <= 0 then Parsed("", s, false)
    else if IsKeyID(s[..i]) then Parsed(s[..i], s[i + 1..], true)
    else Parsed("", s, false)
  }

  /** The id stamped on a stored value, "" for a legacy value. */
  function SecretKeyID(stored: string): string {
    ParseEnvelope(stored).id
  }

  /** Parsing recovers the id and ciphertext of every stamped value, whatever the ciphertext holds. */
  lemma ParseUndoesEncode(id: string, ct: string)
    requires IsKeyID(id)
    ensures ParseEnvelope(EncodeEnvelope(id, ct)) == Parsed(id, ct, true)
  {
    var s := EncodeEnvelope(id, ct);
    var i := IndexOf(s, ':');
    assert s[|id|] == ':';
    assert id == s[..|id|];
    assert forall j | 0 <= j < |id| :: s[j] == id[j] && IsKeyIDChar(id[j]);
    assert i == |id|;
    assert s[i + 1..] == ct;
  }

  /** An un-prefixed value that holds no colon, as base64 never does, parses as legacy. */
  lemma ParseLegacy(ct: string)
    requires Plain(ct)
    ensures ParseEnvelope(EncodeEnvelope("", ct)) == Parsed("", ct, false)
  {
  }

  /** Encoding undoes parsing on every string, prefixed or not. */
  lemma EncodeUndoesParse(s: string)
    ensures var r := ParseEnvelope(s); EncodeEnvelope(r.id, r.ct) == s
    ensures var r := ParseEnvelope(s); r.hasID <==> r.id != ""
    ensures var r := ParseEnvelope(s); r.hasID ==> IsKeyID(r.id)
  {
    var i := IndexOf(s, ':');
    if i > 0 && IsKeyID(s[..i]) {
      assert s == s[..i] + [s[i]] + s[i + 1..];
    }
  }

  lemma {:induction false} RawUrlEncodeShape(b: Bytes)
    ensures |RawUrlEncode(b)| == |b| / 3 * 4 + (if |b| % 3 == 0 then 0 else |b| % 3 + 1)
    ensures forall i | 0 <= i < |RawUrlEncode(b)| :: IsKeyIDChar(RawUrlEncode(b)[i])
  {
    if |b| >= 3 {
      RawUrlEncodeShape(b[3..]);
    }
  }

  /** The URL-safe alphabet of an encoded fingerprint is exactly what IsKeyID accepts. */
  lemma RawUrlEncodeIsKeyID(b: Bytes)
    requires |b| == KEY_ID_LEN
    ensures IsKeyID(RawUrlEncode(b))
  {
    RawUrlEncodeShape(b);
  }
}
