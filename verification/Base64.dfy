/** The base64 alphabets of RFC 4648: section 4 (standard, padded) for key material and
    ciphertext, section 5 (URL-safe, unpadded) for key ids. Decoding follows Go's
    encoding/base64: CR and LF are skipped anywhere, unused trailing bits are ignored. */
module Base64 {
  import opened Wrappers

  type Byte = b: int | 0 <= b < 256
  type Bytes = seq<Byte>
  type Sextet = i: int | 0 <= i < 64

  function StdChar(i: Sextet): char {
    if i < 26 then ('A' as int + i) as char
    else if i < 52 then ('a' as int + (i - 26)) as char
    else if i < 62 then ('0' as int + (i - 52)) as char
    else if i == 62 then '+' else '/'
  }

  function UrlChar(i: Sextet): char {
    if i == 62 then '-' else if i == 63 then '_' else StdChar(i)
  }

  function StdIndex(ch: char): Option<Sextet> {
    if 'A' <= ch <= 'Z' then Some(ch as int - 'A' as int)
    else if 'a' <= ch <= 'z' then Some(ch as int - 'a' as int + 26)
    else if '0' <= ch <= '9' then Some(ch as int - '0' as int + 52)
    else if ch == '+' then Some(62)
    else if ch == '/' then Some(63)
    else None
  }

  function Encode(b: Bytes): string {
    if |b| == 0 then ""
    else if |b| == 1 then
      [StdChar(b[0] / 4), StdChar(b[0] % 4 * 16), '=', '=']
    else if |b| == 2 then
      [StdChar(b[0] / 4), StdChar(b[0] % 4 * 16 + b[1] / 16), StdChar(b[1] % 16 * 4), '=']
    else
      StdQuad(b[0], b[1], b[2]) + Encode(b[3..])
  }

  function StdQuad(x: Byte, y: Byte, z: Byte): string {
    [StdChar(x / 4), StdChar(x % 4 * 16 + y / 16), StdChar(y % 16 * 4 + z / 64), StdChar(z % 64)]
  }

  /** Unpadded URL-safe encoding, as used for key ids. */
  function RawUrlEncode(b: Bytes): string {
    if |b| == 0 then ""
    else if |b| == 1 then
      [UrlChar(b[0] / 4), UrlChar(b[0] % 4 * 16)]
    else if |b| == 2 then
      [UrlChar(b[0] / 4), UrlChar(b[0] % 4 * 16 + b[1] / 16), UrlChar(b[1] % 16 * 4)]
    else
      UrlQuad(b[0], b[1], b[2]) + RawUrlEncode(b[3..])
  }

  function UrlQuad(x: Byte, y: Byte, z: Byte): string {
    [UrlChar(x / 4), UrlChar(x % 4 * 16 + y / 16), UrlChar(y % 16 * 4 + z / 64), UrlChar(z % 64)]
  }

  function SkipNewlines(s: string): string {
    if s == "" then ""
    else if s[0] == '\n' || s[0] == '\r' then SkipNewlines(s[1..])
    else [s[0]] + SkipNewlines(s[1..])
  }

  /** Padding may only close the last quad. */
  function DecodeQuads(s: string): Option<Bytes> {
    if s == "" then Some([])
    else if |s| < 4 then None
    else
      var i0 :- StdIndex(s[0]);
      var i1 :- StdIndex(s[1]);
      var b0: Byte := i0 * 4 + i1 / 16;
      if s[2] == '=' then
        if s[3] == '=' && |s| == 4 then Some([b0]) else None
      else
        var i2 :- StdIndex(s[2]);
        var b1: Byte := i1 % 16 * 16 + i2 / 4;
        if s[3] == '=' then
          if |s| == 4 then Some([b0, b1]) else None
        else
          var i3 :- StdIndex(s[3]);
          var b2: Byte := i2 % 4 * 64 + i3;
          var rest :- DecodeQuads(s[4..]);
          Some([b0, b1, b2] + rest)
  }

  function Decode(s: string): Option<Bytes> {
    DecodeQuads(SkipNewlines(s))
  }

  lemma StdIndexOfStdChar(i: Sextet)
    ensures StdIndex(StdChar(i)) == Some(i)
    ensures StdChar(i) !in "=:\n\r"
  {
  }

  predicate Plain(s: string) {
    forall i | 0 <= i < |s| :: s[i] !in ":\n\r"
  }

  lemma {:induction false} EncodePlain(b: Bytes)
    ensures Plain(Encode(b))
  {
    if |b| >= 3 {
      EncodePlain(b[3..]);
    }
  }

  lemma {:induction false} SkipNothing(s: string)
    requires Plain(s)
    ensures SkipNewlines(s) == s
  {
    if s != "" {
      SkipNothing(s[1..]);
    }
  }

  lemma DecodeQuad1(x: Byte)
    ensures DecodeQuads([StdChar(x / 4), StdChar(x % 4 * 16), '=', '=']) == Some([x])
  {
    StdIndexOfStdChar(x / 4);
    StdIndexOfStdChar(x % 4 * 16);
  }

  lemma DecodeQuad2(x: Byte, y: Byte)
    ensures DecodeQuads([StdChar(x / 4), StdChar(x % 4 * 16 + y / 16), StdChar(y % 16 * 4), '=']) == Some([x, y])
  {
    StdIndexOfStdChar(x / 4);
    StdIndexOfStdChar(x % 4 * 16 + y / 16);
    StdIndexOfStdChar(y % 16 * 4);
  }

  lemma DecodeQuad3(x: Byte, y: Byte, z: Byte, s: string, b: Bytes)
    requires DecodeQuads(s) == Some(b)
    ensures DecodeQuads(StdQuad(x, y, z) + s) == Some([x, y, z] + b)
  {
    var i0: Sextet, i1: Sextet, i2: Sextet, i3: Sextet := x / 4, x % 4 * 16 + y / 16, y % 16 * 4 + z / 64, z % 64;
    StdIndexOfStdChar(i0);
    StdIndexOfStdChar(i1);
    StdIndexOfStdChar(i2);
    StdIndexOfStdChar(i3);
    var q := [StdChar(i0), StdChar(i1), StdChar(i2), StdChar(i3)] + s;
    assert q[4..] == s;
    assert i0 * 4 + i1 / 16 == x && i1 % 16 * 16 + i2 / 4 == y && i2 % 4 * 64 + i3 == z;
  }

  lemma DecodeShort(b: Bytes)
    requires |b| < 3
    ensures DecodeQuads(Encode(b)) == Some(b)
  {
    if |b| == 1 {
      DecodeQuad1(b[0]);
      assert b == [b[0]];
    } else if |b| == 2 {
      DecodeQuad2(b[0], b[1]);
      assert b == [b[0], b[1]];
    }
  }

  lemma EncodeTriple(x: Byte, y: Byte, z: Byte, rest: Bytes)
    ensures Encode([x, y, z] + rest) == StdQuad(x, y, z) + Encode(rest)
  {
    var b := [x, y, z] + rest;
    assert b[0] == x && b[1] == y && b[2] == z && b[3..] == rest;
  }

  lemma DecodeTriple(x: Byte, y: Byte, z: Byte, rest: Bytes)
    requires DecodeQuads(Encode(rest)) == Some(rest)
    ensures DecodeQuads(Encode([x, y, z] + rest)) == Some([x, y, z] + rest)
  {
    EncodeTriple(x, y, z, rest);
    DecodeQuad3(x, y, z, Encode(rest), rest);
  }

  lemma {:induction false} DecodeQuadsEncode(b: Bytes)
    ensures DecodeQuads(Encode(b)) == Some(b)
  {
    if |b| < 3 {
      DecodeShort(b);
    } else {
      DecodeQuadsEncode(b[3..]);
      DecodeTriple(b[0], b[1], b[2], b[3..]);
      assert b == [b[0], b[1], b[2]] + b[3..];
    }
  }

  function ToUrl(ch: char): char {
    if ch == '+' then '-' else if ch == '/' then '_' else ch
  }

  /** The URL-safe encoding is the standard one without its padding, with two characters exchanged. */
  lemma {:induction false} RawUrlIsStd(b: Bytes)
    ensures var (raw, std) := (RawUrlEncode(b), Encode(b));
            && |raw| <= |std|
            && (forall i | 0 <= i < |raw| :: raw[i] == ToUrl(std[i]) && std[i] != '=')
            && (forall i | |raw| <= i < |std| :: std[i] == '=')
  {
    if |b| >= 3 {
      RawUrlIsStd(b[3..]);
      var raw, std := RawUrlEncode(b), Encode(b);
      assert raw[4..] == RawUrlEncode(b[3..]) && std[4..] == Encode(b[3..]);
      assert forall i | 4 <= i < |raw| :: raw[i] == raw[4..][i - 4];
      assert forall i | 4 <= i < |std| :: std[i] == std[4..][i - 4];
    }
  }

  /** Two of the test vectors of section 10 of RFC 4648: "f" and "foobar". */
  lemma TestVectors()
    ensures Encode([0x66]) == "Zg==" && Encode([0x66, 0x6F, 0x6F, 0x62, 0x61, 0x72]) == "Zm9vYmFy"
  {
    var b: Bytes := [0x66, 0x6F, 0x6F, 0x62, 0x61, 0x72];
    assert b[3..] == [0x62, 0x61, 0x72] && b[3..][3..] == [];
    assert Encode([]) == "";
    assert Encode(b[3..]) == "YmFy";
  }

  /** Decoding accepts only whole quads of the alphabet, with padding at the end. */
  lemma {:induction false} DecodeShape(s: string)
    requires DecodeQuads(s).Some?
    ensures |s| % 4 == 0
    ensures forall i | 0 <= i < |s| :: StdIndex(s[i]).Some? || (s[i] == '=' && i >= |s| - 2)
    ensures var n := |DecodeQuads(s).value|; |s| == n / 3 * 4 + if n % 3 == 0 then 0 else 4
  {
    if |s| > 4 {
      DecodeShape(s[4..]);
      assert forall i | 4 <= i < |s| :: s[i] == s[4..][i - 4];
    } else if |s| == 4 {
      assert s[4..] == "";
    }
  }

  /** Decoding undoes encoding on every byte string. */
  lemma RoundTrip(b: Bytes)
    ensures Decode(Encode(b)) == Some(b)
  {
    EncodePlain(b);
    SkipNothing(Encode(b));
    DecodeQuadsEncode(b);
  }
}
