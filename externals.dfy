/** The two libraries src/hardlock.js calls into, jshashes' SHA-256 and
    base64-js, stated only through what the model relies on. */
module Externals {
  import opened Wrappers
  import opened JsText

  /** Number of characters in a hexadecimal SHA-256 digest. */
  const Sha256HexLength: nat := 64

  /** The separator `encode` joins on and `decode` splits on. */
  const Comma: CodeUnit := ',' as int

  predicate IsHexDigit(c: CodeUnit) {
    '0' as int <= c <= '9' as int || 'a' as int <= c <= 'f' as int
  }

  predicate IsHexString(s: JsString) {
    forall i :: 0 <= i < |s| ==> IsHexDigit(s[i])
  }

  /** `new Hashes.SHA256().hex(str)`. */
  type Sha256Hex = JsString -> JsString

  /** What the model relies on: for every input string, 64 lowercase hex digits. */
  ghost predicate IsSha256Hex(h: Sha256Hex) {
    forall s :: |h(s)| == Sha256HexLength && IsHexString(h(s))
  }

  /** `base64.fromByteArray` and `base64.toByteArray`; the latter throws on a
      malformed string, which is `None` here. */
  datatype Base64Codec = Base64Codec(
    fromByteArray: seq<byte> -> JsString,
    toByteArray: JsString -> Option<seq<byte>>)

  /** What the codec promises: decoding undoes encoding, no encoding contains a
      comma, and the empty array encodes as the empty string. */
  ghost predicate IsLosslessAndCommaFree(c: Base64Codec) {
    (forall b :: c.toByteArray(c.fromByteArray(b)) == Some(b)) &&
    (forall b :: Comma !in c.fromByteArray(b)) &&
    c.fromByteArray([]) == []
  }

  type Base64 = c: Base64Codec | IsLosslessAndCommaFree(c)
    witness Base64Codec(ShiftedCodeUnits, s => Some(CharCodeBytes(s)))

  /** A stand-in encoding that shows such a codec exists: byte `b` becomes code
      unit `b + 256`, which is never a comma, and storing it back into a byte
      drops the 256 again. */
  function ShiftedCodeUnits(b: seq<byte>): (s: JsString)
    ensures |s| == |b|
    ensures Comma !in s
    ensures CharCodeBytes(s) == b
  {
    var s: JsString := seq(|b|, i requires 0 <= i < |b| => (b[i] as int + 0x100) as CodeUnit);
    assert forall i :: 0 <= i < |b| ==> CharCodeBytes(s)[i] == b[i];
    s
  }
}
