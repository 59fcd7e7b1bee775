/** `HardLock.encode` and `HardLock.decode`: a list of nonces as base64
    segments joined by commas. */
module Codec {
  import opened Wrappers
  import opened JsText
  import opened Externals

  /** `decode` fails only when base64-js rejects a segment. */
  datatype Error = InvalidBase64

  /** `Array.prototype.join` with a one-character separator. */
  function Join(segments: seq<JsString>, sep: CodeUnit): JsString {
    if |segments| == 0 then []
    else if |segments| == 1 then segments[0]
    else segments[0] + [sep] + Join(segments[1..], sep)
  }

  /** `String.prototype.split` with a one-character separator: the pieces
      between separators, so always at least one piece. */
  function Split(s: JsString, sep: CodeUnit): (pieces: seq<JsString>)
    ensures |pieces| > 0
  {
    if s == [] then [[]]
    else
      var rest := Split(s[1..], sep);
      if s[0] == sep then [[]] + rest else [[s[0]] + rest[0]] + rest[1..]
  }

  /** A piece without a separator is not split. */
  lemma {:induction false} SplitWithoutSep(a: JsString, sep: CodeUnit)
    requires sep !in a
    ensures Split(a, sep) == [a]
  {
    if a != [] {
      SplitWithoutSep(a[1..], sep);
      assert [a[0]] + a[1..] == a;
    }
  }

  /** Splitting `a , b` yields `a` followed by the pieces of `b`. */
  lemma {:induction false} SplitAtFirstSep(a: JsString, b: JsString, sep: CodeUnit)
    requires sep !in a
    ensures Split(a + [sep] + b, sep) == [a] + Split(b, sep)
  {
    if a == [] {
      assert [sep] + b == a + [sep] + b;
      assert ([sep] + b)[1..] == b;
    } else {
      assert (a + [sep] + b)[1..] == a[1..] + [sep] + b;
      SplitAtFirstSep(a[1..], b, sep);
      assert [a[0]] + a[1..] == a;
    }
  }

  /** Split undoes Join when there is at least one segment and no segment
      contains the separator. */
  lemma {:induction false} SplitJoin(segments: seq<JsString>, sep: CodeUnit)
    requires |segments| > 0
    requires forall i :: 0 <= i < |segments| ==> sep !in segments[i]
    ensures Split(Join(segments, sep), sep) == segments
  {
    if |segments| == 1 {
      SplitWithoutSep(segments[0], sep);
    } else {
      SplitJoin(segments[1..], sep);
      SplitAtFirstSep(segments[0], Join(segments[1..], sep), sep);
      assert [segments[0]] + segments[1..] == segments;
    }
  }

  /** The base64 segment of every nonce, in order. */
  function Segments(base64: Base64, nonces: seq<seq<byte>>): (segments: seq<JsString>)
    ensures |segments| == |nonces|
  {
    seq(|nonces|, i requires 0 <= i < |nonces| => base64.fromByteArray(nonces[i]))
  }

  /** The string `encode` returns. */
  function Encoding(base64: Base64, nonces: seq<seq<byte>>): JsString {
    Join(Segments(base64, nonces), Comma)
  }

  /** What `decode` returns or throws: one byte array per comma-separated
      segment, or an error when some segment is not valid base64. */
  function Decoding(base64: Base64, encoded: JsString): Result<seq<seq<byte>>, Error> {
    var segments := Split(encoded, Comma);
    if forall i :: 0 <= i < |segments| ==> base64.toByteArray(segments[i]).Some?
    then Ok(seq(|segments|, i requires 0 <= i < |segments| => base64.toByteArray(segments[i]).value))
    else Err(InvalidBase64)
  }

  /** `HardLock.encode`: pushes one segment per nonce, then joins on commas. */
  method Encode(base64: Base64, nonces: seq<seq<byte>>) returns (encoded: JsString)
    ensures encoded == Encoding(base64, nonces)
  {
    var segments: seq<JsString> := [];
    var i := 0;
    while i < |nonces|
      invariant 0 <= i <= |nonces|
      invariant |segments| == i
      invariant forall j :: 0 <= j < i ==> segments[j] == base64.fromByteArray(nonces[j])
    {
      segments := segments + [base64.fromByteArray(nonces[i])];
      i := i + 1;
    }
    assert segments == Segments(base64, nonces);
    encoded := Join(segments, Comma);
  }

  /** `HardLock.decode`: splits on commas, then pushes one byte array per
      segment; a segment base64-js rejects makes the whole call fail. */
  method Decode(base64: Base64, encoded: JsString) returns (r: Result<seq<seq<byte>>, Error>)
    ensures r == Decoding(base64, encoded)
  {
    var segments := Split(encoded, Comma);
    var nonces: seq<seq<byte>> := [];
    var i := 0;
    while i < |segments|
      invariant 0 <= i <= |segments|
      invariant |nonces| == i
      invariant forall j :: 0 <= j < i ==> base64.toByteArray(segments[j]) == Some(nonces[j])
    {
      var bytes := base64.toByteArray(segments[i]);
      if bytes.None? {
        return Err(InvalidBase64);
      }
      nonces := nonces + [bytes.value];
      i := i + 1;
    }
    assert nonces == seq(|segments|, j requires 0 <= j < |segments| => base64.toByteArray(segments[j]).value);
    r := Ok(nonces);
  }

  /** Decoding recovers every non-empty list of nonces that was encoded. */
  lemma DecodeEncode(base64: Base64, nonces: seq<seq<byte>>)
    requires |nonces| > 0
    ensures Decoding(base64, Encoding(base64, nonces)) == Ok(nonces)
  {
    var segments := Segments(base64, nonces);
    SplitJoin(segments, Comma);
    assert forall i :: 0 <= i < |nonces| ==> base64.toByteArray(segments[i]) == Some(nonces[i]);
    var decoded := seq(|segments|, i requires 0 <= i < |segments| => base64.toByteArray(segments[i]).value);
    assert decoded == nonces;
  }

  /** The empty list encodes as the empty string, which decodes to a list
      holding one empty byte array; so the round trip fails exactly there,
      and `[]` and `[[]]` share one encoding. */
  lemma EmptyListEncoding(base64: Base64)
    ensures Encoding(base64, []) == []
    ensures Encoding(base64, [[]]) == []
    ensures Decoding(base64, []) == Ok([[]])
  {
    assert base64.toByteArray(base64.fromByteArray([])) == Some([]);
    var segments := Split([], Comma);
    assert segments == [[]];
    var r := Decoding(base64, []);
    assert r.Ok?;
    assert |r.value| == 1 && r.value[0] == [];
    assert r.value == [[]];
  }
}
