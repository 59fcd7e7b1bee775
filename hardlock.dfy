/** The `HardLock` class of src/hardlock.js: the puzzle parameters, the keyed
    digest of a nonce, the collision search, the verifier, and the rule that
    decides whether a result computed elsewhere is accepted. */
module HardLockModel {
  import opened Wrappers
  import opened JsText
  import opened Externals
  import opened HexSpace
  import opened Codec

  /** A salt or key argument: a string is converted with `str2arr`, a byte
      array is kept as it is. */
  datatype ByteSource = Text(text: JsString) | Bytes(bytes: seq<byte>)

  /** The argument of `verify`: an encoded string, or the nonces themselves. */
  datatype Proof = EncodedProof(text: JsString) | NonceList(nonces: seq<seq<byte>>)

  /** What `workSync` returns. */
  datatype WorkResult = WorkResult(digest: JsString, nonces: seq<seq<byte>>, encoded: JsString)

  /** How the promise of a delegated `work` call settles. */
  datatype Settlement = Resolved(results: WorkResult) | Rejected(reason: string)

  const NonceLength: nat := 32

  /** What `randomBytes` returns: 32 bytes. */
  type Nonce = s: seq<byte> | |s| == NonceLength witness seq(NonceLength, _ => 0)

  /** The bytes of "hardlock". */
  const Personalization: seq<byte> := [0x68, 0x61, 0x72, 0x64, 0x6c, 0x6f, 0x63, 0x6b]

  const DidNotVerify: string := "HardLock result did not verify"

  /** The bytes a conversion of the constructor yields for a salt or key. */
  function BytesOf(source: ByteSource): seq<byte> {
    match source
    case Text(text) => CharCodeBytes(text)
    case Bytes(bytes) => bytes
  }

  /** `buf` after one copy loop has written `data` starting at `offset`,
      one byte after another. */
  function WriteAt(buf: seq<byte>, offset: nat, data: seq<byte>): (r: seq<byte>)
    requires offset + |data| <= |buf|
    ensures |r| == |buf|
    decreases |data|
  {
    if data == [] then buf else WriteAt(buf[offset := data[0]], offset + 1, data[1..])
  }

  /** Each byte inside the written range comes from `data`; every other
      byte is unchanged. */
  lemma {:induction false} WriteAtIndex(buf: seq<byte>, offset: nat, data: seq<byte>, i: nat)
    requires offset + |data| <= |buf| && i < |buf|
    ensures WriteAt(buf, offset, data)[i] == if offset <= i < offset + |data| then data[i - offset] else buf[i]
    decreases |data|
  {
    if data != [] {
      WriteAtIndex(buf[offset := data[0]], offset + 1, data[1..], i);
    }
  }

  /** The buffer `hashNonce` hashes: a zero-filled array of the total length
      into which salt, personalization, key and nonce are copied, in that
      order, at offsets 0, |salt|, |personalization| and |key|. The offset is
      reassigned to the previous part's length, not advanced past it. */
  function Layout(salt: seq<byte>, pers: seq<byte>, key: seq<byte>, nonce: seq<byte>): (buf: seq<byte>)
    ensures |buf| == |salt| + |pers| + |key| + |nonce|
  {
    var zeros := seq(|salt| + |pers| + |key| + |nonce|, _ => 0);
    WriteAt(WriteAt(WriteAt(WriteAt(zeros, 0, salt), |salt|, pers), |pers|, key), |key|, nonce)
  }

  /** Each byte of the buffer comes from the last copy whose range covers it,
      and is 0 if none does. */
  lemma LayoutAt(salt: seq<byte>, pers: seq<byte>, key: seq<byte>, nonce: seq<byte>, i: nat)
    requires i < |salt| + |pers| + |key| + |nonce|
    ensures Layout(salt, pers, key, nonce)[i] ==
      if |key| <= i < |key| + |nonce| then nonce[i - |key|]
      else if |pers| <= i < |pers| + |key| then key[i - |pers|]
      else if |salt| <= i < |salt| + |pers| then pers[i - |salt|]
      else if i < |salt| then salt[i]
      else 0
  {
    var zeros := seq(|salt| + |pers| + |key| + |nonce|, _ => 0);
    var b1 := WriteAt(zeros, 0, salt);
    var b2 := WriteAt(b1, |salt|, pers);
    var b3 := WriteAt(b2, |pers|, key);
    WriteAtIndex(zeros, 0, salt, i);
    WriteAtIndex(b1, |salt|, pers, i);
    WriteAtIndex(b2, |pers|, key, i);
    WriteAtIndex(b3, |key|, nonce, i);
  }

  /** The buffer is not the concatenation salt, personalization, key, nonce:
      its last byte is never written and stays 0. */
  lemma LayoutIsNotConcatenation(salt: seq<byte>, pers: seq<byte>, key: seq<byte>, nonce: seq<byte>)
    requires |pers| > 0 && |nonce| > 0
    ensures Layout(salt, pers, key, nonce)[|salt| + |pers| + |key| + |nonce| - 1] == 0
    ensures nonce[|nonce| - 1] != 0 ==> Layout(salt, pers, key, nonce) != salt + pers + key + nonce
  {
    var last := |salt| + |pers| + |key| + |nonce| - 1;
    LayoutAt(salt, pers, key, nonce, last);
    assert (salt + pers + key + nonce)[last] == nonce[|nonce| - 1];
  }

  /** When the key is no longer than the personalization, and the nonce at
      least as long, the nonce overwrites every byte of the key: keys of equal
      length give the same buffer. */
  lemma KeyOverwritten(salt: seq<byte>, pers: seq<byte>, key1: seq<byte>, key2: seq<byte>, nonce: seq<byte>)
    requires |key1| == |key2| <= |pers| <= |nonce|
    ensures Layout(salt, pers, key1, nonce) == Layout(salt, pers, key2, nonce)
  {
    var n := |salt| + |pers| + |key1| + |nonce|;
    forall i | 0 <= i < n
      ensures Layout(salt, pers, key1, nonce)[i] == Layout(salt, pers, key2, nonce)[i]
    {
      LayoutAt(salt, pers, key1, nonce, i);
      LayoutAt(salt, pers, key2, nonce, i);
    }
  }

  /** Every byte of the nonce reaches the buffer, at the offset |key|. */
  lemma NonceSurvives(salt: seq<byte>, pers: seq<byte>, key: seq<byte>, nonce: seq<byte>, j: nat)
    requires j < |nonce|
    ensures Layout(salt, pers, key, nonce)[|key| + j] == nonce[j]
  {
    LayoutAt(salt, pers, key, nonce, |key| + j);
  }

  /** The length `hash.substring(0, difficulty)` keeps of a 64-character hash. */
  function DigestLength(difficulty: int): (n: nat)
    ensures n <= Sha256HexLength
    ensures difficulty <= 0 ==> n == 0
    ensures 0 < difficulty <= Sha256HexLength ==> n == difficulty
    ensures difficulty >= Sha256HexLength ==> n == Sha256HexLength
  {
    Clamp(difficulty, Sha256HexLength)
  }

  /** `s.substring(0, end)`: the end is clamped to [0, |s|]. */
  function Substring0(s: JsString, end: int): JsString {
    s[..Clamp(end, |s|)]
  }

  /** `end` clamped to the range [0, len]. */
  function Clamp(end: int, len: nat): (n: nat)
    ensures n <= len
  {
    if end <= 0 then 0 else if end >= len then len else end
  }

  /** One copy loop of `hashNonce`: `combined[i + offset] = src[i]` for every `i`. */
  method CopyInto(combined: array<byte>, offset: nat, src: seq<byte>)
    requires offset + |src| <= combined.Length
    modifies combined
    ensures combined[..] == WriteAt(old(combined[..]), offset, src)
  {
    for i := 0 to |src|
      invariant forall k :: 0 <= k < combined.Length ==>
        combined[k] == if offset <= k < offset + i then src[k - offset] else old(combined[k])
    {
      combined[i + offset] := src[i];
    }
    forall k | 0 <= k < combined.Length
      ensures combined[k] == WriteAt(old(combined[..]), offset, src)[k]
    {
      WriteAtIndex(old(combined[..]), offset, src, k);
    }
  }

  /** The keys of a dictionary into which every string of `ds` has been
      entered, in order. */
  function Keys(ds: seq<JsString>): set<JsString> {
    if ds == [] then {} else Keys(ds[..|ds| - 1]) + {ds[|ds| - 1]}
  }

  /** The dictionary holds exactly the strings entered. */
  lemma {:induction false} KeysMembers(ds: seq<JsString>, d: JsString)
    ensures d in Keys(ds) <==> exists i :: 0 <= i < |ds| && ds[i] == d
  {
    if ds != [] {
      var init := ds[..|ds| - 1];
      KeysMembers(init, d);
      if d in Keys(init) {
        var i :| 0 <= i < |init| && init[i] == d;
        assert ds[i] == d;
      }
    }
  }

  /** Entering one string, any number of times, leaves exactly that key. */
  lemma AllEqualKeys(ds: seq<JsString>)
    requires |ds| > 0 && forall i :: 0 <= i < |ds| ==> ds[i] == ds[0]
    ensures Keys(ds) == {ds[0]}
  {
    forall d | d in Keys(ds) ensures d == ds[0] {
      KeysMembers(ds, d);
    }
    KeysMembers(ds, ds[0]);
  }

  /** A dictionary with a single key was entered only that string. */
  lemma SingleKeyAllEqual(ds: seq<JsString>)
    requires |Keys(ds)| == 1
    ensures |ds| > 0 && forall i :: 0 <= i < |ds| ==> ds[i] == ds[0]
  {
    var keys := Keys(ds);
    var d :| d in keys;
    var rest := keys - {d};
    assert keys == rest + {d} && d !in rest;
    assert |rest| == 0;
    assert keys == {d};
    assert ds != [];
    forall i | 0 <= i < |ds| ensures ds[i] == d {
      KeysMembers(ds, ds[i]);
    }
    KeysMembers(ds, ds[0]);
  }

  /** The dictionary has exactly one key iff at least one string was entered
      and all of them are equal. */
  lemma SingleKeyIff(ds: seq<JsString>)
    ensures |Keys(ds)| == 1 <==> |ds| > 0 && forall i, j :: 0 <= i < |ds| && 0 <= j < |ds| ==> ds[i] == ds[j]
  {
    if |ds| > 0 && forall i, j :: 0 <= i < |ds| && 0 <= j < |ds| ==> ds[i] == ds[j] {
      AllEqualKeys(ds);
    }
    if |Keys(ds)| == 1 {
      SingleKeyAllEqual(ds);
    }
  }

  /** The digests of the first `|digests|` draws, each `width` hex digits
      and all distinct. */
  ghost predicate Drawn(digestOf: seq<byte> -> JsString, randomBytes: nat -> Nonce,
                        digests: seq<JsString>, width: nat)
  {
    && (forall j :: 0 <= j < |digests| ==> digests[j] == digestOf(randomBytes(j)))
    && (forall j :: 0 <= j < |digests| ==> |digests[j]| == width && IsHexString(digests[j]))
    && (forall i, k :: 0 <= i < k < |digests| ==> digests[i] != digests[k])
  }

  /** `seen` maps each of `digests` to the draw it came from, and has no
      other keys. */
  ghost predicate Stored(randomBytes: nat -> Nonce, seen: map<JsString, Nonce>, digests: seq<JsString>)
  {
    && |seen| == |digests|
    && (forall j :: 0 <= j < |digests| ==> digests[j] in seen && seen[digests[j]] == randomBytes(j))
    && (forall d :: d in seen ==> d in digests)
  }

  /** The state of `workSync`'s search after `|digests|` draws. */
  ghost predicate SearchState(digestOf: seq<byte> -> JsString, randomBytes: nat -> Nonce,
                              seen: map<JsString, Nonce>, digests: seq<JsString>, width: nat)
  {
    Drawn(digestOf, randomBytes, digests, width) && Stored(randomBytes, seen, digests)
  }

  /** Storing a new `width`-digit digest keeps the number of stored digests
      within the space of `width`-digit hex strings. */
  lemma SearchStepBound(digestOf: seq<byte> -> JsString, randomBytes: nat -> Nonce,
                        seen: map<JsString, Nonce>, digests: seq<JsString>, width: nat, digest: JsString)
    requires SearchState(digestOf, randomBytes, seen, digests, width)
    requires digest !in seen && |digest| == width && IsHexString(digest)
    ensures |seen| + 1 <= Pow(16, width)
  {
    var seen' := seen[digest := randomBytes(|digests|)];
    forall d | d in seen'
      ensures |d| == width && IsHexString(d)
    {
      if d != digest {
        var j :| 0 <= j < |digests| && digests[j] == d;
      }
    }
    HexSetBound(seen'.Keys, width);
    assert |seen'| == |seen| + 1;
  }

  /** A further draw with a digest not drawn before extends `Drawn`. */
  lemma DrawnStep(digestOf: seq<byte> -> JsString, randomBytes: nat -> Nonce,
                  digests: seq<JsString>, width: nat, digest: JsString)
    requires Drawn(digestOf, randomBytes, digests, width)
    requires digest == digestOf(randomBytes(|digests|)) && digest !in digests
    requires |digest| == width && IsHexString(digest)
    ensures Drawn(digestOf, randomBytes, digests + [digest], width)
  {
    var digests' := digests + [digest];
    forall j | 0 <= j < |digests'|
      ensures digests'[j] == digestOf(randomBytes(j))
      ensures |digests'[j]| == width && IsHexString(digests'[j])
    {
      if j < |digests| {
        assert digests'[j] == digests[j];
      }
    }
    forall i, k | 0 <= i < k < |digests'|
      ensures digests'[i] != digests'[k]
    {
      if k == |digests| {
        assert digests[i] in digests;
      } else {
        assert digests'[i] == digests[i] && digests'[k] == digests[k];
      }
    }
  }

  /** Storing a digest not stored before extends `Stored`; such a digest was
      not among the earlier draws. */
  lemma StoredStep(randomBytes: nat -> Nonce, seen: map<JsString, Nonce>, digests: seq<JsString>, digest: JsString)
    requires Stored(randomBytes, seen, digests) && digest !in seen
    ensures digest !in digests
    ensures Stored(randomBytes, seen[digest := randomBytes(|digests|)], digests + [digest])
  {
    var seen', digests' := seen[digest := randomBytes(|digests|)], digests + [digest];
    forall j | 0 <= j < |digests'|
      ensures digests'[j] in seen' && seen'[digests'[j]] == randomBytes(j)
    {
      if j < |digests| {
        var d := digests[j];
        assert d in seen && d != digest;
        assert digests'[j] == d && seen'[d] == seen[d];
      } else {
        assert digests'[j] == digest;
      }
    }
    assert forall d :: d in seen' ==> d in digests';
  }

  /** A draw whose digest is new extends the search state, and the number
      of stored digests stays within the space of `width`-digit hex strings. */
  lemma SearchStep(digestOf: seq<byte> -> JsString, randomBytes: nat -> Nonce,
                   seen: map<JsString, Nonce>, digests: seq<JsString>, width: nat, digest: JsString)
    requires SearchState(digestOf, randomBytes, seen, digests, width)
    requires digest == digestOf(randomBytes(|digests|)) && digest !in seen
    requires |digest| == width && IsHexString(digest)
    ensures |seen| + 1 <= Pow(16, width)
    ensures SearchState(digestOf, randomBytes, seen[digest := randomBytes(|digests|)], digests + [digest], width)
  {
    SearchStepBound(digestOf, randomBytes, seen, digests, width, digest);
    StoredStep(randomBytes, seen, digests, digest);
    DrawnStep(digestOf, randomBytes, digests, width, digest);
  }

  /** A draw whose digest was already stored ends the search: the stored
      nonce is an earlier draw, and all earlier draws had distinct digests. */
  lemma SearchHit(digestOf: seq<byte> -> JsString, randomBytes: nat -> Nonce,
                  seen: map<JsString, Nonce>, digests: seq<JsString>, width: nat)
    requires SearchState(digestOf, randomBytes, seen, digests, width)
    requires digestOf(randomBytes(|digests|)) in seen
    ensures exists j :: 0 <= j < |digests| && seen[digestOf(randomBytes(|digests|))] == randomBytes(j)
    ensures forall i, j :: 0 <= i < j < |digests| ==>
      digestOf(randomBytes(i)) != digestOf(randomBytes(j))
  {
    var d := digestOf(randomBytes(|digests|));
    var j :| 0 <= j < |digests| && digests[j] == d;
    assert seen[d] == randomBytes(j);
  }

  class HardLock {
    const difficulty: int
    const salt: seq<byte>
    const key: seq<byte>
    const personalization: seq<byte>
    /** The hash library and the base64 library, fixed at construction. */
    const sha256: Sha256Hex
    const base64: Base64

    /** The personalization is the fixed constant, and the hash library
        behaves as SHA-256 in hex does. */
    ghost predicate Valid() {
      personalization == Personalization && IsSha256Hex(sha256)
    }

    constructor (difficulty: int, salt: ByteSource, key: ByteSource, sha256: Sha256Hex, base64: Base64)
      requires IsSha256Hex(sha256)
      ensures Valid()
      ensures this.difficulty == difficulty
      ensures this.salt == BytesOf(salt) && this.key == BytesOf(key)
      ensures personalization == Personalization
      ensures this.sha256 == sha256 && this.base64 == base64
    {
      this.difficulty := difficulty;
      var saltBytes: seq<byte>;
      if salt.Text? {
        saltBytes := Str2Arr(salt.text);
      } else {
        saltBytes := salt.bytes;
      }
      this.salt := saltBytes;
      var keyBytes: seq<byte>;
      if key.Text? {
        keyBytes := Str2Arr(key.text);
      } else {
        keyBytes := key.bytes;
      }
      this.key := keyBytes;
      this.personalization := Personalization;
      this.sha256 := sha256;
      this.base64 := base64;
    }

    /** The truncated digest of `nonce` under this puzzle. */
    function Digest(nonce: seq<byte>): JsString {
      Substring0(sha256(Arr2Str(Layout(salt, personalization, key, nonce))), difficulty)
    }

    /** A digest is the first min(difficulty, 64) characters (none when the
        difficulty is not positive) of the hex SHA-256 of the buffer, so a
        hex string of that length. */
    lemma DigestIsTruncatedSha256(nonce: seq<byte>)
      requires Valid()
      ensures |Digest(nonce)| == DigestLength(difficulty)
      ensures Digest(nonce) == sha256(Arr2Str(Layout(salt, personalization, key, nonce)))[..DigestLength(difficulty)]
      ensures IsHexString(Digest(nonce))
    {
      var hash := sha256(Arr2Str(Layout(salt, personalization, key, nonce)));
      assert |hash| == Sha256HexLength && IsHexString(hash);
    }

    /** `hashNonce`: builds the buffer with four copy loops and returns the
        truncated hex SHA-256 of its string form. */
    method HashNonce(nonce: seq<byte>) returns (digest: JsString)
      ensures digest == Digest(nonce)
    {
      var combined := new byte[|salt| + |personalization| + |key| + |nonce|](_ => 0);
      ghost var zeros := combined[..];
      var offset := 0;
      CopyInto(combined, offset, salt);
      offset := |salt|;
      CopyInto(combined, offset, personalization);
      offset := |personalization|;
      CopyInto(combined, offset, key);
      offset := |key|;
      CopyInto(combined, offset, nonce);
      assert zeros == seq(|salt| + |personalization| + |key| + |nonce|, _ => 0);
      var hash := sha256(Arr2Str(combined[..]));
      digest := Substring0(hash, difficulty);
    }

    /** The digest of every nonce, in order. */
    function Digests(nonces: seq<seq<byte>>): (ds: seq<JsString>)
      ensures |ds| == |nonces|
    {
      seq(|nonces|, i requires 0 <= i < |nonces| => Digest(nonces[i]))
    }

    /** The keys of `verify`'s dictionary after the digest of every nonce
        has been entered. */
    function DigestSet(nonces: seq<seq<byte>>): set<JsString> {
      Keys(Digests(nonces))
    }

    /** The test `verify` applies to a list: exactly one distinct digest. */
    predicate Accepts(nonces: seq<seq<byte>>) {
      |DigestSet(nonces)| == 1
    }

    /** What `verify` returns, or the error it throws while decoding a string. */
    function Verdict(proof: Proof): Result<bool, Error> {
      match proof
      case NonceList(nonces) => Ok(Accepts(nonces))
      case EncodedProof(text) =>
        match Decoding(base64, text)
        case Err(e) => Err(e)
        case Ok(nonces) => Ok(Accepts(nonces))
    }

    /** A list is accepted exactly when it is non-empty and all its nonces
        share one digest; nothing requires the nonces to differ. */
    lemma AcceptsIff(nonces: seq<seq<byte>>)
      ensures Accepts(nonces) <==>
        |nonces| > 0 && forall i, j :: 0 <= i < |nonces| && 0 <= j < |nonces| ==>
          Digest(nonces[i]) == Digest(nonces[j])
    {
      var ds := Digests(nonces);
      SingleKeyIff(ds);
      assert forall i :: 0 <= i < |nonces| ==> ds[i] == Digest(nonces[i]);
    }

    /** Two nonces are accepted exactly when their digests are equal. */
    lemma AcceptsPairIff(a: seq<byte>, b: seq<byte>)
      ensures Accepts([a, b]) <==> Digest(a) == Digest(b)
    {
      AcceptsIff([a, b]);
      var pair := [a, b];
      assert pair[0] == a && pair[1] == b;
    }

    /** A single nonce, and a nonce paired with itself, are accepted; the empty
        list is not. */
    lemma DegenerateProofs(n: seq<byte>)
      ensures Accepts([n]) && Accepts([n, n])
      ensures !Accepts([])
    {
      AcceptsIff([n]);
      AcceptsIff([n, n]);
      AcceptsIff([]);
    }

    /** The empty string passes verification: it decodes to one empty nonce. */
    lemma EmptyStringVerifies()
      ensures Verdict(EncodedProof([])) == Ok(true)
    {
      EmptyListEncoding(base64);
      AcceptsIff([[]]);
    }

    /** An encoded non-empty list gets the same verdict as the list itself. */
    lemma EncodedVerdict(nonces: seq<seq<byte>>)
      requires |nonces| > 0
      ensures Verdict(EncodedProof(Encoding(base64, nonces))) == Verdict(NonceList(nonces))
    {
      DecodeEncode(base64, nonces);
    }

    /** `verify`: decodes a string argument, collects the digest of every
        nonce in a dictionary, and accepts when it has exactly one key. */
    method Verify(proof: Proof) returns (r: Result<bool, Error>)
      ensures r == Verdict(proof)
      ensures proof.NonceList? ==> r.Ok?
    {
      var nonces: seq<seq<byte>>;
      if proof.EncodedProof? {
        var decoded := Decode(base64, proof.text);
        if decoded.Err? {
          return Err(decoded.error);
        }
        nonces := decoded.value;
      } else {
        nonces := proof.nonces;
      }
      ghost var all := Digests(nonces);
      var digests: set<JsString> := {};
      var i := 0;
      while i < |nonces|
        invariant 0 <= i <= |nonces|
        invariant digests == Keys(all[..i])
      {
        assert all[..i + 1][..i] == all[..i];
        var digest := HashNonce(nonces[i]);
        assert digest == all[i];
        digests := digests + {digest};
        i := i + 1;
      }
      assert all[..i] == all;
      r := Ok(|digests| == 1);
    }

    /** The end of `workSync`'s search: the latest draw's digest was stored
        for an earlier draw, so the two nonces form an accepted proof. */
    lemma SearchEnds(randomBytes: nat -> Nonce, seen: map<JsString, Nonce>, digests: seq<JsString>,
                     nonce: Nonce, digest: JsString)
      requires SearchState(Digest, randomBytes, seen, digests, DigestLength(difficulty))
      requires nonce == randomBytes(|digests|) && digest == Digest(nonce) && digest in seen
      ensures |seen| == |digests|
      ensures exists j :: 0 <= j < |digests| && seen[digest] == randomBytes(j)
      ensures forall i, j :: 0 <= i < j < |digests| ==> Digest(randomBytes(i)) != Digest(randomBytes(j))
      ensures Digest(seen[digest]) == digest
      ensures Accepts([nonce, seen[digest]])
    {
      SearchHit(Digest, randomBytes, seen, digests, DigestLength(difficulty));
      var j :| 0 <= j < |digests| && seen[digest] == randomBytes(j);
      assert digests[j] in seen && seen[digests[j]] == randomBytes(j);
      AcceptsPairIff(nonce, seen[digest]);
    }

    /** The search loop of `workSync`: draws nonces, the i-th from
        `randomBytes(i)`, and stores the first nonce for each digest, until
        the latest draw's digest is already stored. */
    method Search(randomBytes: nat -> Nonce)
      returns (seen: map<JsString, Nonce>, nonce: Nonce, digest: JsString, ghost digests: seq<JsString>)
      requires Valid()
      ensures SearchState(Digest, randomBytes, seen, digests, DigestLength(difficulty))
      ensures |seen| <= Pow(16, DigestLength(difficulty))
      ensures nonce == randomBytes(|digests|) && digest == Digest(nonce) && digest in seen
    {
      seen := map[];
      digests := [];
      ghost var width := DigestLength(difficulty);
      ghost var space := Pow(16, width);
      var drawn: nat := 0;
      nonce := randomBytes(drawn);
      digest := HashNonce(nonce);
      while digest !in seen
        invariant drawn == |digests| && nonce == randomBytes(drawn) && digest == Digest(nonce)
        invariant SearchState(Digest, randomBytes, seen, digests, width)
        invariant |seen| <= space
        decreases space - |seen|
      {
        DigestIsTruncatedSha256(nonce);
        SearchStep(Digest, randomBytes, seen, digests, width, digest);
        seen := seen[digest := nonce];
        digests := digests + [digest];
        drawn := drawn + 1;
        nonce := randomBytes(drawn);
        digest := HashNonce(nonce);
      }
    }

    /** `workSync`: runs the search, then returns the colliding draw and the
        nonce stored for its digest, the proof string, and the number of
        digests stored (what it logs as "Hashes generated"). */
    method WorkSync(randomBytes: nat -> Nonce) returns (result: WorkResult, hashesGenerated: nat)
      requires Valid()
      ensures hashesGenerated <= Pow(16, DigestLength(difficulty))
      ensures forall i, j :: 0 <= i < j < hashesGenerated ==>
        Digest(randomBytes(i)) != Digest(randomBytes(j))
      ensures exists j :: (0 <= j < hashesGenerated &&
        result.nonces == [randomBytes(hashesGenerated), randomBytes(j)])
      ensures result.digest == Digest(result.nonces[0]) == Digest(result.nonces[1])
      ensures result.encoded == Encoding(base64, result.nonces)
      ensures Accepts(result.nonces)
    {
      var seen, nonce, digest, digests := Search(randomBytes);
      SearchEnds(randomBytes, seen, digests, nonce, digest);
      ghost var j :| 0 <= j < |digests| && seen[digest] == randomBytes(j);
      var nonces := [nonce, seen[digest]];
      hashesGenerated := |seen|;
      var encoded := Encode(base64, nonces);
      result := WorkResult(digest, nonces, encoded);
      assert result.nonces == [randomBytes(hashesGenerated), randomBytes(j)];
    }
  }

  /** The decision on a delegated result: resolve with it when it verified,
      reject with "HardLock result did not verify" otherwise. */
  function Settle(verified: bool, results: WorkResult): (s: Settlement)
    ensures s.Resolved? <==> verified
    ensures s.Resolved? ==> s.results == results
    ensures s.Rejected? ==> s.reason == DidNotVerify
  {
    if verified then Resolved(results) else Rejected(DidNotVerify)
  }

  /** Two locks with the same parameters agree on every digest. */
  lemma SameParametersSameDigests(a: HardLock, b: HardLock, nonces: seq<seq<byte>>)
    requires a.difficulty == b.difficulty && a.salt == b.salt && a.key == b.key
    requires a.personalization == b.personalization && a.sha256 == b.sha256
    ensures a.DigestSet(nonces) == b.DigestSet(nonces)
    ensures a.Accepts(nonces) == b.Accepts(nonces)
  {
    assert forall n :: a.Digest(n) == b.Digest(n);
    assert a.Digests(nonces) == b.Digests(nonces);
  }

  /** Two locks that also share the base64 codec give every proof, list or
      string, the same verdict. */
  lemma SameParametersSameVerdicts(a: HardLock, b: HardLock, proof: Proof)
    requires a.difficulty == b.difficulty && a.salt == b.salt && a.key == b.key
    requires a.personalization == b.personalization && a.sha256 == b.sha256
    requires a.base64 == b.base64
    ensures a.Verdict(proof) == b.Verdict(proof)
  {
    match proof
    case NonceList(nonces) =>
      SameParametersSameDigests(a, b, nonces);
    case EncodedProof(text) =>
      if Decoding(a.base64, text).Ok? {
        SameParametersSameDigests(a, b, Decoding(a.base64, text).value);
      }
  }

  /** The worker's result handler in `work`: a fresh lock with the original
      difficulty, salt and key verifies the received nonces, and the promise
      is resolved only when that succeeds. */
  method OnWorkerResult(lock: HardLock, results: WorkResult) returns (s: Settlement)
    requires lock.Valid()
    ensures s == if lock.Accepts(results.nonces) then Resolved(results) else Rejected(DidNotVerify)
  {
    assert IsSha256Hex(lock.sha256);
    var hl := new HardLock(lock.difficulty, Bytes(lock.salt), Bytes(lock.key), lock.sha256, lock.base64);
    var verified := hl.Verify(NonceList(results.nonces));
    SameParametersSameDigests(hl, lock, results.nonces);
    s := Settle(verified.value, results);
  }
}
