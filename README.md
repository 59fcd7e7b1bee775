# HardLock, modelled in Dafny

HardLock (`src/hardlock.js`) is a small proof-of-work puzzle. A puzzle has
three parameters: a difficulty, a salt and a key. To solve it, a client must
find two nonces whose truncated SHA-256 hex digests are equal.

- The digest of a nonce comes from a buffer into which the salt, the fixed
  personalization bytes of "hardlock", the key and the nonce are copied, at
  offsets that let later copies overwrite earlier ones (see below). The digest
  is the first `difficulty` characters of the hex SHA-256 of that buffer.
- `workSync` draws random 32-byte nonces until two of them collide.
- `encode`/`decode` turn a list of nonces into a comma-separated string of
  base64 segments, and back.
- `verify` accepts a non-empty list, or its encoding, exactly when all of its
  nonces share one digest. The empty list is rejected, but the empty string,
  which encodes `[]`, is accepted.
- When `work` hands the search to a web worker, it accepts the worker's
  answer only if a fresh `HardLock` with the original parameters verifies it.

The project has six modules:

| file | module | content |
|---|---|---|
| `wrappers.dfy` | `Wrappers` | `Option` and `Result` |
| `js_text.dfy` | `JsText` | bytes, UTF-16 strings, `arr2str`, `str2arr` |
| `externals.dfy` | `Externals` | what the model assumes about jshashes' SHA-256 and base64-js |
| `hex_space.dfy` | `HexSpace` | the finite space of hex digests; the pigeonhole bound that ends the search |
| `codec.dfy` | `Codec` | `split`/`join` on a separator; `encode` and `decode` |
| `hardlock.dfy` | `HardLockModel` | the `HardLock` class, the search, the verifier, the acceptance rule for a delegated result |

The imperative parts stay imperative:
- `str2arr` fills an array in a loop.
- `hashNonce` fills a `new byte[...]` with four copy loops and a reassigned `offset`.
- `encode`, `decode`, `verify` and `workSync` are loops.
- The constructor assigns the fields of a `class`.

Each method is proved against a specification function: `CharCodeBytes`, `Layout`/`Digest`,
`Encoding`, `Decoding`, `Verdict`. Two helpers inside them model JavaScript built-ins:
`Codec.Join` is `Array.prototype.join` (`src/hardlock.js:81`), and
`HardLockModel.Substring0` is `String.prototype.substring(0, end)` (`src/hardlock.js:147`). Lemmas then prove what the source promises about
those functions.

The libraries and the randomness appear as parameters:
- The constructor takes the SHA-256 hex function and the base64 codec as values.
  In the source these are module-level `require`s.
  - The constructor's precondition is that the SHA-256 function returns 64
    lowercase hex digits for every input.
  - The base64 type only admits codecs that decode what they encode, never
    emit a comma, and encode the empty array as the empty string.
- `WorkSync` takes `randomBytes: nat -> Nonce`, the i-th 32-byte draw of the call.

Some behaviours of the code are easy to miss. The lemmas named below prove them:

- **The `hashNonce` buffer is not the concatenation salt, personalization, key, nonce.**
  The `offset` is *reassigned* to the previous part's length (`offset = this.personalization.length`,
  `offset = this.key.length`), not advanced past it. So:
  - the salt is written at 0;
  - the personalization is written at `|salt|`;
  - the key is written at 8;
  - the nonce is written at `|key|`.

  A later copy overwrites earlier bytes. `Layout` and `HashNonce` model this as written.
  - `LayoutAt` gives the value at every position.
  - `LayoutIsNotConcatenation` shows that, for a non-empty nonce, the last byte of the buffer is never written and stays 0.
  - `KeyOverwritten` shows that when the key is at most 8 bytes and the nonce at
    least 8 bytes, the key's bytes do not affect the digest; only its length does,
    through the buffer's size and the nonce's offset.
- **`verify` does not require distinct nonces.** A single nonce, or a nonce
  paired with itself, verifies (`DegenerateProofs`). Nothing in `WorkSync`'s
  contract excludes a pair of equal nonces, which `workSync` returns when the
  random stream repeats a value.
- **The empty string verifies.** `decode("")` is one empty byte array, so `verify("")`
  is true (`EmptyStringVerifies`). `encode([])` and `encode([[]])` are both `""`
  (`EmptyListEncoding`), so the round trip holds only for non-empty lists.
- **`workSync` terminates.** Every stored digest is a hex string of
  `min(difficulty, 64)` characters (0 when the difficulty is not positive).
  So at most `16^min(difficulty, 64)` digests are ever stored, and a collision
  comes within that many draws plus one.
- The dictionary tests in `workSync` (`!set[digest]`) and `verify` are modelled
  as membership in a map or set. Two facts make this faithful:
  - The stored values are `Uint8Array`s, which are always truthy.
  - A digest is a lowercase hex string, so it never names an inherited `Object` property.

## Model

| member | source | states |
|---|---|---|
| JsText.Arr2Str | src/hardlock.js:26-28 | the string has one code unit per byte, and each code unit has its byte's value |
| JsText.Str2Arr | src/hardlock.js:30-36 | the array has the string's length, and element i is the i-th code unit modulo 256 (the `Uint8Array` store); the loop computes `CharCodeBytes` |
| JsText.Str2ArrInvertsArr2Str | src/hardlock.js:26-36 | `str2arr(arr2str(a)) == a` for every byte array |
| JsText.Arr2StrInvertsStr2ArrIff | src/hardlock.js:26-36 | `arr2str(str2arr(s)) == s` exactly when every code unit of `s` is below 256 |
| Codec.Split | src/hardlock.js:85 | `split` always yields at least one piece |
| Codec.SplitJoin | src/hardlock.js:81-85 | splitting a non-empty join of separator-free segments gives those segments back |
| Codec.Encode | src/hardlock.js:76-82 | the result is the base64 segments of the nonces, in order, joined by "," |
| Codec.Decode | src/hardlock.js:84-91 | the result is the base64 decodings of the comma-separated pieces, in order, or the error a malformed piece raises |
| Codec.DecodeEncode | src/hardlock.js:76-91 | `decode(encode(L)) == L` for every non-empty list |
| Codec.EmptyListEncoding | src/hardlock.js:76-91 | `encode([]) == encode([[]]) == ""`, and `decode("")` is one empty array |
| HardLockModel.WriteAtIndex | src/hardlock.js:130-144 | after a copy, bytes inside the written range come from the source and all other bytes are unchanged |
| HardLockModel.CopyInto | src/hardlock.js:130-132 | one copy loop writes `src` at `offset` in place, stays in bounds, and changes nothing else |
| HardLockModel.LayoutAt | src/hardlock.js:123-144 | each buffer byte comes from the last copy whose range covers it (key at 8, nonce at `|key|`), and is 0 when no copy covers it |
| HardLockModel.LayoutIsNotConcatenation | src/hardlock.js:123-144 | for a non-empty nonce the buffer's last byte is always 0, so the buffer differs from salt, personalization, key, nonce concatenated whenever the nonce ends in a non-zero byte |
| HardLockModel.KeyOverwritten | src/hardlock.js:137-144 | when the key is no longer than the personalization and the nonce is at least as long, keys of equal length give the same buffer |
| HardLockModel.NonceSurvives | src/hardlock.js:141-144 | every nonce byte reaches the buffer at offset `|key|` |
| HardLockModel.DigestLength | src/hardlock.js:147 | `substring(0, difficulty)` of a 64-character hash keeps min(difficulty, 64) characters, none for a non-positive difficulty |
| HardLockModel.KeysMembers | src/hardlock.js:234-239 | the dictionary holds exactly the digests entered |
| HardLockModel.SingleKeyIff | src/hardlock.js:234-240 | the dictionary has one key exactly when at least one digest was entered and all are equal |
| HardLockModel.SearchStepBound | src/hardlock.js:151-164 | storing a digest not seen before keeps the dictionary within the 16^width possible digests |
| HardLockModel.SearchStep | src/hardlock.js:155-159 | on a miss, storing digest to nonce keeps the search invariant: every stored entry maps a digest to the draw that produced it, entries are never overwritten, digests are distinct |
| HardLockModel.SearchHit | src/hardlock.js:157-165 | on a hit, the stored nonce is an earlier draw, and all earlier draws had distinct digests |
| HardLockModel.HardLock.constructor | src/hardlock.js:39-51 | difficulty is kept; a string salt or key is converted with `str2arr`, bytes are kept; the personalization is the bytes of "hardlock" |
| HardLockModel.HardLock.DigestIsTruncatedSha256 | src/hardlock.js:145-147 | a digest is the min(difficulty, 64)-character prefix of the hex SHA-256 of the buffer, so a hex string of that length |
| HardLockModel.HardLock.HashNonce | src/hardlock.js:122-148 | the four copy loops with the reassigned offset build exactly `Layout`, and the result is the truncated hex SHA-256 of its string form |
| HardLockModel.HardLock.AcceptsIff | src/hardlock.js:230-241 | a list is accepted exactly when it is non-empty and all its nonces have the same digest |
| HardLockModel.HardLock.AcceptsPairIff | src/hardlock.js:230-241 | two nonces are accepted exactly when their digests are equal |
| HardLockModel.HardLock.DegenerateProofs | src/hardlock.js:230-241 | `[n]` and `[n, n]` are accepted and `[]` is not: distinctness is not checked |
| HardLockModel.HardLock.EmptyStringVerifies | src/hardlock.js:230-241 | `verify("")` is true |
| HardLockModel.HardLock.EncodedVerdict | src/hardlock.js:230-233 | a string argument is decoded first: an encoded non-empty list gets the list's verdict |
| HardLockModel.HardLock.Verify | src/hardlock.js:230-241 | the loop computes `Verdict`: decode errors propagate, otherwise true exactly when the set of digests has one element; a list argument never errors |
| HardLockModel.HardLock.SearchEnds | src/hardlock.js:157-167 | at the hit, the pair `[last draw, stored nonce]` shares the digest and is accepted, and the stored nonce is an earlier draw |
| HardLockModel.HardLock.Search | src/hardlock.js:150-164 | the loop ends after at most 16^min(difficulty, 64) stored digests, with the search invariant and the latest draw's digest already stored |
| HardLockModel.HardLock.WorkSync | src/hardlock.js:150-168 | returns `digest == hashNonce(nonces[0]) == hashNonce(nonces[1])` with `nonces[0]` the last draw and `nonces[1]` an earlier one, `encoded == encode(nonces)`, a result `verify` accepts, and a count of stored digests within 16^min(difficulty, 64), all with distinct digests |
| HardLockModel.Settle | src/hardlock.js:210-214 | resolves with the results exactly when they verified, and otherwise rejects with "HardLock result did not verify" |
| HardLockModel.SameParametersSameDigests | src/hardlock.js:207-209 | two locks with the same difficulty, salt, key, personalization and hash function agree on the digest set and the acceptance of every list |
| HardLockModel.SameParametersSameVerdicts | src/hardlock.js:207-209 | two locks that also share the base64 codec give every proof, list or string, the same verdict |
| HardLockModel.OnWorkerResult | src/hardlock.js:207-214 | a delegated result is resolved exactly when the original parameters accept its nonces, and otherwise rejected with "HardLock result did not verify" |

## Left out

- Environment detection (`insideNode`, `insideWebWorker`, `workableOrigin`) and the condition in `work` that chooses whether to delegate: these read ambient globals.
- Choice of random source (`getRandomValues`, `randomBytes`, `Math.random`): replaced by the injected stream `randomBytes: nat -> Nonce`.
- SHA-256 (jshashes) and base64-js internals: opaque libraries, replaced by the parameters and assumptions described above. This includes jshashes' UTF-8 encoding of its input string.
- `onmessage`, the web-worker, JSON and Promise/`setTimeout` plumbing of `work`, and the reconstruction of bytes from JSON objects: messaging and asynchronous I/O. Only the verify-then-resolve rule at the end of the worker handler is modelled, as `OnWorkerResult`.
- `console.debug` and `console.error` output, and the `window`, `global` and `module.exports` wiring. `WorkSync` returns the logged "Hashes generated" count as an out-parameter instead.
- The `workerFile` field: it only matters to the delegation left out above.
- Aliasing: the constructor keeps a caller's `Uint8Array` salt or key by reference. The model copies the value.
- A salt or key passed as a plain array with elements outside 0..255: the model takes byte values.
- A difficulty that is not an integer (JavaScript's `substring` truncates or maps NaN to 0): the model takes an integer difficulty.
- The argument-count limit of `String.fromCharCode.apply` on very long buffers: engine-dependent.
- Gruntfile.js: build configuration, no program logic.
