# Dual-reality burn-on-read note service — Dafny model

The model covers the core of a note service that holds secrets in RAM only.
A sender stores two encrypted "realities" under one receiver token (RX):
a surface message A and a hidden message B. A reader opens one of them by
token suffix (`RX-…` or `RX-…-A` for A, `RX-…-B` for B). A successful read
burns that reality and only that one. A read that finds nothing to open
(no entry, an expired or burned reality, a failed decryption, a malformed
request) gets one fixed masked reply: "No note available", padded to a
4097-byte body. Padding hides sizes only partly: a successful read of A
gets the same 4097 bytes only when its content fits (up to 4069 plain
bytes), a successful read of B is unpadded, and a read whose key
derivation fails or whose stored nonce is malformed panics instead of
replying.
The store has lazy expiry and a periodic expiry sweep. A panic endpoint
wipes everything, and a dead-man check wipes the store after 24 hours
without a heartbeat. A token bucket limits each client. The frontend
contributes a checksum token scheme, the base64url rewriting of the key
carried in the URL fragment, and the IV‖ciphertext packing of
client-side encryption.

Modules, one per source file:

| module | file | source |
|---|---|---|
| `Base` | `base.dfy` | shared vocabulary: `Option`, `byte`, nanosecond `Time`, `Repeat` (Go's `strings.Repeat`) |
| `Store` | `store.dfy` | `backend/store/store.go` |
| `Crypto` | `crypto.dfy` | `backend/crypto/crypto.go` |
| `Auth` | `auth.dfy` | `backend/auth/auth.go` |
| `Normalize` | `normalize.dfy` | `backend/normalize/normalize.go` |
| `Json` | `json.dfy` | the part of Go's `encoding/json` that fixes the size of a read reply |
| `Api` | `api.dfy` | `backend/api/api.go` |
| `RateLimit` | `ratelimit.dfy` | `backend/ratelimit/limiter.go` |
| `Security` | `security.dfy` | `frontend/lib/security.ts` |
| `ClientCrypto` | `client_crypto.dfy` | `frontend/lib/client_crypto.ts` |

How the model is built:

- **Store and limiter.** The store and the limiter are classes whose map
  fields their methods reassign. Each background loop becomes one
  single-pass method (`CleanupPass`, `DeadManPass`), with the clock
  reading `now` as a parameter.
- **Handlers.** Each handler is one atomic step, a method on the store.
  Its `ensures` ties the reply and the new map to a specification
  function (`ReadOutcome`, `SendOutcome`). The lemmas state the
  properties of those functions: masking, burn, lifetime and padding.
- **Replies.** A reply is a value. `Padded(c)` and `Unpadded(c)` are read
  replies carrying content `c`, `Text(t)` is a plain body, and `Aborted`
  is a handler that panicked. `Api.Body` gives the exact bytes on the
  wire, and `Api.WritePaddedResponse` is proved to produce the padded
  bytes with the source's zero-then-fill loop.
- **Crypto primitives.** HKDF-SHA256, AES-GCM seal and open, and WebCrypto
  are uninterpreted functions passed as parameters. `crypto/rand` output
  is a byte-sequence parameter. A decrypt-of-encrypt round trip appears
  only as an explicit hypothesis, never as a fact. `Api.CorrectAead`
  says that opening inverts sealing and that every sealing holds at least
  the 16-byte tag. A toy cipher (`Api.ModelAead`: each plaintext char
  written as three bytes, followed by a 16-byte zero tag) satisfies it, and `Api.ModelAeadIsCorrect`
  proves so. The scenario in `Api.DualRealityWalkthrough` is therefore
  not vacuous.
- **Strings.** In the backend, a Dafny `char` stands for one byte. In the
  frontend, it stands for one UTF-16 code unit. Dafny's `char` type does
  not enforce either reading: it admits every Unicode scalar value, and no
  contract relies on a smaller range.

Behaviour kept as the code has it, where it falls short of what the code
itself promises. The padding field is "Junk data to equalize size"
(`backend/api/api.go:37`), and a failure returns the "SAME size/status as
a valid read" (`backend/api/api.go:79`):

- **Hidden replies are unpadded.** A successful read of reality B writes
  an unpadded reply (`backend/api/api.go:312`). Its size therefore
  differs from the masked reply (`Api.HiddenSuccessSizeDiffers`).
- **Key-derivation failure replies "Note sent".** On a send, the reply is
  "Note sent" rather than "Note saved", and nothing is stored
  (`backend/api/api.go:126-129`).
- **The padded body is 4097 bytes.** `json.Encoder` appends a newline to
  the 4096-byte object.
- **Generated tokens fail validation.** A token from `generateToken` fails
  `validateChecksum` unless its checksum character is `A` or `B`
  (`Security.GeneratedTokenValidation`). The checksum is computed over
  the token without the `-` that validation includes.
- **Encryption errors are ignored on send.** The entry is stored even
  when sealing fails, with empty ciphertext and nonce.
- **A read can panic.** When key derivation fails, or when the stored
  nonce is not 12 bytes, the handler panics (`Aborted`). Reads of entries
  written by a successful send never do this
  (`Api.ReadOfSentEntryNeverAborts`).
- **A preflight request to the panic endpoint wipes the store too.**
  `HandlePanic` never checks the method.
- **Test harnesses send unprefixed receiver tokens.** Some of the
  repository's harnesses send receiver tokens without the `RX-` prefix.
  The code stores nothing for them (`Api.RejectedSendIsSilent`).

## Model

| member | source | states |
|---|---|---|
| Store.Lookup | backend/store/store.go:57-69 | the lookup yields nothing exactly when the token was never saved or `now` is strictly after its expiry, and otherwise the stored entry |
| Store.Swept | backend/store/store.go:105-112 | a sweep keeps exactly the entries whose expiry is not before `now`, contents unchanged |
| Store.MemoryStore.constructor | backend/store/store.go:41-49 | the store starts empty, with the heartbeat at start-up time |
| Store.MemoryStore.Save | backend/store/store.go:51-55 | upsert, last write wins: only the entry at the token is replaced, and the heartbeat is untouched |
| Store.MemoryStore.Get | backend/store/store.go:57-69 | lazy expiry: absent iff never saved or expired, otherwise the stored entry; the map is not modified |
| Store.MemoryStore.Heartbeat | backend/store/store.go:76-80 | the heartbeat becomes `now` and every entry is untouched |
| Store.MemoryStore.Wipe | backend/store/store.go:92-100 | the map becomes empty and the heartbeat is untouched |
| Store.MemoryStore.CleanupPass | backend/store/store.go:102-114 | one pass over the map deletes exactly the expired entries (loop invariant over the keys still pending) |
| Store.MemoryStore.DeadManPass | backend/store/store.go:117-128 | wipes iff more than 24 hours have passed since the heartbeat, and otherwise changes nothing |
| Store.LookupAfterSave | backend/store/store.go:51-69 | after a save the token yields the new entry while it is unexpired, and every other token yields what it did before |
| Store.SweepAgreesWithLazyExpiry | backend/store/store.go:105-112 | at the sweep time or later, lookups in the swept map agree with lazy-expiry lookups in the unswept map |
| Store.LookupAfterWipe | backend/store/store.go:92-96 | after a wipe no token is found |
| Store.ExpiryIsPermanent | backend/store/store.go:65 | an entry expired at some time stays expired at every later time |
| Store.DeadManIsPermanent | backend/store/store.go:124 | once the dead-man condition holds, it holds at every later tick until a heartbeat |
| Store.DeadManBoundary | backend/store/store.go:124 | exactly 24 hours of silence does not wipe; one nanosecond more does |
| Crypto.Zeroize | backend/crypto/crypto.go:86-90 | every byte becomes zero; the call changes nothing iff the bytes were already zero (idempotent, a no-op on an empty slice) |
| Crypto.ReadFull | backend/crypto/crypto.go:32-33 | copies min(stream length, buffer length) bytes; the rest of the buffer is untouched |
| Crypto.KeyFromStream | backend/crypto/crypto.go:30-40 | no key iff the HKDF stream holds fewer than 32 bytes; otherwise the key is the stream's first 32 bytes |
| Crypto.DeriveKey | backend/crypto/crypto.go:21-43 | the 32-byte scratch buffer, freshly allocated by the call, is all zeros on exit, on the error path and the success path alike; no key iff the HKDF stream is shorter than 32 bytes, otherwise its first 32 bytes |
| Crypto.EncryptAESGCM | backend/crypto/crypto.go:45-63 | succeeds iff the key length is 16, 24 or 32 and 12 random bytes are available; then the nonce is those 12 bytes and the ciphertext is the sealing; on failure both are empty |
| Crypto.DecryptAESGCM | backend/crypto/crypto.go:65-82 | plaintext only when the key length is valid, the nonce is 12 bytes, the ciphertext holds a tag and opening succeeds; a wrong-length nonce panics; every other failure is one undifferentiated error |
| Auth.ValidateSenderToken | backend/auth/auth.go:7-19 | false below three bytes; true iff the first three bytes are `TX-` |
| Auth.ValidateReceiverToken | backend/auth/auth.go:23-34 | false below three bytes; true iff the first three bytes are `RX-` |
| Auth.SenderAndReceiverDisjoint | backend/auth/auth.go:13-30 | no string is both a valid sender and a valid receiver token |
| Auth.ValidityIsPrefixDetermined | backend/auth/auth.go:14-29 | two tokens that share their first three bytes are equally valid |
| Auth.AppendKeepsValidity | backend/auth/auth.go:14-29 | appending to a valid token keeps it valid |
| Normalize.Normalize | backend/normalize/normalize.go:7-33 | both outputs have length max(\|a\|, \|b\|) and start with their input; appended characters are spaces; equal-length inputs and the longer input come back unchanged |
| Normalize.NormalizeIdempotent | backend/normalize/normalize.go:8-10 | normalising the outputs again returns them unchanged |
| Json.LettersArePlain | backend/api/api.go:54 | letters and the space are copied unchanged by the encoder |
| Json.EscapeByte | backend/api/api.go:54 | a byte is copied unchanged exactly when it is at least 0x20 and not `"`, `\`, `<`, `>` or `&`; otherwise it becomes a two- or six-byte escape starting with a backslash |
| Json.Escaped | backend/api/api.go:54 | the escaped string is never shorter than the input; it is equally long exactly when every byte is plain, and then it is the input itself |
| Json.Marshal | backend/api/api.go:54 | the encoded read reply is an object, opening with `{` and closing with `}`, of 27 framing bytes plus the two escaped fields |
| Json.MarshalWithFiller | backend/api/api.go:69-75 | n filler 'X' bytes in the padding field lengthen the encoding by exactly n |
| Api.BaseJson | backend/api/api.go:54 | the unpadded encoding is an object of 27 framing bytes plus the escaped content |
| Api.Filler | backend/api/api.go:55-72 | the padding is all 'X' and brings the encoding up to max(4096, its unpadded length) |
| Api.Body | backend/api/api.go:48-83 | a padded reply is max(4096, unpadded length) + 1 bytes and an unpadded one its encoding + 1, both opening with `{` and ending in the newline `json.Encoder` appends; a text reply is its text |
| Api.PaddingLength | backend/api/api.go:55-58 | the padding brings the base length up to 4096, or is zero when the base is longer |
| Api.WritePaddedResponse | backend/api/api.go:48-76 | allocating, zeroing and filling the pad with 'X' produces exactly the padded reply's bytes |
| Api.PaddedReplyHasFixedSize | backend/api/api.go:54-75 | whenever the unpadded encoding fits in 4096 bytes, the padded body is 4097 bytes, the newline included |
| Api.PlainContentHasFixedSize | backend/api/api.go:48-76 | any content of at most 4069 plain bytes gets a 4097-byte reply |
| Api.MaskedContentIsPlain | backend/api/api.go:82 | the masked content "No note available" is 17 plain bytes |
| Api.MaskedReplyHasFixedSize | backend/api/api.go:78-83 | the masked reply is 4097 bytes on the wire |
| Api.OversizedReplyIsUnpadded | backend/api/api.go:55-58 | content whose encoding exceeds 4096 bytes gets no padding, and the reply grows with it |
| Api.HiddenSuccessSizeDiffers | backend/api/api.go:312 | a successful reality-B read is unpadded, so its size differs from the 4097-byte masked reply |
| Api.SplitReality | backend/api/api.go:231-240 | B iff the token is longer than two bytes and ends in `-B`; the base is the token minus a stripped `-A`/`-B`, otherwise the whole token, which then selects A |
| Api.BareSuffixIsBase | backend/api/api.go:231-240 | `-B` or `-A` alone is not stripped: it selects A under itself as base |
| Api.Burn | backend/api/api.go:288-289 | the read reality is destroyed with its ciphertext cleared; its nonce, the sibling reality and the expiry are kept |
| Api.ReadOutcome | backend/api/api.go:157-317 | a read never adds or removes a token; a preflight changes nothing; any change of the map is the burn of the selected reality of the base token's entry, nothing else changes, and such a read does not panic |
| Api.HandleRead | backend/api/api.go:157-317 | the reply and the new map are those of `ReadOutcome`; the heartbeat is untouched |
| Api.FailedReadsAreMasked | backend/api/api.go:163-306 | an undecodable body, a token under two bytes, an absent or expired entry, a destroyed reality and a failed decryption all get the masked reply with the store unchanged |
| Api.UnsuccessfulReadChangesNothing | backend/api/api.go:271-306 | every read that reaches no plaintext leaves the store unchanged and is masked or aborts; it aborts only on key-derivation failure or a nonce that is not 12 bytes |
| Api.SuccessfulReadBurnsSelectedReality | backend/api/api.go:286-313 | a successful read burns the selected reality only; the sibling, the expiry and all other entries are unchanged; A's reply is padded and B's unpadded, carrying the opened plaintext |
| Api.BurnedRealityNeverDecrypts | backend/api/api.go:288-289 | a burned reality never decrypts again under any key |
| Api.SecondReadIsMasked | backend/api/api.go:272-298 | after a successful read, every later read of the same reality is masked and changes nothing, whatever the sibling's state |
| Api.ReadAfterWipeIsMasked | backend/api/api.go:242-246 | after a wipe every read is masked |
| Api.SendOutcome | backend/api/api.go:87-155 | a preflight writes nothing; every request is answered "Note saved" or "Note sent"; a write happens only for valid TX and RX tokens, under the RX token, with both realities live, expiring 15 minutes later, and answered "Note saved" |
| Api.HandleSend | backend/api/api.go:87-155 | the reply and the store write are those of `SendOutcome`; every other entry and the heartbeat are untouched |
| Api.RejectedSendIsSilent | backend/api/api.go:93-109 | an undecodable body or a bad TX or RX prefix replies "Note saved" and writes nothing |
| Api.SendReplyIsUniform | backend/api/api.go:93-154 | every request is answered "Note saved", except "Note sent" (with nothing stored) when key derivation fails for well-formed tokens |
| Api.ValidSendStoresEntry | backend/api/api.go:111-154 | a valid send stores one entry under the RX token: both realities live, each sealing its normalised plaintext of equal length under its own key and nonce, expiring 15 minutes later |
| Api.SentEntryLifetime | backend/api/api.go:148 | the sent entry is found exactly until 15 minutes after the send: present at 14 minutes, absent at 16 |
| Api.ReadOfSentEntryNeverAborts | backend/api/api.go:278-302 | reading a freshly sent entry never panics when the send had its random bytes |
| Api.DualRealityWalkthrough | backend/api/api.go:151-313 | given a correct AES-GCM, send then read `RX-1` is "Secret A", again is masked, then `RX-1-B` is "Secret B" (unpadded), then again is masked |
| Api.HandlePanic | backend/api/api.go:320-329 | the store becomes empty and the reply is "WIPED" |
| Api.HandleHeartbeat | backend/api/api.go:332-337 | the heartbeat becomes `now`, entries are untouched, and the reply is "OK" |
| RateLimit.SecondsAdditive | backend/ratelimit/limiter.go:55 | `Duration.Seconds()` adds across durations, is monotone, gives 1.0 for a second and 600.0 for the ten-minute staleness limit |
| RateLimit.Start | backend/ratelimit/limiter.go:43-52 | an unseen client starts with `burst` tokens stamped `now`; a known one keeps its bucket |
| RateLimit.Refill | backend/ratelimit/limiter.go:55-61 | elapsed seconds times the rate are added and capped at `burst` (equal to `burst` iff the sum reaches it), stamped `now` |
| RateLimit.AllowOutcome | backend/ratelimit/limiter.go:39-70 | allowed iff the refilled bucket holds at least one token, in which case exactly one is consumed; only the named client's bucket changes |
| RateLimit.Fresh | backend/ratelimit/limiter.go:78-83 | the sweep keeps exactly the clients refilled at most ten minutes ago |
| RateLimit.LastIndex | backend/ratelimit/limiter.go:94 | the index of the last occurrence of the character, or -1 iff there is none |
| RateLimit.ClientId | backend/ratelimit/limiter.go:92-101 | a non-empty X-Forwarded-For wins; otherwise the remote address is cut before its last ':' |
| RateLimit.Limiter.constructor | backend/ratelimit/limiter.go:28-37 | a limiter starts with no clients and the given rate and burst |
| RateLimit.Limiter.Allow | backend/ratelimit/limiter.go:39-70 | the decision and the new client map are those of `AllowOutcome` |
| RateLimit.Limiter.CleanupPass | backend/ratelimit/limiter.go:73-86 | one pass deletes exactly the clients not refilled for more than ten minutes |
| RateLimit.Limiter.Middleware | backend/ratelimit/limiter.go:89-110 | the bucket for the client id is charged; a refused request gets 429 "Too Many Requests" and the wrapped handler does not run |
| RateLimit.AllowKeepsRange | backend/ratelimit/limiter.go:48-66 | with a non-negative rate and burst and a clock that does not run backwards, every bucket stays within [0, burst] |
| RateLimit.SweepKeepsRange | backend/ratelimit/limiter.go:78-83 | the sweep preserves the range invariant |
| RateLimit.FirstRequestStartsFull | backend/ratelimit/limiter.go:46-52 | an unseen client is admitted iff burst ≥ 1, and keeps burst − 1 tokens |
| RateLimit.BurstOfTwo | backend/ratelimit/limiter.go:64-69 | with burst 2 and no time passing, the first two requests pass and the third is refused |
| RateLimit.WaitingRefills | backend/ratelimit/limiter.go:55-66 | a client is admitted again once elapsed time times rate covers its missing token |
| RateLimit.SweepIsInvisible | backend/ratelimit/limiter.go:78-83 | when ten minutes of refill fill a bucket, dropping a stale client changes neither its next decision nor its next bucket |
| RateLimit.RecentClientSurvivesSweep | backend/ratelimit/limiter.go:78-83 | a client seen within the last ten minutes is kept by the sweep |
| RateLimit.PortIsStripped | backend/ratelimit/limiter.go:92-96 | an IPv4 remote address loses only its port |
| RateLimit.BracketedPortIsStripped | backend/ratelimit/limiter.go:92-96 | a bracketed IPv6 remote address is cut at its last ':', losing only the port |
| RateLimit.ForwardedForWins | backend/ratelimit/limiter.go:99-101 | a non-empty X-Forwarded-For header replaces the remote address |
| Security.AlphabetIsDigitsThenLetters | frontend/lib/security.ts:46 | the checksum alphabet is the ten digits followed by the 26 capital letters |
| Security.AlphabetDistinct | frontend/lib/security.ts:46 | distinct residues mod 36 give distinct checksum characters |
| Security.ChecksumUsesAlphabet | frontend/lib/security.ts:46-47 | the checksum is the character of the alphabet literal at the code-unit sum mod 36 |
| Security.Checksum | frontend/lib/security.ts:41-48 | the checksum is always a digit or a capital letter |
| Security.CodeSumAppend | frontend/lib/security.ts:43-45 | appending a code unit adds its code to the sum |
| Security.ComputeChecksum | frontend/lib/security.ts:41-48 | the summing loop computes `Checksum` |
| Security.Clean | frontend/lib/security.ts:24-27 | exactly one trailing `-A` or `-B` is removed, otherwise the token is kept |
| Security.ValidateChecksum | frontend/lib/security.ts:14-39 | true below five characters; otherwise true iff the last character of the cleaned token is the checksum of the rest |
| Security.ChecksummedBodyValidates | frontend/lib/security.ts:35-38 | a body with its own checksum appended validates, unless that appends `-A` or `-B` |
| Security.CleanStripsAppendedSuffix | frontend/lib/security.ts:24-27 | cleaning a token with `-A` or `-B` appended removes exactly that suffix |
| Security.SuffixDoesNotMatter | frontend/lib/security.ts:24-27 | for a token of five or more characters without a suffix, appending `-A` or `-B` does not change the verdict |
| Security.Decimal | frontend/lib/security.ts:7 | the decimal rendering of a number is a non-empty string of digits |
| Security.DecimalValue | frontend/lib/security.ts:7 | the decimal rendering of a number denotes that number |
| Security.DecimalLength | frontend/lib/security.ts:5-7 | a number from 100 to 999 renders as three digits |
| Security.WordIndex | frontend/lib/security.ts:4 | a random draw in [0, 1) picks one of the six words |
| Security.TokenNumber | frontend/lib/security.ts:5 | a random draw in [0, 1) picks a number from 100 to 999 |
| Security.GenerateToken | frontend/lib/security.ts:1-12 | the token starts with `RX-` and ends with '-' and the checksum of everything before that '-' |
| Security.GeneratedTokenShape | frontend/lib/security.ts:1-12 | a generated token is 12 to 14 characters, ends its body in three digits whose value is the drawn number, and passes the backend's receiver-token check |
| Security.DashedChecksumFails | frontend/lib/security.ts:10-38 | a checksum appended after a '-' never validates unless it is `A` or `B`, because validation sums the '-' (45, not a multiple of 36) |
| Security.GeneratedTokenValidation | frontend/lib/security.ts:1-38 | a generated token fails validation whenever its checksum is not `A` or `B`; otherwise validation checks its last digit against the rest |
| ClientCrypto.UrlSafe | frontend/lib/client_crypto.ts:14 | every `+` becomes `-` and every `/` becomes `_`, position by position |
| ClientCrypto.Standard | frontend/lib/client_crypto.ts:19 | every `-` becomes `+` and every `_` becomes `/`, position by position |
| ClientCrypto.StripTrailing | frontend/lib/client_crypto.ts:14 | removes the whole trailing run of '=' and nothing else |
| ClientCrypto.ExportToHash | frontend/lib/client_crypto.ts:12-15 | the hash has no `+` or `/` and does not end in '='; it is the rewritten text minus trailing '=' only |
| ClientCrypto.PadCount | frontend/lib/client_crypto.ts:20-22 | at most three '=' reach a multiple of four |
| ClientCrypto.PadCountIsLeast | frontend/lib/client_crypto.ts:20-22 | no fewer '=' reach a multiple of four |
| ClientCrypto.RestoreBase64 | frontend/lib/client_crypto.ts:17-22 | the restored text is a multiple of four long, at most three longer than the hash, and contains no `-` or `_` |
| ClientCrypto.ImportFromHash | frontend/lib/client_crypto.ts:17-23 | the rewrite and the terminating padding loop compute `RestoreBase64` |
| ClientCrypto.StripUrlSafe | frontend/lib/client_crypto.ts:14 | the character rewrite commutes with stripping trailing '=' |
| ClientCrypto.PadCountUnique | frontend/lib/client_crypto.ts:20-22 | the padding count is the only count below four that reaches a multiple of four |
| ClientCrypto.StandardUndoesUrlSafe | frontend/lib/client_crypto.ts:14-19 | the restore rewriting undoes the export rewriting on text without `-` or `_` |
| ClientCrypto.StripReassembles | frontend/lib/client_crypto.ts:14 | a string is its stripped part followed by the removed run of '=' |
| ClientCrypto.HashRoundTrip | frontend/lib/client_crypto.ts:14-22 | restoring the hash of standard base64 text gives the text back |
| ClientCrypto.Pack | frontend/lib/client_crypto.ts:46-49 | the combined buffer is the IV followed by the ciphertext |
| ClientCrypto.Unpack | frontend/lib/client_crypto.ts:55-57 | the two slices together are the input; the first is 12 bytes unless the input is shorter |
| ClientCrypto.PackUnpack | frontend/lib/client_crypto.ts:47-57 | unpacking a packed 12-byte IV and ciphertext recovers both, and the packed length is 12 plus the ciphertext length |
| ClientCrypto.ClientDecrypt | frontend/lib/client_crypto.ts:54-70 | decryption uses the first 12 bytes as IV and the rest as ciphertext; a shorter input is all IV with an empty ciphertext |
| ClientCrypto.ClientEncrypt | frontend/lib/client_crypto.ts:34-52 | the output is the 12-byte IV followed by the ciphertext of the plaintext under that IV |
| ClientCrypto.ClientRoundTrip | frontend/lib/client_crypto.ts:34-70 | when WebCrypto opens what it sealed, decrypting the packed bytes gives the plaintext back |

## Left out

- Concurrency is not modelled: the store's `RWMutex`, the limiter's mutex, the goroutines and the sleeping and ticker loops. Each handler and each loop body is one atomic step. The window between `Get` and `Lock` in `HandleRead` is not modelled, so "exactly one concurrent reader wins" appears only as its sequential counterpart, `Api.SecondReadIsMasked`.
- Api.HandleRead: the in-place burn through the entry pointer that `Get` returns is modelled as a map update of that entry, so pointer aliasing is not captured.
- Real cryptography is abstract: HKDF-SHA256, AES-GCM, `crypto/rand` and WebCrypto are parameters. memguard's locked buffers are modelled only as their byte contents, and their `Destroy` calls are not modelled at all.
- `Buffer`'s base64 codec and `TextEncoder`/`TextDecoder` are left out: the frontend model starts from base64 text and from bytes.
- HTTP transport, JSON decoding of requests, CORS headers and route registration (`backend/main.go`) are not modelled. A request arrives already decoded, or as undecodable.
- The geofencing fields are never read by the code and are left out.
- Json.Escaped: UTF-8 validation and the escaping of U+2028/U+2029 in encoding/json are not modelled, because every char stands for one byte.
- Security.Checksum: non-BMP characters are not modelled. JavaScript sums UTF-16 code units, and a Dafny char is one code unit only inside the BMP.
- RateLimit.Refill: IEEE double rounding and the saturation of Go's `time.Duration` arithmetic are not modelled. Tokens, rates and seconds are exact reals.
- Memory pinning (`backend/crypto/mem_windows.go`, `backend/crypto/mem_stub.go`), the constant-time comparison and any timing uniformity cannot be expressed in the model. `Auth` models only the comparison's result.
- The React components, `frontend/lib/api.ts`, the frontend scanner and the CI harnesses are not part of this model.
