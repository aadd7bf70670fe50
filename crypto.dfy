/** The backend's cryptographic layer (backend/crypto/crypto.go): key
    derivation into a scratch buffer that is wiped on every exit path,
    AES-GCM sealing and opening with their error paths, and `Zeroize`.
    HKDF-SHA256, the AES-GCM transform itself and `crypto/rand` are
    abstract: they are supplied as functions and byte streams. */
module Crypto {
  import opened Base

  /** Length of a derived key: `make([]byte, 32)`. */
  const KeySize: nat := 32
  /** Length of a GCM nonce: `make([]byte, 12)`. */
  const NonceSize: nat := 12
  /** Length of the GCM authentication tag; shorter ciphertexts never open. */
  const TagSize: nat := 16

  /** The contents of a memguard `LockedBuffer` holding a derived key. */
  datatype LockedBuffer = LockedBuffer(bytes: seq<byte>)

  /** The stream HKDF-SHA256 yields for (input keying material, info). */
  type Hkdf = (string, string) -> seq<byte>
  /** GCM `Seal(nil, nonce, plaintext, nil)` under a key. */
  type Sealer = (seq<byte>, seq<byte>, string) -> seq<byte>
  /** GCM `Open(nil, nonce, ciphertext, nil)` under a key: `None` when
      authentication fails. */
  type Opener = (seq<byte>, seq<byte>, seq<byte>) -> Option<string>

  /** The library calls the core depends on, left uninterpreted. */
  datatype Primitives = Primitives(hkdf: Hkdf, seal: Sealer, open: Opener)

  /** Key sizes `aes.NewCipher` accepts (AES-128, AES-192, AES-256). */
  predicate ValidAesKeyLength(n: int) {
    n == 16 || n == 24 || n == 32
  }

  /** Overwrites every byte with zero. The second postcondition says the
      call changes nothing exactly when the bytes were already zero, so a
      second call is a no-op, and so is a call on an empty slice. */
  method Zeroize(data: array<byte>)
    modifies data
    ensures forall i :: 0 <= i < data.Length ==> data[i] == 0
    ensures data[..] == old(data[..]) <==> forall i :: 0 <= i < data.Length ==> old(data[i]) == 0
  {
    for i := 0 to data.Length
      invariant forall k :: 0 <= k < i ==> data[k] == 0
      invariant forall k :: i <= k < data.Length ==> data[k] == old(data[k])
    {
      data[i] := 0;
    }
    assert forall k :: 0 <= k < data.Length ==> data[..][k] == 0;
  }

  /** `io.ReadFull` from a reader that yields `source` and then ends: copies
      as many bytes as fit and returns how many; the call succeeds exactly
      when `n == buf.Length`. */
  method ReadFull(buf: array<byte>, source: seq<byte>) returns (n: nat)
    modifies buf
    ensures n == if |source| < buf.Length then |source| else buf.Length
    ensures buf[..n] == source[..n]
    ensures buf[n..] == old(buf[n..])
  {
    n := if |source| < buf.Length then |source| else buf.Length;
    for i := 0 to n
      invariant buf[..i] == source[..i]
      invariant buf[n..] == old(buf[n..])
    {
      buf[i] := source[i];
      assert buf[..i + 1] == buf[..i] + [buf[i]];
      assert source[..i + 1] == source[..i] + [source[i]];
    }
  }

  /** The key `DeriveKey` produces from an HKDF stream: its first 32 bytes,
      or nothing when the stream ends early. */
  function KeyFromStream(stream: seq<byte>): (key: Option<LockedBuffer>)
    ensures key.None? <==> |stream| < KeySize
    ensures key.Some? ==> |key.value.bytes| == KeySize && IsPrefix(key.value.bytes, stream)
  {
    if |stream| < KeySize then None else Some(LockedBuffer(stream[..KeySize]))
  }

  /** HKDF(masterSecret, info = context) read into a 32-byte scratch buffer,
      moved into a locked buffer, and the scratch buffer wiped. `rawKey` is
      that scratch buffer, returned so that its final contents can be
      stated: all zeros on the error path and on the success path alike. */
  method DeriveKey(masterSecret: string, context: string, hkdf: Hkdf)
    returns (key: Option<LockedBuffer>, rawKey: array<byte>)
    ensures fresh(rawKey)
    ensures rawKey.Length == KeySize
    ensures forall i :: 0 <= i < rawKey.Length ==> rawKey[i] == 0
    ensures key.None? <==> |hkdf(masterSecret, context)| < KeySize
    ensures key.Some? ==> key.value.bytes == hkdf(masterSecret, context)[..KeySize]
    ensures key == KeyFromStream(hkdf(masterSecret, context))
  {
    var stream := hkdf(masterSecret, context);
    rawKey := new byte[KeySize];
    var n := ReadFull(rawKey, stream);
    if n < KeySize {
      Zeroize(rawKey);
      key := None;
      return;
    }
    assert rawKey[..] == rawKey[..n];
    key := Some(LockedBuffer(rawKey[..]));
    Zeroize(rawKey);
  }

  /** The triple `EncryptAESGCM` returns; `ok` is `err == nil`. */
  datatype Sealed = Sealed(ciphertext: seq<byte>, nonce: seq<byte>, ok: bool)

  /** AES-GCM encryption with a fresh nonce read from `random` (the bytes
      `crypto/rand` yields). It fails on a key `aes.NewCipher` refuses and
      on a short random read, and then returns nil ciphertext and nil
      nonce; on success the nonce is exactly 12 bytes. */
  function EncryptAESGCM(plaintext: string, key: seq<byte>, random: seq<byte>, seal: Sealer): (r: Sealed)
    ensures r.ok <==> ValidAesKeyLength(|key|) && |random| >= NonceSize
    ensures r.ok ==> |r.nonce| == NonceSize && r.nonce == random[..NonceSize]
    ensures r.ok ==> r.ciphertext == seal(key, r.nonce, plaintext)
    ensures !r.ok ==> r.ciphertext == [] && r.nonce == []
  {
    if !ValidAesKeyLength(|key|) then Sealed([], [], false)
    else if |random| < NonceSize then Sealed([], [], false)
    else
      var nonce := random[..NonceSize];
      Sealed(seal(key, nonce, plaintext), nonce, true)
  }

  /** What `DecryptAESGCM` can do: return plaintext, return an error, or
      panic (GCM's `Open` panics on a nonce that is not 12 bytes long). */
  datatype Opened = Plaintext(text: string) | OpenError | NoncePanic

  /** AES-GCM decryption. Every failure (bad key length, ciphertext shorter
      than the tag, failed authentication) is the same undifferentiated
      error with no plaintext. */
  function DecryptAESGCM(ciphertext: seq<byte>, key: seq<byte>, nonce: seq<byte>, open: Opener): (r: Opened)
    ensures r.Plaintext? ==> ValidAesKeyLength(|key|) && |nonce| == NonceSize && |ciphertext| >= TagSize
    ensures r.Plaintext? ==> open(key, nonce, ciphertext) == Some(r.text)
    ensures r.NoncePanic? <==> ValidAesKeyLength(|key|) && |nonce| != NonceSize
    ensures r.OpenError? <==> !ValidAesKeyLength(|key|) || (|nonce| == NonceSize && (|ciphertext| < TagSize || open(key, nonce, ciphertext).None?))
  {
    if !ValidAesKeyLength(|key|) then OpenError
    else if |nonce| != NonceSize then NoncePanic
    else if |ciphertext| < TagSize then OpenError
    else match open(key, nonce, ciphertext)
      case Some(p) => Plaintext(p)
      case None => OpenError
  }
}
