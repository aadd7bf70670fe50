/** The string and byte handling around the browser's key and ciphertext
    (frontend/lib/client_crypto.ts): the base64 to URL-fragment rewriting
    of an exported key and its inverse, and the IV‖ciphertext packing.
    WebCrypto, `Buffer`'s base64 codec and UTF-8 text encoding are
    abstract: the model starts from the base64 text and the bytes. */
module ClientCrypto {
  import opened Base

  /** `new Uint8Array(12)`: the AES-GCM IV length. */
  const IvLength: nat := 12

  function UrlSafeChar(c: char): char {
    if c == '+' then '-' else if c == '/' then '_' else c
  }

  function StandardChar(c: char): char {
    if c == '-' then '+' else if c == '_' then '/' else c
  }

  /** `.replace(/\+/g, '-').replace(/\//g, '_')`. */
  function UrlSafe(s: string): (r: string)
    ensures |r| == |s|
    ensures forall i :: 0 <= i < |s| ==> r[i] == UrlSafeChar(s[i])
  {
    seq(|s|, i requires 0 <= i < |s| => UrlSafeChar(s[i]))
  }

  /** `.replace(/-/g, '+').replace(/_/g, '/')`. */
  function Standard(s: string): (r: string)
    ensures |r| == |s|
    ensures forall i :: 0 <= i < |s| ==> r[i] == StandardChar(s[i])
  {
    seq(|s|, i requires 0 <= i < |s| => StandardChar(s[i]))
  }

  /** `.replace(/=+$/, '')` for `c == '='`: the whole trailing run of `c`
      removed. */
  function StripTrailing(s: string, c: char): (r: string)
    ensures IsPrefix(r, s)
    ensures forall i :: |r| <= i < |s| ==> s[i] == c
    ensures r == [] || r[|r| - 1] != c
  {
    if s != [] && s[|s| - 1] == c then StripTrailing(s[..|s| - 1], c) else s
  }

  /** The string rewriting of `exportKeyToHash`, applied to the key's
      base64 text: URL-safe characters, no trailing '='. */
  function ExportToHash(b64: string): (h: string)
    ensures forall i :: 0 <= i < |h| ==> h[i] != '+' && h[i] != '/'
    ensures h == [] || h[|h| - 1] != '='
    ensures IsPrefix(h, UrlSafe(b64))
    ensures forall i :: |h| <= i < |b64| ==> b64[i] == '='
  {
    StripTrailing(UrlSafe(b64), '=')
  }

  /** How many '=' the restore loop appends to a string of length `n`: the
      fewest that reach a multiple of four. */
  function PadCount(n: nat): (k: nat)
    ensures k <= 3 && (n + k) % 4 == 0
  {
    (4 - n % 4) % 4
  }

  /** No shorter padding reaches a multiple of four. */
  lemma PadCountIsLeast(n: nat, j: nat)
    requires j < PadCount(n)
    ensures (n + j) % 4 != 0
  {
  }

  /** The base64 text `importKeyFromHash` hands to `Buffer.from`. */
  function RestoreBase64(hash: string): (b: string)
    ensures |b| % 4 == 0 && |hash| <= |b| <= |hash| + 3
    ensures IsPrefix(Standard(hash), b)
    ensures forall i :: |hash| <= i < |b| ==> b[i] == '='
    ensures forall i :: 0 <= i < |b| ==> b[i] != '-' && b[i] != '_'
  {
    Standard(hash) + Repeat('=', PadCount(|hash|))
  }

  /** The rewriting and the padding loop of `importKeyFromHash`. */
  method ImportFromHash(hash: string) returns (base64: string)
    ensures base64 == RestoreBase64(hash)
  {
    base64 := Standard(hash);
    while |base64| % 4 != 0
      invariant |hash| <= |base64| <= |hash| + PadCount(|hash|)
      invariant base64 == Standard(hash) + Repeat('=', |base64| - |hash|)
      decreases |hash| + PadCount(|hash|) - |base64|
    {
      base64 := base64 + "=";
    }
    PadCountUnique(|hash|, |base64| - |hash|);
  }

  /** Standard base64 text: a multiple of four long, none of the URL-safe
      characters, and '=' only as one or two bytes of trailing padding. */
  predicate CanonicalBase64(s: string) {
    var body := StripTrailing(s, '=');
    && |s| % 4 == 0
    && (forall i :: 0 <= i < |s| ==> s[i] != '-' && s[i] != '_')
    && |s| - |body| <= 2
    && (forall i :: 0 <= i < |body| ==> body[i] != '=')
  }

  /** The character rewriting commutes with removing trailing '='. */
  lemma {:induction false} StripUrlSafe(s: string)
    ensures StripTrailing(UrlSafe(s), '=') == UrlSafe(StripTrailing(s, '='))
    decreases |s|
  {
    if s != [] && s[|s| - 1] == '=' {
      assert UrlSafe(s)[..|s| - 1] == UrlSafe(s[..|s| - 1]);
      StripUrlSafe(s[..|s| - 1]);
    }
  }

  /** The restore rewriting undoes the export rewriting on text without
      URL-safe characters. */
  lemma StandardUndoesUrlSafe(s: string)
    requires forall i :: 0 <= i < |s| ==> s[i] != '-' && s[i] != '_'
    ensures Standard(UrlSafe(s)) == s
  {
  }

  /** A string is its stripped part followed by the run of `c` removed. */
  lemma StripReassembles(s: string, c: char)
    ensures s == StripTrailing(s, c) + Repeat(c, |s| - |StripTrailing(s, c)|)
  {
  }

  /** The padding count is the only count below four that reaches a
      multiple of four. */
  lemma PadCountUnique(n: nat, k: nat)
    requires k < 4 && (n + k) % 4 == 0
    ensures PadCount(n) == k
  {
  }

  /** The URL fragment round trip: restoring the hash of standard base64
      text gives the text back. */
  lemma HashRoundTrip(s: string)
    requires CanonicalBase64(s)
    ensures RestoreBase64(ExportToHash(s)) == s
  {
    var body := StripTrailing(s, '=');
    StripUrlSafe(s);
    assert ExportToHash(s) == UrlSafe(body);
    assert forall i :: 0 <= i < |body| ==> body[i] == s[i];
    StandardUndoesUrlSafe(body);
    PadCountUnique(|body|, |s| - |body|);
    StripReassembles(s, '=');
  }

  /** `new Uint8Array(iv.length + encrypted.byteLength)` filled by
      `combined.set(iv)` and `combined.set(encrypted, iv.length)`. */
  method Pack(iv: seq<byte>, encrypted: seq<byte>) returns (combined: seq<byte>)
    ensures combined == iv + encrypted
  {
    var buf := new byte[|iv| + |encrypted|];
    for i := 0 to |iv|
      invariant forall k :: 0 <= k < i ==> buf[k] == iv[k]
    {
      buf[i] := iv[i];
    }
    for j := 0 to |encrypted|
      invariant forall k :: 0 <= k < |iv| ==> buf[k] == iv[k]
      invariant forall k :: 0 <= k < j ==> buf[|iv| + k] == encrypted[k]
    {
      buf[|iv| + j] := encrypted[j];
    }
    combined := buf[..];
  }

  /** `combined.slice(0, 12)` and `combined.slice(12)`, which clamp to the
      length: together they are the input, and the first part is 12 bytes
      unless the input is shorter. */
  function Unpack(combined: seq<byte>): (parts: (seq<byte>, seq<byte>))
    ensures parts.0 + parts.1 == combined
    ensures |parts.0| == if |combined| < IvLength then |combined| else IvLength
  {
    var cut := if |combined| < IvLength then |combined| else IvLength;
    (combined[..cut], combined[cut..])
  }

  /** Unpacking a packed 12-byte IV and ciphertext recovers both exactly. */
  lemma PackUnpack(iv: seq<byte>, encrypted: seq<byte>)
    requires |iv| == IvLength
    ensures Unpack(iv + encrypted) == (iv, encrypted)
    ensures |iv + encrypted| == IvLength + |encrypted|
  {
    assert (iv + encrypted)[..IvLength] == iv;
    assert (iv + encrypted)[IvLength..] == encrypted;
  }

  /** WebCrypto's AES-GCM under the session key, on (IV, bytes); a failed
      decryption (a rejected promise) is `None`. */
  type WebEncrypt = (seq<byte>, seq<byte>) -> seq<byte>
  type WebDecrypt = (seq<byte>, seq<byte>) -> Option<seq<byte>>

  /** `clientEncrypt` before the final base64 encoding: encrypt under the
      fresh 12-byte IV and pack the IV in front of the ciphertext. */
  method ClientEncrypt(plaintext: seq<byte>, iv: seq<byte>, encrypt: WebEncrypt) returns (combined: seq<byte>)
    requires |iv| == IvLength
    ensures |combined| == IvLength + |encrypt(iv, plaintext)|
    ensures combined[..IvLength] == iv && combined[IvLength..] == encrypt(iv, plaintext)
  {
    var encrypted := encrypt(iv, plaintext);
    combined := Pack(iv, encrypted);
  }

  /** `clientDecrypt` after the base64 decoding: the first 12 bytes are the
      IV and the rest the ciphertext; a shorter input is all IV and an
      empty ciphertext. */
  function ClientDecrypt(combined: seq<byte>, decrypt: WebDecrypt): (r: Option<seq<byte>>)
    ensures |combined| >= IvLength ==> r == decrypt(combined[..IvLength], combined[IvLength..])
    ensures |combined| < IvLength ==> r == decrypt(combined, [])
  {
    var (iv, encrypted) := Unpack(combined);
    assert |combined| < IvLength ==> |encrypted| == 0 && iv == combined;
    decrypt(iv, encrypted)
  }

  /** Whenever WebCrypto opens what it sealed under an IV, decrypting the
      packed bytes that `ClientEncrypt` produced gives the plaintext back. */
  lemma ClientRoundTrip(plaintext: seq<byte>, iv: seq<byte>, encrypt: WebEncrypt, decrypt: WebDecrypt)
    requires |iv| == IvLength
    requires decrypt(iv, encrypt(iv, plaintext)) == Some(plaintext)
    ensures ClientDecrypt(iv + encrypt(iv, plaintext), decrypt) == Some(plaintext)
  {
    PackUnpack(iv, encrypt(iv, plaintext));
  }
}
