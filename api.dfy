/** The protocol handlers (backend/api/api.go). Each handler is one atomic
    step over the store, with the clock reading, the crypto primitives and
    the random bytes as parameters. HTTP transport, JSON
    decoding of requests and CORS headers are outside the model: a request
    arrives as a preflight or as an already-decoded body (`None` when the
    body did not decode). */
module Api {
  import opened Base
  import opened Crypto
  import opened Store
  import opened Json
  import Auth
  import Normalize

  /** The fixed size every padded read reply is brought to. */
  const ResponseSize: nat := 4096
  /** Lifetime of a stored entry: `time.Now().Add(15 * time.Minute)`. */
  const EntryTtl: int := 15 * Minute

  const MaskedContent := "No note available"
  const NoteSaved := "Note saved"
  const NoteSent := "Note sent"
  /** The filler byte 'X' of the padding field. */
  const FillerByte: byte := 88

  /** What a handler writes. Every reply of this core is a 200; a read
      reply is named by its content and the bytes on the wire are `Body`.
      `Aborted` is a handler that panicked: net/http drops the connection
      without a reply. */
  datatype Response = Padded(content: string) | Unpadded(content: string) | Text(text: string) | Aborted

  /** An incoming request: a CORS preflight, or a body that decoded to a
      value (`Some`) or failed to decode (`None`). */
  datatype Incoming<T> = Preflight | Request(decoded: Option<T>)

  /** The send payload; the geofencing fields are never read and are left
      out. */
  datatype SendRequest = SendRequest(realityA: string, realityB: string, txToken: string, rxToken: string)
  datatype ReadRequest = ReadRequest(rxToken: string)

  /** The two slots of an entry: Surface is reality A, Hidden is reality B. */
  datatype Reality = Surface | Hidden

  /** What the read token selects: a reality and the base token. */
  datatype Selection = Selection(reality: Reality, baseRx: string)

  const PreflightReply: Response := Text("")
  const NoteSavedReply: Response := Text(NoteSaved)
  const NoteSentReply: Response := Text(NoteSent)
  const WipedReply: Response := Text("WIPED")
  const HeartbeatReply: Response := Text("OK")

  /** The key-derivation context of a reality. */
  function Label(r: Reality): string {
    if r == Surface then "A" else "B"
  }

  /** The token suffix that selects a reality. */
  function Suffix(r: Reality): string {
    if r == Surface then "-A" else "-B"
  }

  function Other(r: Reality): Reality {
    if r == Surface then Hidden else Surface
  }

  // ---------------------------------------------------------------------
  // Response shaping

  /** `missing := RESPONSE_SIZE - len(baseJSON)`, raised to zero when
      negative. */
  function PaddingLength(baseLen: nat): (missing: nat)
    ensures baseLen <= ResponseSize ==> baseLen + missing == ResponseSize
    ensures baseLen >= ResponseSize ==> missing == 0
  {
    if ResponseSize - baseLen < 0 then 0 else ResponseSize - baseLen
  }

  /** The unpadded encoding of a reply carrying `content`. */
  function BaseJson(content: string): (j: string)
    ensures |j| == 27 + |Escaped(content)|
    ensures j[0] == '{' && j[|j| - 1] == '}'
  {
    Marshal(ReadResponse(content, ""))
  }

  /** The padding field `writePaddedResponse` adds: 'X' bytes up to the
      fixed size. */
  function Filler(content: string): (f: string)
    ensures forall i :: 0 <= i < |f| ==> f[i] == 'X'
    ensures |BaseJson(content)| + |f| == Max(ResponseSize, |BaseJson(content)|)
  {
    Repeat('X', PaddingLength(|BaseJson(content)|))
  }

  /** The bytes a reply puts on the wire. A padded reply is the object with
      its padding field, an unpadded one the object with an empty padding
      field (`json.NewEncoder(w).Encode(ReadResponse{Content: c})`); both
      end in the newline `json.Encoder` appends. */
  function Body(r: Response): (body: string)
    requires !r.Aborted?
    ensures r.Padded? ==> |body| == Max(ResponseSize, |BaseJson(r.content)|) + 1
    ensures r.Unpadded? ==> |body| == |BaseJson(r.content)| + 1
    ensures r.Padded? || r.Unpadded? ==> body[0] == '{' && body[|body| - 1] == '\n'
    ensures r.Text? ==> body == r.text
  {
    match r
    case Padded(c) =>
      MarshalWithFiller(c, PaddingLength(|BaseJson(c)|));
      Marshal(ReadResponse(c, Filler(c))) + "\n"
    case Unpadded(c) => BaseJson(c) + "\n"
    case Text(t) => t
  }

  /** What `genericError` writes. */
  const MaskedReply: Response := Padded(MaskedContent)

  function BytesToString(bs: seq<byte>): string {
    seq(|bs|, i requires 0 <= i < |bs| => (bs[i] as int) as char)
  }

  /** Measures the unpadded encoding, allocates the padding buffer, zeroes
      it, fills it with 'X' and encodes the padded object. */
  method WritePaddedResponse(content: string) returns (body: string)
    ensures body == Body(Padded(content))
  {
    var baseJson := Marshal(ReadResponse(content, ""));
    var missing := ResponseSize - |baseJson|;
    if missing < 0 {
      missing := 0;
    }
    var pad := new byte[missing];
    Zeroize(pad);
    for i := 0 to pad.Length
      invariant forall k :: 0 <= k < i ==> pad[k] == FillerByte
    {
      pad[i] := FillerByte;
    }
    var padding := BytesToString(pad[..]);
    assert padding == Filler(content);
    body := Marshal(ReadResponse(content, padding)) + "\n";
  }

  /** Padding brings the encoded object to exactly 4096 bytes whenever the
      unpadded encoding fits, so the body on the wire is 4097 bytes with
      the encoder's newline. */
  lemma PaddedReplyHasFixedSize(content: string)
    requires |BaseJson(content)| <= ResponseSize
    ensures |Body(Padded(content))| == ResponseSize + 1
  {
    MarshalWithFiller(content, PaddingLength(|BaseJson(content)|));
  }

  /** Every content of at most 4069 bytes that encoding/json copies
      unchanged gets a 4097-byte reply. */
  lemma PlainContentHasFixedSize(content: string)
    requires forall i :: 0 <= i < |content| ==> Plain(content[i])
    requires |content| <= ResponseSize - 27
    ensures |Body(Padded(content))| == ResponseSize + 1
  {
    PaddedReplyHasFixedSize(content);
  }

  /** The masked content is 17 plain bytes, so by `PlainContentHasFixedSize`
      the masked reply is 4097 bytes long. */
  lemma MaskedContentIsPlain()
    ensures |MaskedContent| == 17
    ensures forall i :: 0 <= i < |MaskedContent| ==> Plain(MaskedContent[i])
  {
    forall i | 0 <= i < |MaskedContent|
      ensures Plain(MaskedContent[i])
    {
      LettersArePlain(MaskedContent[i]);
    }
  }

  /** The masked reply is 4097 bytes long. */
  lemma MaskedReplyHasFixedSize()
    ensures |Body(MaskedReply)| == ResponseSize + 1
  {
    MaskedContentIsPlain();
    PlainContentHasFixedSize(MaskedContent);
  }

  /** Content whose unpadded encoding exceeds 4096 bytes gets no padding: the
      reply is the unpadded one and grows with the content. */
  lemma OversizedReplyIsUnpadded(content: string)
    requires |BaseJson(content)| > ResponseSize
    ensures Body(Padded(content)) == Body(Unpadded(content))
    ensures |Body(Padded(content))| > ResponseSize + 1
  {
    assert Filler(content) == [];
  }

  /** As written, a successful read of reality B is not padded: its body is
      one byte longer than the unpadded encoding, so whenever that encoding
      is shorter than 4096 bytes it is not the 4097 bytes every masked
      reply has. */
  lemma HiddenSuccessSizeDiffers(content: string)
    requires |BaseJson(content)| < ResponseSize
    ensures |Body(Unpadded(content))| == |BaseJson(content)| + 1
    ensures |Body(Unpadded(content))| != ResponseSize + 1
  {
  }

  // ---------------------------------------------------------------------
  // Reality selection

  /** Suffix routing: a token longer than two bytes ending in "-B" selects
      B, one ending in "-A" selects A, each with the suffix stripped; any
      other token selects A with the whole token as base. */
  function SplitReality(rxRaw: string): (sel: Selection)
    ensures sel.reality == Hidden <==> |rxRaw| > 2 && EndsWith(rxRaw, "-B")
    ensures sel.baseRx != rxRaw <==> |rxRaw| > 2 && (EndsWith(rxRaw, "-A") || EndsWith(rxRaw, "-B"))
    ensures sel.baseRx != rxRaw ==> rxRaw == sel.baseRx + Suffix(sel.reality)
    ensures sel.baseRx == rxRaw ==> sel.reality == Surface
  {
    if |rxRaw| > 2 && rxRaw[|rxRaw| - 2..] == "-B" then Selection(Hidden, rxRaw[..|rxRaw| - 2])
    else if |rxRaw| > 2 && rxRaw[|rxRaw| - 2..] == "-A" then Selection(Surface, rxRaw[..|rxRaw| - 2])
    else Selection(Surface, rxRaw)
  }

  /** A bare suffix is not stripped: "-B" alone selects A under base "-B". */
  lemma BareSuffixIsBase()
    ensures SplitReality("-B") == Selection(Surface, "-B")
    ensures SplitReality("-A") == Selection(Surface, "-A")
  {
  }

  // ---------------------------------------------------------------------
  // Burn on read

  function Select(e: SecureEntry, r: Reality): MessageReality {
    if r == Surface then e.realityA else e.realityB
  }

  /** The entry after a successful read of reality `r`: that reality is
      destroyed and its ciphertext cleared; its nonce, the sibling reality
      and the expiry are kept. */
  function Burn(e: SecureEntry, r: Reality): (b: SecureEntry)
    ensures Select(b, r) == MessageReality([], Select(e, r).nonce, true)
    ensures Select(b, Other(r)) == Select(e, Other(r))
    ensures b.expiryTime == e.expiryTime
  {
    var burned := Select(e, r).(destroyed := true, ciphertext := []);
    if r == Surface then e.(realityA := burned) else e.(realityB := burned)
  }

  /** The reply a handler writes and the store map it leaves. */
  datatype Step = Step(reply: Response, data: map<string, SecureEntry>)

  /** `HandleRead` as a function of the store map. A read never adds or
      removes a token; when it changes the map at all, it burns the
      selected reality of the base token's entry and touches nothing else,
      and it does not panic. */
  function ReadOutcome(data: map<string, SecureEntry>, req: Incoming<ReadRequest>, now: Time, prims: Primitives): (o: Step)
    ensures o.data.Keys == data.Keys
    ensures req.Preflight? ==> o == Step(PreflightReply, data)
    ensures o.data != data ==>
              && req.Request? && req.decoded.Some? && o.reply != Aborted
              && var sel := SplitReality(req.decoded.value.rxToken);
                 sel.baseRx in data && o.data == data[sel.baseRx := Burn(data[sel.baseRx], sel.reality)]
  {
    if req.Preflight? then Step(PreflightReply, data)
    else if req.decoded.None? then Step(MaskedReply, data)
    else
      var rxRaw := req.decoded.value.rxToken;
      if |rxRaw| < 2 then Step(MaskedReply, data)
      else
        var sel := SplitReality(rxRaw);
        match Lookup(data, sel.baseRx, now)
        case None => Step(MaskedReply, data)
        case Some(entry) =>
          var reality := Select(entry, sel.reality);
          if reality.destroyed then Step(MaskedReply, data)
          else
            match KeyFromStream(prims.hkdf(sel.baseRx, Label(sel.reality)))
            case None => Step(Aborted, data)
            case Some(key) =>
              match DecryptAESGCM(reality.ciphertext, key.bytes, reality.nonce, prims.open)
              case NoncePanic => Step(Aborted, data)
              case OpenError => Step(MaskedReply, data)
              case Plaintext(p) =>
                Step(if sel.reality == Surface then Padded(p) else Unpadded(p),
                     data[sel.baseRx := Burn(entry, sel.reality)])
  }

  /** Parses the token, looks the base token up, refuses a destroyed
      reality, derives the reality's key, decrypts, burns the reality in
      place and replies. */
  method HandleRead(s: MemoryStore, req: Incoming<ReadRequest>, now: Time, prims: Primitives) returns (resp: Response)
    modifies s
    ensures Step(resp, s.data) == ReadOutcome(old(s.data), req, now, prims)
    ensures s.lastHeartbeat == old(s.lastHeartbeat)
  {
    if req.Preflight? {
      return PreflightReply;
    }
    if req.decoded.None? {
      return MaskedReply;
    }
    var rxRaw := req.decoded.value.rxToken;
    if |rxRaw| < 2 {
      return MaskedReply;
    }
    var sel := SplitReality(rxRaw);
    var found := s.Get(sel.baseRx, now);
    if found.None? {
      return MaskedReply;
    }
    var entry := found.value;
    var reality := Select(entry, sel.reality);
    if reality.destroyed {
      return MaskedReply;
    }
    var key, scratch := DeriveKey(sel.baseRx, Label(sel.reality), prims.hkdf);
    if key.None? {
      // key.Bytes() on the nil buffer panics
      return Aborted;
    }
    var decrypted := DecryptAESGCM(reality.ciphertext, key.value.bytes, reality.nonce, prims.open);
    if decrypted.NoncePanic? {
      return Aborted;
    }
    if decrypted.OpenError? {
      return MaskedReply;
    }
    s.data := s.data[sel.baseRx := Burn(entry, sel.reality)];
    if sel.reality == Surface {
      resp := Padded(decrypted.text);
    } else {
      resp := Unpadded(decrypted.text);
    }
  }

  /** The conditions under which a read reaches a plaintext. */
  predicate ReadSucceeds(data: map<string, SecureEntry>, rxRaw: string, now: Time, prims: Primitives) {
    var sel := SplitReality(rxRaw);
    && |rxRaw| >= 2
    && Lookup(data, sel.baseRx, now).Some?
    && !Select(data[sel.baseRx], sel.reality).destroyed
    && KeyFromStream(prims.hkdf(sel.baseRx, Label(sel.reality))).Some?
    && DecryptAESGCM(Select(data[sel.baseRx], sel.reality).ciphertext,
                     KeyFromStream(prims.hkdf(sel.baseRx, Label(sel.reality))).value.bytes,
                     Select(data[sel.baseRx], sel.reality).nonce, prims.open).Plaintext?
  }

  /** Failure masking: a body that does not decode, a token shorter than two
      bytes, an absent or expired entry, an already destroyed reality and a
      failed decryption all get the one masked reply and leave the store as
      it was. */
  lemma FailedReadsAreMasked(data: map<string, SecureEntry>, rxRaw: string, now: Time, prims: Primitives)
    ensures ReadOutcome(data, Request(None), now, prims) == Step(MaskedReply, data)
    ensures |rxRaw| < 2 ==> ReadOutcome(data, Request(Some(ReadRequest(rxRaw))), now, prims) == Step(MaskedReply, data)
    ensures |rxRaw| >= 2 && Lookup(data, SplitReality(rxRaw).baseRx, now).None? ==>
              ReadOutcome(data, Request(Some(ReadRequest(rxRaw))), now, prims) == Step(MaskedReply, data)
    ensures |rxRaw| >= 2 && Lookup(data, SplitReality(rxRaw).baseRx, now).Some? &&
            Select(data[SplitReality(rxRaw).baseRx], SplitReality(rxRaw).reality).destroyed ==>
              ReadOutcome(data, Request(Some(ReadRequest(rxRaw))), now, prims) == Step(MaskedReply, data)
    ensures |rxRaw| >= 2 && Lookup(data, SplitReality(rxRaw).baseRx, now).Some? &&
            KeyFromStream(prims.hkdf(SplitReality(rxRaw).baseRx, Label(SplitReality(rxRaw).reality))).Some? &&
            DecryptAESGCM(Select(data[SplitReality(rxRaw).baseRx], SplitReality(rxRaw).reality).ciphertext,
                          KeyFromStream(prims.hkdf(SplitReality(rxRaw).baseRx, Label(SplitReality(rxRaw).reality))).value.bytes,
                          Select(data[SplitReality(rxRaw).baseRx], SplitReality(rxRaw).reality).nonce, prims.open).OpenError? ==>
              ReadOutcome(data, Request(Some(ReadRequest(rxRaw))), now, prims) == Step(MaskedReply, data)
  {
  }

  /** Every read that does not reach a plaintext leaves the store unchanged
      and replies with the masked reply, or aborts; it aborts only when key
      derivation fails or the stored nonce is not 12 bytes long. */
  lemma UnsuccessfulReadChangesNothing(data: map<string, SecureEntry>, rxRaw: string, now: Time, prims: Primitives)
    requires !ReadSucceeds(data, rxRaw, now, prims)
    ensures ReadOutcome(data, Request(Some(ReadRequest(rxRaw))), now, prims).data == data
    ensures ReadOutcome(data, Request(Some(ReadRequest(rxRaw))), now, prims).reply in {MaskedReply, Aborted}
    ensures ReadOutcome(data, Request(Some(ReadRequest(rxRaw))), now, prims).reply == Aborted ==>
              var sel := SplitReality(rxRaw);
              KeyFromStream(prims.hkdf(sel.baseRx, Label(sel.reality))).None? ||
              |Select(data[sel.baseRx], sel.reality).nonce| != NonceSize
  {
  }

  /** A successful read destroys the selected reality of the base token's
      entry and clears its ciphertext; the sibling reality, the expiry and
      every other token's entry are unchanged. Reality A's reply is padded
      to the fixed size, reality B's is not. */
  lemma SuccessfulReadBurnsSelectedReality(data: map<string, SecureEntry>, rxRaw: string, now: Time, prims: Primitives)
    requires ReadSucceeds(data, rxRaw, now, prims)
    ensures var sel := SplitReality(rxRaw);
            var o := ReadOutcome(data, Request(Some(ReadRequest(rxRaw))), now, prims);
            && sel.baseRx in o.data
            && Select(o.data[sel.baseRx], sel.reality).destroyed
            && Select(o.data[sel.baseRx], sel.reality).ciphertext == []
            && Select(o.data[sel.baseRx], Other(sel.reality)) == Select(data[sel.baseRx], Other(sel.reality))
            && o.data[sel.baseRx].expiryTime == data[sel.baseRx].expiryTime
            && (forall rx :: rx != sel.baseRx ==> (rx in o.data <==> rx in data))
            && (forall rx :: rx != sel.baseRx && rx in data ==> o.data[rx] == data[rx])
            && var stored := Select(data[sel.baseRx], sel.reality);
               var key := prims.hkdf(sel.baseRx, Label(sel.reality))[..KeySize];
               exists p :: prims.open(key, stored.nonce, stored.ciphertext) == Some(p) &&
                           o.reply == (if sel.reality == Surface then Padded(p) else Unpadded(p))
  {
    var sel := SplitReality(rxRaw);
    var entry := data[sel.baseRx];
    var key := KeyFromStream(prims.hkdf(sel.baseRx, Label(sel.reality))).value;
    var p := DecryptAESGCM(Select(entry, sel.reality).ciphertext, key.bytes, Select(entry, sel.reality).nonce, prims.open).text;
    assert ReadOutcome(data, Request(Some(ReadRequest(rxRaw))), now, prims).reply
        == (if sel.reality == Surface then Padded(p) else Unpadded(p));
  }

  /** A destroyed reality never yields plaintext again, whatever the key:
      its ciphertext is empty, shorter than the GCM tag. */
  lemma BurnedRealityNeverDecrypts(e: SecureEntry, r: Reality, key: seq<byte>, open: Opener)
    ensures !DecryptAESGCM(Select(Burn(e, r), r).ciphertext, key, Select(Burn(e, r), r).nonce, open).Plaintext?
  {
  }

  /** Sequential burn-once: after a successful read, every later read that
      selects the same reality of the same base token, at any time and
      whatever the sibling's state, is masked and changes nothing. */
  lemma SecondReadIsMasked(data: map<string, SecureEntry>, rxRaw: string, now: Time, prims: Primitives,
                           rxAgain: string, later: Time, prims2: Primitives)
    requires ReadSucceeds(data, rxRaw, now, prims)
    requires |rxAgain| >= 2 && SplitReality(rxAgain) == SplitReality(rxRaw)
    ensures var after := ReadOutcome(data, Request(Some(ReadRequest(rxRaw))), now, prims).data;
            ReadOutcome(after, Request(Some(ReadRequest(rxAgain))), later, prims2) == Step(MaskedReply, after)
  {
    SuccessfulReadBurnsSelectedReality(data, rxRaw, now, prims);
  }

  /** After a wipe, by panic or by the dead-man check, every read is masked. */
  lemma ReadAfterWipeIsMasked(rxRaw: string, now: Time, prims: Primitives)
    ensures ReadOutcome(map[], Request(Some(ReadRequest(rxRaw))), now, prims) == Step(MaskedReply, map[])
  {
  }

  // ---------------------------------------------------------------------
  // Send

  /** The store write a send performs, if any. */
  datatype Upsert = NoWrite | Write(rxToken: string, entry: SecureEntry)

  datatype SendStep = SendStep(reply: Response, write: Upsert)

  function Apply(data: map<string, SecureEntry>, w: Upsert): map<string, SecureEntry> {
    if w.NoWrite? then data else data[w.rxToken := w.entry]
  }

  /** The entry built from the two sealing results. */
  function NewEntry(a: Sealed, b: Sealed, expiry: Time): SecureEntry {
    SecureEntry(MessageReality(a.ciphertext, a.nonce, false), MessageReality(b.ciphertext, b.nonce, false), expiry)
  }

  /** `HandleSend` as a function: `randomA` and `randomB` are the bytes
      `crypto/rand` yields to the two encryptions. Encryption errors are
      ignored, as in the source. */
  function SendOutcome(req: Incoming<SendRequest>, now: Time, prims: Primitives, randomA: seq<byte>, randomB: seq<byte>): (o: SendStep)
    ensures req.Preflight? ==> o == SendStep(PreflightReply, NoWrite)
    ensures req.Request? ==> o.reply == NoteSavedReply || o.reply == NoteSentReply
    ensures o.write.Write? ==>
              && req.Request? && req.decoded.Some? && o.reply == NoteSavedReply
              && Auth.ValidateSenderToken(req.decoded.value.txToken)
              && o.write.rxToken == req.decoded.value.rxToken && Auth.ValidateReceiverToken(o.write.rxToken)
              && o.write.entry.expiryTime == now + EntryTtl
              && !o.write.entry.realityA.destroyed && !o.write.entry.realityB.destroyed
  {
    if req.Preflight? then SendStep(PreflightReply, NoWrite)
    else if req.decoded.None? then SendStep(NoteSavedReply, NoWrite)
    else
      var r := req.decoded.value;
      if !Auth.ValidateSenderToken(r.txToken) then SendStep(NoteSavedReply, NoWrite)
      else if !Auth.ValidateReceiverToken(r.rxToken) then SendStep(NoteSavedReply, NoWrite)
      else
        var norm := Normalize.Normalize(r.realityA, r.realityB);
        var keyA := KeyFromStream(prims.hkdf(r.rxToken, "A"));
        var keyB := KeyFromStream(prims.hkdf(r.rxToken, "B"));
        if keyA.None? || keyB.None? then SendStep(NoteSentReply, NoWrite)
        else
          var sealedA := EncryptAESGCM(norm.0, keyA.value.bytes, randomA, prims.seal);
          var sealedB := EncryptAESGCM(norm.1, keyB.value.bytes, randomB, prims.seal);
          SendStep(NoteSavedReply, Write(r.rxToken, NewEntry(sealedA, sealedB, now + EntryTtl)))
  }

  /** Validates both tokens, normalises the plaintexts, derives one key per
      reality from the receiver token, encrypts, and saves the entry. */
  method HandleSend(s: MemoryStore, req: Incoming<SendRequest>, now: Time, prims: Primitives,
                    randomA: seq<byte>, randomB: seq<byte>) returns (resp: Response)
    modifies s
    ensures resp == SendOutcome(req, now, prims, randomA, randomB).reply
    ensures s.data == Apply(old(s.data), SendOutcome(req, now, prims, randomA, randomB).write)
    ensures s.lastHeartbeat == old(s.lastHeartbeat)
  {
    if req.Preflight? {
      return PreflightReply;
    }
    if req.decoded.None? {
      return NoteSavedReply;
    }
    var r := req.decoded.value;
    if !Auth.ValidateSenderToken(r.txToken) {
      return NoteSavedReply;
    }
    if !Auth.ValidateReceiverToken(r.rxToken) {
      return NoteSavedReply;
    }
    var norm := Normalize.Normalize(r.realityA, r.realityB);
    var keyA, scratchA := DeriveKey(r.rxToken, "A", prims.hkdf);
    var keyB, scratchB := DeriveKey(r.rxToken, "B", prims.hkdf);
    if keyA.None? || keyB.None? {
      return NoteSentReply;
    }
    var sealedA := EncryptAESGCM(norm.0, keyA.value.bytes, randomA, prims.seal);
    var sealedB := EncryptAESGCM(norm.1, keyB.value.bytes, randomB, prims.seal);
    var entry := NewEntry(sealedA, sealedB, now + EntryTtl);
    s.Save(r.rxToken, entry);
    resp := NoteSavedReply;
  }

  /** Oracle masking on send: a body that does not decode, a sender token
      without "TX-" and a receiver token without "RX-" all get "Note saved"
      and write nothing. */
  lemma RejectedSendIsSilent(req: Incoming<SendRequest>, now: Time, prims: Primitives, randomA: seq<byte>, randomB: seq<byte>)
    requires req.Request?
    requires req.decoded.None? || !Auth.ValidateSenderToken(req.decoded.value.txToken) ||
             !Auth.ValidateReceiverToken(req.decoded.value.rxToken)
    ensures SendOutcome(req, now, prims, randomA, randomB) == SendStep(NoteSavedReply, NoWrite)
  {
  }

  /** The reply to a send never depends on whether it was stored: it is
      "Note saved" for every decoded or undecodable body, except "Note sent"
      when key derivation fails for a well-formed request. */
  lemma SendReplyIsUniform(req: Incoming<SendRequest>, now: Time, prims: Primitives, randomA: seq<byte>, randomB: seq<byte>)
    requires req.Request?
    ensures var o := SendOutcome(req, now, prims, randomA, randomB);
            o.reply == NoteSavedReply ||
            (o.reply == NoteSentReply && o.write.NoWrite? &&
             Auth.ValidateSenderToken(req.decoded.value.txToken) &&
             Auth.ValidateReceiverToken(req.decoded.value.rxToken))
    ensures SendOutcome(req, now, prims, randomA, randomB).write.Write? ==>
              SendOutcome(req, now, prims, randomA, randomB).reply == NoteSavedReply
  {
  }

  /** A valid send whose keys derive stores exactly one entry, under the
      receiver token: both realities undestroyed, each holding the sealing
      of its normalised (equal-length) plaintext under its own key, and
      expiry fifteen minutes after the send. */
  lemma ValidSendStoresEntry(r: SendRequest, now: Time, prims: Primitives, randomA: seq<byte>, randomB: seq<byte>)
    requires Auth.ValidateSenderToken(r.txToken) && Auth.ValidateReceiverToken(r.rxToken)
    requires |prims.hkdf(r.rxToken, "A")| >= KeySize && |prims.hkdf(r.rxToken, "B")| >= KeySize
    ensures var o := SendOutcome(Request(Some(r)), now, prims, randomA, randomB);
            var norm := Normalize.Normalize(r.realityA, r.realityB);
            && o.reply == NoteSavedReply
            && o.write.Write? && o.write.rxToken == r.rxToken
            && !o.write.entry.realityA.destroyed && !o.write.entry.realityB.destroyed
            && o.write.entry.expiryTime == now + EntryTtl
            && |norm.0| == |norm.1|
            && (|randomA| >= NonceSize ==>
                  o.write.entry.realityA.nonce == randomA[..NonceSize] &&
                  o.write.entry.realityA.ciphertext == prims.seal(prims.hkdf(r.rxToken, "A")[..KeySize], randomA[..NonceSize], norm.0))
            && (|randomB| >= NonceSize ==>
                  o.write.entry.realityB.nonce == randomB[..NonceSize] &&
                  o.write.entry.realityB.ciphertext == prims.seal(prims.hkdf(r.rxToken, "B")[..KeySize], randomB[..NonceSize], norm.1))
  {
  }

  /** The stored entry is found by lazy-expiry lookup exactly until fifteen
      minutes after the send: still present at T+14min, absent at T+16min. */
  lemma SentEntryLifetime(data: map<string, SecureEntry>, r: SendRequest, now: Time, prims: Primitives,
                          randomA: seq<byte>, randomB: seq<byte>, later: Time)
    requires SendOutcome(Request(Some(r)), now, prims, randomA, randomB).write.Write?
    ensures var after := Apply(data, SendOutcome(Request(Some(r)), now, prims, randomA, randomB).write);
            Lookup(after, r.rxToken, later).Some? <==> later <= now + EntryTtl
    ensures var after := Apply(data, SendOutcome(Request(Some(r)), now, prims, randomA, randomB).write);
            Lookup(after, r.rxToken, now + 14 * Minute).Some? && Lookup(after, r.rxToken, now + 16 * Minute).None?
  {
  }

  /** A read of a freshly sent entry never aborts when the send had its
      twelve random bytes per reality: the read derives the same keys the
      send derived, and finds 12-byte nonces. */
  lemma ReadOfSentEntryNeverAborts(data: map<string, SecureEntry>, r: SendRequest, now: Time, prims: Primitives,
                                   randomA: seq<byte>, randomB: seq<byte>, rxRaw: string, later: Time)
    requires SendOutcome(Request(Some(r)), now, prims, randomA, randomB).write.Write?
    requires |randomA| >= NonceSize && |randomB| >= NonceSize
    requires |rxRaw| >= 2 && SplitReality(rxRaw).baseRx == r.rxToken
    ensures var after := Apply(data, SendOutcome(Request(Some(r)), now, prims, randomA, randomB).write);
            ReadOutcome(after, Request(Some(ReadRequest(rxRaw))), later, prims).reply != Aborted
  {
    var sel := SplitReality(rxRaw);
    assert Label(sel.reality) == "A" || Label(sel.reality) == "B";
  }

  /** An AES-GCM whose opening inverts its sealing and whose ciphertext
      carries at least the 16-byte tag. This is an assumption about the
      library, used only as a hypothesis; `ModelAeadIsCorrect` shows that
      some primitives meet it. */
  ghost predicate CorrectAead(prims: Primitives) {
    forall k, n, t :: |prims.seal(k, n, t)| >= TagSize && prims.open(k, n, prims.seal(k, n, t)) == Some(t)
  }

  /** A char as three bytes, most significant first (chars are below
      0x110000). */
  function CharBytes(c: char): (b: seq<byte>)
    ensures |b| == 3 && b[0] as int * 65536 + b[1] as int * 256 + b[2] as int == c as int
  {
    var v := c as int;
    [(v / 65536) as byte, ((v / 256) % 256) as byte, (v % 256) as byte]
  }

  function CharsToBytes(t: string): (b: seq<byte>)
    ensures |b| == 3 * |t|
  {
    if t == [] then [] else CharBytes(t[0]) + CharsToBytes(t[1..])
  }

  /** The inverse of `CharsToBytes`; `None` on bytes it never produces. */
  function BytesToChars(b: seq<byte>): Option<string>
    decreases |b|
  {
    if |b| < 3 then (if b == [] then Some([]) else None)
    else
      var v := b[0] as int * 65536 + b[1] as int * 256 + b[2] as int;
      if !(0 <= v < 0xD800 || 0xE000 <= v < 0x11_0000) then None
      else
        match BytesToChars(b[3..])
        case Some(rest) => Some([v as char] + rest)
        case None => None
  }

  lemma {:induction false} CharsRoundTrip(t: string)
    ensures BytesToChars(CharsToBytes(t)) == Some(t)
    decreases |t|
  {
    if t != [] {
      var b := CharsToBytes(t);
      assert b[3..] == CharsToBytes(t[1..]);
      CharsRoundTrip(t[1..]);
      assert [t[0]] + t[1..] == t;
    }
  }

  /** A toy authenticated cipher: each plaintext char as three bytes,
      followed by a 16-byte zero tag, and a 32-byte HKDF stream. It ignores the key and
      the nonce; it only witnesses that `CorrectAead` is satisfiable. */
  function ModelAead(): Primitives {
    Primitives(
      (secret: string, info: string) => seq(KeySize, _ => 0 as byte),
      (k: seq<byte>, n: seq<byte>, t: string) => CharsToBytes(t) + seq(TagSize, _ => 0 as byte),
      (k: seq<byte>, n: seq<byte>, c: seq<byte>) =>
        if |c| < TagSize then None else BytesToChars(c[..|c| - TagSize]))
  }

  /** The hypotheses of `DualRealityWalkthrough` about the primitives can
      be met. */
  lemma ModelAeadIsCorrect()
    ensures CorrectAead(ModelAead())
    ensures |ModelAead().hkdf("RX-1", "A")| >= KeySize && |ModelAead().hkdf("RX-1", "B")| >= KeySize
  {
    var prims := ModelAead();
    forall k: seq<byte>, n: seq<byte>, t: string
      ensures |prims.seal(k, n, t)| >= TagSize && prims.open(k, n, prims.seal(k, n, t)) == Some(t)
    {
      var c := prims.seal(k, n, t);
      assert c[..|c| - TagSize] == CharsToBytes(t);
      CharsRoundTrip(t);
    }
  }

  /** The dual-reality walk-through: send "Secret A" / "Secret B" under
      "RX-1"; within the lifetime, reading "RX-1" returns "Secret A" and a
      second read is masked; reading "RX-1-B" returns "Secret B" (unpadded,
      as written) and a second read is masked. */
  lemma DualRealityWalkthrough(data: map<string, SecureEntry>, now: Time, prims: Primitives,
                               randomA: seq<byte>, randomB: seq<byte>, t1: Time, t2: Time, t3: Time, t4: Time)
    requires CorrectAead(prims)
    requires |prims.hkdf("RX-1", "A")| >= KeySize && |prims.hkdf("RX-1", "B")| >= KeySize
    requires |randomA| >= NonceSize && |randomB| >= NonceSize
    requires now <= t1 <= now + EntryTtl && now <= t2 <= now + EntryTtl
    requires now <= t3 <= now + EntryTtl && now <= t4 <= now + EntryTtl
    ensures var send := SendOutcome(Request(Some(SendRequest("Secret A", "Secret B", "TX-Valid", "RX-1"))), now, prims, randomA, randomB);
            var d1 := Apply(data, send.write);
            var o1 := ReadOutcome(d1, Request(Some(ReadRequest("RX-1"))), t1, prims);
            var o2 := ReadOutcome(o1.data, Request(Some(ReadRequest("RX-1"))), t2, prims);
            var o3 := ReadOutcome(o2.data, Request(Some(ReadRequest("RX-1-B"))), t3, prims);
            var o4 := ReadOutcome(o3.data, Request(Some(ReadRequest("RX-1-B"))), t4, prims);
            && send.reply == NoteSavedReply
            && o1.reply == Padded("Secret A")
            && o2.reply == MaskedReply
            && o3.reply == Unpadded("Secret B")
            && o4.reply == MaskedReply
  {
    var req := SendRequest("Secret A", "Secret B", "TX-Valid", "RX-1");
    assert Auth.ValidateSenderToken(req.txToken) && Auth.ValidateReceiverToken(req.rxToken);
    assert Normalize.Normalize("Secret A", "Secret B") == ("Secret A", "Secret B");
    assert SplitReality("RX-1") == Selection(Surface, "RX-1");
    assert "RX-1-B"[..4] == "RX-1";
    assert SplitReality("RX-1-B") == Selection(Hidden, "RX-1");
    var send := SendOutcome(Request(Some(req)), now, prims, randomA, randomB);
    var d1 := Apply(data, send.write);
    assert ReadSucceeds(d1, "RX-1", t1, prims);
    var o1 := ReadOutcome(d1, Request(Some(ReadRequest("RX-1"))), t1, prims);
    SecondReadIsMasked(d1, "RX-1", t1, prims, "RX-1", t2, prims);
    SuccessfulReadBurnsSelectedReality(d1, "RX-1", t1, prims);
    var o2 := ReadOutcome(o1.data, Request(Some(ReadRequest("RX-1"))), t2, prims);
    assert ReadSucceeds(o2.data, "RX-1-B", t3, prims);
    SecondReadIsMasked(o2.data, "RX-1-B", t3, prims, "RX-1-B", t4, prims);
  }

  // ---------------------------------------------------------------------
  // Panic and heartbeat

  /** Empties the store and replies "WIPED"; the request is not looked at
      (a preflight wipes too). */
  method HandlePanic(s: MemoryStore) returns (resp: Response)
    modifies s
    ensures resp == WipedReply
    ensures s.data == map[]
    ensures s.lastHeartbeat == old(s.lastHeartbeat)
  {
    s.Wipe();
    resp := WipedReply;
  }

  /** Resets the dead-man timer and replies "OK". */
  method HandleHeartbeat(s: MemoryStore, now: Time) returns (resp: Response)
    modifies s
    ensures resp == HeartbeatReply
    ensures s.lastHeartbeat == now
    ensures s.data == old(s.data)
  {
    s.Heartbeat(now);
    resp := HeartbeatReply;
  }
}
