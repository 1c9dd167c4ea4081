/**
 The encrypted payload (section 3.14 of RFC 7296): pad-length padding, under CBC
 with PKCS#7 padding around it, and the integrity check.  Keys are fixed; ciphers
 are ideal functions.
 */
module SkPayload {
  import opened Bytes
  import EspPacket
  import opened IkePayload
  import opened IkeMessage

  const AES_BLOCK_SIZE := 16

  datatype Encryptor = AesGcm(aead: EspPacket.Aead, salt: bytes) | AesCbc(cbc: EspPacket.Cbc) {
    ghost predicate Ideal() {
      if AesGcm? then aead.Ideal() else cbc.Ideal()
    }

    function IvSize(): nat { if AesGcm? then 8 else AES_BLOCK_SIZE }

    function BlockSize(): nat { if AesGcm? then 1 else AES_BLOCK_SIZE }

    function Encrypt(iv: bytes, plaintext: bytes, aad: bytes): bytes {
      if AesGcm? then aead.seal(salt + iv, plaintext, aad) else cbc.encrypt(iv, Pkcs7(plaintext))
    }

    function Decrypt(iv: bytes, ciphertext: bytes, aad: bytes): Result<bytes> {
      if AesGcm? then
        match aead.open(salt + iv, ciphertext, aad)
        case None => Err
        case Some(p) => Ok(p)
      else if |ciphertext| % AES_BLOCK_SIZE != 0 then Err
      else Unpadded(cbc.decrypt(iv, ciphertext))
    }
  }

  // PKCS#7.

  function Repeat(b: byte, n: nat): (r: bytes)
    ensures |r| == n && forall i :: 0 <= i < n ==> r[i] == b
  {
    seq(n, _ => b)
  }

  /** Always adds 1 to 16 bytes. */
  function Pkcs7(plaintext: bytes): (r: bytes)
    ensures |r| % AES_BLOCK_SIZE == 0 && |plaintext| < |r| <= |plaintext| + AES_BLOCK_SIZE
  {
    var n := AES_BLOCK_SIZE - |plaintext| % AES_BLOCK_SIZE;
    plaintext + Repeat(n, n)
  }

  function Unpadded(padded: bytes): Result<bytes> {
    if |padded| == 0 then Ok([]) else
    var n: int := padded[|padded| - 1];
    if n < 1 || n > AES_BLOCK_SIZE || n > |padded| then Err else
    if forall i :: |padded| - n <= i < |padded| ==> padded[i] == n then Ok(padded[..|padded| - n]) else Err
  }

  /** Nothing but 1 to 16 bytes holding their number comes off, and without them there is an error. */
  lemma UnpadExactly(padded: bytes, plaintext: bytes)
    ensures var n := |padded| - |plaintext|;
      Unpadded(padded) == Ok(plaintext) <==>
        || (padded == [] && plaintext == [])
        || (1 <= n <= 16 && padded == plaintext + seq(n, _ => n))
  {
    var n := |padded| - |plaintext|;
    if 1 <= n <= 16 && padded == plaintext + seq(n, _ => n) {
      assert padded[|padded| - 1] == n && padded[..|padded| - n] == plaintext;
      assert forall i :: |padded| - n <= i < |padded| ==> padded[i] == n;
    }
  }

  lemma UnpadUndoesPad(plaintext: bytes)
    ensures Unpadded(Pkcs7(plaintext)) == Ok(plaintext)
  {
    var r := Pkcs7(plaintext);
    var n := AES_BLOCK_SIZE - |plaintext| % AES_BLOCK_SIZE;
    assert r[|r| - 1] == n && r[..|r| - n] == plaintext;
  }

  method PadPkcs7(plaintext: bytes) returns (r: bytes)
    ensures r == Pkcs7(plaintext)
  {
    var padLen := AES_BLOCK_SIZE - |plaintext| % AES_BLOCK_SIZE;
    var padded := new byte[|plaintext| + padLen](_ => 0);
    CopyInto(padded, 0, plaintext);
    for i := |plaintext| to padded.Length
      invariant padded[..|plaintext|] == plaintext
      invariant forall k :: |plaintext| <= k < i ==> padded[k] == padLen
    {
      padded[i] := padLen;
    }
    r := padded[..];
  }

  method StripPkcs7(plaintext: bytes) returns (r: Result<bytes>)
    ensures r == Unpadded(plaintext)
  {
    if |plaintext| == 0 {
      return Ok(plaintext);
    }
    var padLen: int := plaintext[|plaintext| - 1];
    if padLen < 1 || padLen > AES_BLOCK_SIZE || padLen > |plaintext| {
      return Err;
    }
    for i := |plaintext| - padLen to |plaintext|
      invariant forall k :: |plaintext| - padLen <= k < i ==> plaintext[k] == padLen
    {
      if plaintext[i] != padLen {
        return Err;
      }
    }
    r := Ok(plaintext[..|plaintext| - padLen]);
  }

  /** The inverse law of an encryptor, PKCS#7 included. */
  lemma DecryptUndoesEncrypt(enc: Encryptor, iv: bytes, plaintext: bytes, aad: bytes)
    requires enc.Ideal()
    ensures enc.Decrypt(iv, enc.Encrypt(iv, plaintext, aad), aad) == Ok(plaintext)
  {
    if enc.AesCbc? {
      UnpadUndoesPad(plaintext);
    }
  }

  // The body: IV, ciphertext and, under CBC, the ICV.

  function PadLength(enc: Encryptor, len: nat): (n: nat)
    ensures n < AES_BLOCK_SIZE
  {
    var over := (len + 1) % enc.BlockSize();
    if enc.AesGcm? || over == 0 then 0 else AES_BLOCK_SIZE - over
  }

  function WithPadLength(enc: Encryptor, plaintext: bytes): bytes {
    var n := PadLength(enc, |plaintext|);
    plaintext + Zeros(n) + [n]
  }

  function StripPadLength(padded: bytes): Result<bytes> {
    if |padded| == 0 then Err else
    var n: int := padded[|padded| - 1];
    if |padded| - 1 - n < 0 then Err else Ok(padded[..|padded| - 1 - n])
  }

  /** The last byte says how many before it come off with it; too many are an error. */
  lemma StripPadLengthExactly(padded: bytes)
    ensures StripPadLength(padded).Ok? <==> |padded| > 0 && padded[|padded| - 1] as int + 1 <= |padded|
    ensures StripPadLength(padded).Ok? ==>
      StripPadLength(padded).value == padded[..|padded| - 1 - padded[|padded| - 1] as int]
  {
  }

  function Sealed(enc: Encryptor, mac: Option<EspPacket.Mac>, header: bytes, iv: bytes, plaintext: bytes)
    : Result<bytes>
  {
    if enc.AesGcm? then Ok(iv + enc.Encrypt(iv, WithPadLength(enc, plaintext), header)) else
    if mac.None? then Err else
    var ct := enc.Encrypt(iv, WithPadLength(enc, plaintext), []);
    Ok(iv + ct + mac.value.compute(header + iv + ct))
  }

  function Unsealed(enc: Encryptor, mac: Option<EspPacket.Mac>, header: bytes, body: bytes): Result<bytes> {
    var n := enc.IvSize();
    if |body| < n + 1 then Err else
    if enc.AesGcm? then AfterDecrypt(enc.Decrypt(body[..n], body[n..], header)) else
    if mac.None? || |body| < n + mac.value.icvSize + 1 then Err else
    var iv, ct, icv := body[..n], body[n..|body| - mac.value.icvSize], body[|body| - mac.value.icvSize..];
    if !mac.value.Verify(header + iv + ct, icv) then Err else AfterDecrypt(enc.Decrypt(iv, ct, []))
  }

  /** What only a holder of the keys can make: the cipher opens it, or it ends in the MAC of header and body. */
  predicate Intact(enc: Encryptor, mac: Option<EspPacket.Mac>, header: bytes, body: bytes) {
    if enc.AesGcm? then |body| >= 8 && enc.aead.open(enc.salt + body[..8], body[8..], header).Some?
    else
      && mac.Some? && |body| >= mac.value.icvSize
      && body[|body| - mac.value.icvSize..] == mac.value.compute(header + body[..|body| - mac.value.icvSize])
  }

  /** A body that was not sealed under these keys and this header is never opened. */
  lemma OpensOnlyIntact(enc: Encryptor, mac: Option<EspPacket.Mac>, header: bytes, body: bytes)
    ensures Unsealed(enc, mac, header, body).Ok? ==> Intact(enc, mac, header, body)
  {
    var n := enc.IvSize();
    if enc.AesCbc? && mac.Some? && |body| >= n + mac.value.icvSize + 1 {
      var iv, ct := body[..n], body[n..|body| - mac.value.icvSize];
      assert header + iv + ct == header + body[..|body| - mac.value.icvSize];
    }
  }

  function AfterDecrypt(r: Result<bytes>): Result<bytes> {
    match r
    case Err => Err
    case Ok(padded) => StripPadLength(padded)
  }

  lemma StripUndoesPadLength(enc: Encryptor, plaintext: bytes)
    ensures StripPadLength(WithPadLength(enc, plaintext)) == Ok(plaintext)
  {
    var n := PadLength(enc, |plaintext|);
    var padded := WithPadLength(enc, plaintext);
    assert padded[|padded| - 1] == n && padded[..|padded| - 1 - n] == plaintext;
  }

  /**
   What is sealed: behind the IV the plaintext and a zero under an AEAD cipher; under CBC
   the plaintext, zeros up to the end of a block but one byte, their number, and a whole
   block of sixteens, and behind that the MAC.
   */
  lemma SealedLayout(enc: Encryptor, mac: Option<EspPacket.Mac>, header: bytes, iv: bytes, plaintext: bytes)
    requires enc.Ideal() && |iv| == enc.IvSize() && (enc.AesCbc? ==> mac.Some? && mac.value.Ideal())
    ensures Sealed(enc, mac, header, iv, plaintext).Ok?
    ensures var body := Sealed(enc, mac, header, iv, plaintext).value;
      && Intact(enc, mac, header, body) && |body| >= |iv| && body[..|iv|] == iv
      && if enc.AesGcm? then enc.aead.open(enc.salt + body[..8], body[8..], header) == Some(plaintext + [0])
         else
         && |body| >= 16 + mac.value.icvSize
         && var zeros := 15 - |plaintext| % 16;
            enc.cbc.decrypt(iv, body[16..|body| - mac.value.icvSize])
              == plaintext + Zeros(zeros) + [zeros] + seq(16, _ => 16)
  {
    var padded := WithPadLength(enc, plaintext);
    var body := Sealed(enc, mac, header, iv, plaintext).value;
    if enc.AesGcm? {
      assert padded == plaintext + [0];
      assert body[..8] == iv && body[8..] == enc.aead.seal(enc.salt + iv, padded, header);
    } else {
      var zeros := 15 - |plaintext| % 16;
      PaddedTwice(enc, plaintext);
      var ct := enc.cbc.encrypt(iv, Pkcs7(padded));
      var icv := mac.value.compute(header + iv + ct);
      hide WithPadLength, Pkcs7, Sealed;
      assert body == iv + ct + icv by { SealedCbc(enc, mac, header, iv, plaintext); }
      assert |ct| == |Pkcs7(padded)|;
      assert body[..16] == iv && body[16..|body| - |icv|] == ct && body[|body| - |icv|..] == icv;
      assert body[..|body| - |icv|] == iv + ct && header + (iv + ct) == header + iv + ct;
    }
  }

  lemma SealedCbc(enc: Encryptor, mac: Option<EspPacket.Mac>, header: bytes, iv: bytes, plaintext: bytes)
    requires enc.AesCbc? && mac.Some?
    ensures var ct := enc.cbc.encrypt(iv, Pkcs7(WithPadLength(enc, plaintext)));
      Sealed(enc, mac, header, iv, plaintext) == Ok(iv + ct + mac.value.compute(header + iv + ct))
  {
  }

  lemma PaddedTwice(enc: Encryptor, plaintext: bytes)
    requires enc.AesCbc?
    ensures var zeros := 15 - |plaintext| % 16;
      Pkcs7(WithPadLength(enc, plaintext)) == plaintext + Zeros(zeros) + [zeros] + seq(16, _ => 16)
  {
    var zeros := 15 - |plaintext| % 16;
    assert PadLength(enc, |plaintext|) == zeros;
    var padded := plaintext + Zeros(zeros) + [zeros];
    assert |padded| % 16 == 0;
    assert Pkcs7(padded) == padded + Repeat(16, 16);
    assert Repeat(16, 16) == seq(16, _ => 16);
  }

  /** Both paddings come off again, under the same keys and the same header argument. */
  lemma UnsealUndoesSeal(enc: Encryptor, mac: Option<EspPacket.Mac>, header: bytes, iv: bytes, plaintext: bytes)
    requires enc.Ideal() && |iv| == enc.IvSize() && (enc.AesCbc? ==> mac.Some? && mac.value.Ideal())
    ensures Sealed(enc, mac, header, iv, plaintext).Ok?
    ensures Unsealed(enc, mac, header, Sealed(enc, mac, header, iv, plaintext).value) == Ok(plaintext)
  {
    var padded := WithPadLength(enc, plaintext);
    StripUndoesPadLength(enc, plaintext);
    var body := Sealed(enc, mac, header, iv, plaintext).value;
    var aad := if enc.AesGcm? then header else [];
    var ct := enc.Encrypt(iv, padded, aad);
    DecryptUndoesEncrypt(enc, iv, padded, aad);
    assert |ct| > 0;
    hide WithPadLength;
    if enc.AesGcm? {
      assert body[..|iv|] == iv && body[|iv|..] == ct;
    } else {
      var icv := mac.value.compute(header + iv + ct);
      assert body == iv + (ct + icv);
      assert body[..|iv|] == iv && body[|iv|..|body| - |icv|] == ct && body[|body| - |icv|..] == icv;
    }
  }

  /** The sealed length, exactly. */
  lemma SealedLength(enc: Encryptor, mac: Option<EspPacket.Mac>, header: bytes, iv: bytes, plaintext: bytes)
    requires enc.Ideal() && |iv| == enc.IvSize() && (enc.AesCbc? ==> mac.Some? && mac.value.Ideal())
    ensures var r := Sealed(enc, mac, header, iv, plaintext);
      r.Ok? && |r.value| == if enc.AesGcm? then |iv| + |plaintext| + 1 + 16
        else |iv| + (|plaintext| + 16) / 16 * 16 + 16 + mac.value.icvSize
  {
    var padded := WithPadLength(enc, plaintext);
    if enc.AesCbc? {
      CbcPaddedLength(enc, plaintext);
      assert |enc.Encrypt(iv, padded, [])| == |Pkcs7(padded)|;
    }
    hide WithPadLength;
  }

  /** Both paddings under CBC: up to the block with the pad length, then a whole block more. */
  lemma CbcPaddedLength(enc: Encryptor, plaintext: bytes)
    requires enc.AesCbc?
    ensures |WithPadLength(enc, plaintext)| == (|plaintext| + 16) / 16 * 16
    ensures |Pkcs7(WithPadLength(enc, plaintext))| == (|plaintext| + 16) / 16 * 16 + 16
  {
  }

  method SealBody(enc: Encryptor, mac: Option<EspPacket.Mac>, header: bytes, iv: bytes, plaintext: bytes)
    returns (r: Result<bytes>)
    ensures r == Sealed(enc, mac, header, iv, plaintext)
  {
    if enc.AesGcm? {
      var padded := Assemble(plaintext, [0], []);
      assert padded == WithPadLength(enc, plaintext);
      var body := Assemble(iv, enc.Encrypt(iv, padded, header), []);
      assert iv + enc.Encrypt(iv, padded, header) == body;
      return Ok(body);
    }
    var blockSize := enc.BlockSize();
    var totalLen, padLen := |plaintext| + 1, 0;
    if totalLen % blockSize != 0 {
      padLen := blockSize - totalLen % blockSize;
    }
    var padded := Assemble(plaintext, Zeros(padLen), [padLen]);
    var ct := enc.Encrypt(iv, padded, []);
    if mac.None? {
      return Err;
    }
    var macInput := Assemble(header, iv, ct);
    var body := Assemble(iv, ct, mac.value.compute(macInput));
    r := Ok(body);
  }

  method UnsealBody(enc: Encryptor, mac: Option<EspPacket.Mac>, header: bytes, body: bytes) returns (r: Result<bytes>)
    ensures r == Unsealed(enc, mac, header, body)
    ensures !Intact(enc, mac, header, body) ==> r == Err
  {
    OpensOnlyIntact(enc, mac, header, body);
    var ivSize := enc.IvSize();
    if |body| < ivSize + 1 {
      return Err;
    }
    var iv := body[..ivSize];
    var plaintext;
    if enc.AesGcm? {
      plaintext := enc.Decrypt(iv, body[ivSize..], header);
    } else {
      if mac.None? {
        return Err;
      }
      var icvLen := mac.value.icvSize;
      if |body| < ivSize + icvLen + 1 {
        return Err;
      }
      var ct, icv := body[ivSize..|body| - icvLen], body[|body| - icvLen..];
      var macInput := Assemble(header, iv, ct);
      if !mac.value.Verify(macInput, icv) {
        return Err;
      }
      plaintext := enc.Decrypt(iv, ct, []);
    }
    if plaintext.Err? || |plaintext.value| < 1 {
      return Err;
    }
    var padLen: int := plaintext.value[|plaintext.value| - 1];
    var end := |plaintext.value| - 1 - padLen;
    if end < 0 {
      return Err;
    }
    r := Ok(plaintext.value[..end]);
  }

  // Whole payload chains.

  method EncryptSkPayload(enc: Encryptor, mac: Option<EspPacket.Mac>, header: bytes, iv: bytes, ps: seq<Payload>)
    returns (first: byte, r: Result<bytes>)
    ensures first == FirstType(ps) && r == Sealed(enc, mac, header, iv, ChainBytes(ps))
  {
    var plaintext;
    plaintext, first := MarshalPayloadChain(ps);
    r := SealBody(enc, mac, header, iv, plaintext);
  }

  function DecryptedChain(enc: Encryptor, mac: Option<EspPacket.Mac>, header: bytes, body: bytes, first: byte)
    : Parsed<seq<Entry>>
  {
    match Unsealed(enc, mac, header, body)
    case Err => Malformed
    case Ok(plaintext) => ParseChain(plaintext, first)
  }

  method DecryptSkPayload(enc: Encryptor, mac: Option<EspPacket.Mac>, header: bytes, body: bytes, first: byte)
    returns (r: Parsed<seq<Entry>>)
    ensures r == DecryptedChain(enc, mac, header, body, first)
    ensures !Intact(enc, mac, header, body) ==> r == Malformed
  {
    var plaintext := UnsealBody(enc, mac, header, body);
    if plaintext.Err? {
      return Malformed;
    }
    r := ParsePayloadChain(plaintext.value, first);
  }

  /** Decrypting undoes encrypting, for every chain of payloads and in both modes. */
  lemma DecryptSkUndoesEncryptSk(enc: Encryptor, mac: Option<EspPacket.Mac>, header: bytes, iv: bytes, ps: seq<Payload>)
    requires enc.Ideal() && |iv| == enc.IvSize() && (enc.AesCbc? ==> mac.Some? && mac.value.Ideal())
    requires ChainFits(ps)
    ensures var r := Sealed(enc, mac, header, iv, ChainBytes(ps));
      r.Ok? && DecryptedChain(enc, mac, header, r.value, FirstType(ps)) == Done(Entries(ps))
  {
    hide Sealed, Unsealed, ParseChain, ChainBytes, Entries, FirstType;
    UnsealUndoesSeal(enc, mac, header, iv, ChainBytes(ps));
    ChainRoundTrip(ps);
  }
}
