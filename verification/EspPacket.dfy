/**
 ESP packets (RFC 4303): the trailer, the AEAD and the CBC-with-HMAC packet
 formats, and the Encrypt and Decrypt operations of a security association.
 Ciphers are ideal functions: parameters that satisfy the laws named here.
 */
module EspPacket {
  import opened Bytes
  import opened Replay

  const ESP_HEADER_LEN := 8
  const ESP_TRAILER_MIN_LEN := 2
  const AEAD_IV_SIZE := 8
  const AEAD_TAG_SIZE := 16
  const CBC_BLOCK_SIZE := 16
  const CBC_IV_SIZE := 16
  const MAX_SEQ: u64 := 0xFFFF_FFFF
  const NEXT_HEADER_DUMMY: byte := 59

  datatype Suite = AES128GCM | AES256GCM | CHACHA20POLY1305 | AES128CBC | AES256CBC

  predicate IsAead(suite: Suite) {
    suite.AES128GCM? || suite.AES256GCM? || suite.CHACHA20POLY1305?
  }

  /** An authenticated cipher: seal(nonce, plaintext, aad) and open(nonce, ciphertext, aad). */
  datatype Aead = Aead(seal: (bytes, bytes, bytes) -> bytes, open: (bytes, bytes, bytes) -> Option<bytes>) {
    ghost predicate Ideal() {
      && (forall n, p, a :: |seal(n, p, a)| == |p| + AEAD_TAG_SIZE)
      && (forall n, p, a :: open(n, seal(n, p, a), a) == Some(p))
    }
  }

  /** A block cipher in CBC mode on whole blocks: encrypt(iv, plaintext), decrypt(iv, ciphertext). */
  datatype Cbc = Cbc(encrypt: (bytes, bytes) -> bytes, decrypt: (bytes, bytes) -> bytes) {
    ghost predicate Ideal() {
      && (forall iv, p :: |p| % CBC_BLOCK_SIZE == 0 ==> |encrypt(iv, p)| == |p|)
      && (forall iv, p :: |p| % CBC_BLOCK_SIZE == 0 ==> decrypt(iv, encrypt(iv, p)) == p)
    }
  }

  datatype Mac = Mac(compute: bytes -> bytes, icvSize: nat) {
    ghost predicate Ideal() {
      forall d :: |compute(d)| == icvSize
    }

    predicate Verify(data: bytes, icv: bytes) {
      |icv| == icvSize && compute(data) == icv
    }
  }

  /** The cryptographic part of a security association; a missing cipher is None. */
  datatype Keys = Keys(suite: Suite, aead: Option<Aead>, salt: bytes, cbc: Option<Cbc>, mac: Option<Mac>) {
    predicate Initialized() {
      if IsAead(suite) then aead.Some? else cbc.Some? && mac.Some?
    }

    /** As the constructors of a security association leave it. */
    ghost predicate Ready(): (ready: bool)
      ensures ready ==> Initialized()
    {
      && Initialized()
      && if IsAead(suite) then aead.value.Ideal() && |salt| == 4 else cbc.value.Ideal() && mac.value.Ideal()
    }
  }

  // The trailer (sections 2.4 to 2.6 of RFC 4303).

  function PadLength(payloadLen: nat, align: nat): (n: nat)
    requires 4 <= align <= 0x100
    ensures n < align
  {
    var remainder := (payloadLen + ESP_TRAILER_MIN_LEN) % align;
    if remainder == 0 then 0 else align - remainder
  }

  function PadBytes(n: nat): (p: bytes)
    ensures |p| == n
  {
    seq(n, i requires 0 <= i < n => ToByte(i + 1))
  }

  function WithTrailer(payload: bytes, nextHeader: byte, align: nat): (r: bytes)
    requires 4 <= align <= 0x100
    ensures |r| == |payload| + PadLength(|payload|, align) + ESP_TRAILER_MIN_LEN
    ensures align == 4 || align == 16 ==> |r| % align == 0
  {
    var n := PadLength(|payload|, align);
    payload + PadBytes(n) + [n, nextHeader]
  }

  function StripTrailer(plaintext: bytes): Result<(bytes, byte)> {
    if |plaintext| < ESP_TRAILER_MIN_LEN then Err else
    var padLen: int := plaintext[|plaintext| - 2];
    if padLen + ESP_TRAILER_MIN_LEN > |plaintext| then Err else
    Ok((plaintext[..|plaintext| - ESP_TRAILER_MIN_LEN - padLen], plaintext[|plaintext| - 1]))
  }

  /** Stripping undoes building, at every alignment the pad length byte can describe. */
  lemma StripUndoesTrailer(payload: bytes, nextHeader: byte, align: nat)
    requires 4 <= align <= 0x100
    ensures StripTrailer(WithTrailer(payload, nextHeader, align)) == Ok((payload, nextHeader))
  {
    var n := PadLength(|payload|, align);
    var r := WithTrailer(payload, nextHeader, align);
    assert r[|r| - 2] == n && r[|r| - 1] == nextHeader;
    assert r[..|r| - ESP_TRAILER_MIN_LEN - n] == payload;
  }

  /** buildESPTrailer with blockSize 4, buildESPTrailerCBC with any block size up to 256. */
  method BuildTrailer(payload: bytes, nextHeader: byte, blockSize: nat) returns (r: bytes)
    requires blockSize <= 0x100
    ensures r == WithTrailer(payload, nextHeader, if blockSize < 4 then 4 else blockSize)
  {
    var align := if blockSize < 4 then 4 else blockSize;
    var remainder := (|payload| + ESP_TRAILER_MIN_LEN) % align;
    var padLen := 0;
    if remainder != 0 {
      padLen := align - remainder;
    }
    r := AppendTrailer(payload, padLen, nextHeader);
  }

  method AppendTrailer(payload: bytes, padLen: nat, nextHeader: byte) returns (r: bytes)
    requires padLen < 0x100
    ensures r == payload + PadBytes(padLen) + [padLen, nextHeader]
  {
    var result := new byte[|payload| + padLen + ESP_TRAILER_MIN_LEN](_ => 0);
    CopyInto(result, 0, payload);
    FillPadding(result, |payload|, padLen);
    assert result[..|payload| + padLen] == payload + PadBytes(padLen);
    CopyInto(result, |payload| + padLen, [padLen, nextHeader]);
    r := result[..];
  }

  /** The padding loop: 1, 2, 3, ... */
  method FillPadding(buf: array<byte>, at: nat, n: nat)
    requires at + n <= buf.Length
    modifies buf
    ensures buf[..] == old(buf[..at]) + PadBytes(n) + old(buf[at + n..])
  {
    for i := 0 to n
      invariant forall k :: 0 <= k < buf.Length ==>
        buf[k] == if at <= k < at + i then ToByte(k - at + 1) else old(buf[k])
    {
      buf[at + i] := ToByte(i + 1);
    }
  }

  // Packets.

  function Header(spi: u32, seqLow: u32): (h: bytes)
    ensures |h| == ESP_HEADER_LEN
  {
    Put32(spi) + Put32(seqLow)
  }

  /** The packet an AEAD association sends as its number n. */
  function AeadPacket(aead: Aead, salt: bytes, spi: u32, n: u64, payload: bytes, nextHeader: byte): bytes {
    var hdr, iv := Header(spi, ToU32(n)), Put64(n);
    hdr + iv + aead.seal(salt + iv, WithTrailer(payload, nextHeader, 4), hdr)
  }

  /** What the ICV of a CBC packet covers. */
  function CbcBody(cbc: Cbc, spi: u32, n: u64, iv: bytes, payload: bytes, nextHeader: byte): bytes {
    Header(spi, ToU32(n)) + iv + cbc.encrypt(iv, WithTrailer(payload, nextHeader, CBC_BLOCK_SIZE))
  }

  function Packet(keys: Keys, spi: u32, n: u64, iv: bytes, payload: bytes, nextHeader: byte): bytes
    requires keys.Initialized()
  {
    if IsAead(keys.suite) then AeadPacket(keys.aead.value, keys.salt, spi, n, payload, nextHeader)
    else
      var body := CbcBody(keys.cbc.value, spi, n, iv, payload, nextHeader);
      body + keys.mac.value.compute(body)
  }

  /** The sequence number and plaintext of a packet that passes every check but the window's. */
  function Authentic(keys: Keys, packet: bytes): Option<(u32, bytes)> {
    if IsAead(keys.suite) then
      if keys.aead.None? || |keys.salt| != 4 then None else
      if |packet| < ESP_HEADER_LEN + AEAD_IV_SIZE + ESP_TRAILER_MIN_LEN + AEAD_TAG_SIZE then None else
      var plain := keys.aead.value.open(keys.salt + packet[8..16], packet[16..], packet[..8]);
      if plain.None? then None else Some((Get32(packet, 4), plain.value))
    else
      if keys.cbc.None? || keys.mac.None? then None else
      var icvSize := keys.mac.value.icvSize;
      if |packet| < ESP_HEADER_LEN + CBC_IV_SIZE + CBC_BLOCK_SIZE + icvSize then None else
      var body := packet[..|packet| - icvSize];
      if !keys.mac.value.Verify(body, packet[|packet| - icvSize..]) then None else
      if |body[24..]| % CBC_BLOCK_SIZE != 0 then None else
      Some((Get32(packet, 4), keys.cbc.value.decrypt(body[8..24], body[24..])))
  }

  /**
   What only a holder of the keys can make (RFC 4303, sections 3.4.4.1 and 3.4.4.2): the
   cipher opens the packet, its first eight bytes included, or its last bytes are the MAC
   of all the others.
   */
  predicate Intact(keys: Keys, packet: bytes) {
    if IsAead(keys.suite) then
      && keys.aead.Some? && |packet| >= 16
      && keys.aead.value.open(keys.salt + packet[8..16], packet[16..], packet[..8]).Some?
    else
      && keys.mac.Some? && |packet| >= keys.mac.value.icvSize
      && packet[|packet| - keys.mac.value.icvSize..]
         == keys.mac.value.compute(packet[..|packet| - keys.mac.value.icvSize])
  }

  /** What is let through to the window: intact packets of sufficient length, and nothing else. */
  lemma AuthenticExactly(keys: Keys, packet: bytes)
    requires keys.Ready()
    ensures Authentic(keys, packet).Some? <==>
      && Intact(keys, packet)
      && if IsAead(keys.suite) then |packet| >= 34
         else |packet| >= 40 + keys.mac.value.icvSize && (|packet| - 24 - keys.mac.value.icvSize) % 16 == 0
    ensures Authentic(keys, packet).Some? ==>
      var (n, plain) := Authentic(keys, packet).value;
      && n == Get32(packet, 4)
      && if IsAead(keys.suite)
         then keys.aead.value.open(keys.salt + packet[8..16], packet[16..], packet[..8]) == Some(plain)
         else plain == keys.cbc.value.decrypt(packet[8..24], packet[24..|packet| - keys.mac.value.icvSize])
  {
    if !IsAead(keys.suite) && |packet| >= 40 + keys.mac.value.icvSize {
      var body := packet[..|packet| - keys.mac.value.icvSize];
      assert body[8..24] == packet[8..24] && body[24..] == packet[24..|packet| - keys.mac.value.icvSize];
    }
  }

  /** The inner packet handed up; a dummy packet hands up nothing but its protocol. */
  function Inner(plaintext: bytes): Result<(bytes, byte)> {
    match StripTrailer(plaintext)
    case Err => Err
    case Ok((payload, nextHeader)) =>
      if nextHeader == NEXT_HEADER_DUMMY then Ok(([], nextHeader)) else Ok((payload, nextHeader))
  }

  /** What is handed up: all but the trailer, whose length the last byte but one states; nothing of a dummy. */
  lemma InnerExactly(plain: bytes)
    ensures Inner(plain).Ok? <==> |plain| >= 2 && plain[|plain| - 2] as int + 2 <= |plain|
    ensures Inner(plain).Ok? ==>
      var padLen: int := plain[|plain| - 2];
      Inner(plain) ==
        if plain[|plain| - 1] == 59 then Ok(([], 59)) else Ok((plain[..|plain| - 2 - padLen], plain[|plain| - 1]))
  {
  }

  function Shown(payload: bytes, nextHeader: byte): (bytes, byte) {
    if nextHeader == NEXT_HEADER_DUMMY then ([], nextHeader) else (payload, nextHeader)
  }

  /** Decrypt on a window (None: no replay protection): the result and the new window. */
  function Received(keys: Keys, w: Option<Window>, packet: bytes): (Result<(bytes, byte)>, Option<Window>) {
    Admitted(w, Authentic(keys, packet))
  }

  function Admitted(w: Option<Window>, a: Option<(u32, bytes)>): (Result<(bytes, byte)>, Option<Window>) {
    match a
    case None => (Err, w)
    case Some((n, plaintext)) =>
      if w.None? then (Inner(plaintext), w) else
      if !w.value.Accepts(n) then (Err, w) else
      (Inner(plaintext), Some(w.value.Advance(n)))
  }

  /** A sent packet opens under the same keys to its own number and contents. */
  lemma PacketOpens(keys: Keys, spi: u32, n: u64, iv: bytes, payload: bytes, nextHeader: byte)
    requires keys.Ready() && |iv| == CBC_IV_SIZE
    ensures var plain := Authentic(keys, Packet(keys, spi, n, iv, payload, nextHeader));
      plain.Some? && plain.value.0 == ToU32(n) && Inner(plain.value.1) == Ok(Shown(payload, nextHeader))
  {
    var packet := Packet(keys, spi, n, iv, payload, nextHeader);
    var hdr := Header(spi, ToU32(n));
    Get32Put(Put32(spi), ToU32(n), packet[8..]);
    if IsAead(keys.suite) {
      var padded := WithTrailer(payload, nextHeader, 4);
      StripUndoesTrailer(payload, nextHeader, 4);
      var ct := keys.aead.value.seal(keys.salt + Put64(n), padded, hdr);
      assert packet == hdr + Put64(n) + ct;
      assert packet[..8] == hdr && packet[8..16] == Put64(n) && packet[16..] == ct;
      assert packet == Put32(spi) + Put32(ToU32(n)) + packet[8..];
    } else {
      var padded := WithTrailer(payload, nextHeader, CBC_BLOCK_SIZE);
      StripUndoesTrailer(payload, nextHeader, CBC_BLOCK_SIZE);
      var ct := keys.cbc.value.encrypt(iv, padded);
      var body := CbcBody(keys.cbc.value, spi, n, iv, payload, nextHeader);
      var icv := keys.mac.value.compute(body);
      assert packet == body + icv && |padded| >= CBC_BLOCK_SIZE;
      assert packet[..|packet| - |icv|] == body && packet[|packet| - |icv|..] == icv;
      assert body == hdr + iv + ct;
      assert body[8..24] == iv && body[24..] == ct;
      assert packet == Put32(spi) + Put32(ToU32(n)) + packet[8..];
    }
  }

  /** Payload, padding 1, 2, 3, ... up to the next multiple of the alignment, pad length, next header. */
  predicate Trailed(plain: bytes, payload: bytes, nextHeader: byte, align: nat)
    requires align > 0
  {
    && |plain| % align == 0 && |payload| + 2 <= |plain| < |payload| + 2 + align
    && plain[..|payload|] == payload
    && (forall i :: |payload| <= i < |plain| - 2 ==> plain[i] == i - |payload| + 1)
    && plain[|plain| - 2] == |plain| - |payload| - 2 && plain[|plain| - 1] == nextHeader
  }

  lemma TrailerLayout(payload: bytes, nextHeader: byte, align: nat)
    requires align == 4 || align == 16
    ensures Trailed(WithTrailer(payload, nextHeader, align), payload, nextHeader, align)
  {
    var r, n := WithTrailer(payload, nextHeader, align), PadLength(|payload|, align);
    assert forall i :: |payload| <= i < |r| - 2 ==> r[i] == PadBytes(n)[i - |payload|];
  }

  /** The fields of a packet at their places (section 2 of RFC 4303), and the plaintext its cipher protects. */
  lemma PacketLayout(keys: Keys, spi: u32, n: u64, iv: bytes, payload: bytes, nextHeader: byte)
    requires keys.Ready() && |iv| == CBC_IV_SIZE
    ensures var p := Packet(keys, spi, n, iv, payload, nextHeader);
      && |p| >= 24 && Get32(p, 0) == spi && Get32(p, 4) == n % 0x1_0000_0000 && Intact(keys, p)
      && if IsAead(keys.suite) then
           && p[8..16] == Put64(n)
           && Trailed(keys.aead.value.open(keys.salt + p[8..16], p[16..], p[..8]).value, payload, nextHeader, 4)
         else
           && p[8..24] == iv && |p| >= 24 + keys.mac.value.icvSize
           && Trailed(keys.cbc.value.decrypt(iv, p[24..|p| - keys.mac.value.icvSize]), payload, nextHeader, 16)
  {
    var p := Packet(keys, spi, n, iv, payload, nextHeader);
    var hdr := Header(spi, ToU32(n));
    assert p == [] + Put32(spi) + p[4..] && p == Put32(spi) + Put32(ToU32(n)) + p[8..];
    Get32Put([], spi, p[4..]);
    Get32Put(Put32(spi), ToU32(n), p[8..]);
    hide Get32, Put32, Put64, WithTrailer, Trailed;
    if IsAead(keys.suite) {
      TrailerLayout(payload, nextHeader, 4);
      var ct := keys.aead.value.seal(keys.salt + Put64(n), WithTrailer(payload, nextHeader, 4), hdr);
      assert p[..8] == hdr && p[8..16] == Put64(n) && p[16..] == ct;
    } else {
      TrailerLayout(payload, nextHeader, 16);
      var ct := keys.cbc.value.encrypt(iv, WithTrailer(payload, nextHeader, 16));
      var body := hdr + iv + ct;
      assert p == body + keys.mac.value.compute(body);
      assert p[..|body|] == body && p[|body|..] == keys.mac.value.compute(body);
      assert p[8..24] == iv && p[24..|body|] == ct;
    }
  }

  class SecurityAssociation {
    const spi: u32
    const esn: bool
    const keys: Keys
    var seqNum: u64
    const window: ReplayWindow?

    ghost predicate Valid()
      reads this, window, if window == null then {} else {window.bitmap}
    {
      window != null ==> window.Valid()
    }

    ghost function WindowState(): Option<Window>
      reads this, window
    {
      if window == null then None else Some(window.State())
    }

    constructor (spi: u32, esn: bool, keys: Keys, window: ReplayWindow?)
      ensures this.spi == spi && this.esn == esn && this.keys == keys && this.window == window && seqNum == 0
    {
      this.spi, this.esn, this.keys, this.window := spi, esn, keys, window;
      seqNum := 0;
    }

    /** iv is what the random source returns; only the CBC suites use it. */
    method Encrypt(payload: bytes, nextHeader: byte, iv: bytes) returns (r: Result<bytes>)
      requires |iv| == CBC_IV_SIZE
      modifies this`seqNum
      ensures !keys.Initialized() ==> r == Err && seqNum == old(seqNum)
      ensures keys.Initialized() ==> seqNum == (old(seqNum) + 1) % 0x1_0000_0000_0000_0000
      ensures keys.Initialized() ==>
        r == if (seqNum > MAX_SEQ && !esn) || (IsAead(keys.suite) && |keys.salt| != 4) then Err
             else Ok(Packet(keys, spi, seqNum, iv, payload, nextHeader))
    {
      if IsAead(keys.suite) {
        r := EncryptAead(payload, nextHeader);
      } else {
        r := EncryptCbc(payload, nextHeader, iv);
      }
    }

    method NextSeq() returns (newSeq: u64)
      modifies this`seqNum
      ensures seqNum == newSeq == (old(seqNum) + 1) % 0x1_0000_0000_0000_0000
    {
      newSeq := (seqNum + 1) % 0x1_0000_0000_0000_0000;
      seqNum := newSeq;
    }

    method EncryptAead(payload: bytes, nextHeader: byte) returns (r: Result<bytes>)
      modifies this`seqNum
      ensures keys.aead.None? ==> r == Err && seqNum == old(seqNum)
      ensures keys.aead.Some? ==> seqNum == (old(seqNum) + 1) % 0x1_0000_0000_0000_0000
      ensures keys.aead.Some? ==>
        r == if (seqNum > MAX_SEQ && !esn) || |keys.salt| != 4 then Err
             else Ok(AeadPacket(keys.aead.value, keys.salt, spi, seqNum, payload, nextHeader))
    {
      if keys.aead.None? {
        return Err;
      }
      var newSeq := NextSeq();
      if newSeq > MAX_SEQ && !esn {
        return Err;
      }
      var padded := BuildTrailer(payload, nextHeader, 4);
      var hdr, iv := Header(spi, ToU32(newSeq)), Put64(newSeq);
      if |keys.salt| != 4 {
        return Err;
      }
      var ciphertext := keys.aead.value.seal(keys.salt + iv, padded, hdr);
      var espPacket := Assemble(hdr, iv, ciphertext);
      r := Ok(espPacket);
    }

    method EncryptCbc(payload: bytes, nextHeader: byte, iv: bytes) returns (r: Result<bytes>)
      requires |iv| == CBC_IV_SIZE
      modifies this`seqNum
      ensures keys.cbc.None? || keys.mac.None? ==> r == Err && seqNum == old(seqNum)
      ensures keys.cbc.Some? && keys.mac.Some? ==> seqNum == (old(seqNum) + 1) % 0x1_0000_0000_0000_0000
      ensures keys.cbc.Some? && keys.mac.Some? ==>
        var body := CbcBody(keys.cbc.value, spi, seqNum, iv, payload, nextHeader);
        r == if seqNum > MAX_SEQ && !esn then Err else Ok(body + keys.mac.value.compute(body))
    {
      if keys.cbc.None? || keys.mac.None? {
        return Err;
      }
      var newSeq := NextSeq();
      if newSeq > MAX_SEQ && !esn {
        return Err;
      }
      var padded := BuildTrailer(payload, nextHeader, CBC_BLOCK_SIZE);
      var hdr := Header(spi, ToU32(newSeq));
      var ciphertext := keys.cbc.value.encrypt(iv, padded);
      var body := Assemble(hdr, iv, ciphertext);
      r := Ok(body + keys.mac.value.compute(body));
    }

    method Decrypt(packet: bytes) returns (r: Result<(bytes, byte)>)
      requires Valid()
      modifies window, if window == null then {} else {window.bitmap}
      ensures Valid()
      ensures (r, WindowState()) == Received(keys, old(WindowState()), packet)
      ensures !Intact(keys, packet) ==> r == Err && WindowState() == old(WindowState())
    {
      if IsAead(keys.suite) {
        r := DecryptAead(packet);
      } else {
        r := DecryptCbc(packet);
      }
    }

    /** The window is asked before the packet is plain. */
    method DecryptAead(packet: bytes) returns (r: Result<(bytes, byte)>)
      requires Valid() && IsAead(keys.suite)
      modifies window, if window == null then {} else {window.bitmap}
      ensures Valid()
      ensures (r, WindowState()) == Received(keys, old(WindowState()), packet)
      ensures r.Ok? ==>
        && |packet| >= 16 && keys.aead.Some?
        && keys.aead.value.open(keys.salt + packet[8..16], packet[16..], packet[..8]).Some?
      ensures !Intact(keys, packet) ==> r == Err && WindowState() == old(WindowState())
    {
      if keys.aead.None? {
        return Err;
      }
      if |packet| < ESP_HEADER_LEN + AEAD_IV_SIZE + ESP_TRAILER_MIN_LEN + AEAD_TAG_SIZE {
        return Err;
      }
      var n := Get32(packet, 4);
      if window != null {
        var unseen := window.Check(n);
        if !unseen {
          return Err;
        }
      }
      if |keys.salt| != 4 {
        return Err;
      }
      var plain := keys.aead.value.open(keys.salt + packet[8..16], packet[16..], packet[..8]);
      if plain.None? {
        return Err;
      }
      if window != null {
        window.Advance(n);
      }
      r := Inner(plain.value);
    }

    /** The ICV is verified before the window is asked. */
    method DecryptCbc(packet: bytes) returns (r: Result<(bytes, byte)>)
      requires Valid() && !IsAead(keys.suite)
      modifies window, if window == null then {} else {window.bitmap}
      ensures Valid()
      ensures (r, WindowState()) == Received(keys, old(WindowState()), packet)
      ensures r.Ok? ==>
        && keys.mac.Some? && |packet| >= keys.mac.value.icvSize
        && packet[|packet| - keys.mac.value.icvSize..]
           == keys.mac.value.compute(packet[..|packet| - keys.mac.value.icvSize])
      ensures !Intact(keys, packet) ==> r == Err && WindowState() == old(WindowState())
    {
      if keys.cbc.None? || keys.mac.None? {
        return Err;
      }
      var icvSize := keys.mac.value.icvSize;
      if |packet| < ESP_HEADER_LEN + CBC_IV_SIZE + CBC_BLOCK_SIZE + icvSize {
        return Err;
      }
      var n := Get32(packet, 4);
      var body := packet[..|packet| - icvSize];
      if !keys.mac.value.Verify(body, packet[|packet| - icvSize..]) {
        return Err;
      }
      if window != null {
        var unseen := window.Check(n);
        if !unseen {
          return Err;
        }
      }
      var iv, ciphertext := body[8..24], body[24..];
      if |ciphertext| % CBC_BLOCK_SIZE != 0 {
        return Err;
      }
      var plaintext := keys.cbc.value.decrypt(iv, ciphertext);
      if window != null {
        window.Advance(n);
      }
      r := Inner(plaintext);
    }
  }
}
