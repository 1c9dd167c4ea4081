/** The payload chain and the message around it (sections 3.1 and 3.2 of RFC 7296). */
module IkeMessage {
  import opened Bytes
  import opened IkePayload

  const PAYLOAD_HEADER_LEN := 4
  const HEADER_LEN := 28
  const IKEV2_MAJOR: byte := 2

  /** A parsed payload and its generic header. */
  datatype Entry = Entry(nextPayload: byte, critical: bool, length: u16, payload: Payload)

  function FirstType(ps: seq<Payload>): byte {
    if ps == [] then PAYLOAD_NONE else TypeOf(ps[0])
  }

  /** A payload with its generic header, next being the type of the one behind it. */
  function PayloadBytes(p: Payload, next: byte): bytes {
    [next, 0] + Put16(ToU16(PAYLOAD_HEADER_LEN + |Body(p)|)) + Body(p)
  }

  function ChainBytes(ps: seq<Payload>): bytes {
    if ps == [] then [] else PayloadBytes(ps[0], FirstType(ps[1..])) + ChainBytes(ps[1..])
  }

  /** An unrecognized critical payload is an error; a panic of a body parser ends everything. */
  function ParseChain(buf: bytes, nextType: byte): Parsed<seq<Entry>> {
    if nextType == PAYLOAD_NONE then Done([]) else
    if |buf| < PAYLOAD_HEADER_LEN then Malformed else
    var length := Get16(buf, 2);
    if length < PAYLOAD_HEADER_LEN || length > |buf| then Malformed else
    match ParseTyped(nextType, buf[PAYLOAD_HEADER_LEN..length])
    case Malformed => Malformed
    case Panics => Panics
    case Done(p) =>
      if p.Raw? && buf[1] >= 0x80 then Malformed else
      Before([Entry(buf[0], buf[1] >= 0x80, length, p)], ParseChain(buf[length..], buf[0]))
  }

  /** What is left behind the first k payloads of a chain, all of them parsed, and the type that comes next. */
  function BehindPayloads(buf: bytes, nextType: byte, k: nat): Option<(bytes, byte)> {
    if k == 0 then Some((buf, nextType)) else
    if nextType == PAYLOAD_NONE || |buf| < PAYLOAD_HEADER_LEN then None else
    var length := Get16(buf, 2);
    if length < PAYLOAD_HEADER_LEN || length > |buf| then None else
    var p := ParseTyped(nextType, buf[PAYLOAD_HEADER_LEN..length]);
    if !p.Done? || (p.value.Raw? && buf[1] >= 0x80) then None else BehindPayloads(buf[length..], buf[0], k - 1)
  }

  /** The next payload of a chain is one whose body the parser does not guard. */
  ghost predicate UnguardedNext(rest: Option<(bytes, byte)>) {
    && rest.Some? && rest.value.1 != PAYLOAD_NONE && |rest.value.0| >= PAYLOAD_HEADER_LEN
    && PAYLOAD_HEADER_LEN <= Get16(rest.value.0, 2) <= |rest.value.0|
    && Unguarded(rest.value.1, rest.value.0[PAYLOAD_HEADER_LEN..Get16(rest.value.0, 2)])
  }

  /** A chain brings its parser down exactly when such a payload is reached. */
  lemma {:induction false} ChainPanicsExactly(buf: bytes, nextType: byte)
    ensures ParseChain(buf, nextType).Panics? <==> exists k: nat :: UnguardedNext(BehindPayloads(buf, nextType, k))
    decreases |buf|
  {
    hide ParseTyped, Unguarded;
    assert BehindPayloads(buf, nextType, 0) == Some((buf, nextType));
    if nextType != PAYLOAD_NONE && |buf| >= PAYLOAD_HEADER_LEN && PAYLOAD_HEADER_LEN <= Get16(buf, 2) <= |buf| {
      var length := Get16(buf, 2);
      var rest, body := buf[length..], buf[PAYLOAD_HEADER_LEN..length];
      BodyPanicsExactly(nextType, body);
      var p := ParseTyped(nextType, body);
      if p.Done? && !(p.value.Raw? && buf[1] >= 0x80) {
        ChainPanicsExactly(rest, buf[0]);
        BehindFirst(buf, nextType, rest);
      } else {
        assert forall k: nat :: k > 0 ==> BehindPayloads(buf, nextType, k) == None;
        if p.Panics? {
          assert UnguardedNext(BehindPayloads(buf, nextType, 0));
        }
      }
    } else {
      assert forall k: nat :: k > 0 ==> BehindPayloads(buf, nextType, k) == None;
    }
  }

  lemma BehindFirst(buf: bytes, nextType: byte, rest: bytes)
    requires nextType != PAYLOAD_NONE && |buf| >= PAYLOAD_HEADER_LEN && PAYLOAD_HEADER_LEN <= Get16(buf, 2) <= |buf|
    requires rest == buf[Get16(buf, 2)..]
    requires var p := ParseTyped(nextType, buf[PAYLOAD_HEADER_LEN..Get16(buf, 2)]);
      p.Done? && !(p.value.Raw? && buf[1] >= 0x80)
    ensures (exists k: nat :: UnguardedNext(BehindPayloads(buf, nextType, k)))
      <==> exists k: nat :: UnguardedNext(BehindPayloads(rest, buf[0], k))
  {
    BodyPanicsExactly(nextType, buf[PAYLOAD_HEADER_LEN..Get16(buf, 2)]);
    hide ParseTyped, Unguarded, UnguardedNext;
    assert !UnguardedNext(BehindPayloads(buf, nextType, 0)) by { NotFirst(buf, nextType); }
    assert forall k: nat :: BehindPayloads(buf, nextType, k + 1) == BehindPayloads(rest, buf[0], k);
    if k: nat :| UnguardedNext(BehindPayloads(buf, nextType, k)) {
      assert k != 0 && BehindPayloads(buf, nextType, (k - 1) + 1) == BehindPayloads(rest, buf[0], k - 1);
      assert UnguardedNext(BehindPayloads(rest, buf[0], k - 1));
    }
    if k: nat :| UnguardedNext(BehindPayloads(rest, buf[0], k)) {
      assert UnguardedNext(BehindPayloads(buf, nextType, k + 1));
    }
  }

  lemma NotFirst(buf: bytes, nextType: byte)
    requires |buf| >= PAYLOAD_HEADER_LEN && PAYLOAD_HEADER_LEN <= Get16(buf, 2) <= |buf|
    requires !Unguarded(nextType, buf[PAYLOAD_HEADER_LEN..Get16(buf, 2)])
    ensures !UnguardedNext(BehindPayloads(buf, nextType, 0))
  {
  }

  predicate ChainFits(ps: seq<Payload>) {
    forall p :: p in ps ==> Fits(p) && TypeOf(p) != PAYLOAD_NONE && |Body(p)| <= 0xFFFF - PAYLOAD_HEADER_LEN
  }

  function Entries(ps: seq<Payload>): (r: seq<Entry>)
    ensures |r| == |ps|
  {
    if ps == [] then [] else
    [Entry(FirstType(ps[1..]), false, ToU16(PAYLOAD_HEADER_LEN + |Body(ps[0])|), Normal(ps[0]))] + Entries(ps[1..])
  }

  /** Parsing a printed chain gives its payloads back, each under its own header. */
  lemma {:induction false} ChainRoundTrip(ps: seq<Payload>)
    requires ChainFits(ps)
    ensures ParseChain(ChainBytes(ps), FirstType(ps)) == Done(Entries(ps))
  {
    hide ParseChain, PayloadBytes, Body, TypeOf, Fits, Normal;
    if ps == [] {
      EmptyChain();
    } else {
      assert ps[0] in ps;
      FirstPayload(ps[0], FirstType(ps[1..]), ChainBytes(ps[1..]));
      ChainRoundTrip(ps[1..]);
    }
  }

  lemma EmptyChain()
    ensures ParseChain([], PAYLOAD_NONE) == Done([])
  {
  }

  lemma FirstPayload(p: Payload, next: byte, tail: bytes)
    requires Fits(p) && TypeOf(p) != PAYLOAD_NONE && |Body(p)| <= 0xFFFF - PAYLOAD_HEADER_LEN
    ensures ParseChain(PayloadBytes(p, next) + tail, TypeOf(p))
      == Before([Entry(next, false, ToU16(PAYLOAD_HEADER_LEN + |Body(p)|), Normal(p))], ParseChain(tail, next))
  {
    BodyRoundTrip(p);
    PayloadFields(p, next, tail);
    NormalRaw(p);
    hide ParseTyped, PayloadBytes, Body, TypeOf, Fits, Normal;
  }

  lemma NormalRaw(p: Payload)
    ensures Normal(p).Raw? ==> p.Raw?
  {
  }

  lemma HeadBodyTail(head: bytes, body: bytes, tail: bytes)
    ensures var s := head + (body + tail);
      s[|head|..|head| + |body|] == body && s[|head| + |body|..] == tail
  {
  }

  lemma HeadedFields(next: byte, body: bytes, tail: bytes)
    requires |body| <= 0xFFFF - PAYLOAD_HEADER_LEN
    ensures var n := PAYLOAD_HEADER_LEN + |body|;
      var buf := [next, 0] + Put16(n) + body + tail;
      && |buf| >= n && buf[0] == next && buf[1] == 0 && Get16(buf, 2) == n
      && buf[PAYLOAD_HEADER_LEN..n] == body && buf[n..] == tail
  {
    var n := PAYLOAD_HEADER_LEN + |body|;
    var len := Put16(n);
    var head := [next, 0] + len;
    assert head + body + tail == head + (body + tail);
    HeadBodyTail(head, body, tail);
    FourThenData(head, body + tail);
    assert head[2] == len[0] && head[3] == len[1];
  }

  lemma PayloadFields(p: Payload, next: byte, tail: bytes)
    requires |Body(p)| <= 0xFFFF - PAYLOAD_HEADER_LEN
    ensures var buf, n := PayloadBytes(p, next) + tail, PAYLOAD_HEADER_LEN + |Body(p)|;
      && |buf| >= n && buf[0] == next && buf[1] == 0 && Get16(buf, 2) == n
      && buf[PAYLOAD_HEADER_LEN..n] == Body(p) && buf[n..] == tail
  {
    hide Body, Put16, Get16;
    HeadedFields(next, Body(p), tail);
  }

  /** Marshals each payload, then copies them one after the other and patches the type links. */
  method MarshalPayloadChain(ps: seq<Payload>) returns (r: bytes, first: byte)
    ensures r == ChainBytes(ps) && first == FirstType(ps)
  {
    hide PayloadBytes, TypeOf;
    if |ps| == 0 {
      return [], PAYLOAD_NONE;
    }
    r, first := [], TypeOf(ps[0]);
    for i := 0 to |ps|
      invariant r + ChainBytes(ps[i..]) == ChainBytes(ps)
    {
      assert ps[i..][1..] == ps[i + 1..];
      var m := PayloadBytes(ps[i], PAYLOAD_NONE);
      if i < |ps| - 1 {
        Relinked(ps[i], TypeOf(ps[i + 1]));
        m := m[0 := TypeOf(ps[i + 1])];
      } else {
        Relinked(ps[i], PAYLOAD_NONE);
        m := m[0 := PAYLOAD_NONE];
      }
      r := r + m;
    }
  }

  lemma Relinked(p: Payload, next: byte)
    ensures |PayloadBytes(p, PAYLOAD_NONE)| > 0
    ensures PayloadBytes(p, PAYLOAD_NONE)[0 := next] == PayloadBytes(p, next)
  {
    hide Body;
  }

  /** Ends on every input, within the buffer. */
  method ParsePayloadChain(buf: bytes, firstPayload: byte) returns (r: Parsed<seq<Entry>>)
    ensures r == ParseChain(buf, firstPayload)
  {
    hide ParseTyped, ParseChain;
    var chain: seq<Entry> := [];
    var nextType, offset := firstPayload, 0;
    assert buf[0..] == buf;
    BeforeNothing(ParseChain(buf, firstPayload));
    while nextType != PAYLOAD_NONE
      invariant offset <= |buf|
      invariant ParseChain(buf, firstPayload) == Before(chain, ParseChain(buf[offset..], nextType))
      decreases |buf| - offset
    {
      ghost var left := buf[offset..];
      ChainStep(left, nextType, chain);
      if offset + PAYLOAD_HEADER_LEN > |buf| {
        return Malformed;
      }
      var length: int := Get16(buf, offset + 2);
      if length < PAYLOAD_HEADER_LEN {
        return Malformed;
      }
      var endOffset := offset + length;
      if endOffset > |buf| {
        return Malformed;
      }
      assert left[PAYLOAD_HEADER_LEN..length] == buf[offset + PAYLOAD_HEADER_LEN..endOffset];
      var payload := ParseTyped(nextType, buf[offset + PAYLOAD_HEADER_LEN..endOffset]);
      if payload == Panics {
        return Panics;
      }
      if payload == Malformed {
        return Malformed;
      }
      if payload.value.Raw? && buf[offset + 1] >= 0x80 {
        return Malformed;
      }
      chain := chain + [Entry(buf[offset], buf[offset + 1] >= 0x80, length, payload.value)];
      assert left[length..] == buf[endOffset..];
      nextType, offset := buf[offset], endOffset;
    }
    ChainStep(buf[offset..], nextType, chain);
    r := Done(chain);
  }

  lemma ChainStep(buf: bytes, nextType: byte, done: seq<Entry>)
    ensures Before(done, ParseChain(buf, nextType)) ==
      if nextType == PAYLOAD_NONE then Done(done) else
      if |buf| < PAYLOAD_HEADER_LEN || !(PAYLOAD_HEADER_LEN <= Get16(buf, 2) <= |buf|) then Malformed else
      match ParseTyped(nextType, buf[PAYLOAD_HEADER_LEN..Get16(buf, 2)])
      case Malformed => Malformed
      case Panics => Panics
      case Done(p) =>
        if p.Raw? && buf[1] >= 0x80 then Malformed else
        Before(done + [Entry(buf[0], buf[1] >= 0x80, Get16(buf, 2), p)], ParseChain(buf[Get16(buf, 2)..], buf[0]))
  {
    hide ParseTyped, Get16;
    assert done + [] == done;
    if nextType != PAYLOAD_NONE && |buf| >= PAYLOAD_HEADER_LEN && PAYLOAD_HEADER_LEN <= Get16(buf, 2) <= |buf| {
      var rest := ParseChain(buf[Get16(buf, 2)..], buf[0]);
      var t := ParseTyped(nextType, buf[PAYLOAD_HEADER_LEN..Get16(buf, 2)]);
      if rest.Done? && t.Done? {
        var e := Entry(buf[0], buf[1] >= 0x80, Get16(buf, 2), t.value);
        assert done + ([e] + rest.value) == done + [e] + rest.value;
      }
    }
  }

  // The message.

  datatype Header = Header(iSpi: bytes, rSpi: bytes, nextPayload: byte, major: byte, minor: byte,
                           exchange: byte, flags: byte, messageId: u32, length: u32)

  datatype Message = Message(header: Header, payloads: seq<Entry>)

  /** Both versions share one byte: the major number is shifted as a byte, the minor masked. */
  function HeaderBytes(h: Header): bytes
    requires |h.iSpi| == 8 && |h.rSpi| == 8
  {
    h.iSpi + h.rSpi + [h.nextPayload, h.major % 16 * 16 + h.minor % 16, h.exchange, h.flags]
    + Put32(h.messageId) + Put32(h.length)
  }

  function ParseHeader(buf: bytes): Header
    requires |buf| >= HEADER_LEN
  {
    Header(buf[..8], buf[8..16], buf[16], buf[17] / 16, buf[17] % 16, buf[18], buf[19], Get32(buf, 20), Get32(buf, 24))
  }

  /** The header of section 3.1 of RFC 7296, byte by byte. */
  lemma HeaderIs(h: Header)
    requires |h.iSpi| == 8 && |h.rSpi| == 8 && h.major < 16 && h.minor < 16
    ensures var b := HeaderBytes(h);
      && |b| == 28 && b[..8] == h.iSpi && b[8..16] == h.rSpi
      && b[16] == h.nextPayload && b[17] == h.major * 16 + h.minor && b[18] == h.exchange && b[19] == h.flags
      && b[20..24] == Put32(h.messageId) && b[24..28] == Put32(h.length)
  {
  }

  /** A generic header: the next type, not critical, and the length with the header. */
  lemma PayloadIs(p: Payload, next: byte)
    requires 4 + |Body(p)| <= 0xFFFF
    ensures PayloadBytes(p, next) == [next, 0, (4 + |Body(p)|) / 256, (4 + |Body(p)|) % 256] + Body(p)
  {
    hide Body;
  }

  /** Messages are refused for a length out of range, major version 0 and an initiator SPI of zeros. */
  lemma RefusedExactly(buf: bytes)
    requires |buf| >= 28 && buf[17] / 16 == 2
    ensures var length := Get32(buf, 24);
      ParseMessage(buf) ==
        if length < 28 || length > |buf| || (forall i :: 0 <= i < 8 ==> buf[i] == 0) then Malformed else
        match ParseChain(buf[28..length], buf[16])
        case Malformed => Malformed
        case Panics => Panics
        case Done(es) =>
          var h := Header(buf[..8], buf[8..16], buf[16], 2, buf[17] % 16, buf[18], buf[19], Get32(buf, 20), length);
          Done(Message(h, es))
  {
    assert buf[..8] == Zeros(8) <==> forall i :: 0 <= i < 8 ==> buf[i] == 0 by {
      if buf[..8] == Zeros(8) {
        assert forall i :: 0 <= i < 8 ==> buf[i] == buf[..8][i];
      }
    }
    hide ParseChain, Get32;
  }

  /** An unknown payload marked critical is an error, one not marked is kept. */
  lemma CriticalExactly(buf: bytes, t: byte)
    requires t != 0 && |buf| >= 4 && 4 <= Get16(buf, 2) <= |buf| && !Known(t)
    ensures buf[1] >= 128 ==> ParseChain(buf, t) == Malformed
    ensures buf[1] < 128 ==>
      var length := Get16(buf, 2);
      var kept := Entry(buf[0], false, length, Raw(t, buf[4..length]));
      ParseChain(buf, t) == Before([kept], ParseChain(buf[length..], buf[0]))
  {
  }

  predicate ValidHeader(h: Header) {
    h.major != 0 && h.length >= HEADER_LEN && (h.major == IKEV2_MAJOR ==> h.iSpi != Zeros(8))
  }

  /** ParseMessage for messages of major version 2. */
  function ParseMessage(buf: bytes): Parsed<Message>
    requires |buf| >= HEADER_LEN ==> ParseHeader(buf).major == IKEV2_MAJOR
  {
    if |buf| < HEADER_LEN then Malformed else
    var h := ParseHeader(buf);
    if !ValidHeader(h) || h.length > |buf| then Malformed else
    match ParseChain(buf[HEADER_LEN..h.length], h.nextPayload)
    case Malformed => Malformed
    case Panics => Panics
    case Done(es) => Done(Message(h, es))
  }

  /** The header Marshal leaves in the message: the first payload's type and the length. */
  function Updated(h: Header, ps: seq<Payload>): Header {
    h.(nextPayload := FirstType(ps), length := ToU32(HEADER_LEN + |ChainBytes(ps)|))
  }

  function MessageBytes(h: Header, ps: seq<Payload>): bytes
    requires |h.iSpi| == 8 && |h.rSpi| == 8
  {
    HeaderBytes(Updated(h, ps)) + ChainBytes(ps)
  }

  lemma HeaderRoundTrip(h: Header, tail: bytes)
    requires |h.iSpi| == 8 && |h.rSpi| == 8 && h.major < 16 && h.minor < 16
    ensures |HeaderBytes(h)| == HEADER_LEN && ParseHeader(HeaderBytes(h) + tail) == h
  {
    var mid := [h.nextPayload, h.major * 16 + h.minor, h.exchange, h.flags];
    var buf := HeaderBytes(h) + tail;
    var head := h.iSpi + h.rSpi + mid;
    assert buf == head + Put32(h.messageId) + (Put32(h.length) + tail);
    Get32Put(head, h.messageId, Put32(h.length) + tail);
    assert buf == (head + Put32(h.messageId)) + Put32(h.length) + tail;
    Get32Put(head + Put32(h.messageId), h.length, tail);
    assert buf[..8] == h.iSpi && buf[8..16] == h.rSpi;
    assert buf[16] == mid[0] && buf[17] == mid[1] && buf[18] == mid[2] && buf[19] == mid[3];
  }

  /** A printed message parses to itself, up to the two header fields printing sets. */
  lemma MessageRoundTrip(h: Header, ps: seq<Payload>)
    requires |h.iSpi| == 8 && |h.rSpi| == 8 && h.major == IKEV2_MAJOR && h.minor < 16 && h.iSpi != Zeros(8)
    requires ChainFits(ps) && HEADER_LEN + |ChainBytes(ps)| < 0x1_0000_0000
    ensures |MessageBytes(h, ps)| >= HEADER_LEN && ParseHeader(MessageBytes(h, ps)).major == IKEV2_MAJOR
    ensures ParseMessage(MessageBytes(h, ps)) == Done(Message(Updated(h, ps), Entries(ps)))
  {
    assert Updated(h, ps).major == h.major;
    hide *;
    UpdatedHeader(h, ps);
    HeaderRoundTrip(Updated(h, ps), ChainBytes(ps));
    ChainRoundTrip(ps);
    MessageParsed(HeaderBytes(Updated(h, ps)), ChainBytes(ps), Updated(h, ps));
  }

  lemma UpdatedHeader(h: Header, ps: seq<Payload>)
    requires |h.iSpi| == 8 && |h.rSpi| == 8 && h.major == IKEV2_MAJOR && h.minor < 16 && h.iSpi != Zeros(8)
    requires HEADER_LEN + |ChainBytes(ps)| < 0x1_0000_0000
    ensures var u := Updated(h, ps);
      && ValidHeader(u) && u.iSpi == h.iSpi && u.rSpi == h.rSpi && u.major == h.major && u.minor == h.minor
      && u.nextPayload == FirstType(ps) && u.length == HEADER_LEN + |ChainBytes(ps)|
      && MessageBytes(h, ps) == HeaderBytes(u) + ChainBytes(ps)
  {
    hide ChainBytes, FirstType, HeaderBytes;
  }

  lemma MessageParsed(head: bytes, chain: bytes, h: Header)
    requires |head| == HEADER_LEN && ParseHeader(head + chain) == h && h.major == IKEV2_MAJOR && ValidHeader(h)
    requires h.length == HEADER_LEN + |chain| && ParseChain(chain, h.nextPayload).Done?
    ensures ParseMessage(head + chain) == Done(Message(h, ParseChain(chain, h.nextPayload).value))
  {
    hide ParseChain, ParseHeader, ValidHeader;
    assert (head + chain)[HEADER_LEN..|head + chain|] == chain;
  }
}
