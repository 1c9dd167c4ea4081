/** PPP frames inside L2TP, and the packet format shared by LCP, CHAP and IPCP. */
module Ppp {
  import opened Bytes

  const PROTO_IPV4: u16 := 0x0021
  const PROTO_IPCP: u16 := 0x8021
  const PROTO_LCP: u16 := 0xC021
  const PROTO_CHAP: u16 := 0xC223

  const CONFIGURE_REQUEST: byte := 1
  const CONFIGURE_ACK: byte := 2
  const CONFIGURE_NAK: byte := 3
  const CONFIGURE_REJECT: byte := 4
  const TERMINATE_REQUEST: byte := 5
  const TERMINATE_ACK: byte := 6
  const PROTOCOL_REJECT: byte := 8
  const ECHO_REQUEST: byte := 9
  const ECHO_REPLY: byte := 10

  datatype Frame = Frame(protocol: u16, payload: bytes)

  /** Address and control bytes, and the high protocol byte, may be left out by the peer. */
  function ParseFrame(data: bytes): Result<Frame> {
    if |data| < 2 then Err else
    if data[0] != 0xFF then ParseProtocol(data) else
    if |data| < 4 || data[1] != 3 then Err else ParseProtocol(data[2..])
  }

  function ParseProtocol(rest: bytes): Result<Frame> {
    if |rest| < 1 then Err else
    if rest[0] % 2 != 0 then Ok(Frame(rest[0], rest[1..])) else
    if |rest| < 2 then Err else Ok(Frame(Get16(rest, 0), rest[2..]))
  }

  function SerializeFrame(protocol: u16, payload: bytes): bytes { [0xFF, 3] + Put16(protocol) + payload }

  /** A protocol number survives the wire if and only if its high byte is even (section 2 of RFC 1661). */
  lemma FrameRoundTripExactly(protocol: u16, payload: bytes)
    ensures ParseFrame(SerializeFrame(protocol, payload)) == Ok(Frame(protocol, payload)) <==> protocol / 0x100 % 2 == 0
  {
    var data := SerializeFrame(protocol, payload);
    assert data[2..] == Put16(protocol) + payload;
    var rest := data[2..];
    assert rest[2..] == payload;
    assert rest[0] == protocol / 0x100 && rest[1] == protocol % 0x100;
  }

  /**
   The four forms of a frame (sections 6.5 and 6.6 of RFC 1661): address and control there
   or left out, the protocol in two bytes or, if its high byte is zero and the low one odd,
   in one.
   */
  lemma FormsParsed(hi: byte, lo: byte, data: bytes)
    ensures hi % 2 == 0 ==>
      && ParseFrame([0xFF, 0x03, hi, lo] + data) == Ok(Frame(hi as int * 256 + lo as int, data))
      && ParseFrame([hi, lo] + data) == Ok(Frame(hi as int * 256 + lo as int, data))
    ensures lo % 2 == 1 && data != [] ==>
      && ParseFrame([0xFF, 0x03, lo] + data) == Ok(Frame(lo, data))
      && (lo != 0xFF ==> ParseFrame([lo] + data) == Ok(Frame(lo, data)))
  {
    assert ([0xFF, 0x03, hi, lo] + data)[2..] == [hi, lo] + data && ([hi, lo] + data)[2..] == data;
    assert ([0xFF, 0x03, lo] + data)[2..] == [lo] + data && ([lo] + data)[1..] == data;
  }

  /** Everything else is an error: a short frame, another control byte, a missing protocol byte. */
  lemma FrameRefusedExactly(data: bytes)
    ensures ParseFrame(data).Err? <==>
      || |data| < 2
      || (data[0] == 0xFF && (|data| < 4 || data[1] != 3))
  {
  }

  // Control packets.

  /** What a handler answers; Panics is a slice or index error in the source. */
  datatype Reply = Silent | Send(packet: bytes) | Panics

  datatype Incoming = Ignored | Unguarded | Packet(code: byte, id: byte, payload: bytes)

  /** A stated length beyond the data is ignored; one below the header length is not guarded. */
  function Received(data: bytes): Incoming {
    if |data| < 4 then Ignored else
    var len := Get16(data, 2);
    if len > |data| then Ignored else
    if len < 4 then Unguarded else Packet(data[0], data[1], data[4..len])
  }

  /** The length is a uint16, and the buffer made with it holds as much of the data as it can. */
  function Response(code: byte, id: byte, data: bytes): Reply {
    var len := ToU16(4 + |data|);
    if len < 4 then Panics else Send([code, id] + Put16(len) + data[..len - 4])
  }

  /** Code, identifier, the length with the header, and what the length covers of the rest. */
  lemma PacketRead(code: byte, id: byte, hi: byte, lo: byte, rest: bytes)
    ensures var len := hi as int * 256 + lo as int;
      Received([code, id, hi, lo] + rest) ==
        if len > 4 + |rest| then Ignored else if len < 4 then Unguarded else Packet(code, id, rest[..len - 4])
    ensures forall short: bytes :: |short| < 4 ==> Received(short) == Ignored
  {
    var data := [code, id, hi, lo] + rest;
    var len := hi as int * 256 + lo as int;
    assert Get16(data, 2) == len;
    if 4 <= len <= |data| {
      assert data[4..len] == rest[..len - 4];
    }
  }

  /** A frame with address, control, protocol, and a control packet, byte by byte. */
  function WireFrame(protocol: u16, code: byte, id: byte, data: bytes): bytes
    requires |data| <= 0xFFFB
  {
    [0xFF, 0x03, protocol / 256, protocol % 256, code, id, (4 + |data|) / 256, (4 + |data|) % 256] + data
  }

  /** What a session sends for an answer that fits its length field. */
  lemma AnswerOnWire(protocol: u16, code: byte, id: byte, data: bytes)
    requires |data| <= 0xFFFB
    ensures var r := Response(code, id, data);
      r.Send? && SerializeFrame(protocol, r.packet) == WireFrame(protocol, code, id, data)
  {
    assert data[..|data|] == data;
  }

  /** And how such a frame is read. */
  lemma FrameRead(protocol: u16, code: byte, id: byte, data: bytes)
    requires |data| <= 0xFFFB && protocol / 256 % 2 == 0
    ensures var f := ParseFrame(WireFrame(protocol, code, id, data));
      f.Ok? && f.value.protocol == protocol && Received(f.value.payload) == Packet(code, id, data)
  {
    var len := 4 + |data|;
    var packet := [code, id, len / 256, len % 256] + data;
    assert WireFrame(protocol, code, id, data) == [0xFF, 0x03, protocol / 256, protocol % 256] + packet;
    FormsParsed(protocol / 256, protocol % 256, packet);
    PacketRead(code, id, len / 256, len % 256, data);
    assert data[..|data|] == data;
  }

  method BuildResponse(code: byte, id: byte, data: bytes) returns (r: Reply)
    ensures r == Response(code, id, data)
  {
    var len := ToU16(4 + |data|);
    if len < 4 {
      return Panics;
    }
    var pkt := Assemble([code, id], Put16(len), data[..len - 4]);
    r := Send(pkt);
  }

  lemma ShortSends(code: byte, id: byte, data: bytes)
    requires |data| <= 0xFFFB
    ensures Response(code, id, data).Send?
  {
  }

  /** The peer reads back the packet that was built, if and only if the data fits the length field. */
  lemma ResponseReceivedExactly(code: byte, id: byte, data: bytes)
    ensures var r := Response(code, id, data);
      r.Send? && Received(r.packet) == Packet(code, id, data) <==> |data| <= 0xFFFB
  {
    var r := Response(code, id, data);
    if r.Send? {
      var len := ToU16(4 + |data|);
      Get16Put([code, id], len, data[..len - 4]);
      assert r.packet[4..len] == data[..len - 4];
      if |data| <= 0xFFFB {
        assert data[..len - 4] == data;
      }
    }
  }
}
