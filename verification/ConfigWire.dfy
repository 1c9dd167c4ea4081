/**
 Option negotiation on the wire, where a packet states its length in 16 bits, for any
 rule about the options.
 */
module ConfigWire {
  import opened Bytes
  import opened Ppp
  import opened ConfigOptions

  /** A whole request as the peer sends it, and the options it can hold. */
  function RequestPacket(id: byte, os: seq<bytes>): bytes
    requires |Concat(os)| <= 0xFFFB
  {
    [CONFIGURE_REQUEST, id] + Put16(4 + |Concat(os)|) + Concat(os)
  }

  lemma RequestIsRead(id: byte, os: seq<bytes>)
    requires |Concat(os)| <= 0xFFFB
    ensures Received(RequestPacket(id, os)) == Packet(CONFIGURE_REQUEST, id, Concat(os))
  {
    var data, len := RequestPacket(id, os), 4 + |Concat(os)|;
    Get16Put([CONFIGURE_REQUEST, id], len, Concat(os));
    assert data[4..len] == Concat(os);
  }

  /** A handler's answer to a request. */
  function AnswerPacket(judge: Judge, id: byte, os: seq<bytes>): Reply {
    var (code, body) := Answer(judge, ParseOptions(Concat(os)));
    Response(code, id, body)
  }

  /** The peer's next request after one exchange; None when it has none to send or hears nothing. */
  function WireRound(judge: Judge, id: byte, os: seq<bytes>): Option<seq<bytes>> {
    if |Concat(os)| > 0xFFFB then None else
    match AnswerPacket(judge, id, os)
    case Silent => None
    case Panics => None
    case Send(p) =>
      match Received(p)
      case Ignored => None
      case Unguarded => None
      case Packet(code, _, body) => Some(NextRequest(os, (code, body)))
  }

  /** The third request fits a packet and is acknowledged, option for option. */
  ghost predicate ThirdAcked(judge: Judge, ids: (byte, byte, byte), os: seq<bytes>) {
    var second := WireRound(judge, ids.0, os);
    && second.Some?
    && var third := WireRound(judge, ids.1, second.value);
    && third.Some? && |Concat(third.value)| <= 0xFFFB
    && AnswerPacket(judge, ids.2, third.value) == Response(CONFIGURE_ACK, ids.2, Concat(third.value))
  }

  /** A round whose answer fits the length field is a round of the option lists. */
  lemma WireRoundIs(judge: Judge, id: byte, os: seq<bytes>)
    requires AllWellFormed(os) && |Concat(os)| <= 0xFFFB && |Answer(judge, os).1| <= 0xFFFB
    ensures WireRound(judge, id, os) == Some(Round(judge, os))
  {
    ParseUndoesConcat(os);
    var (code, body) := Answer(judge, os);
    ResponseReceivedExactly(code, id, body);
    hide Received, Response, Answer, ParseOptions, Concat;
  }

  lemma {:induction false} WithoutShorter(os: seq<bytes>, gone: seq<bytes>)
    ensures |Concat(Without(os, gone))| <= |Concat(os)|
  {
    if os != [] {
      WithoutShorter(os[1..], gone);
      var rest := Without(os[1..], gone);
      assert [] + rest == rest && ([os[0]] + rest)[1..] == rest;
    }
  }
}
