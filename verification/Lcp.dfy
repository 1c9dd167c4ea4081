/** Server-side LCP (RFC 1661): the option rule and the handler. */
module Lcp {
  import opened Bytes
  import opened Ppp
  import opened ConfigOptions

  const OPT_MRU: byte := 1
  const OPT_AUTH_PROTO: byte := 3
  const OPT_MAGIC: byte := 5
  const OPT_PF_COMPRESS: byte := 7
  const OPT_ACF_COMPRESS: byte := 8
  const DEFAULT_MRU: u16 := 1500

  const INITIAL: byte := 0
  const REQ_SENT: byte := 1
  const OPENED: byte := 4
  const CLOSED: byte := 5

  const MRU_NAK: bytes := [OPT_MRU, 4, 5, 220]
  const CHAP_NAK: bytes := [OPT_AUTH_PROTO, 5, 0xC2, 0x23, 5]

  const AUTH_REQUIRED := Text("Authentication required")

  /** Any CHAP algorithm is accepted; only the suggestion names MD5. */
  function JudgeOption(o: bytes): Verdict {
    if |o| < 2 then Reject else
    if o[0] == OPT_MRU then
      if |o| < 4 then Reject else if 128 <= Get16(o, 2) <= 16384 then Ack else Nak(MRU_NAK)
    else if o[0] == OPT_AUTH_PROTO then
      if |o| < 4 then Reject else if Get16(o, 2) == PROTO_CHAP then Ack else Nak(CHAP_NAK)
    else if o[0] == OPT_MAGIC then
      if |o| < 6 then Reject else Ack
    else if o[0] == OPT_PF_COMPRESS || o[0] == OPT_ACF_COMPRESS then Ack else Reject
  }

  lemma JudgeIsSoundAndConsistent()
    ensures Sound(JudgeOption) && Consistent(JudgeOption)
  {
    assert JudgeOption(MRU_NAK).Ack? && JudgeOption(CHAP_NAK).Ack?;
    forall o ensures Settles(JudgeOption, o) {
    }
  }

  /** For every peer that takes over our answers, the third request at the latest is acknowledged. */
  lemma LcpConverges(os: seq<bytes>)
    requires AllWellFormed(os)
    ensures var third := Round(JudgeOption, Round(JudgeOption, os));
      Answer(JudgeOption, ParseOptions(Concat(third))) == (CONFIGURE_ACK, Concat(third))
  {
    JudgeIsSoundAndConsistent();
    ThirdRequestAcked(JudgeOption, os);
  }

  /** What an acknowledged request holds: a fair MRU, CHAP, and nothing unknown, read in order. */
  lemma LcpAckMeans(b: bytes)
    requires Answer(JudgeOption, ParseOptions(b)).0 == CONFIGURE_ACK
    ensures var os := ParseOptions(b);
      && Answer(JudgeOption, os).1 == Concat(os) <= b
      && forall i :: 0 <= i < |os| ==>
        && os[i][0] in {OPT_MRU, OPT_AUTH_PROTO, OPT_MAGIC, OPT_PF_COMPRESS, OPT_ACF_COMPRESS}
        && (os[i][0] == OPT_MRU ==> |os[i]| >= 4 && 128 <= Get16(os[i], 2) <= 16384)
        && (os[i][0] == OPT_AUTH_PROTO ==> |os[i]| >= 4 && Get16(os[i], 2) == PROTO_CHAP)
  {
    JudgeIsSoundAndConsistent();
    AckExactly(JudgeOption, b);
    var os := ParseOptions(b);
    hide Answer, Concat, ParseOptions;
    forall i | 0 <= i < |os|
      ensures os[i][0] in {OPT_MRU, OPT_AUTH_PROTO, OPT_MAGIC, OPT_PF_COMPRESS, OPT_ACF_COMPRESS}
      ensures os[i][0] == OPT_MRU ==> |os[i]| >= 4 && 128 <= Get16(os[i], 2) <= 16384
      ensures os[i][0] == OPT_AUTH_PROTO ==> |os[i]| >= 4 && Get16(os[i], 2) == PROTO_CHAP
    {
      assert JudgeOption(os[i]).Ack?;
    }
  }

  // The answer spelled out.

  /** MRU, authentication, magic number and the two compressions, with a value where they have one. */
  predicate Known(o: bytes) {
    |o| >= 2 && (((o[0] == 1 || o[0] == 3) && |o| >= 4) || (o[0] == 5 && |o| >= 6) || o[0] == 7 || o[0] == 8)
  }

  function Field16(o: bytes): int
    requires |o| >= 4
  {
    o[2] as int * 256 + o[3] as int
  }

  /** An MRU out of range, or another protocol than CHAP. */
  predicate Unwanted(o: bytes) {
    Known(o) && ((o[0] == 1 && !(128 <= Field16(o) <= 16384)) || (o[0] == 3 && Field16(o) != 0xC223))
  }

  function Refused(os: seq<bytes>): seq<bytes> {
    if os == [] then [] else (if Known(os[0]) then [] else [os[0]]) + Refused(os[1..])
  }

  /** An MRU of 1500, and CHAP with MD5. */
  function Suggested(os: seq<bytes>): seq<bytes> {
    if os == [] then [] else
    (if !Unwanted(os[0]) then [] else if os[0][0] == 1 then [[1, 4, 0x05, 0xDC]] else [[3, 5, 0xC2, 0x23, 5]])
    + Suggested(os[1..])
  }

  /**
   Unknown and short options are refused, all of them and nothing else; failing that,
   every unwanted value is answered with our own; failing that, the request is
   acknowledged as it came.
   */
  lemma AnswersExactly(os: seq<bytes>)
    requires AllWellFormed(os)
    ensures Answer(JudgeOption, os) ==
      if Refused(os) != [] then (4, Concat(Refused(os)))
      else if Suggested(os) != [] then (3, Concat(Suggested(os)))
      else (2, Concat(os))
  {
    AnswerParts(os);
    if Refused(os) == [] && Suggested(os) == [] {
      NothingUnwanted(os);
      AckedAll(JudgeOption, os);
    }
  }

  lemma {:induction false} AnswerParts(os: seq<bytes>)
    requires AllWellFormed(os)
    ensures Rejected(JudgeOption, os) == Concat(Refused(os)) && (Rejected(JudgeOption, os) == [] <==> Refused(os) == [])
    ensures Naked(JudgeOption, os) == Concat(Suggested(os)) && (Naked(JudgeOption, os) == [] <==> Suggested(os) == [])
  {
    if os != [] {
      assert WellFormed(os[0]);
      AnswerParts(os[1..]);
      OptionJudged(os[0]);
      hide JudgeOption, Known, Unwanted;
      assert ([os[0]] + Refused(os[1..]))[1..] == Refused(os[1..]);
      assert ([MRU_NAK] + Suggested(os[1..]))[1..] == Suggested(os[1..]);
      assert ([CHAP_NAK] + Suggested(os[1..]))[1..] == Suggested(os[1..]);
      assert [] + Refused(os[1..]) == Refused(os[1..]) && [] + Suggested(os[1..]) == Suggested(os[1..]);
    }
  }

  lemma OptionJudged(o: bytes)
    requires |o| >= 2
    ensures JudgeOption(o).Reject? <==> !Known(o)
    ensures Known(o) && !Unwanted(o) ==> JudgeOption(o) == Ack
    ensures Unwanted(o) ==>
      (JudgeOption(o) == if o[0] == 1 then Nak([1, 4, 0x05, 0xDC]) else Nak([3, 5, 0xC2, 0x23, 5]))
  {
  }

  lemma {:induction false} NothingUnwanted(os: seq<bytes>)
    requires AllWellFormed(os) && Refused(os) == [] && Suggested(os) == []
    ensures AllAck(JudgeOption, os)
  {
    if os != [] {
      assert WellFormed(os[0]);
      OptionJudged(os[0]);
      NothingUnwanted(os[1..]);
      assert os == [os[0]] + os[1..];
    }
  }

  // The handler.

  datatype State = State(state: byte, localMagic: u32, remoteMagic: u32, mru: u16, nextId: byte,
                         ourAcked: bool, peerAcked: bool)
  {
    function Request(): (Reply, State) {
      var id := ToByte(nextId + 1);
      (Response(CONFIGURE_REQUEST, id, [OPT_MRU, 4] + Put16(mru) + CHAP_NAK + [OPT_MAGIC, 6] + Put32(localMagic)),
       this.(nextId := id, state := if state == INITIAL then REQ_SENT else state))
    }

    function Checked(): State {
      if ourAcked && peerAcked then this.(state := OPENED) else this
    }

    /** An acceptable MRU or magic number is taken over at once, whatever becomes of the request. */
    function Learned(o: bytes): State {
      if !JudgeOption(o).Ack? then this else
      if o[0] == OPT_MRU then this.(mru := Get16(o, 2)) else
      if o[0] == OPT_MAGIC then this.(remoteMagic := Get32(o, 2)) else this
    }

    function LearnedAll(os: seq<bytes>): State
      decreases os
    {
      if os == [] then this else Learned(os[0]).LearnedAll(os[1..])
    }

    function OnRequest(id: byte, options: bytes): (Reply, State) {
      var os := ParseOptions(options);
      var (code, body) := Answer(JudgeOption, os);
      var h := LearnedAll(os);
      (Response(code, id, body), if code == CONFIGURE_ACK then h.(peerAcked := true).Checked() else h)
    }

    function OnAck(id: byte): State {
      if id != nextId then this else this.(ourAcked := true).Checked()
    }

    /** A suggested MRU is taken over unchecked; a magic number is drawn anew. */
    function Adjusted(os: seq<bytes>, rand: u32): State
      decreases os
    {
      if os == [] then this else
      var o := os[0];
      (if |o| >= 4 && o[0] == OPT_MRU then this.(mru := Get16(o, 2)) else
       if |o| >= 2 && o[0] == OPT_MAGIC then this.(localMagic := rand) else this).Adjusted(os[1..], rand)
    }

    /** Nothing but the magic number is given up; a refusal to authenticate closes the link. */
    function OnReject(os: seq<bytes>): (Reply, State)
      decreases os
    {
      if os == [] then Request() else
      var o := os[0];
      if |o| > 0 && o[0] == OPT_AUTH_PROTO then
        (Response(TERMINATE_REQUEST, nextId, AUTH_REQUIRED), this.(state := CLOSED))
      else (if |o| > 0 && o[0] == OPT_MAGIC then this.(localMagic := 0) else this).OnReject(os[1..])
    }

    function EchoReply(id: byte, payload: bytes): Reply {
      Response(ECHO_REPLY, id, Put32(localMagic) + if |payload| > 4 then payload[4..] else [])
    }

    function Handle(data: bytes, rand: u32): (Reply, State) {
      match Received(data)
      case Ignored => (Silent, this)
      case Unguarded => (Panics, this)
      case Packet(code, id, payload) =>
        if code == CONFIGURE_REQUEST then OnRequest(id, payload) else
        if code == CONFIGURE_ACK then (Silent, OnAck(id)) else
        if code == CONFIGURE_NAK then Adjusted(ParseOptions(payload), rand).Request() else
        if code == CONFIGURE_REJECT then OnReject(ParseOptions(payload)) else
        if code == TERMINATE_REQUEST then (Response(TERMINATE_ACK, id, []), this.(state := CLOSED)) else
        if code == ECHO_REQUEST then (EchoReply(id, payload), this) else (Silent, this)
    }

    /** The rejected packet, cut to what the MRU leaves. */
    function ProtocolReject(protocol: u16, packet: bytes): (Reply, State) {
      var id := ToByte(nextId + 1);
      var room := if mru < 6 then 0 else mru - 6;
      (Response(PROTOCOL_REJECT, id, Put16(protocol) + if |packet| > room then packet[..room] else packet),
       this.(nextId := id))
    }

    /** Opened only with both requests acknowledged; nothing takes an acknowledgment back. */
    predicate Valid() { state == OPENED ==> ourAcked && peerAcked }
  }

  function Initial(magic: u32): State { State(INITIAL, magic, 0, DEFAULT_MRU, 0, false, false) }

  lemma {:induction false} LearnedAllKeeps(h: State, os: seq<bytes>)
    ensures h.LearnedAll(os) == h.(mru := h.LearnedAll(os).mru, remoteMagic := h.LearnedAll(os).remoteMagic)
    decreases os
  {
    if os != [] {
      LearnedAllKeeps(h.Learned(os[0]), os[1..]);
    }
  }

  lemma {:induction false} AdjustedKeeps(h: State, os: seq<bytes>, rand: u32)
    ensures h.Adjusted(os, rand) == h.(mru := h.Adjusted(os, rand).mru, localMagic := h.Adjusted(os, rand).localMagic)
    decreases os
  {
    if os != [] {
      var o := os[0];
      var h' := if |o| >= 4 && o[0] == OPT_MRU then h.(mru := Get16(o, 2)) else
                if |o| >= 2 && o[0] == OPT_MAGIC then h.(localMagic := rand) else h;
      AdjustedKeeps(h', os[1..], rand);
    }
  }

  lemma {:induction false} OnRejectKeeps(h: State, os: seq<bytes>)
    ensures var h' := h.OnReject(os).1;
      h'.ourAcked == h.ourAcked && h'.peerAcked == h.peerAcked && (h'.state == OPENED ==> h.state == OPENED)
    decreases os
  {
    if os != [] {
      OnRejectKeeps(h.(localMagic := 0), os[1..]);
      OnRejectKeeps(h, os[1..]);
    }
  }

  /**
   What a packet can do to the two acknowledgments: ours needs a Configure-Ack
   with the current identifier, the peer's a request we answer with Configure-Ack.
   */
  lemma AcksExactly(h: State, data: bytes, rand: u32)
    ensures var h', p := h.Handle(data, rand).1, Received(data);
      && (h'.ourAcked <==> h.ourAcked || (p.Packet? && p.code == CONFIGURE_ACK && p.id == h.nextId))
      && (h'.peerAcked <==>
        || h.peerAcked
        || (p.Packet? && p.code == CONFIGURE_REQUEST
            && Answer(JudgeOption, ParseOptions(p.payload)).0 == CONFIGURE_ACK))
      && (h.Valid() ==> h'.Valid())
  {
    hide Received, Answer, ParseOptions, Response;
    match Received(data)
    case Ignored =>
    case Unguarded =>
    case Packet(code, id, payload) =>
      LearnedAllKeeps(h, ParseOptions(payload));
      AdjustedKeeps(h, ParseOptions(payload), rand);
      OnRejectKeeps(h, ParseOptions(payload));
      hide State.LearnedAll, State.Adjusted, State.OnReject;
  }

  function AfterRejects(h: State, protocols: seq<u16>): State {
    if protocols == [] then h else
    AfterRejects(h, protocols[..|protocols| - 1]).ProtocolReject(protocols[|protocols| - 1], []).1
  }

  lemma {:induction false} AfterRejectsIs(h: State, protocols: seq<u16>)
    ensures AfterRejects(h, protocols) == h.(nextId := ToByte(h.nextId + |protocols|))
  {
    hide Response;
    if protocols != [] {
      AfterRejectsIs(h, protocols[..|protocols| - 1]);
    }
  }

  /**
   Rejecting a protocol while our request is out moves nextId away from the
   request's identifier: its acknowledgment then counts if and only if the number
   of rejects is a multiple of 256.
   */
  lemma AckAfterRejectsExactly(h: State, protocols: seq<u16>)
    requires !h.ourAcked
    ensures AfterRejects(h, protocols).OnAck(h.nextId).ourAcked <==> |protocols| % 256 == 0
  {
    hide *;
    AfterRejectsIs(h, protocols);
    WrapsAround(h.nextId, |protocols|);
    AckCounts(AfterRejects(h, protocols), h.nextId);
  }

  lemma AckCounts(h: State, id: byte)
    requires !h.ourAcked
    ensures h.OnAck(id).ourAcked <==> id == h.nextId
  {
  }

  lemma WrapsAround(id: byte, n: nat)
    ensures ToByte(id + n) == id <==> n % 256 == 0
  {
    assert (id + n) / 256 == 0 || (id + n) / 256 >= 1;
  }

  // What the other packets are answered with, and what is remembered of them.

  /** Our request: the MRU, CHAP with MD5, and the magic number. */
  function OurOptions(h: State): bytes {
    [1, 4, h.mru / 256, h.mru % 256, 3, 5, 0xC2, 0x23, 5, 5, 6] + Put32(h.localMagic)
  }

  lemma RequestIs(h: State)
    ensures h.Request().0 == Response(1, (h.nextId as int + 1) % 256, OurOptions(h))
    ensures h.Request().1 == h.(nextId := (h.nextId as int + 1) % 256, state := if h.state == 0 then 1 else h.state)
  {
    assert [OPT_MRU, 4] + Put16(h.mru) + CHAP_NAK + [OPT_MAGIC, 6] + Put32(h.localMagic) == OurOptions(h);
  }

  /** The value of the last option of a list that carries an MRU, if there is one. */
  ghost predicate LastMru(os: seq<bytes>, fits: bool, was: u16, mru: u16) {
    || (mru == was && forall i :: 0 <= i < |os| ==> !CarriesMru(os[i], fits))
    || exists i: nat :: MruAt(os, fits, i, mru)
  }

  ghost predicate MruAt(os: seq<bytes>, fits: bool, i: nat, mru: u16) {
    && i < |os| && CarriesMru(os[i], fits) && mru == Field16(os[i])
    && forall k :: i < k < |os| ==> !CarriesMru(os[k], fits)
  }

  predicate CarriesMru(o: bytes, fits: bool) {
    |o| >= 4 && o[0] == 1 && (fits ==> 128 <= Field16(o) <= 16384)
  }

  ghost predicate LastMagic(os: seq<bytes>, was: u32, magic: u32) {
    || (magic == was && forall i :: 0 <= i < |os| ==> !CarriesMagic(os[i]))
    || exists i: nat :: MagicAt(os, i, magic)
  }

  ghost predicate MagicAt(os: seq<bytes>, i: nat, magic: u32) {
    && i < |os| && CarriesMagic(os[i]) && magic == Get32(os[i], 2)
    && forall k :: i < k < |os| ==> !CarriesMagic(os[k])
  }

  predicate CarriesMagic(o: bytes) { |o| >= 6 && o[0] == 5 }

  /** A request's MRU and magic number are remembered, the last ones that are acceptable, and nothing else. */
  lemma {:induction false} LearnedExactly(h: State, os: seq<bytes>)
    ensures var h' := h.LearnedAll(os);
      && LastMru(os, true, h.mru, h'.mru) && LastMagic(os, h.remoteMagic, h'.remoteMagic)
      && h' == h.(mru := h'.mru, remoteMagic := h'.remoteMagic)
    decreases os
  {
    if os != [] {
      var o, rest := os[0], os[1..];
      LearnedExactly(h.Learned(o), rest);
      OneLearned(h, o);
      var h' := h.LearnedAll(os);
      hide State.LearnedAll, State.Learned, CarriesMru, CarriesMagic;
      MoreMru(o, rest, true, h.mru, h.Learned(o).mru, h'.mru);
      MoreMagic(o, rest, h.remoteMagic, h.Learned(o).remoteMagic, h'.remoteMagic);
      assert os == [o] + rest;
    }
  }

  lemma OneLearned(h: State, o: bytes)
    ensures var h' := h.Learned(o);
      && h'.mru == (if CarriesMru(o, true) then Field16(o) else h.mru)
      && h'.remoteMagic == (if CarriesMagic(o) then Get32(o, 2) else h.remoteMagic)
      && h' == h.(mru := h'.mru, remoteMagic := h'.remoteMagic)
  {
  }

  lemma MoreMru(o: bytes, rest: seq<bytes>, fits: bool, was: u16, now: u16, mru: u16)
    requires LastMru(rest, fits, now, mru) && now == if CarriesMru(o, fits) then Field16(o) else was
    ensures LastMru([o] + rest, fits, was, mru)
  {
    var os := [o] + rest;
    hide CarriesMru, Field16;
    assert os[0] == o && forall k :: 0 < k < |os| ==> os[k] == rest[k - 1];
    if i: nat :| MruAt(rest, fits, i, mru) {
      assert MruAt(os, fits, i + 1, mru);
    } else if CarriesMru(o, fits) {
      assert MruAt(os, fits, 0, mru);
    }
  }

  lemma MoreMagic(o: bytes, rest: seq<bytes>, was: u32, now: u32, magic: u32)
    requires LastMagic(rest, now, magic) && now == if CarriesMagic(o) then Get32(o, 2) else was
    ensures LastMagic([o] + rest, was, magic)
  {
    var os := [o] + rest;
    hide CarriesMagic, Get32;
    assert os[0] == o && forall k :: 0 < k < |os| ==> os[k] == rest[k - 1];
    if i: nat :| MagicAt(rest, i, magic) {
      assert MagicAt(os, i + 1, magic);
    } else if CarriesMagic(o) {
      assert MagicAt(os, 0, magic);
    }
  }

  /** A Nak: the last suggested MRU is taken over, whatever it is; a magic number is drawn anew if one is named. */
  lemma {:induction false} AdjustedExactly(h: State, os: seq<bytes>, rand: u32)
    requires AllWellFormed(os)
    ensures var h' := h.Adjusted(os, rand);
      && LastMru(os, false, h.mru, h'.mru)
      && h'.localMagic == (if exists o :: o in os && o[0] == 5 then rand else h.localMagic)
      && h' == h.(mru := h'.mru, localMagic := h'.localMagic)
    decreases os
  {
    if os != [] {
      var o, rest := os[0], os[1..];
      assert WellFormed(o) && os == [o] + rest;
      var now :=
        if o[0] == 1 && |o| >= 4 then h.(mru := Get16(o, 2)) else if o[0] == 5 then h.(localMagic := rand) else h;
      AdjustedExactly(now, rest, rand);
      assert h.Adjusted(os, rand) == now.Adjusted(rest, rand);
      assert now.mru == if CarriesMru(o, false) then Field16(o) else h.mru;
      var h' := h.Adjusted(os, rand);
      hide State.Adjusted, CarriesMru;
      MoreMru(o, rest, false, h.mru, now.mru, h'.mru);
    }
  }

  /** A Reject of authentication closes the link; any other is met with our request, without a rejected magic number. */
  lemma {:induction false} RejectionExactly(h: State, os: seq<bytes>)
    requires AllWellFormed(os)
    ensures var (r, h') := h.OnReject(os);
      if exists o :: o in os && o[0] == 3
      then r == Response(5, h.nextId, Text("Authentication required")) && h'.state == 5 && h'.mru == h.mru
      else (r, h') == h.(localMagic := if exists o :: o in os && o[0] == 5 then 0 else h.localMagic).Request()
    decreases os
  {
    if os != [] {
      var o, rest := os[0], os[1..];
      assert WellFormed(o) && os == [o] + rest;
      if o[0] != 3 {
        var now := if o[0] == 5 then h.(localMagic := 0) else h;
        RejectionExactly(now, rest);
        assert h.OnReject(os) == now.OnReject(rest);
        hide State.OnReject, State.Request, Response;
        assert (exists q :: q in os && q[0] == 3) <==> (exists q :: q in rest && q[0] == 3);
      }
    }
  }

  /** An Echo-Request is answered with our magic number and its data, a Terminate-Request is acknowledged. */
  lemma OthersAnswered(h: State, data: bytes, rand: u32)
    requires Received(data).Packet?
    ensures var p, (r, h') := Received(data), h.Handle(data, rand);
      && (p.code == 9 ==>
            h' == h && r == Response(10, p.id, Put32(h.localMagic) + if |p.payload| > 4 then p.payload[4..] else []))
      && (p.code == 5 ==> h' == h.(state := 5) && r == Response(6, p.id, []))
      && (p.code == 3 ==> (r, h') == h.Adjusted(ParseOptions(p.payload), rand).Request())
      && (p.code == 4 ==> (r, h') == h.OnReject(ParseOptions(p.payload)))
      && (p.code == 0 || p.code == 6 || p.code == 7 || p.code == 8 || p.code >= 11 ==> r == Silent && h' == h)
  {
    hide Received, Response, ParseOptions, Answer;
  }

  /** What is rejected goes back behind its protocol number, cut to what our MRU leaves of it. */
  lemma ProtocolRejectIs(h: State, protocol: u16, packet: bytes)
    ensures var (r, h') := h.ProtocolReject(protocol, packet);
      && h' == h.(nextId := (h.nextId as int + 1) % 256)
      && exists n: nat :: n <= |packet| && r == Response(8, h'.nextId, [protocol / 256, protocol % 256] + packet[..n])
           && (n == |packet| || n == if h.mru < 6 then 0 else h.mru - 6) && (n <= h.mru - 6 || n == 0)
  {
    var room := if h.mru < 6 then 0 else h.mru - 6;
    var n := if |packet| > room then room else |packet|;
    assert packet[..n] == if |packet| > room then packet[..room] else packet;
    assert h.ProtocolReject(protocol, packet).0
      == Response(8, ToByte(h.nextId + 1), [protocol / 256, protocol % 256] + packet[..n]);
  }

  /** The length of the suggestions for a list: 4 bytes for each bad MRU, 5 for each other protocol than CHAP. */
  function NakLength(os: seq<bytes>): nat {
    if os == [] then 0 else
    (if BadMru(os[0]) then 4 else if BadAuth(os[0]) then 5 else 0) + NakLength(os[1..])
  }

  predicate BadMru(o: bytes) { |o| >= 4 && o[0] == OPT_MRU && !(128 <= Get16(o, 2) <= 16384) }

  predicate BadAuth(o: bytes) { |o| >= 4 && o[0] == OPT_AUTH_PROTO && Get16(o, 2) != PROTO_CHAP }

  lemma {:induction false} NakedLength(os: seq<bytes>)
    ensures |Naked(JudgeOption, os)| == NakLength(os)
  {
    if os != [] {
      NakedLength(os[1..]);
    }
  }

  /** A request with nothing to reject whose suggestions take up 65532 to 65535 bytes. */
  ghost predicate WrapsLength(p: Incoming) {
    && p.Packet? && p.code == CONFIGURE_REQUEST
    && NoReject(JudgeOption, ParseOptions(p.payload))
    && 65532 <= NakLength(ParseOptions(p.payload)) <= 65535
  }

  /**
   The handler fails on exactly two kinds of packets: those with a stated length
   below four, and the requests whose suggestions wrap the 16-bit length of the answer
   to less than a header.
   */
  lemma PanicsExactly(h: State, data: bytes, rand: u32)
    ensures h.Handle(data, rand).0.Panics? <==> Received(data).Unguarded? || WrapsLength(Received(data))
  {
    match Received(data)
    case Ignored =>
    case Unguarded =>
    case Packet(code, id, payload) =>
      assert |payload| <= 0xFFFB;
      hide Received, ParseOptions, JudgeOption, NakLength, NoReject;
      hide State.OnRequest, State.OnReject, State.Adjusted, Answer, Response, State.Request;
      RequestPanicsExactly(h, id, payload);
      OnRejectAnswers(h, ParseOptions(payload));
      ShortSends(TERMINATE_ACK, id, []);
      ShortSends(ECHO_REPLY, id, Put32(h.localMagic) + if |payload| > 4 then payload[4..] else []);
      RequestSends(h.Adjusted(ParseOptions(payload), rand));
  }

  lemma RequestPanicsExactly(h: State, id: byte, options: bytes)
    requires |options| <= 0xFFFB
    ensures var os := ParseOptions(options);
      h.OnRequest(id, options).0.Panics? <==> NoReject(JudgeOption, os) && 65532 <= NakLength(os) <= 65535
  {
    AnswerLength(options);
    var (code, body) := Answer(JudgeOption, ParseOptions(options));
    ResponsePanicsExactly(code, id, body);
    hide ParseOptions, JudgeOption, NakLength, NoReject, Answer, State.LearnedAll, Response;
  }

  lemma ResponsePanicsExactly(code: byte, id: byte, data: bytes)
    requires |data| < 0x1_FFF0
    ensures Response(code, id, data).Panics? <==> 65532 <= |data| <= 65535
  {
  }

  /** Only suggestions can be longer than what they answer, by a quarter at the most. */
  lemma AnswerLength(options: bytes)
    requires |options| <= 0xFFFB
    ensures var os := ParseOptions(options);
      var (code, body) := Answer(JudgeOption, os);
      && (code == CONFIGURE_NAK <==> NoReject(JudgeOption, os) && NakLength(os) > 0)
      && 4 * NakLength(os) <= 5 * |options|
      && (if code == CONFIGURE_NAK then |body| == NakLength(os) else |body| <= 0xFFFB)
  {
    var os := ParseOptions(options);
    ParsedIsPrefix(options);
    SuggestionsBounded(os);
    AnswerBounded(JudgeOption, os);
    NakedLength(os);
    RejectedExactly(JudgeOption, os);
    hide ParseOptions, Concat, Acked, Naked, Rejected, JudgeOption, NakLength, NoReject;
  }

  lemma RequestSends(h: State)
    ensures h.Request().0.Send?
  {
  }

  lemma SuggestionsBounded(os: seq<bytes>)
    ensures forall o :: o in os && JudgeOption(o).Nak? ==> 4 * |JudgeOption(o).suggestion| <= 5 * |o|
  {
  }

  lemma {:induction false} OnRejectAnswers(h: State, os: seq<bytes>)
    ensures h.OnReject(os).0.Send?
    decreases os
  {
    if os != [] {
      OnRejectAnswers(h.(localMagic := 0), os[1..]);
      OnRejectAnswers(h, os[1..]);
    }
  }

  lemma ProtocolRejectSends(h: State, protocol: u16, packet: bytes)
    ensures h.ProtocolReject(protocol, packet).0.Send?
  {
  }

  class LcpHandler {
    var state: byte
    var localMagic: u32
    var remoteMagic: u32
    var mru: u16
    var nextId: byte
    var ourConfigAcked: bool
    var peerConfigAcked: bool

    ghost function Value(): State
      reads this
    {
      State(state, localMagic, remoteMagic, mru, nextId, ourConfigAcked, peerConfigAcked)
    }

    constructor (magic: u32)
      ensures Value() == Initial(magic)
    {
      state, localMagic, remoteMagic, mru, nextId := INITIAL, magic, 0, DEFAULT_MRU, 0;
      ourConfigAcked, peerConfigAcked := false, false;
    }

    method BuildConfigureRequest() returns (r: Reply)
      modifies this
      ensures (r, Value()) == old(Value()).Request()
    {
      nextId := ToByte(nextId + 1);
      var opts := [OPT_MRU, 4] + Put16(mru);
      opts := opts + [OPT_AUTH_PROTO, 5] + Put16(PROTO_CHAP) + [5];
      assert opts == [OPT_MRU, 4] + Put16(mru) + CHAP_NAK;
      opts := opts + [OPT_MAGIC, 6] + Put32(localMagic);
      r := BuildResponse(CONFIGURE_REQUEST, nextId, opts);
      if state == INITIAL {
        state := REQ_SENT;
      }
    }

    method CheckOpened()
      modifies this
      ensures Value() == old(Value()).Checked()
    {
      if ourConfigAcked && peerConfigAcked {
        state := OPENED;
      }
    }

    /** The switch over the option type. */
    method TakeOption(o: bytes) returns (v: Verdict)
      requires WellFormed(o)
      modifies this
      ensures v == JudgeOption(o) && Value() == old(Value()).Learned(o)
    {
      if o[0] == OPT_MRU {
        if |o| < 4 {
          return Reject;
        }
        var peerMru := Get16(o, 2);
        if peerMru < 128 || peerMru > 16384 {
          return Nak([OPT_MRU, 4, 5, 220]);
        }
        mru := peerMru;
      } else if o[0] == OPT_AUTH_PROTO {
        if |o| < 4 {
          return Reject;
        }
        if Get16(o, 2) != PROTO_CHAP {
          return Nak([OPT_AUTH_PROTO, 5, 0xC2, 0x23, 5]);
        }
      } else if o[0] == OPT_MAGIC {
        if |o| < 6 {
          return Reject;
        }
        remoteMagic := Get32(o, 2);
      } else if o[0] != OPT_PF_COMPRESS && o[0] != OPT_ACF_COMPRESS {
        return Reject;
      }
      v := Ack;
    }

    method HandleConfigureRequest(id: byte, options: bytes) returns (r: Reply)
      modifies this
      ensures (r, Value()) == old(Value()).OnRequest(id, options)
    {
      var acks, naks, rejs := TakeOptions(options);
      if |rejs| > 0 {
        r := BuildResponse(CONFIGURE_REJECT, id, rejs);
        return;
      }
      if |naks| > 0 {
        r := BuildResponse(CONFIGURE_NAK, id, naks);
        return;
      }
      peerConfigAcked := true;
      CheckOpened();
      r := BuildResponse(CONFIGURE_ACK, id, acks);
    }

    method TakeOptions(options: bytes) returns (acks: bytes, naks: bytes, rejs: bytes)
      modifies this
      ensures var os := ParseOptions(options);
        && acks == Acked(JudgeOption, os) && naks == Naked(JudgeOption, os) && rejs == Rejected(JudgeOption, os)
        && Value() == old(Value()).LearnedAll(os)
    {
      hide *;
      ghost var h, os := Value(), ParseOptions(options);
      acks, naks, rejs := [], [], [];
      AccumulatedEnds(JudgeOption, os, acks, naks, rejs);
      var offset := 0;
      assert options[0..] == options;
      while offset < |options|
        invariant offset <= |options|
        invariant Accumulated(JudgeOption, os, acks, naks, rejs, ParseOptions(options[offset..]))
        invariant h.LearnedAll(os) == Value().LearnedAll(ParseOptions(options[offset..]))
      {
        ParseStep(options, offset);
        if offset + 2 > |options| {
          break;
        }
        var optLen: int := options[offset + 1];
        if optLen < 2 || offset + optLen > |options| {
          break;
        }
        var optData := options[offset..offset + optLen];
        AccumulatedStep(JudgeOption, os, acks, naks, rejs, optData, ParseOptions(options[offset + optLen..]));
        LearnedStep(Value(), optData, ParseOptions(options[offset + optLen..]));
        var v := TakeOption(optData);
        match v {
          case Ack => acks := acks + optData;
          case Nak(n) => naks := naks + n;
          case Reject => rejs := rejs + optData;
        }
        offset := offset + optLen;
      }
      ParseStep(options, offset);
      LearnedStep(Value(), [], []);
      AccumulatedEnds(JudgeOption, os, acks, naks, rejs);
    }

    method HandleConfigureAck(id: byte)
      modifies this
      ensures Value() == old(Value()).OnAck(id)
    {
      if id != nextId {
        return;
      }
      ourConfigAcked := true;
      CheckOpened();
    }

    method HandleConfigureNak(options: bytes, rand: u32) returns (r: Reply)
      modifies this
      ensures (r, Value()) == old(Value()).Adjusted(ParseOptions(options), rand).Request()
    {
      hide Response, ParseOptions, State.Request, State.OnReject, State.Adjusted;
      ghost var h := Value();
      var offset := 0;
      assert options[0..] == options;
      while offset < |options|
        invariant offset <= |options|
        invariant h.Adjusted(ParseOptions(options), rand) == Value().Adjusted(ParseOptions(options[offset..]), rand)
      {
        ParseStep(options, offset);
        if offset + 2 > |options| {
          break;
        }
        var optLen: int := options[offset + 1];
        if optLen < 2 || offset + optLen > |options| {
          break;
        }
        var optData := options[offset..offset + optLen];
        AdjustStep(Value(), optData, ParseOptions(options[offset + optLen..]), rand);
        if optData[0] == OPT_MRU {
          if optLen >= 4 {
            mru := Get16(optData, 2);
          }
        } else if optData[0] == OPT_MAGIC {
          localMagic := rand;
        }
        offset := offset + optLen;
      }
      ParseStep(options, offset);
      AdjustStep(Value(), [0], [], rand);
      r := BuildConfigureRequest();
    }

    method HandleConfigureReject(options: bytes) returns (r: Reply)
      modifies this
      ensures (r, Value()) == old(Value()).OnReject(ParseOptions(options))
    {
      hide Response, ParseOptions, State.Request, State.OnReject, State.Adjusted;
      ghost var h := Value();
      var offset := 0;
      assert options[0..] == options;
      while offset < |options|
        invariant offset <= |options|
        invariant h.OnReject(ParseOptions(options)) == Value().OnReject(ParseOptions(options[offset..]))
      {
        ParseStep(options, offset);
        if offset + 2 > |options| {
          break;
        }
        var optLen: int := options[offset + 1];
        if optLen < 2 || offset + optLen > |options| {
          break;
        }
        RejectStep(Value(), options[offset..offset + optLen], ParseOptions(options[offset + optLen..]));
        if options[offset] == OPT_AUTH_PROTO {
          state := CLOSED;
          r := BuildResponse(TERMINATE_REQUEST, nextId, AUTH_REQUIRED);
          return;
        }
        if options[offset] == OPT_MAGIC {
          localMagic := 0;
        }
        offset := offset + optLen;
      }
      ParseStep(options, offset);
      RejectStep(Value(), [0], []);
      r := BuildConfigureRequest();
    }

    /** rand is the number drawn if a magic number has to be. */
    method Handle(data: bytes, rand: u32) returns (r: Reply)
      modifies this
      ensures (r, Value()) == old(Value()).Handle(data, rand)
    {
      hide State.OnRequest, State.OnReject, State.Adjusted;
      if |data| < 4 {
        return Silent;
      }
      var code, id, pktLen := data[0], data[1], Get16(data, 2);
      if pktLen > |data| {
        return Silent;
      }
      if pktLen < 4 {
        return Panics;
      }
      var payload := data[4..pktLen];
      r := Silent;
      if code == CONFIGURE_REQUEST {
        r := HandleConfigureRequest(id, payload);
      } else if code == CONFIGURE_ACK {
        HandleConfigureAck(id);
      } else if code == CONFIGURE_NAK {
        r := HandleConfigureNak(payload, rand);
      } else if code == CONFIGURE_REJECT {
        r := HandleConfigureReject(payload);
      } else if code == TERMINATE_REQUEST {
        state := CLOSED;
        r := BuildResponse(TERMINATE_ACK, id, []);
      } else if code == ECHO_REQUEST {
        r := BuildResponse(ECHO_REPLY, id, Put32(localMagic) + if |payload| > 4 then payload[4..] else []);
      }
    }

    method BuildProtocolReject(protocol: u16, packet: bytes) returns (r: Reply)
      modifies this
      ensures (r, Value()) == old(Value()).ProtocolReject(protocol, packet)
    {
      nextId := ToByte(nextId + 1);
      var maxData: int := mru - 4 - 2;
      if maxData < 0 {
        maxData := 0;
      }
      var data := Put16(protocol);
      if |packet| > maxData {
        data := data + packet[..maxData];
      } else {
        data := data + packet;
      }
      r := BuildResponse(PROTOCOL_REJECT, nextId, data);
    }
  }

  lemma RejectStep(h: State, o: bytes, rest: seq<bytes>)
    requires |o| > 0
    ensures h.OnReject([o] + rest) == if o[0] == OPT_AUTH_PROTO
      then (Response(TERMINATE_REQUEST, h.nextId, AUTH_REQUIRED), h.(state := CLOSED))
      else (if o[0] == OPT_MAGIC then h.(localMagic := 0) else h).OnReject(rest)
    ensures h.OnReject([]) == h.Request()
  {
    assert ([o] + rest)[1..] == rest;
    hide Response, State.Request;
  }

  lemma AdjustStep(h: State, o: bytes, rest: seq<bytes>, rand: u32)
    ensures h.Adjusted([o] + rest, rand)
      == (if |o| >= 4 && o[0] == OPT_MRU then h.(mru := Get16(o, 2)) else
          if |o| >= 2 && o[0] == OPT_MAGIC then h.(localMagic := rand) else h).Adjusted(rest, rand)
    ensures h.Adjusted([], rand) == h
  {
    assert ([o] + rest)[1..] == rest;
  }

  lemma LearnedStep(h: State, o: bytes, rest: seq<bytes>)
    ensures h.LearnedAll([o] + rest) == h.Learned(o).LearnedAll(rest)
    ensures h.LearnedAll([]) == h
  {
    assert ([o] + rest)[1..] == rest;
  }
}
