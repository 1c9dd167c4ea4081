/**
 What a session sends, byte by byte, and a whole conversation: a peer that knows nothing
 but the frames it was sent is let through to the data phase.
 */
module Conversation {
  import opened Bytes
  import opened Ppp
  import opened ConfigOptions
  import opened Session
  import Lcp
  import Chap
  import Ipcp

  lemma FramedIs(protocol: u16, code: byte, id: byte, data: bytes)
    requires |data| <= 0xFFFB
    ensures Framed(protocol, Response(code, id, data)) == [WireFrame(protocol, code, id, data)]
  {
    AnswerOnWire(protocol, code, id, data);
  }

  // What goes out, and when.

  /** InitPPP sends one Configure-Request: MRU, CHAP with MD5 and the magic number. */
  lemma InitSends(s: State, c: Ipcp.Config, magic: u32)
    ensures var (frames, s') := s.Initialized(c, magic);
      && frames == [WireFrame(0xC021, 1, 1, [1, 4, 0x05, 0xDC, 3, 5, 0xC2, 0x23, 5, 5, 6] + Put32(magic))]
      && s'.ppp.Some? && s'.ppp.value.lcp.nextId == 1 && s'.phase == 0
  {
    var body := [1, 4, 0x05, 0xDC, 3, 5, 0xC2, 0x23, 5, 5, 6] + Put32(magic);
    assert body == [Lcp.OPT_MRU, 4] + Put16(Lcp.DEFAULT_MRU) + Lcp.CHAP_NAK + [Lcp.OPT_MAGIC, 6] + Put32(magic);
    FramedIs(0xC021, 1, 1, body);
  }

  /** Going on to authentication, the session sends the challenge it has drawn, last. */
  lemma ChallengeSent(auth: Chap.Auth, s: State, i: Input)
    requires auth.Valid() && i.Data? && |i.drawn.challenge| == 16
    requires s.phase == 0 && Step(auth, s, i).1.phase == 1
    ensures var (out, s') := Step(auth, s, i);
      && s'.ppp.Some? && s'.ppp.value.chap.challenge == i.drawn.challenge && out.frames != []
      && out.frames[|out.frames| - 1]
         == WireFrame(0xC223, 1, s'.ppp.value.chap.challengeId, [16] + i.drawn.challenge + auth.serverName)
  {
    var h, data := s.ppp.value, ParseFrame(i.payload).value.payload;
    var lcp := h.lcp.Handle(data, i.drawn.magic).1;
    FramedIs(0xC223, 1, ToByte(h.chap.challengeId + 1), [16] + i.drawn.challenge + auth.serverName);
    hide Lcp.State.Handle, Response, WireFrame, Framed, ParseFrame, Chap.State.Handle, Ipcp.State.Handle;
  }

  /** Going on to IPCP, it sends a Success and its own request, with our address in it. */
  lemma SuccessSent(auth: Chap.Auth, s: State, i: Input)
    requires auth.Valid() && i.Data? && s.phase == 1 && Step(auth, s, i).1.phase == 2
    requires s.ppp.Some? && !s.ppp.value.chap.authenticated && s.ppp.value.ipcp.config.Valid()
    ensures var (out, s') := Step(auth, s, i);
      var p, ipcp := PacketIn(i, PROTO_CHAP), s'.ppp.value.ipcp;
      && p.Packet? && |s'.username| <= 0xFFFB - 8 && ipcp.config == s.ppp.value.ipcp.config
      && out.frames == [WireFrame(0xC223, 3, p.id, Text("Welcome ") + s'.username),
                        WireFrame(0x8021, 1, ipcp.nextId, [3, 6] + ipcp.config.gateway)]
  {
    var h, data := s.ppp.value, ParseFrame(i.payload).value.payload;
    Chap.AuthenticatesExactly(h.chap, auth, data);
    assert Received(data).Packet?;
    var p := Received(data);
    var name := Chap.NameIn(p.payload);
    assert |p.payload| <= 0xFFFB;
    SuccessIs(auth, h.chap, data);
    FramedIs(0xC223, 3, p.id, Text("Welcome ") + name);
    FramedIs(0x8021, 1, ToByte(h.ipcp.nextId + 1), [3, 6] + h.ipcp.config.gateway);
    hide Received, Response, WireFrame, Framed, ParseFrame, Chap.State.Handle, Lcp.State.Handle, Ipcp.State.Handle;
  }

  lemma SuccessIs(auth: Chap.Auth, h: Chap.State, data: bytes)
    requires auth.Valid() && !h.authenticated && h.Handle(auth, data).1.authenticated
    ensures var p, (r, h') := Received(data), h.Handle(auth, data);
      && p.Packet? && Chap.Readable(p.payload) && h'.username == Chap.NameIn(p.payload)
      && |h'.username| <= 0xFFFB - 8 && r == Response(3, p.id, Text("Welcome ") + h'.username)
  {
    Chap.AuthenticatesExactly(h, auth, data);
    var p := Received(data);
    assert |p.payload| <= 0xFFFB;
    hide Received, Response;
    assert |Chap.ValueIn(p.payload)| == 16;
  }

  /** A Configure-Request is answered in any phase, with the rule's answer under its own identifier. */
  lemma LcpRequestAnswered(auth: Chap.Auth, s: State, i: Input, id: byte, options: bytes)
    requires s.state == ESTABLISHED && s.ppp.Some? && i.Data?
    requires PacketIn(i, PROTO_LCP) == Packet(CONFIGURE_REQUEST, id, options)
    requires |Answer(Lcp.JudgeOption, ParseOptions(options)).1| <= 0xFFFB
    ensures var (code, body) := Answer(Lcp.JudgeOption, ParseOptions(options));
      var frames := Step(auth, s, i).0.frames; frames != [] && frames[0] == WireFrame(0xC021, code, id, body)
  {
    var (code, body) := Answer(Lcp.JudgeOption, ParseOptions(options));
    FramedIs(0xC021, code, id, body);
    hide Received, ParseFrame, Response, Framed, WireFrame, Answer, ParseOptions, Lcp.State.LearnedAll;
  }

  lemma IpcpRequestAnswered(auth: Chap.Auth, s: State, i: Input, id: byte, options: bytes)
    requires s.state == ESTABLISHED && s.phase == 2 && s.ppp.Some? && i.Data?
    requires s.ppp.value.ipcp.config.Valid()
    requires PacketIn(i, PROTO_IPCP) == Packet(CONFIGURE_REQUEST, id, options)
    ensures var (code, body) := Answer(Ipcp.Rule(s.ppp.value.ipcp.config), ParseOptions(options));
      |body| <= 0xFFFB && Step(auth, s, i).0.frames == [WireFrame(0x8021, code, id, body)]
  {
    var (code, body) := Answer(Ipcp.Rule(s.ppp.value.ipcp.config), ParseOptions(options));
    assert |options| <= 0xFFFB;
    hide Received, ParseFrame, Response, Framed, WireFrame, Answer, ParseOptions, Ipcp.Rule, Ipcp.Config.Valid;
    Ipcp.AnswerLength(s.ppp.value.ipcp.config, options);
    FramedIs(0x8021, code, id, body);
  }

  /** Whatever its handler answers to a packet goes out first, in a frame of that protocol. */
  lemma RepliesGoOut(auth: Chap.Auth, s: State, i: Input)
    requires s.state == ESTABLISHED && s.ppp.Some? && i.Data? && ParseFrame(i.payload).Ok?
    ensures var protocol, data := ParseFrame(i.payload).value.protocol, ParseFrame(i.payload).value.payload;
      var h, frames := s.ppp.value, Step(auth, s, i).0.frames;
      && (protocol == 0xC021 ==>
            var (r, lcp) := h.lcp.Handle(data, i.drawn.magic);
            GoesOut(0xC021, r, frames, s.phase != 0 || lcp.state != Lcp.OPENED))
      && (protocol == 0xC223 && s.phase == 1 ==>
            GoesOut(0xC223, h.chap.Handle(auth, data).0, frames, !h.chap.Handle(auth, data).1.authenticated))
      && (protocol == 0x8021 && s.phase == 2 ==> GoesOut(0x8021, h.ipcp.Handle(data).0, frames, true))
      && ((protocol == 0xC223 && s.phase != 1) || (protocol == 0x8021 && s.phase != 2) || protocol == 0x0021 ==>
            frames == [])
      && (protocol !in {0xC021, 0xC223, 0x8021, 0x0021} ==>
            GoesOut(0xC021, h.lcp.ProtocolReject(protocol, data).0, frames, true))
  {
    hide ParseFrame, Lcp.State.Handle, Chap.State.Handle, Ipcp.State.Handle, Lcp.State.ProtocolReject, Response;
  }

  /** A reply is the first frame, and the only one but for the packet that opens a phase. */
  predicate GoesOut(protocol: u16, r: Reply, frames: seq<bytes>, alone: bool) {
    && (r.Send? ==> frames != [] && frames[0] == [0xFF, 0x03, protocol / 256, protocol % 256] + r.packet)
    && (if r.Send? then 1 else 0) <= |frames| <= (if r.Send? then 1 else 0) + if alone then 0 else 1
  }

  // A peer and its conversation with a session.

  /** What a user needs to log in; its LCP options, and the types of the addresses it asks for. */
  datatype Peer = Peer(name: bytes, password: bytes, md5: bytes -> bytes, lcpOptions: seq<bytes>, types: bytes)

  function Sending(protocol: u16, code: byte, id: byte, data: bytes): seq<bytes> {
    if |data| <= 0xFFFB then [WireFrame(protocol, code, id, data)] else []
  }

  /** Asking for addresses without naming any. */
  function Asking(types: bytes): seq<bytes> {
    seq(|types|, i requires 0 <= i < |types| => [types[i], 6, 0, 0, 0, 0])
  }

  /** The bytes a challenge packet carries behind their length. */
  function ChallengeIn(body: bytes): bytes {
    if |body| == 0 then [] else
    var n: int := body[0];
    if |body| < 1 + n then [] else body[1..1 + n]
  }

  /**
   What the peer sends on receiving a frame: our requests are acknowledged and followed by
   its own, a challenge is hashed with the password, and suggestions are asked for.
   */
  function Replies(peer: Peer, frame: bytes): seq<bytes> {
    if |frame| < 8 then [] else
    var protocol := frame[2] as int * 256 + frame[3] as int;
    var code, id, body := frame[4], frame[5], frame[8..];
    if protocol == 0xC021 && code == 1 then
      Sending(0xC021, 2, id, body) + Sending(0xC021, 1, 1, Concat(peer.lcpOptions))
    else if protocol == 0xC223 && code == 1 then
      Sending(0xC223, 2, id, [16] + peer.md5([id] + peer.password + ChallengeIn(body)) + peer.name)
    else if protocol == 0x8021 && code == 1 then
      Sending(0x8021, 2, id, body) + Sending(0x8021, 1, 1, Concat(Asking(peer.types)))
    else if protocol == 0x8021 && code == 3 then Sending(0x8021, 1, (id as int + 1) % 256, body)
    else []
  }

  /** A session, and the frames it has sent that the peer has not seen yet. */
  datatype Talk = Talk(s: State, toPeer: seq<bytes>)

  /** Frames from the peer, one after the other. */
  function Fed(auth: Chap.Auth, s: State, frames: seq<bytes>, drawn: Drawn): (seq<bytes>, State)
    decreases |frames|
  {
    if frames == [] then ([], s) else
    var (out, s') := Step(auth, s, Data(frames[0], drawn));
    var (more, s'') := Fed(auth, s', frames[1..], drawn);
    (out.frames + more, s'')
  }

  /** The peer takes the next frame and answers it. */
  function Exchange(auth: Chap.Auth, peer: Peer, t: Talk, drawn: Drawn): Talk {
    if t.toPeer == [] then t else
    var (frames, s') := Fed(auth, t.s, Replies(peer, t.toPeer[0]), drawn);
    Talk(s', t.toPeer[1..] + frames)
  }

  function Exchanges(auth: Chap.Auth, peer: Peer, t: Talk, draws: seq<Drawn>): Talk
    decreases |draws|
  {
    if draws == [] then t else Exchanges(auth, peer, Exchange(auth, peer, t, draws[0]), draws[1..])
  }

  /** The user is known, its LCP options are acceptable, and what it asks for is what there is to give. */
  ghost predicate Welcome(auth: Chap.Auth, peer: Peer, c: Ipcp.Config) {
    && auth.Valid() && peer.md5 == auth.md5 && auth.lookup(peer.name) == Some(peer.password)
    && |peer.name| <= 0xFFFB - 17
    && AllWellFormed(peer.lcpOptions) && |Concat(peer.lcpOptions)| <= 0xFFFB
    && (forall o :: o in peer.lcpOptions ==> Lcp.Known(o) && !Lcp.Unwanted(o))
    && c.Valid() && Ipcp.AllNonZero(c) && 6 * |peer.types| <= 0xFFFB
    && forall t :: t in peer.types ==> t == 3 || t == 129 || t == 131
  }

  // One input at a time.

  /** An input that carries a control packet. */
  function Input(protocol: u16, code: byte, id: byte, body: bytes, drawn: Drawn): Input
    requires |body| <= 0xFFFB
  {
    Data(WireFrame(protocol, code, id, body), drawn)
  }

  lemma LcpAckTaken(auth: Chap.Auth, s: State, id: byte, body: bytes, drawn: Drawn)
    requires s.state == ESTABLISHED && s.phase == 0 && s.ppp.Some? && |body| <= 0xFFFB
    requires id == s.ppp.value.lcp.nextId && !s.ppp.value.lcp.peerAcked && s.ppp.value.lcp.state != Lcp.OPENED
    ensures var (out, s') := Step(auth, s, Input(0xC021, 2, id, body, drawn));
      && out.frames == []
      && s' == s.(ppp := Some(s.ppp.value.(lcp := s.ppp.value.lcp.(ourAcked := true))))
  {
    FrameRead(0xC021, 2, id, body);
    hide Received, ParseFrame, WireFrame, Response;
  }

  lemma LcpRequestTaken(auth: Chap.Auth, s: State, peer: Peer, c: Ipcp.Config, id: byte, drawn: Drawn)
    requires Welcome(auth, peer, c) && |drawn.challenge| == 16
    requires s.state == ESTABLISHED && s.phase == 0 && s.ppp.Some? && s.ppp.value.lcp.ourAcked
    ensures var options := Concat(peer.lcpOptions);
      var (out, s') := Step(auth, s, Input(0xC021, 1, id, options, drawn));
      var chap := s.ppp.value.chap.(
        challengeId := ToByte(s.ppp.value.chap.challengeId + 1), challenge := drawn.challenge);
      && |auth.serverName| <= 0xFFFB - 17
      && out.frames == [WireFrame(0xC021, 2, id, options),
                        WireFrame(0xC223, 1, chap.challengeId, [16] + drawn.challenge + auth.serverName)]
      && s'.state == ESTABLISHED && s'.phase == 1 && s'.username == s.username
      && s'.ppp.Some? && s'.ppp.value.chap == chap && s'.ppp.value.ipcp == s.ppp.value.ipcp
  {
    var options := Concat(peer.lcpOptions);
    var data := ParseFrame(Input(0xC021, 1, id, options, drawn).payload).value.payload;
    hide *;
    LcpStep(auth, s, 1, id, options, drawn);
    LcpRequestAccepted(s.ppp.value.lcp, peer.lcpOptions, id, data, drawn.magic);
    FramedIs(0xC021, 2, id, options);
    NameFits(auth);
    FramedIs(0xC223, 1, ToByte(s.ppp.value.chap.challengeId + 1), [16] + drawn.challenge + auth.serverName);
    LcpOpened(auth, s, data, drawn);
  }

  lemma NameFits(auth: Chap.Auth)
    requires auth.Valid()
    ensures |auth.serverName| <= 0xFFFB - 17
  {
  }

  lemma LcpStep(auth: Chap.Auth, s: State, code: byte, id: byte, body: bytes, drawn: Drawn)
    requires s.state == ESTABLISHED && s.ppp.Some? && |body| <= 0xFFFB
    ensures var i := Input(0xC021, code, id, body, drawn);
      && i.Data? && ParseFrame(i.payload).Ok?
      && Received(ParseFrame(i.payload).value.payload) == Packet(code, id, body)
      && Step(auth, s, i) == s.OnLcp(auth, ParseFrame(i.payload).value.payload, drawn)
  {
    FrameRead(0xC021, code, id, body);
    hide ParseFrame, Received, WireFrame, State.OnLcp;
  }

  lemma LcpOpened(auth: Chap.Auth, s: State, data: bytes, drawn: Drawn)
    requires s.phase == 0 && s.ppp.Some? && s.ppp.value.lcp.Handle(data, drawn.magic).1.state == Lcp.OPENED
    ensures var (out, s') := s.OnLcp(auth, data, drawn);
      var id := ToByte(s.ppp.value.chap.challengeId + 1);
      && out.frames == Framed(0xC021, s.ppp.value.lcp.Handle(data, drawn.magic).0)
                       + Framed(0xC223, Response(1, id, [16] + drawn.challenge + auth.serverName))
      && s'.state == s.state && s'.phase == 1 && s'.username == s.username && s'.ppp.Some?
      && s'.ppp.value.chap == s.ppp.value.chap.(challengeId := id, challenge := drawn.challenge)
      && s'.ppp.value.ipcp == s.ppp.value.ipcp
  {
    hide Lcp.State.Handle, Framed, Response;
  }

  lemma LcpRequestAccepted(h: Lcp.State, os: seq<bytes>, id: byte, data: bytes, rand: u32)
    requires Received(data) == Packet(1, id, Concat(os)) && h.ourAcked && AllWellFormed(os)
    requires forall o :: o in os ==> Lcp.Known(o) && !Lcp.Unwanted(o)
    ensures var (r, h') := h.Handle(data, rand); r == Response(2, id, Concat(os)) && h'.state == Lcp.OPENED
  {
    NothingRefused(os);
    hide Received, Response, Answer, ParseOptions, Concat, Lcp.State.LearnedAll;
    hide Lcp.Refused, Lcp.Suggested, Lcp.Known, Lcp.Unwanted;
    ParseUndoesConcat(os);
    Lcp.AnswersExactly(os);
    LearnedKeeps(h, os);
  }

  lemma NothingRefused(os: seq<bytes>)
    requires forall o :: o in os ==> Lcp.Known(o) && !Lcp.Unwanted(o)
    ensures Lcp.Refused(os) == [] && Lcp.Suggested(os) == []
  {
    if os != [] {
      assert os[0] in os;
      NothingRefused(os[1..]);
    }
  }

  lemma LearnedKeeps(h: Lcp.State, os: seq<bytes>)
    ensures h.LearnedAll(os).ourAcked == h.ourAcked
  {
    Lcp.LearnedAllKeeps(h, os);
  }

  lemma ResponseTaken(auth: Chap.Auth, s: State, peer: Peer, c: Ipcp.Config, id: byte, drawn: Drawn)
    requires Welcome(auth, peer, c) && s.state == ESTABLISHED && s.phase == 1 && s.ppp.Some?
    requires s.ppp.value.ipcp.config == c && !s.ppp.value.chap.authenticated
    ensures var body := [16] + peer.md5([id] + peer.password + s.ppp.value.chap.challenge) + peer.name;
      |body| <= 0xFFFB &&
      var (out, s') := Step(auth, s, Input(0xC223, 2, id, body, drawn));
      var ipcp := s.ppp.value.ipcp.(nextId := ToByte(s.ppp.value.ipcp.nextId + 1));
      && out.frames == [WireFrame(0xC223, 3, id, Text("Welcome ") + peer.name),
                        WireFrame(0x8021, 1, ipcp.nextId, [3, 6] + c.gateway)]
      && s'.state == ESTABLISHED && s'.phase == 2 && s'.username == peer.name
      && s'.ppp.Some? && s'.ppp.value.ipcp == ipcp
  {
    var hash := peer.md5([id] + peer.password + s.ppp.value.chap.challenge);
    var body := [16] + hash + peer.name;
    assert body[1..17] == hash && body[17..] == peer.name;
    assert Chap.Readable(body) && Chap.ValueIn(body) == hash && Chap.NameIn(body) == peer.name;
    assert Chap.Proves(auth, s.ppp.value.chap.challenge, id, body);
    FrameRead(0xC223, 2, id, body);
    FramedIs(0xC223, 3, id, Text("Welcome ") + peer.name);
    FramedIs(0x8021, 1, ToByte(s.ppp.value.ipcp.nextId + 1), [3, 6] + c.gateway);
    hide Received, ParseFrame, WireFrame, Framed, Response, Chap.Proves;
  }

  lemma IpcpAckTaken(auth: Chap.Auth, s: State, id: byte, body: bytes, drawn: Drawn)
    requires s.state == ESTABLISHED && s.phase == 2 && s.ppp.Some? && |body| <= 0xFFFB
    requires id == s.ppp.value.ipcp.nextId && !s.ppp.value.ipcp.peerAcked && !s.ppp.value.ipcp.isOpen
    ensures var (out, s') := Step(auth, s, Input(0x8021, 2, id, body, drawn));
      && out.frames == []
      && s' == s.(ppp := Some(s.ppp.value.(ipcp := s.ppp.value.ipcp.(ourAcked := true))))
  {
    FrameRead(0x8021, 2, id, body);
    hide Received, ParseFrame, WireFrame, Response;
  }

  /** What there is to give, type by type. */
  function Wanted(c: Ipcp.Config, types: bytes): seq<bytes> {
    seq(|types|, i requires 0 <= i < |types| => [types[i], 6] + Ipcp.ValueFor(c, types[i]))
  }

  lemma {:induction false} AskedFor(c: Ipcp.Config, types: bytes)
    requires c.Valid() && Ipcp.AllNonZero(c) && forall t :: t in types ==> t == 3 || t == 129 || t == 131
    ensures AllWellFormed(Asking(types)) && |Concat(Asking(types))| == 6 * |types|
    ensures AllWellFormed(Wanted(c, types)) && |Concat(Wanted(c, types))| == 6 * |types|
    ensures Ipcp.Unknown(Asking(types)) == [] && Ipcp.Corrections(c, Asking(types)) == Wanted(c, types)
    ensures Ipcp.Unknown(Wanted(c, types)) == [] && Ipcp.Corrections(c, Wanted(c, types)) == []
  {
    if types != [] {
      var t, rest := types[0], types[1..];
      assert types[0] in types && forall t :: t in rest ==> t in types;
      AskedFor(c, rest);
      OneAsked(c, t);
      FirstAsked(c, types);
      var zeros, value := [t, 6, 0, 0, 0, 0], [t, 6] + Ipcp.ValueFor(c, t);
      hide Asking, Wanted, Ipcp.Asks, Ipcp.Wrong, Ipcp.ValueFor, Ipcp.Unknown, Ipcp.Corrections, Concat;
      OneMoreOption(c, zeros, Asking(rest));
      OneMoreOption(c, value, Wanted(c, rest));
    }
  }

  lemma FirstAsked(c: Ipcp.Config, types: bytes)
    requires types != []
    ensures Asking(types) == [[types[0], 6, 0, 0, 0, 0]] + Asking(types[1..])
    ensures Wanted(c, types) == [[types[0], 6] + Ipcp.ValueFor(c, types[0])] + Wanted(c, types[1..])
  {
  }

  lemma OneMoreOption(c: Ipcp.Config, o: bytes, rest: seq<bytes>)
    requires |o| == 6 && o[1] == 6 && AllWellFormed(rest) && Ipcp.Asks(o) && Ipcp.Unknown(rest) == []
    ensures var os := [o] + rest;
      && AllWellFormed(os) && |Concat(os)| == 6 + |Concat(rest)| && Ipcp.Unknown(os) == []
      && Ipcp.Corrections(c, os)
         == (if Ipcp.Wrong(c, o) then [[o[0], 6] + Ipcp.ValueFor(c, o[0])] else []) + Ipcp.Corrections(c, rest)
  {
    hide Ipcp.Wrong, Ipcp.Asks, Ipcp.ValueFor;
    assert ([o] + rest)[1..] == rest;
  }

  lemma OneAsked(c: Ipcp.Config, t: byte)
    requires c.Valid() && Ipcp.AllNonZero(c) && (t == 3 || t == 129 || t == 131)
    ensures Ipcp.Asks([t, 6, 0, 0, 0, 0]) && Ipcp.Wrong(c, [t, 6, 0, 0, 0, 0])
    ensures Ipcp.Asks([t, 6] + Ipcp.ValueFor(c, t)) && !Ipcp.Wrong(c, [t, 6] + Ipcp.ValueFor(c, t))
  {
    assert ([t, 6] + Ipcp.ValueFor(c, t))[2..6] == Ipcp.ValueFor(c, t);
    assert [t, 6, 0, 0, 0, 0][2..6] == [0, 0, 0, 0];
  }

  lemma IpcpRequestTaken(auth: Chap.Auth, s: State, c: Ipcp.Config, id: byte, os: seq<bytes>, drawn: Drawn)
    requires s.state == ESTABLISHED && s.phase == 2 && s.ppp.Some? && s.ppp.value.ipcp.config == c && c.Valid()
    requires AllWellFormed(os) && |Concat(os)| <= 0xFFFB && Ipcp.Unknown(os) == []
    requires s.ppp.value.ipcp.ourAcked && !s.ppp.value.ipcp.isOpen
    ensures var (out, s') := Step(auth, s, Input(0x8021, 1, id, Concat(os), drawn));
      var wrong := Ipcp.Corrections(c, os);
      && |Concat(wrong)| <= 0xFFFB
      && (wrong != [] ==> out.frames == [WireFrame(0x8021, 3, id, Concat(wrong))] && s' == s)
      && (wrong == [] ==>
            && out.frames == [WireFrame(0x8021, 2, id, Concat(os))]
            && s'.phase == 3 && s'.state == ESTABLISHED && s'.username == s.username)
  {
    hide Received, ParseFrame, WireFrame, Framed, Response, Answer, ParseOptions, Concat, Ipcp.Rule, Ipcp.Config.Valid;
    hide Ipcp.Unknown, Ipcp.Corrections;
    var options := Concat(os);
    FrameRead(0x8021, 1, id, options);
    ParseUndoesConcat(os);
    Ipcp.AnswersExactly(c, os);
    Ipcp.AnswerLength(c, options);
    var (code, body) := Answer(Ipcp.Rule(c), os);
    FramedIs(0x8021, code, id, body);
    ConcatNone();
  }

  lemma ConcatNone()
    ensures Concat([]) == []
  {
  }

  // The conversation.

  /** What the peer reads in a frame of ours is what we put there. */
  lemma RepliesTo(peer: Peer, protocol: u16, code: byte, id: byte, data: bytes)
    requires |data| <= 0xFFFB
    ensures Replies(peer, WireFrame(protocol, code, id, data)) ==
      if protocol == 0xC021 && code == 1 then
        Sending(0xC021, 2, id, data) + Sending(0xC021, 1, 1, Concat(peer.lcpOptions))
      else if protocol == 0xC223 && code == 1 then
        Sending(0xC223, 2, id, [16] + peer.md5([id] + peer.password + ChallengeIn(data)) + peer.name)
      else if protocol == 0x8021 && code == 1 then
        Sending(0x8021, 2, id, data) + Sending(0x8021, 1, 1, Concat(Asking(peer.types)))
      else if protocol == 0x8021 && code == 3 then Sending(0x8021, 1, (id as int + 1) % 256, data)
      else []
  {
    var frame := WireFrame(protocol, code, id, data);
    assert frame[8..] == data && frame[2] as int * 256 + frame[3] as int == protocol;
    hide WireFrame, Sending, Asking, ChallengeIn, Concat;
  }

  lemma FedNone(auth: Chap.Auth, peer: Peer, t: Talk, drawn: Drawn)
    requires t.toPeer != [] && Replies(peer, t.toPeer[0]) == []
    ensures Exchange(auth, peer, t, drawn) == Talk(t.s, t.toPeer[1..])
  {
    hide Replies, Step;
  }

  lemma FedOne(auth: Chap.Auth, peer: Peer, t: Talk, drawn: Drawn, f: bytes)
    requires t.toPeer != [] && Replies(peer, t.toPeer[0]) == [f]
    ensures var (out, s') := Step(auth, t.s, Data(f, drawn));
      Exchange(auth, peer, t, drawn) == Talk(s', t.toPeer[1..] + out.frames)
  {
    hide Replies, Step;
    var (out, s') := Step(auth, t.s, Data(f, drawn));
    assert [f][1..] == [] && out.frames + [] == out.frames;
    assert Fed(auth, t.s, [f], drawn) == (out.frames, s');
  }

  lemma FedTwo(auth: Chap.Auth, peer: Peer, t: Talk, drawn: Drawn, f: bytes, g: bytes)
    requires t.toPeer != [] && Replies(peer, t.toPeer[0]) == [f, g]
    ensures var (out, s') := Step(auth, t.s, Data(f, drawn));
      var (out', s'') := Step(auth, s', Data(g, drawn));
      Exchange(auth, peer, t, drawn) == Talk(s'', t.toPeer[1..] + (out.frames + out'.frames))
  {
    hide Replies, Step;
    var (out, s') := Step(auth, t.s, Data(f, drawn));
    var (out', s'') := Step(auth, s', Data(g, drawn));
    assert [f, g][1..] == [g] && [g][1..] == [] && out'.frames + [] == out'.frames;
    assert Fed(auth, s', [g], drawn) == (out'.frames, s'');
    assert Fed(auth, t.s, [f, g], drawn) == (out.frames + out'.frames, s'');
  }

  /** The peer acknowledges LCP's request and makes its own: the session answers and sends its challenge. */
  lemma LcpOpens(auth: Chap.Auth, peer: Peer, c: Ipcp.Config, t: Talk, body: bytes, drawn: Drawn)
    requires Welcome(auth, peer, c) && |drawn.challenge| == 16 && |body| <= 0xFFFB
    requires t.s.state == ESTABLISHED && t.s.phase == 0 && t.s.ppp.Some? && t.s.ppp.value.lcp.nextId == 1
    requires !t.s.ppp.value.lcp.peerAcked && t.s.ppp.value.lcp.state != Lcp.OPENED
    requires t.toPeer == [WireFrame(0xC021, 1, 1, body)]
    ensures var t' := Exchange(auth, peer, t, drawn);
      var chap := t.s.ppp.value.chap.(
        challengeId := ToByte(t.s.ppp.value.chap.challengeId + 1), challenge := drawn.challenge);
      && |auth.serverName| <= 0xFFFB - 17
      && t'.s.state == ESTABLISHED && t'.s.phase == 1 && t'.s.ppp.Some?
      && t'.s.ppp.value.chap == chap && t'.s.ppp.value.ipcp == t.s.ppp.value.ipcp
      && t'.toPeer == [WireFrame(0xC021, 2, 1, Concat(peer.lcpOptions)),
                       WireFrame(0xC223, 1, chap.challengeId, [16] + drawn.challenge + auth.serverName)]
  {
    hide Step, Replies, Exchange, WireFrame, Concat;
    RepliesTo(peer, 0xC021, 1, 1, body);
    var ack, request := Input(0xC021, 2, 1, body, drawn), Input(0xC021, 1, 1, Concat(peer.lcpOptions), drawn);
    FedTwo(auth, peer, t, drawn, ack.payload, request.payload);
    LcpAckTaken(auth, t.s, 1, body, drawn);
    LcpRequestTaken(auth, Step(auth, t.s, ack).1, peer, c, 1, drawn);
  }

  lemma UserProven(auth: Chap.Auth, peer: Peer, c: Ipcp.Config, t: Talk, id: byte, drawn: Drawn)
    requires Welcome(auth, peer, c) && t.s.state == ESTABLISHED && t.s.phase == 1 && t.s.ppp.Some?
    requires t.s.ppp.value.ipcp.config == c && !t.s.ppp.value.chap.authenticated
    requires |t.s.ppp.value.chap.challenge| == 16 && |auth.serverName| <= 0xFFFB - 17
    requires t.toPeer == [WireFrame(0xC223, 1, id, [16] + t.s.ppp.value.chap.challenge + auth.serverName)]
    ensures var t' := Exchange(auth, peer, t, drawn);
      var ipcp := t.s.ppp.value.ipcp.(nextId := ToByte(t.s.ppp.value.ipcp.nextId + 1));
      && t'.s.state == ESTABLISHED && t'.s.phase == 2 && t'.s.username == peer.name
      && t'.s.ppp.Some? && t'.s.ppp.value.ipcp == ipcp
      && t'.toPeer == [WireFrame(0xC223, 3, id, Text("Welcome ") + peer.name),
                       WireFrame(0x8021, 1, ipcp.nextId, [3, 6] + c.gateway)]
  {
    var challenge := t.s.ppp.value.chap.challenge;
    ChallengeRead(challenge, auth.serverName);
    hide Step, Replies, Exchange, WireFrame, ChallengeIn;
    RepliesTo(peer, 0xC223, 1, id, [16] + challenge + auth.serverName);
    var body := [16] + peer.md5([id] + peer.password + challenge) + peer.name;
    FedOne(auth, peer, t, drawn, Input(0xC223, 2, id, body, drawn).payload);
    ResponseTaken(auth, t.s, peer, c, id, drawn);
  }

  lemma ChallengeRead(challenge: bytes, name: bytes)
    requires |challenge| == 16
    ensures ChallengeIn([16] + challenge + name) == challenge
  {
  }

  lemma AddressesAsked(auth: Chap.Auth, peer: Peer, c: Ipcp.Config, t: Talk, drawn: Drawn)
    requires Welcome(auth, peer, c) && t.s.state == ESTABLISHED && t.s.phase == 2 && t.s.ppp.Some?
    requires t.s.ppp.value.ipcp.config == c && t.s.ppp.value.ipcp.nextId == 1
    requires !t.s.ppp.value.ipcp.peerAcked && !t.s.ppp.value.ipcp.isOpen
    requires t.toPeer == [WireFrame(0x8021, 1, 1, [3, 6] + c.gateway)]
    ensures var t' := Exchange(auth, peer, t, drawn);
      && t'.s.state == ESTABLISHED && t'.s.username == t.s.username && |Concat(Wanted(c, peer.types))| <= 0xFFFB
      && (peer.types == [] ==> t'.s.phase == 3 && t'.toPeer == [WireFrame(0x8021, 2, 1, [])])
      && (peer.types != [] ==>
            && t'.s == t.s.(ppp := Some(t.s.ppp.value.(ipcp := t.s.ppp.value.ipcp.(ourAcked := true))))
            && t'.toPeer == [WireFrame(0x8021, 3, 1, Concat(Wanted(c, peer.types)))])
  {
    hide Step, Replies, Exchange, WireFrame, Concat, Ipcp.Unknown, Ipcp.Corrections;
    RepliesTo(peer, 0x8021, 1, 1, [3, 6] + c.gateway);
    AskedFor(c, peer.types);
    var asking := Asking(peer.types);
    var ack, request := Input(0x8021, 2, 1, [3, 6] + c.gateway, drawn), Input(0x8021, 1, 1, Concat(asking), drawn);
    FedTwo(auth, peer, t, drawn, ack.payload, request.payload);
    IpcpAckTaken(auth, t.s, 1, [3, 6] + c.gateway, drawn);
    IpcpRequestTaken(auth, Step(auth, t.s, ack).1, c, 1, asking, drawn);
    ConcatNone();
  }

  lemma AddressesTaken(auth: Chap.Auth, peer: Peer, c: Ipcp.Config, t: Talk, drawn: Drawn)
    requires Welcome(auth, peer, c) && t.s.state == ESTABLISHED && t.s.phase == 2 && t.s.ppp.Some?
    requires t.s.ppp.value.ipcp.config == c && t.s.ppp.value.ipcp.ourAcked && !t.s.ppp.value.ipcp.isOpen
    requires |Concat(Wanted(c, peer.types))| <= 0xFFFB
    requires t.toPeer == [WireFrame(0x8021, 3, 1, Concat(Wanted(c, peer.types)))]
    ensures var t' := Exchange(auth, peer, t, drawn);
      && t'.s.state == ESTABLISHED && t'.s.phase == 3 && t'.s.username == t.s.username
      && t'.toPeer == [WireFrame(0x8021, 2, 2, Concat(Wanted(c, peer.types)))]
  {
    hide Step, Replies, Exchange, WireFrame, Concat, Ipcp.Unknown, Ipcp.Corrections, Wanted;
    var wanted := Wanted(c, peer.types);
    RepliesTo(peer, 0x8021, 3, 1, Concat(wanted));
    AskedFor(c, peer.types);
    FedOne(auth, peer, t, drawn, Input(0x8021, 1, 2, Concat(wanted), drawn).payload);
    IpcpRequestTaken(auth, t.s, c, 2, wanted, drawn);
  }

  /** After one exchange the rest of the conversation. */
  lemma Next(auth: Chap.Auth, peer: Peer, t: Talk, draws: seq<Drawn>)
    requires draws != []
    ensures Exchanges(auth, peer, t, draws) == Exchanges(auth, peer, Exchange(auth, peer, t, draws[0]), draws[1..])
  {
  }

  /**
   A peer whose user is known gets through: from InitPPP on, knowing nothing of the
   session but the frames it is sent, and with nothing lost, it is in the data phase after
   taking six of them, and the last one acknowledges the configured addresses it asked for.
   */
  lemma ReachesData(auth: Chap.Auth, peer: Peer, c: Ipcp.Config, s: State, magic: u32, draws: seq<Drawn>)
    requires Welcome(auth, peer, c) && s.state == ESTABLISHED
    requires |draws| == 6 && forall i :: 0 <= i < 6 ==> |draws[i].challenge| == 16
    ensures var (frames, s0) := s.Initialized(c, magic);
      var t := Exchanges(auth, peer, Talk(s0, frames), draws);
      && t.s.state == ESTABLISHED && t.s.phase == 3 && t.s.username == peer.name
      && |Concat(Wanted(c, peer.types))| <= 0xFFFB
      && (peer.types != [] ==> t.toPeer == [WireFrame(0x8021, 2, 2, Concat(Wanted(c, peer.types)))])
  {
    var (frames, s0) := s.Initialized(c, magic);
    InitSends(s, c, magic);
    var body := [1, 4, 0x05, 0xDC, 3, 5, 0xC2, 0x23, 5, 5, 6] + Put32(magic);
    StartOf(s, c, magic);
    SixExchanges(auth, peer, Talk(s0, frames), draws);
    hide *;
    var t3 := LetIn(auth, peer, c, Talk(s0, frames), body, draws[0], draws[1], draws[2]);
    var t6 := GivenAddresses(auth, peer, c, t3, draws[3], draws[4], draws[5]);
  }

  /** The first three exchanges: the peer is authenticated. */
  lemma LetIn(auth: Chap.Auth, peer: Peer, c: Ipcp.Config, t0: Talk, body: bytes, a: Drawn, b: Drawn, d: Drawn)
    returns (t3: Talk)
    requires Welcome(auth, peer, c) && |a.challenge| == 16 && |body| <= 0xFFFB
    requires t0.s.state == ESTABLISHED && t0.s.phase == 0 && t0.s.ppp.Some? && t0.s.ppp.value.lcp.nextId == 1
    requires !t0.s.ppp.value.lcp.peerAcked && t0.s.ppp.value.lcp.state != Lcp.OPENED
    requires t0.s.ppp.value.chap == Chap.State(0, [], false, [])
    requires t0.s.ppp.value.ipcp == Ipcp.State(c, 0, false, false, false)
    requires t0.toPeer == [WireFrame(0xC021, 1, 1, body)]
    ensures t3 == Exchange(auth, peer, Exchange(auth, peer, Exchange(auth, peer, t0, a), b), d)
    ensures t3.s.state == ESTABLISHED && t3.s.phase == 2 && t3.s.username == peer.name
    ensures t3.s.ppp.Some? && t3.s.ppp.value.ipcp == Ipcp.State(c, 1, false, false, false)
    ensures |Text("Welcome ") + peer.name| <= 0xFFFB
    ensures t3.toPeer == [WireFrame(0xC223, 3, 1, Text("Welcome ") + peer.name),
                          WireFrame(0x8021, 1, 1, [3, 6] + c.gateway)]
  {
    assert |Concat(peer.lcpOptions)| <= 0xFFFB && |Text("Welcome ") + peer.name| <= 0xFFFB;
    hide Exchange, Replies, WireFrame, Welcome, Concat, Text;
    var t1 := Exchange(auth, peer, t0, a);
    var t2 := Exchange(auth, peer, t1, b);
    LcpOpens(auth, peer, c, t0, body, a);
    RepliesTo(peer, 0xC021, 2, 1, Concat(peer.lcpOptions));
    FedNone(auth, peer, t1, b);
    t3 := Exchange(auth, peer, t2, d);
    UserProven(auth, peer, c, t2, 1, d);
  }

  /** The last three: it is given its addresses. */
  lemma GivenAddresses(auth: Chap.Auth, peer: Peer, c: Ipcp.Config, t3: Talk, a: Drawn, b: Drawn, d: Drawn)
    returns (t6: Talk)
    requires Welcome(auth, peer, c) && |Text("Welcome ") + peer.name| <= 0xFFFB
    requires t3.s.state == ESTABLISHED && t3.s.phase == 2 && t3.s.username == peer.name
    requires t3.s.ppp.Some? && t3.s.ppp.value.ipcp == Ipcp.State(c, 1, false, false, false)
    requires t3.toPeer == [WireFrame(0xC223, 3, 1, Text("Welcome ") + peer.name),
                           WireFrame(0x8021, 1, 1, [3, 6] + c.gateway)]
    ensures t6 == Exchange(auth, peer, Exchange(auth, peer, Exchange(auth, peer, t3, a), b), d)
    ensures t6.s.state == ESTABLISHED && t6.s.phase == 3 && t6.s.username == peer.name
    ensures |Concat(Wanted(c, peer.types))| <= 0xFFFB
    ensures peer.types != [] ==> t6.toPeer == [WireFrame(0x8021, 2, 2, Concat(Wanted(c, peer.types)))]
  {
    hide Exchange, Replies, WireFrame, Welcome, Concat, Text, Wanted;
    var t4 := Exchange(auth, peer, t3, a);
    var t5 := Exchange(auth, peer, t4, b);
    RepliesTo(peer, 0xC223, 3, 1, Text("Welcome ") + peer.name);
    FedNone(auth, peer, t3, a);
    AddressesAsked(auth, peer, c, t4, b);
    t6 := Exchange(auth, peer, t5, d);
    if peer.types == [] {
      RepliesTo(peer, 0x8021, 2, 1, []);
      FedNone(auth, peer, t5, d);
    } else {
      AddressesTaken(auth, peer, c, t5, d);
    }
  }

  lemma StartOf(s: State, c: Ipcp.Config, magic: u32)
    ensures var s0 := s.Initialized(c, magic).1;
      && s0.state == s.state && s0.phase == 0 && s0.ppp.Some?
      && var h := s0.ppp.value;
         && h.lcp.nextId == 1 && !h.lcp.peerAcked && h.lcp.state != Lcp.OPENED
         && h.chap == Chap.State(0, [], false, []) && h.ipcp == Ipcp.State(c, 0, false, false, false)
  {
    hide Response;
  }

  lemma SixExchanges(auth: Chap.Auth, peer: Peer, t: Talk, draws: seq<Drawn>)
    requires |draws| == 6
    ensures var t1 := Exchange(auth, peer, t, draws[0]);
      var t2 := Exchange(auth, peer, t1, draws[1]);
      var t3 := Exchange(auth, peer, t2, draws[2]);
      var t4 := Exchange(auth, peer, t3, draws[3]);
      var t5 := Exchange(auth, peer, t4, draws[4]);
      Exchanges(auth, peer, t, draws) == Exchange(auth, peer, t5, draws[5])
  {
    hide Exchange;
    var t1 := Exchange(auth, peer, t, draws[0]);
    var t2 := Exchange(auth, peer, t1, draws[1]);
    var t3 := Exchange(auth, peer, t2, draws[2]);
    var t4 := Exchange(auth, peer, t3, draws[3]);
    var t5 := Exchange(auth, peer, t4, draws[4]);
    Next(auth, peer, t, draws);
    Next(auth, peer, t1, draws[1..]);
    Next(auth, peer, t2, draws[2..]);
    Next(auth, peer, t3, draws[3..]);
    Next(auth, peer, t4, draws[4..]);
    Next(auth, peer, t5, draws[5..]);
  }
}
