/** The PPP session inside an L2TP tunnel: LCP, then CHAP, then IPCP, then data. */
module Session {
  import opened Bytes
  import opened Ppp
  import opened ConfigOptions
  import Lcp
  import Chap
  import Ipcp

  const WAIT_CONNECT: byte := 1
  const ESTABLISHED: byte := 2
  const CLOSED: byte := 3

  const PHASE_LCP: byte := 0
  const PHASE_CHAP: byte := 1
  const PHASE_IPCP: byte := 2
  const PHASE_DATA: byte := 3

  datatype Handlers = Handlers(lcp: Lcp.State, chap: Chap.State, ipcp: Ipcp.State)

  /** What one frame leads to: frames back to the peer and perhaps a packet for the TUN device. */
  datatype Output = Output(frames: seq<bytes>, tun: Option<bytes>, panics: bool)

  const NOTHING := Output([], None, false)

  /** What is drawn at random while a frame is handled, if it has to be. */
  datatype Drawn = Drawn(magic: u32, challenge: bytes)

  function Framed(protocol: u16, r: Reply): seq<bytes> {
    if r.Send? then [SerializeFrame(protocol, r.packet)] else []
  }

  /** ppp is None until InitPPP. */
  datatype State = State(state: byte, phase: byte, ppp: Option<Handlers>, username: bytes) {

    function Initialized(c: Ipcp.Config, magic: u32): (seq<bytes>, State) {
      var (r, lcp) := Lcp.Initial(magic).Request();
      (Framed(PROTO_LCP, r), this.(ppp := Some(Handlers(lcp, Chap.INITIAL, Ipcp.Initial(c))), phase := PHASE_LCP))
    }

    function OnLcp(auth: Chap.Auth, data: bytes, drawn: Drawn): (Output, State)
      requires ppp.Some?
    {
      var h := ppp.value;
      var (r, lcp) := h.lcp.Handle(data, drawn.magic);
      var out := Framed(PROTO_LCP, r);
      if lcp.state == Lcp.OPENED && phase == PHASE_LCP then
        var (c, chap) := h.chap.Challenge(auth, drawn.challenge);
        (Output(out + Framed(PROTO_CHAP, c), None, r.Panics? || c.Panics?),
         this.(ppp := Some(h.(lcp := lcp, chap := chap)), phase := PHASE_CHAP))
      else (Output(out, None, r.Panics?), this.(ppp := Some(h.(lcp := lcp))))
    }

    function OnChap(auth: Chap.Auth, data: bytes): (Output, State)
      requires ppp.Some?
    {
      if phase != PHASE_CHAP then (NOTHING, this) else
      var h := ppp.value;
      var (r, chap) := h.chap.Handle(auth, data);
      var out := Framed(PROTO_CHAP, r);
      if chap.authenticated then
        var (q, ipcp) := h.ipcp.Request();
        (Output(out + Framed(PROTO_IPCP, q), None, r.Panics? || q.Panics?),
         this.(ppp := Some(h.(chap := chap, ipcp := ipcp)), phase := PHASE_IPCP, username := chap.username))
      else (Output(out, None, r.Panics?), this.(ppp := Some(h.(chap := chap))))
    }

    function OnIpcp(data: bytes): (Output, State)
      requires ppp.Some?
    {
      if phase != PHASE_IPCP then (NOTHING, this) else
      var h := ppp.value;
      var (r, ipcp) := h.ipcp.Handle(data);
      (Output(Framed(PROTO_IPCP, r), None, r.Panics?),
       this.(ppp := Some(h.(ipcp := ipcp)), phase := if ipcp.isOpen then PHASE_DATA else phase))
    }

    /** PAP, CCP, IPv6CP and whatever else is not spoken here. */
    function OnOther(protocol: u16, data: bytes): (Output, State)
      requires ppp.Some?
    {
      var (r, lcp) := ppp.value.lcp.ProtocolReject(protocol, data);
      (Output(Framed(PROTO_LCP, r), None, r.Panics?), this.(ppp := Some(ppp.value.(lcp := lcp))))
    }

    function OnData(auth: Chap.Auth, payload: bytes, drawn: Drawn): (Output, State) {
      var f := ParseFrame(payload);
      if state != ESTABLISHED || f.Err? then (NOTHING, this) else
      var Frame(protocol, data) := f.value;
      if protocol == PROTO_IPV4 then (if phase == PHASE_DATA then Output([], Some(data), false) else NOTHING, this) else
      if ppp.None? then (NOTHING, this) else
      if protocol == PROTO_LCP then OnLcp(auth, data, drawn) else
      if protocol == PROTO_CHAP then OnChap(auth, data) else
      if protocol == PROTO_IPCP then OnIpcp(data) else OnOther(protocol, data)
    }
  }

  // Runs.

  datatype Input = Data(payload: bytes, drawn: Drawn) | Close

  function Step(auth: Chap.Auth, s: State, i: Input): (Output, State) {
    match i
    case Data(payload, drawn) => s.OnData(auth, payload, drawn)
    case Close => (NOTHING, s.(state := CLOSED))
  }

  function Run(auth: Chap.Auth, s: State, ins: seq<Input>): State {
    if ins == [] then s else Step(auth, Run(auth, s, ins[..|ins| - 1]), ins[|ins| - 1]).1
  }

  /** What has to happen before data may pass. */
  datatype Event = LcpPeerAcked | LcpOurAcked | Authenticated | IpcpPeerAcked | IpcpOurAcked

  /** The control packet an input carries for a protocol. */
  function PacketIn(i: Input, protocol: u16): Incoming {
    if i.Close? then Ignored else
    var f := ParseFrame(i.payload);
    if f.Err? || f.value.protocol != protocol then Ignored else Received(f.value.payload)
  }

  ghost predicate Occurs(e: Event, auth: Chap.Auth, s: State, i: Input) {
    && s.state == ESTABLISHED
    && s.ppp.Some?
    && match e
       case LcpPeerAcked =>
         var p := PacketIn(i, PROTO_LCP);
         p.Packet? && p.code == CONFIGURE_REQUEST && Answer(Lcp.JudgeOption, ParseOptions(p.payload)).0 == CONFIGURE_ACK
       case LcpOurAcked =>
         var p := PacketIn(i, PROTO_LCP);
         p.Packet? && p.code == CONFIGURE_ACK && p.id == s.ppp.value.lcp.nextId
       case Authenticated =>
         var p := PacketIn(i, PROTO_CHAP);
         s.phase == PHASE_CHAP && p.Packet? && p.code == Chap.RESPONSE
         && Chap.Proves(auth, s.ppp.value.chap.challenge, p.id, p.payload)
       case IpcpPeerAcked =>
         var p := PacketIn(i, PROTO_IPCP);
         s.phase == PHASE_IPCP && p.Packet? && p.code == CONFIGURE_REQUEST
         && Answer(Ipcp.Rule(s.ppp.value.ipcp.config), ParseOptions(p.payload)).0 == CONFIGURE_ACK
       case IpcpOurAcked =>
         var p := PacketIn(i, PROTO_IPCP);
         s.phase == PHASE_IPCP && p.Packet? && p.code == CONFIGURE_ACK && p.id == s.ppp.value.ipcp.nextId
  }

  /** Event e happened at input k of the run. */
  ghost predicate At(e: Event, auth: Chap.Auth, s0: State, ins: seq<Input>, k: nat) {
    k < |ins| && Occurs(e, auth, Run(auth, s0, ins[..k]), ins[k])
  }

  ghost predicate Within(e: Event, auth: Chap.Auth, s0: State, ins: seq<Input>, n: nat) {
    exists k: nat :: k < n && At(e, auth, s0, ins, k)
  }

  ghost predicate LinkUp(auth: Chap.Auth, s0: State, ins: seq<Input>, n: nat) {
    Within(LcpPeerAcked, auth, s0, ins, n) && Within(LcpOurAcked, auth, s0, ins, n)
  }

  /** A proof of the password after the link came up, against a challenge drawn in this run. */
  ghost predicate UserKnown(auth: Chap.Auth, s0: State, ins: seq<Input>, n: nat, name: bytes) {
    exists k: nat :: k < n && UserKnownAt(auth, s0, ins, k, name)
  }

  ghost predicate UserKnownAt(auth: Chap.Auth, s0: State, ins: seq<Input>, k: nat, name: bytes) {
    && At(Authenticated, auth, s0, ins, k)
    && LinkUp(auth, s0, ins, k)
    && Drew(ins, k, Run(auth, s0, ins[..k]).ppp.value.chap.challenge)
    && Chap.NameIn(PacketIn(ins[k], PROTO_CHAP).payload) == name
  }

  predicate Drew(ins: seq<Input>, n: nat, challenge: bytes) {
    exists k :: 0 <= k < n && k < |ins| && ins[k].Data? && ins[k].drawn.challenge == challenge
  }

  ghost predicate AddressGiven(auth: Chap.Auth, s0: State, ins: seq<Input>, n: nat, name: bytes) {
    && (exists k: nat :: k < n && AfterUser(IpcpPeerAcked, auth, s0, ins, k, name))
    && (exists k: nat :: k < n && AfterUser(IpcpOurAcked, auth, s0, ins, k, name))
  }

  ghost predicate AfterUser(e: Event, auth: Chap.Auth, s0: State, ins: seq<Input>, k: nat, name: bytes) {
    At(e, auth, s0, ins, k) && UserKnown(auth, s0, ins, k, name)
  }

  ghost predicate Fresh(s: State, c: Ipcp.Config) {
    && c.Valid() && s.state == ESTABLISHED && s.phase == PHASE_LCP && s.ppp.Some?
    && !s.ppp.value.lcp.ourAcked && !s.ppp.value.lcp.peerAcked && s.ppp.value.lcp.Valid()
    && s.ppp.value.chap == Chap.INITIAL && s.ppp.value.ipcp == Ipcp.Initial(c)
  }

  lemma InitializedIsFresh(s: State, c: Ipcp.Config, magic: u32)
    requires c.Valid() && s.state == ESTABLISHED
    ensures Fresh(s.Initialized(c, magic).1, c)
  {
    hide Response;
  }

  // One step.

  ghost predicate StepInv(s: State) {
    && s.ppp.Some? && s.phase <= PHASE_DATA
    && s.ppp.value.lcp.Valid() && s.ppp.value.ipcp.Valid()
    && (s.ppp.value.chap.authenticated <==> s.phase >= PHASE_IPCP)
  }

  /** What a step leaves as it was, or moves one phase on, and why. */
  ghost predicate Moves(auth: Chap.Auth, s: State, i: Input, s': State)
    requires StepInv(s) && s'.ppp.Some?
  {
    var h, h' := s.ppp.value, s'.ppp.value;
    && s.phase <= s'.phase <= s.phase + 1
    && h'.ipcp.config == h.ipcp.config
    && (h'.lcp.peerAcked <==> h.lcp.peerAcked || Occurs(LcpPeerAcked, auth, s, i))
    && (h'.lcp.ourAcked <==> h.lcp.ourAcked || Occurs(LcpOurAcked, auth, s, i))
    && (h'.ipcp.peerAcked <==> h.ipcp.peerAcked || Occurs(IpcpPeerAcked, auth, s, i))
    && (h'.ipcp.ourAcked <==> h.ipcp.ourAcked || Occurs(IpcpOurAcked, auth, s, i))
    && (s'.phase != PHASE_CHAP || s.phase == PHASE_CHAP || EntersChap(s, i, s'))
    && (s'.phase != PHASE_CHAP || s.phase == PHASE_LCP || h'.chap.challenge == h.chap.challenge)
    && (s'.phase > PHASE_CHAP ==> h'.chap.challenge == h.chap.challenge)
    && (s'.phase == PHASE_IPCP && s.phase == PHASE_CHAP ==>
          && Occurs(Authenticated, auth, s, i)
          && s'.username == Chap.NameIn(PacketIn(i, PROTO_CHAP).payload))
    && (s.phase != PHASE_CHAP || s'.phase == PHASE_CHAP ==> s'.username == s.username)
    && (s'.phase == PHASE_DATA && s.phase == PHASE_IPCP ==> h'.ipcp.isOpen)
    && (h.ipcp.isOpen ==> h'.ipcp.isOpen)
  }

  /** Entering the CHAP phase: both acknowledgments are in and the challenge is the one just drawn. */
  ghost predicate EntersChap(s: State, i: Input, s': State)
    requires s'.ppp.Some?
  {
    var h' := s'.ppp.value;
    s.phase == PHASE_LCP && h'.lcp.ourAcked && h'.lcp.peerAcked && i.Data? && h'.chap.challenge == i.drawn.challenge
  }

  lemma LcpMoves(auth: Chap.Auth, s: State, i: Input)
    requires StepInv(s) && s.state == ESTABLISHED && i.Data?
    requires ParseFrame(i.payload).Ok? && ParseFrame(i.payload).value.protocol == PROTO_LCP
    ensures var s' := Step(auth, s, i).1; StepInv(s') && Moves(auth, s, i, s')
  {
    Lcp.AcksExactly(s.ppp.value.lcp, ParseFrame(i.payload).value.payload, i.drawn.magic);
    hide Lcp.State.Handle, Received, ParseFrame, Answer, ParseOptions, Chap.Proves, Ipcp.Rule, Framed, Response;
  }

  lemma ChapMoves(auth: Chap.Auth, s: State, i: Input)
    requires StepInv(s) && s.state == ESTABLISHED && i.Data?
    requires ParseFrame(i.payload).Ok? && ParseFrame(i.payload).value.protocol == PROTO_CHAP
    ensures var s' := Step(auth, s, i).1; StepInv(s') && Moves(auth, s, i, s')
  {
    Chap.AuthenticatesExactly(s.ppp.value.chap, auth, ParseFrame(i.payload).value.payload);
    hide Chap.State.Handle, Received, ParseFrame, Answer, ParseOptions, Chap.Proves, Ipcp.Rule, Framed, Response;
  }

  lemma IpcpMoves(auth: Chap.Auth, s: State, i: Input)
    requires StepInv(s) && s.state == ESTABLISHED && i.Data?
    requires ParseFrame(i.payload).Ok? && ParseFrame(i.payload).value.protocol == PROTO_IPCP
    ensures var s' := Step(auth, s, i).1; StepInv(s') && Moves(auth, s, i, s')
  {
    Ipcp.AcksExactly(s.ppp.value.ipcp, ParseFrame(i.payload).value.payload);
    hide Ipcp.State.Handle, Received, ParseFrame, Answer, ParseOptions, Chap.Proves, Ipcp.Rule, Framed, Response;
  }

  lemma StepMoves(auth: Chap.Auth, s: State, i: Input)
    requires StepInv(s)
    ensures var s' := Step(auth, s, i).1; StepInv(s') && Moves(auth, s, i, s')
  {
    hide Received, ParseFrame, Answer, ParseOptions, Chap.Proves, Ipcp.Rule, Framed, Response;
    if i.Data? && s.state == ESTABLISHED && ParseFrame(i.payload).Ok? {
      var protocol := ParseFrame(i.payload).value.protocol;
      if protocol == PROTO_LCP {
        LcpMoves(auth, s, i);
      } else if protocol == PROTO_CHAP {
        ChapMoves(auth, s, i);
      } else if protocol == PROTO_IPCP {
        IpcpMoves(auth, s, i);
      }
    }
  }

  lemma TunExactly(auth: Chap.Auth, s: State, i: Input)
    ensures Step(auth, s, i).0.tun.Some? <==>
      && i.Data? && s.state == ESTABLISHED && s.phase == PHASE_DATA
      && ParseFrame(i.payload).Ok? && ParseFrame(i.payload).value.protocol == PROTO_IPV4
  {
    hide Received, ParseFrame, Answer, ParseOptions, Framed, Response;
  }

  /** What of an input some handler does not guard. */
  ghost predicate Unhandled(s: State, i: Input) {
    && i.Data? && s.state == ESTABLISHED && s.ppp.Some?
    && (|| PacketIn(i, PROTO_LCP).Unguarded? || Lcp.WrapsLength(PacketIn(i, PROTO_LCP))
        || (s.phase == PHASE_CHAP && PacketIn(i, PROTO_CHAP).Unguarded?
            && ParseFrame(i.payload).value.payload[0] == Chap.RESPONSE)
        || (s.phase == PHASE_IPCP && PacketIn(i, PROTO_IPCP).Unguarded?))
  }

  /**
   A frame brings the session down exactly when its handler does not guard it; the
   challenge and the request that open a phase never do.
   */
  lemma PanicsExactly(auth: Chap.Auth, s: State, i: Input)
    requires auth.Valid() && (s.ppp.Some? ==> s.ppp.value.ipcp.config.Valid())
    requires i.Data? ==> |i.drawn.challenge| == 16
    ensures Step(auth, s, i).0.panics <==> Unhandled(s, i)
  {
    hide Lcp.State.Handle, Chap.State.Handle, Ipcp.State.Handle, Lcp.State.ProtocolReject;
    hide Chap.State.Challenge, Ipcp.State.Request;
    hide Received, ParseFrame, Response, Framed, Lcp.WrapsLength;
    NothingWraps();
    if i.Data? && s.state == ESTABLISHED && ParseFrame(i.payload).Ok? && s.ppp.Some? {
      var h, data := s.ppp.value, ParseFrame(i.payload).value.payload;
      Lcp.PanicsExactly(h.lcp, data, i.drawn.magic);
      Chap.PanicsExactly(h.chap, auth, data);
      Ipcp.PanicsExactly(h.ipcp, data);
      Chap.ChallengeSends(h.chap, auth, i.drawn.challenge);
      Ipcp.RequestSends(h.ipcp);
      Lcp.ProtocolRejectSends(h.lcp, ParseFrame(i.payload).value.protocol, data);
    }
  }

  lemma NothingWraps()
    ensures !Lcp.WrapsLength(Ignored)
  {
  }

  /** Once data may pass it passes until the session is closed, whatever else arrives. */
  lemma {:induction false} ForwardsUntilClosed(auth: Chap.Auth, s: State, ins: seq<Input>)
    requires s.state == ESTABLISHED && s.phase == PHASE_DATA
    ensures var s' := Run(auth, s, ins);
      s'.phase == PHASE_DATA && (s'.state == ESTABLISHED <==> Close !in ins)
  {
    if ins != [] {
      var most, i := ins[..|ins| - 1], ins[|ins| - 1];
      ForwardsUntilClosed(auth, s, most);
      InDataStep(auth, Run(auth, s, most), i);
      assert ins == most + [i] && (Close in ins <==> Close in most || i == Close);
      hide Step;
    }
  }

  lemma InDataStep(auth: Chap.Auth, s: State, i: Input)
    requires s.phase == PHASE_DATA
    ensures var s' := Step(auth, s, i).1; s'.phase == PHASE_DATA && s'.state == if i.Close? then CLOSED else s.state
  {
    hide Lcp.State.Handle, Chap.State.Handle, Ipcp.State.Handle, Lcp.State.ProtocolReject, ParseFrame, Framed;
  }

  /** A Terminate-Request among it: LCP is closed by it and the next IPv4 frame still goes to the TUN device. */
  lemma TerminatedStillForwards(auth: Chap.Auth, s: State, i: Input, j: Input)
    requires s.state == ESTABLISHED && s.phase == PHASE_DATA && s.ppp.Some?
    requires PacketIn(i, PROTO_LCP).Packet? && PacketIn(i, PROTO_LCP).code == TERMINATE_REQUEST
    requires j.Data? && ParseFrame(j.payload).Ok? && ParseFrame(j.payload).value.protocol == PROTO_IPV4
    ensures var s' := Step(auth, s, i).1;
      s'.ppp.value.lcp.state == Lcp.CLOSED && Step(auth, s', j).0.tun == Some(ParseFrame(j.payload).value.payload)
  {
    hide Received, ParseFrame, Response, Framed;
  }

  // Whole runs.

  lemma AtExtends(e: Event, auth: Chap.Auth, s0: State, ins: seq<Input>, i: Input)
    ensures forall k: nat :: k < |ins| ==> (At(e, auth, s0, ins + [i], k) <==> At(e, auth, s0, ins, k))
    ensures Occurs(e, auth, Run(auth, s0, ins), i) <==> At(e, auth, s0, ins + [i], |ins|)
  {
    hide Occurs;
    assert forall k: nat :: k <= |ins| ==> (ins + [i])[..k] == ins[..k];
    assert ins[..|ins|] == ins;
  }

  lemma WithinStep(e: Event, auth: Chap.Auth, s0: State, ins: seq<Input>, i: Input)
    ensures Within(e, auth, s0, ins + [i], |ins| + 1)
      <==> Within(e, auth, s0, ins, |ins|) || Occurs(e, auth, Run(auth, s0, ins), i)
    ensures forall n: nat :: n <= |ins| && Within(e, auth, s0, ins, n) ==> Within(e, auth, s0, ins + [i], n)
  {
    AtExtends(e, auth, s0, ins, i);
    hide At, Occurs, Run;
  }

  lemma LinkUpStep(auth: Chap.Auth, s0: State, ins: seq<Input>, i: Input)
    ensures forall n: nat :: n <= |ins| && LinkUp(auth, s0, ins, n) ==> LinkUp(auth, s0, ins + [i], n)
    ensures LinkUp(auth, s0, ins, |ins|) ==> LinkUp(auth, s0, ins + [i], |ins| + 1)
  {
    WithinStep(LcpPeerAcked, auth, s0, ins, i);
    WithinStep(LcpOurAcked, auth, s0, ins, i);
    hide Within;
  }

  lemma DrewStep(ins: seq<Input>, i: Input, n: nat, challenge: bytes)
    requires Drew(ins, n, challenge)
    ensures Drew(ins + [i], n, challenge) && Drew(ins + [i], n + 1, challenge)
  {
    var k :| 0 <= k < n && k < |ins| && ins[k].Data? && ins[k].drawn.challenge == challenge;
    assert (ins + [i])[k] == ins[k];
  }

  lemma UserKnownStep(auth: Chap.Auth, s0: State, ins: seq<Input>, i: Input, n: nat, name: bytes)
    requires n <= |ins| && UserKnown(auth, s0, ins, n, name)
    ensures UserKnown(auth, s0, ins + [i], n, name) && UserKnown(auth, s0, ins + [i], n + 1, name)
  {
    var k: nat :| k < n && UserKnownAt(auth, s0, ins, k, name);
    assert (ins + [i])[..k] == ins[..k] && (ins + [i])[k] == ins[k];
    AtExtends(Authenticated, auth, s0, ins, i);
    LinkUpStep(auth, s0, ins, i);
    DrewStep(ins, i, k, Run(auth, s0, ins[..k]).ppp.value.chap.challenge);
    hide At, LinkUp, Drew, Run;
    assert UserKnownAt(auth, s0, ins + [i], k, name);
  }

  // What holds throughout a run.

  ghost predicate LcpInv(auth: Chap.Auth, s0: State, ins: seq<Input>, s: State)
    requires s.ppp.Some?
  {
    && (s.ppp.value.lcp.peerAcked ==> Within(LcpPeerAcked, auth, s0, ins, |ins|))
    && (s.ppp.value.lcp.ourAcked ==> Within(LcpOurAcked, auth, s0, ins, |ins|))
  }

  ghost predicate ChapInv(auth: Chap.Auth, s0: State, ins: seq<Input>, s: State)
    requires s.ppp.Some?
  {
    s.phase >= PHASE_CHAP ==> LinkUp(auth, s0, ins, |ins|) && Drew(ins, |ins|, s.ppp.value.chap.challenge)
  }

  ghost predicate UserInv(auth: Chap.Auth, s0: State, ins: seq<Input>, s: State) {
    s.phase >= PHASE_IPCP ==> UserKnown(auth, s0, ins, |ins|, s.username)
  }

  ghost predicate AckedAfterUser(e: Event, auth: Chap.Auth, s0: State, ins: seq<Input>, name: bytes) {
    exists k: nat :: k < |ins| && AfterUser(e, auth, s0, ins, k, name)
  }

  ghost predicate IpcpInv(auth: Chap.Auth, s0: State, ins: seq<Input>, s: State)
    requires s.ppp.Some?
  {
    var h := s.ppp.value.ipcp;
    && (s.phase < PHASE_IPCP ==> !h.peerAcked && !h.ourAcked)
    && (s.phase == PHASE_DATA ==> h.isOpen)
    && (h.peerAcked ==> AckedAfterUser(IpcpPeerAcked, auth, s0, ins, s.username))
    && (h.ourAcked ==> AckedAfterUser(IpcpOurAcked, auth, s0, ins, s.username))
  }

  ghost predicate RunInv(auth: Chap.Auth, s0: State, ins: seq<Input>, c: Ipcp.Config, s: State) {
    && StepInv(s) && s.ppp.value.ipcp.config == c
    && LcpInv(auth, s0, ins, s) && ChapInv(auth, s0, ins, s) && UserInv(auth, s0, ins, s) && IpcpInv(auth, s0, ins, s)
  }

  lemma LcpInvStep(auth: Chap.Auth, s0: State, ins: seq<Input>, i: Input, s: State, s': State)
    requires s == Run(auth, s0, ins) && StepInv(s) && s'.ppp.Some? && Moves(auth, s, i, s')
    requires LcpInv(auth, s0, ins, s)
    ensures LcpInv(auth, s0, ins + [i], s')
  {
    hide Run, Occurs, Within;
    WithinStep(LcpPeerAcked, auth, s0, ins, i);
    WithinStep(LcpOurAcked, auth, s0, ins, i);
  }

  lemma ChapInvStep(auth: Chap.Auth, s0: State, ins: seq<Input>, i: Input, s: State, s': State)
    requires s == Run(auth, s0, ins) && StepInv(s) && s'.ppp.Some? && Moves(auth, s, i, s')
    requires ChapInv(auth, s0, ins, s) && LcpInv(auth, s0, ins + [i], s')
    ensures ChapInv(auth, s0, ins + [i], s')
  {
    hide Run, Occurs, Within;
    if s.phase >= PHASE_CHAP {
      hide LinkUp, Drew;
      LinkUpStep(auth, s0, ins, i);
      DrewStep(ins, i, |ins|, s.ppp.value.chap.challenge);
    } else if s'.phase >= PHASE_CHAP {
      assert (ins + [i])[|ins|] == i;
    }
  }

  lemma UserInvStep(auth: Chap.Auth, s0: State, ins: seq<Input>, i: Input, s: State, s': State)
    requires s == Run(auth, s0, ins) && StepInv(s) && s'.ppp.Some? && Moves(auth, s, i, s')
    requires ChapInv(auth, s0, ins, s) && UserInv(auth, s0, ins, s)
    ensures UserInv(auth, s0, ins + [i], s')
  {
    var all, n := ins + [i], |ins|;
    hide Run, Occurs, Within, LinkUp, Drew;
    if s.phase >= PHASE_IPCP {
      UserKnownStep(auth, s0, ins, i, n, s.username);
    } else if s'.phase >= PHASE_IPCP {
      assert all[..n] == ins && all[n] == i;
      AtExtends(Authenticated, auth, s0, ins, i);
      LinkUpStep(auth, s0, ins, i);
      DrewStep(ins, i, n, s.ppp.value.chap.challenge);
      assert UserKnownAt(auth, s0, all, n, s'.username);
    }
  }

  lemma AckedAfterUserStep(e: Event, auth: Chap.Auth, s0: State, ins: seq<Input>, i: Input, name: bytes)
    ensures AckedAfterUser(e, auth, s0, ins, name) ==> AckedAfterUser(e, auth, s0, ins + [i], name)
    ensures Occurs(e, auth, Run(auth, s0, ins), i) && UserKnown(auth, s0, ins, |ins|, name) ==>
      AckedAfterUser(e, auth, s0, ins + [i], name)
  {
    hide Run, Occurs, At, UserKnown;
    AtExtends(e, auth, s0, ins, i);
    if AckedAfterUser(e, auth, s0, ins, name) {
      var k: nat :| k < |ins| && AfterUser(e, auth, s0, ins, k, name);
      UserKnownStep(auth, s0, ins, i, k, name);
      assert AfterUser(e, auth, s0, ins + [i], k, name);
    }
    if Occurs(e, auth, Run(auth, s0, ins), i) && UserKnown(auth, s0, ins, |ins|, name) {
      UserKnownStep(auth, s0, ins, i, |ins|, name);
      assert AfterUser(e, auth, s0, ins + [i], |ins|, name);
    }
  }

  lemma IpcpInvStep(auth: Chap.Auth, s0: State, ins: seq<Input>, i: Input, s: State, s': State)
    requires s == Run(auth, s0, ins) && StepInv(s) && StepInv(s') && Moves(auth, s, i, s')
    requires UserInv(auth, s0, ins, s) && IpcpInv(auth, s0, ins, s)
    ensures IpcpInv(auth, s0, ins + [i], s')
  {
    assert Occurs(IpcpPeerAcked, auth, s, i) || Occurs(IpcpOurAcked, auth, s, i) ==> s.phase == PHASE_IPCP;
    hide Run, Occurs, AckedAfterUser, UserKnown;
    AckedAfterUserStep(IpcpPeerAcked, auth, s0, ins, i, s.username);
    AckedAfterUserStep(IpcpOurAcked, auth, s0, ins, i, s.username);
  }

  lemma {:induction false} RunHolds(auth: Chap.Auth, s0: State, ins: seq<Input>, c: Ipcp.Config)
    requires Fresh(s0, c)
    ensures RunInv(auth, s0, ins, c, Run(auth, s0, ins))
  {
    if ins != [] {
      var most, i := ins[..|ins| - 1], ins[|ins| - 1];
      var s, s' := Run(auth, s0, most), Run(auth, s0, ins);
      assert s' == Step(auth, s, i).1;
      hide Run, Step, Occurs, Moves, LcpInv, ChapInv, UserInv, IpcpInv, Fresh;
      RunHolds(auth, s0, most, c);
      assert ins == most + [i];
      StepMoves(auth, s, i);
      LcpInvStep(auth, s0, most, i, s, s');
      ChapInvStep(auth, s0, most, i, s, s');
      UserInvStep(auth, s0, most, i, s, s');
      IpcpInvStep(auth, s0, most, i, s, s');
      assert s'.ppp.value.ipcp.config == s.ppp.value.ipcp.config by { ConfigKept(auth, s, i, s'); }
    }
  }

  lemma ConfigKept(auth: Chap.Auth, s: State, i: Input, s': State)
    requires StepInv(s) && s'.ppp.Some? && Moves(auth, s, i, s')
    ensures s'.ppp.value.ipcp.config == s.ppp.value.ipcp.config
    ensures s.phase <= s'.phase <= s.phase + 1
  {
  }

  /** In every run the phase moves up one at a time: LCP, CHAP, IPCP, data. */
  lemma PhasesInOrder(auth: Chap.Auth, s0: State, ins: seq<Input>, i: Input, c: Ipcp.Config)
    requires Fresh(s0, c)
    ensures var s, s' := Run(auth, s0, ins), Run(auth, s0, ins + [i]);
      PHASE_LCP <= s.phase <= s'.phase <= s.phase + 1 && s'.phase <= PHASE_DATA
  {
    var s := Run(auth, s0, ins);
    RunHolds(auth, s0, ins, c);
    assert (ins + [i])[..|ins|] == ins;
    assert Run(auth, s0, ins + [i]) == Step(auth, s, i).1;
    hide Run, Step, Occurs, Fresh;
    StepMoves(auth, s, i);
    ConfigKept(auth, s, i, Step(auth, s, i).1);
  }

  /**
   In every run that hands a packet to the TUN device, both IPCP acknowledgments
   came before it, each after a response proving the user's password against a
   challenge drawn in the run, and that after both LCP acknowledgments.
   */
  lemma ForwardedOnlyWhenUp(auth: Chap.Auth, s0: State, ins: seq<Input>, i: Input, c: Ipcp.Config)
    requires Fresh(s0, c) && Step(auth, Run(auth, s0, ins), i).0.tun.Some?
    ensures AddressGiven(auth, s0, ins, |ins|, Run(auth, s0, ins).username)
  {
    var s := Run(auth, s0, ins);
    RunHolds(auth, s0, ins, c);
    TunExactly(auth, s, i);
    hide Run, Step, Fresh, AfterUser;
  }

  /** And what the peer was acknowledged then is the address it was assigned. */
  lemma AddressIsAssigned(auth: Chap.Auth, s0: State, ins: seq<Input>, k: nat, c: Ipcp.Config)
    requires Fresh(s0, c) && At(IpcpPeerAcked, auth, s0, ins, k)
    ensures forall o :: o in ParseOptions(PacketIn(ins[k], PROTO_IPCP).payload) && o[0] == Ipcp.OPT_IP_ADDRESS ==>
      |o| >= 6 && o[2..6] == c.assignedIp
  {
    RunHolds(auth, s0, ins[..k], c);
    var b := PacketIn(ins[k], PROTO_IPCP).payload;
    assert Answer(Ipcp.Rule(c), ParseOptions(b)).0 == CONFIGURE_ACK;
    hide Run, Answer, Ipcp.Rule, ParseOptions;
    assert c.Valid();
    Ipcp.IpcpAckMeans(c, b);
  }

  // The session object.

  class PppSession {
    const auth: Chap.Auth
    const localSessionId: u16
    const remoteSessionId: u16
    var state: byte
    var pppPhase: byte
    var assignedIp: Option<u32>
    var username: bytes
    var lcpHandler: Lcp.LcpHandler?
    var chapHandler: Chap.ChapHandler?
    var ipcpHandler: Ipcp.IpcpHandler?

    ghost predicate Valid()
      reads this
    {
      && auth.Valid()
      && (lcpHandler != null <==> chapHandler != null) && (lcpHandler != null <==> ipcpHandler != null)
      && (chapHandler != null ==> chapHandler.auth == auth)
    }

    ghost function HandlerObjects(): (Lcp.LcpHandler?, Chap.ChapHandler?, Ipcp.IpcpHandler?)
      reads this
    {
      (lcpHandler, chapHandler, ipcpHandler)
    }

    ghost function Value(): State
      requires Valid()
      reads this, lcpHandler, chapHandler, ipcpHandler
    {
      State(state, pppPhase,
            if lcpHandler == null then None
            else Some(Handlers(lcpHandler.Value(), chapHandler.Value(), ipcpHandler.Value())),
            username)
    }

    /** A session made by an incoming call request. */
    constructor (auth: Chap.Auth, localSessionId: u16, remoteSessionId: u16)
      requires auth.Valid()
      ensures Valid() && Value() == State(WAIT_CONNECT, PHASE_LCP, None, []) && assignedIp == None
      ensures this.auth == auth && this.localSessionId == localSessionId && this.remoteSessionId == remoteSessionId
    {
      this.auth, this.localSessionId, this.remoteSessionId := auth, localSessionId, remoteSessionId;
      state, pppPhase, username, assignedIp := WAIT_CONNECT, PHASE_LCP, [], None;
      lcpHandler, chapHandler, ipcpHandler := null, null, null;
    }

    method HandleIccn() returns (ok: bool)
      requires Valid()
      modifies this`state
      ensures Valid() && ok == (old(state) == WAIT_CONNECT)
      ensures Value() == if ok then old(Value()).(state := ESTABLISHED) else old(Value())
    {
      if state != WAIT_CONNECT {
        return false;
      }
      state := ESTABLISHED;
      ok := true;
    }

    method InitPpp(ip: u32, gateway: bytes, dns1: bytes, dns2: bytes, magic: u32) returns (frames: seq<bytes>)
      requires Valid()
      modifies this
      ensures Valid() && assignedIp == Some(ip) && state == old(state)
      ensures ipcpHandler != null && ipcpHandler.config.assignedIp == Put32(ip)
      ensures (frames, Value()) == old(Value()).Initialized(Ipcp.Config(Put32(ip), dns1, dns2, gateway), magic)
    {
      hide Response, Lcp.State.Request;
      lcpHandler := new Lcp.LcpHandler(magic);
      chapHandler := new Chap.ChapHandler(auth);
      ipcpHandler := new Ipcp.IpcpHandler(Ipcp.Config(Put32(ip), dns1, dns2, gateway));
      assignedIp := Some(ip);
      pppPhase := PHASE_LCP;
      var r := lcpHandler.BuildConfigureRequest();
      frames := Framed(PROTO_LCP, r);
    }

    method HandleLcp(data: bytes, drawn: Drawn) returns (frames: seq<bytes>, panics: bool)
      requires Valid() && lcpHandler != null && |drawn.challenge| == 16
      modifies this`pppPhase, this`username, lcpHandler, chapHandler
      ensures Valid() && HandlerObjects() == old(HandlerObjects())
      ensures (Output(frames, None, panics), Value()) == old(Value()).OnLcp(auth, data, drawn)
    {
      hide Response, Lcp.State.Handle, Framed;
      var r := lcpHandler.Handle(data, drawn.magic);
      frames, panics := Framed(PROTO_LCP, r), r.Panics?;
      if lcpHandler.state == Lcp.OPENED && pppPhase == PHASE_LCP {
        pppPhase := PHASE_CHAP;
        var c := chapHandler.BuildChallenge(drawn.challenge);
        frames, panics := frames + Framed(PROTO_CHAP, c), panics || c.Panics?;
      }
    }

    method HandleChap(data: bytes) returns (frames: seq<bytes>, panics: bool)
      requires Valid() && lcpHandler != null
      modifies this`pppPhase, this`username, chapHandler, ipcpHandler
      ensures Valid() && HandlerObjects() == old(HandlerObjects())
      ensures (Output(frames, None, panics), Value()) == old(Value()).OnChap(auth, data)
    {
      hide Response, Chap.State.Handle, Framed;
      if pppPhase != PHASE_CHAP {
        return [], false;
      }
      var r := chapHandler.Handle(data);
      frames, panics := Framed(PROTO_CHAP, r), r.Panics?;
      if chapHandler.authenticated {
        username, pppPhase := chapHandler.username, PHASE_IPCP;
        var q := ipcpHandler.BuildConfigureRequest();
        frames, panics := frames + Framed(PROTO_IPCP, q), panics || q.Panics?;
      }
    }

    method HandleIpcp(data: bytes) returns (frames: seq<bytes>, panics: bool)
      requires Valid() && lcpHandler != null
      modifies this`pppPhase, this`username, ipcpHandler
      ensures Valid() && HandlerObjects() == old(HandlerObjects())
      ensures (Output(frames, None, panics), Value()) == old(Value()).OnIpcp(data)
    {
      hide Response, Ipcp.State.Handle, Framed;
      if pppPhase != PHASE_IPCP {
        return [], false;
      }
      var r := ipcpHandler.Handle(data);
      frames, panics := Framed(PROTO_IPCP, r), r.Panics?;
      if ipcpHandler.isOpen && pppPhase == PHASE_IPCP {
        pppPhase := PHASE_DATA;
      }
    }

    method HandleData(payload: bytes, drawn: Drawn) returns (frames: seq<bytes>, tun: Option<bytes>, panics: bool)
      requires Valid() && |drawn.challenge| == 16
      modifies this`pppPhase, this`username, lcpHandler, chapHandler, ipcpHandler
      ensures Valid() && (Output(frames, tun, panics), Value()) == old(Value()).OnData(auth, payload, drawn)
    {
      hide Response, Framed, State.OnLcp, State.OnChap, State.OnIpcp, Lcp.State.ProtocolReject, ParseFrame;
      frames, tun, panics := [], None, false;
      if state != ESTABLISHED {
        return;
      }
      var f := ParseFrame(payload);
      if f.Err? {
        return;
      }
      if f.value.protocol == PROTO_LCP {
        if lcpHandler != null {
          frames, panics := HandleLcp(f.value.payload, drawn);
        }
      } else if f.value.protocol == PROTO_CHAP {
        if chapHandler != null {
          frames, panics := HandleChap(f.value.payload);
        }
      } else if f.value.protocol == PROTO_IPCP {
        if ipcpHandler != null {
          frames, panics := HandleIpcp(f.value.payload);
        }
      } else if f.value.protocol == PROTO_IPV4 {
        if pppPhase == PHASE_DATA {
          tun := Some(f.value.payload);
        }
      } else if lcpHandler != null {
        var r := lcpHandler.BuildProtocolReject(f.value.protocol, f.value.payload);
        frames, panics := Framed(PROTO_LCP, r), r.Panics?;
      }
    }

    /** Whether this call closed the session; only then is its address released. */
    method CloseSession() returns (closed: bool)
      requires Valid()
      modifies this`state
      ensures Valid() && Value() == old(Value()).(state := CLOSED) && closed == (old(state) != CLOSED)
    {
      if state == CLOSED {
        return false;
      }
      state := CLOSED;
      closed := true;
    }
  }
}
