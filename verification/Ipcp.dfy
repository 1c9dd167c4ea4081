/** Server-side IPCP (RFC 1332, DNS options of RFC 1877): address and DNS assignment. */
module Ipcp {
  import opened Bytes
  import opened Ppp
  import opened ConfigOptions

  const OPT_IP_ADDRESS: byte := 3
  const OPT_PRIMARY_DNS: byte := 129
  const OPT_SECONDARY_DNS: byte := 131

  const ZERO_IP: bytes := [0, 0, 0, 0]

  /** The three addresses given to the peer and our own, all IPv4. */
  datatype Config = Config(assignedIp: bytes, dns1: bytes, dns2: bytes, gateway: bytes) {
    predicate Valid() { |assignedIp| == 4 && |dns1| == 4 && |dns2| == 4 && |gateway| == 4 }

    function ValueOf(ty: byte): Option<bytes> {
      if ty == OPT_IP_ADDRESS then Some(assignedIp) else
      if ty == OPT_PRIMARY_DNS then Some(dns1) else
      if ty == OPT_SECONDARY_DNS then Some(dns2) else None
    }
  }

  function JudgeOption(c: Config, o: bytes): Verdict {
    if |o| == 0 || c.ValueOf(o[0]).None? || |o| < 6 then Reject else
    var value := c.ValueOf(o[0]).value;
    if o[2..6] == ZERO_IP || o[2..6] != value then Nak([o[0], 6] + value) else Ack
  }

  function Rule(c: Config): Judge { o => JudgeOption(c, o) }

  lemma RuleIsSound(c: Config)
    requires c.Valid()
    ensures Sound(Rule(c))
  {
  }

  predicate AllNonZero(c: Config) { c.assignedIp != ZERO_IP && c.dns1 != ZERO_IP && c.dns2 != ZERO_IP }

  lemma SuggestionJudged(c: Config, o: bytes)
    requires c.Valid() && JudgeOption(c, o).Nak?
    ensures JudgeOption(c, JudgeOption(c, o).suggestion)
      == if c.ValueOf(o[0]).value == ZERO_IP then JudgeOption(c, o) else Ack
  {
    var n := JudgeOption(c, o).suggestion;
    assert n[2..6] == c.ValueOf(o[0]).value;
  }

  lemma RuleIsConsistent(c: Config)
    requires c.Valid() && AllNonZero(c)
    ensures Consistent(Rule(c))
  {
    forall o ensures Settles(Rule(c), o) {
      if JudgeOption(c, o).Nak? {
        SuggestionJudged(c, o);
      }
    }
  }

  ghost predicate Converges(c: Config) {
    forall os :: AllWellFormed(os) ==>
      Answer(Rule(c), ParseOptions(Concat(Round(Rule(c), Round(Rule(c), os))))).0 == CONFIGURE_ACK
  }

  /**
   Every peer that takes over our answers is acknowledged by its third request,
   if and only if the assigned address and both DNS servers are not 0.0.0.0.
   */
  lemma IpcpConvergesExactly(c: Config)
    requires c.Valid()
    ensures Converges(c) <==> AllNonZero(c)
  {
    hide Round, Rule, ParseOptions, Concat, Answer;
    if AllNonZero(c) {
      RuleIsSound(c);
      RuleIsConsistent(c);
      forall os | AllWellFormed(os) {
        ThirdRequestAcked(Rule(c), os);
      }
    } else {
      var ty :=
        if c.assignedIp == ZERO_IP then OPT_IP_ADDRESS
        else if c.dns1 == ZERO_IP then OPT_PRIMARY_DNS else OPT_SECONDARY_DNS;
      var os := [[ty, 6, 0, 0, 0, 0]];
      assert WellFormed(os[0]);
      ZeroNeverAcked(c, ty, os, 2);
      assert Rounds(Rule(c), os, 0) == os && Rounds(Rule(c), os, 1) == Round(Rule(c), os);
    }
  }

  /** An option whose configured value is zero is objected to for ever. */
  lemma ZeroNeverAcked(c: Config, ty: byte, os: seq<bytes>, n: nat)
    requires c.Valid() && c.ValueOf(ty) == Some(ZERO_IP) && AllWellFormed(os)
    requires exists o :: o in os && |o| >= 6 && o[0] == ty
    ensures Answer(Rule(c), ParseOptions(Concat(Rounds(Rule(c), os, n)))).0 != CONFIGURE_ACK
  {
    RuleIsSound(c);
    var o :| o in os && |o| >= 6 && o[0] == ty;
    assert Rule(c)(o).Nak?;
    assert Objects(Rule(c), os, ty);
    forall q ensures Insists(Rule(c), ty, q) {
      if JudgeOption(c, q).Nak? && q[0] == ty {
        SuggestionJudged(c, q);
      }
    }
    NeverAcked(Rule(c), os, ty, n);
  }

  /** What an acknowledged request holds: our values, options read in order, and nothing else. */
  lemma IpcpAckMeans(c: Config, b: bytes)
    requires c.Valid() && Answer(Rule(c), ParseOptions(b)).0 == CONFIGURE_ACK
    ensures var os := ParseOptions(b);
      && Answer(Rule(c), os).1 == Concat(os) <= b
      && forall i :: 0 <= i < |os| ==>
        c.ValueOf(os[i][0]).Some? && |os[i]| >= 6 && os[i][2..6] == c.ValueOf(os[i][0]).value != ZERO_IP
  {
    RuleIsSound(c);
    AckExactly(Rule(c), b);
    var os := ParseOptions(b);
    hide Answer, Concat, ParseOptions;
    forall i | 0 <= i < |os|
      ensures c.ValueOf(os[i][0]).Some? && |os[i]| >= 6 && os[i][2..6] == c.ValueOf(os[i][0]).value != ZERO_IP
    {
      assert Rule(c)(os[i]).Ack?;
    }
  }

  // The answer spelled out.

  /** The address configured for a type (RFC 1332, section 3.3, and RFC 1877, sections 1.1 and 1.3). */
  function ValueFor(c: Config, ty: byte): bytes {
    if ty == 3 then c.assignedIp else if ty == 129 then c.dns1 else c.dns2
  }

  predicate Asks(o: bytes) { |o| >= 6 && (o[0] == 3 || o[0] == 129 || o[0] == 131) }

  /** Asking for no address yet, or for another one than configured. */
  predicate Wrong(c: Config, o: bytes)
    requires Asks(o)
  {
    o[2..6] == [0, 0, 0, 0] || o[2..6] != ValueFor(c, o[0])
  }

  /** The options to be refused, as they came. */
  function Unknown(os: seq<bytes>): seq<bytes> {
    if os == [] then [] else (if Asks(os[0]) then [] else [os[0]]) + Unknown(os[1..])
  }

  /** What the options asking for the wrong address should ask for. */
  function Corrections(c: Config, os: seq<bytes>): seq<bytes> {
    if os == [] then [] else
    (if Asks(os[0]) && Wrong(c, os[0]) then [[os[0][0], 6] + ValueFor(c, os[0][0])] else []) + Corrections(c, os[1..])
  }

  /**
   Unknown and short options are refused, all of them and nothing else; failing that,
   every option asking for the wrong address is answered with the configured one; failing
   that, the request is acknowledged as it came.
   */
  lemma AnswersExactly(c: Config, os: seq<bytes>)
    requires c.Valid() && AllWellFormed(os)
    ensures Answer(Rule(c), os) ==
      if Unknown(os) != [] then (4, Concat(Unknown(os)))
      else if Corrections(c, os) != [] then (3, Concat(Corrections(c, os)))
      else (2, Concat(os))
  {
    AnswerParts(c, os);
    if Unknown(os) == [] && Corrections(c, os) == [] {
      NothingWrong(c, os);
      AckedAll(Rule(c), os);
    }
  }

  lemma {:induction false} AnswerParts(c: Config, os: seq<bytes>)
    requires c.Valid() && AllWellFormed(os)
    ensures Rejected(Rule(c), os) == Concat(Unknown(os)) && (Rejected(Rule(c), os) == [] <==> Unknown(os) == [])
    ensures Naked(Rule(c), os) == Concat(Corrections(c, os))
    ensures Naked(Rule(c), os) == [] <==> Corrections(c, os) == []
  {
    if os != [] {
      assert WellFormed(os[0]);
      AnswerParts(c, os[1..]);
      OptionJudged(c, os[0]);
      hide Rule, Config.Valid, Asks, Wrong, ValueFor;
      assert [os[0]] + Unknown(os[1..]) != [] && ([os[0]] + Unknown(os[1..]))[1..] == Unknown(os[1..]);
      var n := [os[0][0], 6] + ValueFor(c, os[0][0]);
      assert ([n] + Corrections(c, os[1..]))[1..] == Corrections(c, os[1..]);
      assert [] + Unknown(os[1..]) == Unknown(os[1..]) && [] + Corrections(c, os[1..]) == Corrections(c, os[1..]);
    }
  }

  lemma OptionJudged(c: Config, o: bytes)
    requires c.Valid() && |o| >= 2
    ensures Rule(c)(o).Reject? <==> !Asks(o)
    ensures Asks(o) ==> Rule(c)(o) == if Wrong(c, o) then Nak([o[0], 6] + ValueFor(c, o[0])) else Ack
  {
  }

  lemma {:induction false} NothingWrong(c: Config, os: seq<bytes>)
    requires c.Valid() && AllWellFormed(os) && Unknown(os) == [] && Corrections(c, os) == []
    ensures AllAck(Rule(c), os)
  {
    if os != [] {
      assert WellFormed(os[0]);
      OptionJudged(c, os[0]);
      NothingWrong(c, os[1..]);
      assert os == [os[0]] + os[1..];
    }
  }

  /** Whatever the configuration, an acknowledged request names no other address than its own. */
  lemma AckedAddress(c: Config, b: bytes, o: bytes)
    requires Answer(Rule(c), ParseOptions(b)).0 == CONFIGURE_ACK && o in ParseOptions(b) && o[0] == OPT_IP_ADDRESS
    ensures |o| >= 6 && o[2..6] == c.assignedIp
  {
    ParsedIsPrefix(b);
    hide Answer, ParseOptions;
    NothingObjected(Rule(c), ParseOptions(b));
    var i :| 0 <= i < |ParseOptions(b)| && ParseOptions(b)[i] == o;
    assert Rule(c)(o).Ack?;
  }

  // The handler.

  datatype State = State(config: Config, nextId: byte, peerAcked: bool, ourAcked: bool, isOpen: bool) {
    function Request(): (Reply, State) {
      var id := ToByte(nextId + 1);
      (Response(CONFIGURE_REQUEST, id, [OPT_IP_ADDRESS, 6] + config.gateway), this.(nextId := id))
    }

    function Checked(): State {
      if ourAcked && peerAcked then this.(isOpen := true) else this
    }

    function OnRequest(id: byte, options: bytes): (Reply, State) {
      var (code, body) := Answer(Rule(config), ParseOptions(options));
      (Response(code, id, body), if code == CONFIGURE_ACK then this.(peerAcked := true).Checked() else this)
    }

    function OnAck(id: byte): State {
      if id != nextId then this else this.(ourAcked := true).Checked()
    }

    /** Our address is insisted on; a Reject is not answered at all. */
    function Handle(data: bytes): (Reply, State) {
      match Received(data)
      case Ignored => (Silent, this)
      case Unguarded => (Panics, this)
      case Packet(code, id, payload) =>
        if code == CONFIGURE_REQUEST then OnRequest(id, payload) else
        if code == CONFIGURE_ACK then (Silent, OnAck(id)) else
        if code == CONFIGURE_NAK then Request() else (Silent, this)
    }

    predicate Valid() { config.Valid() && (isOpen ==> ourAcked && peerAcked) }
  }

  function Initial(c: Config): State { State(c, 0, false, false, false) }

  /** As for LCP: what a packet can do to the acknowledgments; the addresses never change. */
  lemma AcksExactly(h: State, data: bytes)
    ensures var h', p := h.Handle(data).1, Received(data);
      && h'.config == h.config
      && (h'.ourAcked <==> h.ourAcked || (p.Packet? && p.code == CONFIGURE_ACK && p.id == h.nextId))
      && (h'.peerAcked <==>
        || h.peerAcked
        || (p.Packet? && p.code == CONFIGURE_REQUEST
            && Answer(Rule(h.config), ParseOptions(p.payload)).0 == CONFIGURE_ACK))
      && (h.Valid() ==> h'.Valid())
  {
    hide Received, Answer, ParseOptions, Response, Rule;
  }

  /** A Nak is met with our request again, unchanged but for its identifier; nothing else is answered or remembered. */
  lemma OthersAnswered(h: State, data: bytes)
    requires Received(data).Packet?
    ensures var p, (r, h') := Received(data), h.Handle(data);
      && (p.code == 3 ==>
            && h' == h.(nextId := (h.nextId as int + 1) % 256)
            && r == Response(1, h'.nextId, [3, 6] + h.config.gateway))
      && (p.code == 0 || p.code >= 4 ==> r == Silent && h' == h)
  {
    hide Received, Response, ParseOptions, Answer;
  }

  /** The one input the handler does not guard: no answer is longer than its request. */
  lemma PanicsExactly(h: State, data: bytes)
    requires h.config.Valid()
    ensures h.Handle(data).0.Panics? <==> Received(data).Unguarded?
  {
    match Received(data)
    case Ignored =>
    case Unguarded =>
    case Packet(code, id, payload) =>
      assert |payload| <= 0xFFFB;
      hide Received, Response, ParseOptions, Answer;
      AnswerLength(h.config, payload);
      var (reply, body) := Answer(Rule(h.config), ParseOptions(payload));
      ShortSends(reply, id, body);
      RequestSends(h);
  }

  lemma RequestSends(h: State)
    requires h.config.Valid()
    ensures h.Request().0.Send?
  {
    ShortSends(CONFIGURE_REQUEST, ToByte(h.nextId + 1), [OPT_IP_ADDRESS, 6] + h.config.gateway);
  }

  lemma AnswerLength(c: Config, options: bytes)
    requires c.Valid()
    ensures |Answer(Rule(c), ParseOptions(options)).1| <= |options|
  {
    var os := ParseOptions(options);
    ParsedIsPrefix(options);
    assert forall o :: o in os && JudgeOption(c, o).Nak? ==> |JudgeOption(c, o).suggestion| <= |o|;
    NakedNoLonger(Rule(c), os);
    AnswerBounded(Rule(c), os);
  }

  class IpcpHandler {
    const config: Config
    var nextId: byte
    var peerConfigAcked: bool
    var ourConfigAcked: bool
    var isOpen: bool

    ghost function Value(): State
      reads this
    {
      State(config, nextId, peerConfigAcked, ourConfigAcked, isOpen)
    }

    constructor (config: Config)
      ensures Value() == Initial(config)
    {
      this.config, nextId := config, 0;
      peerConfigAcked, ourConfigAcked, isOpen := false, false, false;
    }

    method BuildConfigureRequest() returns (r: Reply)
      modifies this
      ensures (r, Value()) == old(Value()).Request()
    {
      nextId := ToByte(nextId + 1);
      r := BuildResponse(CONFIGURE_REQUEST, nextId, [OPT_IP_ADDRESS, 6] + config.gateway);
    }

    method CheckOpened()
      modifies this
      ensures Value() == old(Value()).Checked()
    {
      if ourConfigAcked && peerConfigAcked {
        isOpen := true;
      }
    }

    /** The switch over the option type, one arm for each of the three. */
    method TakeOption(o: bytes) returns (v: Verdict)
      requires WellFormed(o)
      ensures v == Rule(config)(o)
    {
      if o[0] == OPT_IP_ADDRESS {
        if |o| < 6 {
          return Reject;
        }
        if o[2..6] == ZERO_IP || o[2..6] != config.assignedIp {
          return Nak([OPT_IP_ADDRESS, 6] + config.assignedIp);
        }
      } else if o[0] == OPT_PRIMARY_DNS {
        if |o| < 6 {
          return Reject;
        }
        if o[2..6] == ZERO_IP || o[2..6] != config.dns1 {
          return Nak([OPT_PRIMARY_DNS, 6] + config.dns1);
        }
      } else if o[0] == OPT_SECONDARY_DNS {
        if |o| < 6 {
          return Reject;
        }
        if o[2..6] == ZERO_IP || o[2..6] != config.dns2 {
          return Nak([OPT_SECONDARY_DNS, 6] + config.dns2);
        }
      } else {
        return Reject;
      }
      v := Ack;
    }

    method TakeOptions(options: bytes) returns (acks: bytes, naks: bytes, rejs: bytes)
      ensures var os := ParseOptions(options);
        && acks == Acked(Rule(config), os) && naks == Naked(Rule(config), os) && rejs == Rejected(Rule(config), os)
    {
      hide *;
      ghost var os := ParseOptions(options);
      acks, naks, rejs := [], [], [];
      AccumulatedEnds(Rule(config), os, acks, naks, rejs);
      var offset := 0;
      assert options[0..] == options;
      while offset < |options|
        invariant offset <= |options|
        invariant Accumulated(Rule(config), os, acks, naks, rejs, ParseOptions(options[offset..]))
      {
        ParseStep(options, offset);
        if offset + 2 > |options| {
          break;
        }
        var optLen: int := options[offset + 1];
        if optLen < 2 || offset + optLen > |options| {
          break;
        }
        var optData := options[offset..offset + optLen];
        AccumulatedStep(Rule(config), os, acks, naks, rejs, optData, ParseOptions(options[offset + optLen..]));
        var v := TakeOption(optData);
        match v {
          case Ack => acks := acks + optData;
          case Nak(n) => naks := naks + n;
          case Reject => rejs := rejs + optData;
        }
        offset := offset + optLen;
      }
      ParseStep(options, offset);
      AccumulatedEnds(Rule(config), os, acks, naks, rejs);
    }

    method HandleConfigureRequest(id: byte, options: bytes) returns (r: Reply)
      modifies this
      ensures (r, Value()) == old(Value()).OnRequest(id, options)
    {
      var acks, naks, rejs := TakeOptions(options);
      if |rejs| > 0 {
        r := BuildResponse(CONFIGURE_REJECT, id, rejs);
        return;
      }
      if |naks| > 0 {
        r := BuildResponse(CONFIGURE_NAK, id, naks);
        return;
      }
      peerConfigAcked := true;
      CheckOpened();
      r := BuildResponse(CONFIGURE_ACK, id, acks);
    }

    method HandleConfigureAck(id: byte)
      modifies this
      ensures Value() == old(Value()).OnAck(id)
    {
      if id != nextId {
        return;
      }
      ourConfigAcked := true;
      CheckOpened();
    }

    method Handle(data: bytes) returns (r: Reply)
      modifies this
      ensures (r, Value()) == old(Value()).Handle(data)
    {
      hide State.OnRequest, State.Request;
      if |data| < 4 {
        return Silent;
      }
      var code, id, pktLen := data[0], data[1], Get16(data, 2);
      if pktLen > |data| {
        return Silent;
      }
      if pktLen < 4 {
        return Panics;
      }
      var payload := data[4..pktLen];
      r := Silent;
      if code == CONFIGURE_REQUEST {
        r := HandleConfigureRequest(id, payload);
      } else if code == CONFIGURE_ACK {
        HandleConfigureAck(id);
      } else if code == CONFIGURE_NAK {
        r := BuildConfigureRequest();
      }
    }
  }
}
