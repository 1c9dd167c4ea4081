/**
 Two control channels over a network that loses, duplicates and reorders.  Under
 every 16-bit number lies an unbounded one: the count of messages sent or accepted
 so far.  A packet carries the unbounded numbers it had when it was sent.
 */
module ControlNetwork {
  import opened Bytes
  import opened L2tpHeader
  import opened Control

  /** Send does not bound the queue; the protocol's correctness needs this bound. */
  const MAX_OUTSTANDING: nat := 32767

  datatype Side = Left | Right {
    function Other(): Side { if Left? then Right else Left }
  }

  datatype Packet = Packet(src: Side, data: bytes, ns: nat, nr: nat, payload: bytes)

  /** sent: everything ever passed to Send; accepted: every payload taken in order. */
  datatype Node = Node(chan: Chan, sent: seq<bytes>, accepted: seq<bytes>) {
    function Una(): int { |sent| - |chan.pending| }
  }

  /** air: every packet ever put on the network, any of which may arrive at any time. */
  datatype Net = Net(left: Node, right: Node, air: set<Packet>) {
    function At(side: Side): Node { if side.Left? then left else right }

    function With(side: Side, n: Node, more: set<Packet>): Net {
      if side.Left? then Net(n, right, air + more) else Net(left, n, air + more)
    }
  }

  datatype Event =
    | Send(side: Side, payload: bytes, now: int)
    | Arrive(side: Side, p: Packet)
    | Tick(side: Side, now: int)

  function Start(leftTid: u16, rightTid: u16): Net {
    Net(Node(Chan(0, 0, leftTid, []), [], []), Node(Chan(0, 0, rightTid, []), [], []), {})
  }

  function Sending(n: Node, payload: bytes, now: int): Node {
    n.(chan := n.chan.Sent(payload, now), sent := n.sent + [payload])
  }

  /** A control message arriving: the sequence numbers are processed, then a ZLB goes out. */
  function Arriving(n: Node, ns: u16, nr: u16, payload: bytes): Node {
    var isZlb := |payload| == 0;
    Node(n.chan.Received(ns, nr, isZlb), n.sent,
         if n.chan.InOrder(ns, isZlb) then n.accepted + [payload] else n.accepted)
  }

  function Reply(side: Side, n: Node): Packet { Packet(side, n.chan.Zlb(), |n.sent|, |n.accepted|, []) }

  function Ticking(n: Node, now: int): Node { n.(chan := n.chan.Retransmitted(now)) }

  function Resend(side: Side, n: Node, k: nat, now: int): Packet
    requires n.Una() >= 0 && k < |n.chan.pending|
  {
    Packet(side, Bumped(n.chan.pending[k], now, n.chan.recvNr).data, n.Una() + k, |n.accepted|, n.sent[n.Una() + k])
  }

  function Retransmissions(side: Side, n: Node, now: int): set<Packet>
    requires n.Una() >= 0
  {
    set k | 0 <= k < FirstDead(n.chan.pending, now) && Due(n.chan.pending[k], now) :: Resend(side, n, k, now)
  }

  function Step(net: Net, e: Event): Net {
    match e
    case Send(side, payload, now) =>
      var n := net.At(side);
      net.With(side, Sending(n, payload, now), {First(side, n, payload)})
    case Arrive(side, p) =>
      var read := Parse(p.data);
      if read.Err? || !read.value.0.isControl then net else
      var n := Arriving(net.At(side), read.value.0.ns, read.value.0.nr, read.value.1);
      net.With(side, n, {Reply(side, n)})
    case Tick(side, now) =>
      var n := net.At(side);
      if n.Una() < 0 then net else
      net.With(side, Ticking(n, now), Retransmissions(side, n, now))
  }

  function First(side: Side, n: Node, payload: bytes): Packet {
    Packet(side, n.chan.Message(payload), |n.sent|, |n.accepted|, payload)
  }

  /**
   A packet is fresh for its receiver when it is less than a full circle behind the
   messages accepted there, and its acknowledgement at most 32769 behind those sent.
   */
  predicate FreshFor(p: Packet, n: Node) {
    |n.accepted| < p.ns + MOD && |n.sent| <= p.nr + 32769
  }

  predicate Possible(net: Net, e: Event) {
    match e
    case Send(side, payload, now) =>
      0 < |payload| <= 0xFFFF - MIN_CONTROL_HEADER_LEN && |net.At(side).chan.pending| < MAX_OUTSTANDING
    case Arrive(side, p) => p in net.air && p.src == side.Other() && FreshFor(p, net.At(side))
    case Tick(side, now) => true
  }

  function Run(net: Net, es: seq<Event>): Net {
    if es == [] then net else Step(Run(net, es[..|es| - 1]), es[|es| - 1])
  }

  predicate Legal(net: Net, es: seq<Event>) {
    es == [] || (Legal(net, es[..|es| - 1]) && Possible(Run(net, es[..|es| - 1]), es[|es| - 1]))
  }

  // The invariant, one direction at a time: s sends to r.

  predicate Numbered(s: Node, r: Node) {
    && s.chan.sendNs == ToU16(|s.sent|)
    && r.chan.recvNr == ToU16(|r.accepted|)
    && r.accepted <= s.sent
    && |s.chan.pending| <= MAX_OUTSTANDING
    && 0 <= s.Una() <= |r.accepted|
    && (forall m :: m in s.sent ==> 0 < |m| <= 0xFFFF - MIN_CONTROL_HEADER_LEN)
  }

  /** The queue holds, in order, the messages from the oldest unacknowledged one up. */
  predicate Queue(s: Node) {
    && s.Una() >= 0
    && Interval(s.chan.pending, s.Una())
    && forall k :: 0 <= k < |s.chan.pending| ==> Carries(s, s.chan.pending[k], s.Una() + k)
  }

  /** p is message i of s, whatever Nr is patched into it. */
  predicate Carries(s: Node, p: Pending, i: nat) {
    i < |s.sent| && WithNr(p.data, 0) == ControlMessage(s.chan.remoteTid, ToU16(i), 0, s.sent[i])
  }

  /** What s can have put on the wire under the numbers of p. */
  predicate Tagged(s: Node, p: Packet) {
    && p.nr <= |s.accepted|
    && (p.payload == [] || (p.ns < |s.sent| && p.payload == s.sent[p.ns]))
    && p.data == ControlMessage(s.chan.remoteTid, ToU16(p.ns), ToU16(p.nr), p.payload)
  }

  predicate Wire(air: set<Packet>, side: Side, s: Node) {
    forall p :: p in air && p.src == side ==> Tagged(s, p)
  }

  predicate Half(net: Net, side: Side) {
    Numbered(net.At(side), net.At(side.Other())) && Queue(net.At(side)) && Wire(net.air, side, net.At(side))
  }

  predicate Inv(net: Net) { Half(net, Left) && Half(net, Right) }

  /**
   In every run each side accepts a prefix of what the other was asked to send, in
   order and each message once; and a message leaves the queue only once accepted.
   */
  lemma ExactlyOnceInOrder(leftTid: u16, rightTid: u16, es: seq<Event>, side: Side)
    requires Legal(Start(leftTid, rightTid), es)
    ensures var net := Run(Start(leftTid, rightTid), es);
      var s, r := net.At(side), net.At(side.Other());
      r.accepted <= s.sent && 0 <= s.Una() <= |r.accepted| && Queue(s)
  {
    RunInv(leftTid, rightTid, es);
  }

  lemma {:induction false} RunInv(leftTid: u16, rightTid: u16, es: seq<Event>)
    requires Legal(Start(leftTid, rightTid), es)
    ensures Inv(Run(Start(leftTid, rightTid), es))
  {
    if es != [] {
      var most := es[..|es| - 1];
      RunInv(leftTid, rightTid, most);
      StepInv(Run(Start(leftTid, rightTid), most), es[|es| - 1]);
    }
  }

  lemma StepInv(net: Net, e: Event)
    requires Inv(net) && Possible(net, e)
    ensures Inv(Step(net, e))
  {
    match e {
      case Send(side, payload, now) => SendInv(net, side, payload, now);
      case Arrive(side, p) => ArriveInv(net, side, p);
      case Tick(side, now) => TickInv(net, side, now);
    }
  }

  /** What the invariant says about one side, n, facing o. */
  predicate Sound(air: set<Packet>, side: Side, n: Node, o: Node) {
    Numbered(n, o) && Numbered(o, n) && Queue(n) && Wire(air, side, n)
  }

  lemma InvSound(net: Net, side: Side)
    requires Inv(net)
    ensures Sound(net.air, side, net.At(side), net.At(side.Other()))
  {
    assert Half(net, side) && Half(net, side.Other());
  }

  /** A side's change keeps the invariant if the side stays sound with its new packets. */
  lemma SideChange(net: Net, side: Side, n: Node, more: set<Packet>)
    requires Inv(net) && Sound(net.air, side, n, net.At(side.Other()))
    requires forall p :: p in more ==> p.src == side && Tagged(n, p)
    ensures Inv(net.With(side, n, more))
  {
    var net' := net.With(side, n, more);
    assert net'.At(side) == n && net'.At(side.Other()) == net.At(side.Other());
    assert Half(net, side.Other());
    assert Half(net', side) && Half(net', side.Other());
  }

  lemma SendInv(net: Net, side: Side, payload: bytes, now: int)
    requires Inv(net) && Possible(net, Send(side, payload, now))
    ensures Inv(Step(net, Send(side, payload, now)))
  {
    InvSound(net, side);
    var n, o := net.At(side), net.At(side.Other());
    SendSound(net.air, side, n, o, payload, now);
    SideChange(net, side, Sending(n, payload, now), {First(side, n, payload)});
  }

  lemma SendSound(air: set<Packet>, side: Side, n: Node, o: Node, payload: bytes, now: int)
    requires Sound(air, side, n, o)
    requires 0 < |payload| <= 0xFFFF - MIN_CONTROL_HEADER_LEN && |n.chan.pending| < MAX_OUTSTANDING
    ensures Sound(air, side, Sending(n, payload, now), o)
    ensures Tagged(Sending(n, payload, now), First(side, n, payload))
  {
    SendQueue(n, payload, now);
    SendWire(air, side, n, payload, now);
    SendNumbered(n, o, payload, now);
  }

  lemma SendNumbered(n: Node, o: Node, payload: bytes, now: int)
    requires Numbered(n, o) && Numbered(o, n)
    requires 0 < |payload| <= 0xFFFF - MIN_CONTROL_HEADER_LEN && |n.chan.pending| < MAX_OUTSTANDING
    ensures Numbered(Sending(n, payload, now), o) && Numbered(o, Sending(n, payload, now))
  {
    SameNumber(|n.sent|, |n.sent|);
  }

  lemma SendQueue(n: Node, payload: bytes, now: int)
    requires Queue(n) && n.chan.sendNs == ToU16(|n.sent|)
    ensures Queue(Sending(n, payload, now))
  {
    var n' := Sending(n, payload, now);
    var m := |n.chan.pending|;
    SentCarries(n, payload, now);
    hide Carries;
    forall k | 0 <= k < |n'.chan.pending|
      ensures Carries(n', n'.chan.pending[k], n'.Una() + k)
    {
      if k < m {
        CarriesBefore(n, n', n.chan.pending[k], n.Una() + k);
      }
    }
  }

  lemma CarriesBefore(n: Node, n': Node, m: Pending, k: nat)
    requires n.sent <= n'.sent && n'.chan.remoteTid == n.chan.remoteTid
    ensures Carries(n, m, k) ==> Carries(n', m, k)
  {
  }

  lemma SentCarries(n: Node, payload: bytes, now: int)
    requires n.chan.sendNs == ToU16(|n.sent|)
    ensures var n' := Sending(n, payload, now);
      Carries(n', n'.chan.pending[|n.chan.pending|], |n.sent|)
  {
    PatchedMessage(n.chan.remoteTid, n.chan.sendNs, n.chan.recvNr, payload, 0);
    hide WithNr, ControlMessage;
  }

  lemma SendWire(air: set<Packet>, side: Side, n: Node, payload: bytes, now: int)
    requires Wire(air, side, n) && n.chan.sendNs == ToU16(|n.sent|) && n.chan.recvNr == ToU16(|n.accepted|)
    ensures Wire(air, side, Sending(n, payload, now))
    ensures Tagged(Sending(n, payload, now), First(side, n, payload))
  {
  }

  lemma TickInv(net: Net, side: Side, now: int)
    requires Inv(net)
    ensures Inv(Step(net, Tick(side, now)))
  {
    hide Inv, Sound, Tagged, Ticking, Retransmissions;
    InvSound(net, side);
    var n, o := net.At(side), net.At(side.Other());
    SoundQueue(net.air, side, n, o);
    TickSound(net.air, side, n, o, now);
    RetransmissionsTagged(side, n, now);
    SideChange(net, side, Ticking(n, now), Retransmissions(side, n, now));
  }

  lemma SoundQueue(air: set<Packet>, side: Side, n: Node, o: Node)
    requires Sound(air, side, n, o)
    ensures Queue(n) && n.chan.recvNr == ToU16(|n.accepted|)
  {
  }

  lemma TickSound(air: set<Packet>, side: Side, n: Node, o: Node, now: int)
    requires Sound(air, side, n, o)
    ensures Sound(air, side, Ticking(n, now), o)
  {
    TickQueue(n, now);
  }

  /** What a tick puts on the network is what the channel's scan sends. */
  lemma RetransmissionsAreResent(side: Side, n: Node, now: int)
    requires n.Una() >= 0
    ensures forall d :: d in n.chan.Resent(now) <==> exists p :: p in Retransmissions(side, n, now) && p.data == d
  {
    var dead := FirstDead(n.chan.pending, now);
    forall d ensures d in n.chan.Resent(now) <==> exists p :: p in Retransmissions(side, n, now) && p.data == d {
      ResentHolds(n.chan.pending, dead, now, n.chan.recvNr, d);
      hide FirstDead, ResentTo, Bumped, Due;
      if k: nat :| k < dead && ResendsAt(n.chan.pending, k, now, n.chan.recvNr, d) {
        assert Resend(side, n, k, now) in Retransmissions(side, n, now);
      }
      if p :| p in Retransmissions(side, n, now) && p.data == d {
        var k: nat :| k < dead && Due(n.chan.pending[k], now) && p == Resend(side, n, k, now);
        assert ResendsAt(n.chan.pending, k, now, n.chan.recvNr, d);
      }
    }
  }

  /** The scan sends d for the message at k. */
  predicate ResendsAt(ps: seq<Pending>, k: nat, now: int, nr: u16, d: bytes) {
    k < |ps| && Due(ps[k], now) && Bumped(ps[k], now, nr).data == d
  }

  lemma {:induction false} ResentHolds(ps: seq<Pending>, n: nat, now: int, nr: u16, d: bytes)
    requires n <= |ps|
    ensures d in ResentTo(ps, n, now, nr) <==> exists k: nat :: k < n && ResendsAt(ps, k, now, nr, d)
  {
    hide Bumped, Due;
    if n > 0 {
      ResentHolds(ps, n - 1, now, nr, d);
      if ResendsAt(ps, n - 1, now, nr, d) {
        assert d in ResentTo(ps, n, now, nr);
      } else if k: nat :| k < n && ResendsAt(ps, k, now, nr, d) {
        assert k < n - 1;
      }
    }
  }

  lemma RetransmissionsTagged(side: Side, n: Node, now: int)
    requires Queue(n) && n.chan.recvNr == ToU16(|n.accepted|)
    ensures forall p :: p in Retransmissions(side, n, now) ==> p.src == side && Tagged(Ticking(n, now), p)
  {
    forall p | p in Retransmissions(side, n, now)
      ensures p.src == side && Tagged(Ticking(n, now), p)
    {
      var k :| 0 <= k < FirstDead(n.chan.pending, now) && p == Resend(side, n, k, now);
      ResendTagged(side, n, k, now);
    }
  }

  lemma ResendTagged(side: Side, n: Node, k: nat, now: int)
    requires Queue(n) && k < |n.chan.pending| && n.chan.recvNr == ToU16(|n.accepted|)
    ensures Tagged(n, Resend(side, n, k, now)) && Tagged(Ticking(n, now), Resend(side, n, k, now))
  {
    var data, nr := n.chan.pending[k].data, n.chan.recvNr;
    assert Carries(n, n.chan.pending[k], n.Una() + k);
    PatchedTwice(data, 0, nr);
    PatchedMessage(n.chan.remoteTid, ToU16(n.Una() + k), 0, n.sent[n.Una() + k], nr);
  }

  lemma PatchStillCarries(n: Node, n': Node, m: Pending, m': Pending, k: nat)
    requires n'.sent == n.sent && n'.chan.remoteTid == n.chan.remoteTid && Carries(n, m, k)
    requires m'.data == m.data || m'.data == WithNr(m.data, n.chan.recvNr)
    ensures Carries(n', m', k)
  {
    PatchedTwice(m.data, n.chan.recvNr, 0);
  }

  lemma TickQueue(n: Node, now: int)
    requires Queue(n)
    ensures Queue(Ticking(n, now))
  {
    hide Carries, WithNr, FirstDead, Scanned;
    var n' := Ticking(n, now);
    forall k | 0 <= k < |n.chan.pending|
      ensures Carries(n', n'.chan.pending[k], n'.Una() + k)
    {
      TickAt(n, now, k);
      PatchStillCarries(n, n', n.chan.pending[k], n'.chan.pending[k], n.Una() + k);
    }
    TickNumbers(n, now);
  }

  /** What a scan can do to a queued message. */
  lemma TickAt(n: Node, now: int, k: nat)
    requires k < |n.chan.pending|
    ensures var m, m' := n.chan.pending[k], Ticking(n, now).chan.pending[k];
      m'.ns == m.ns && (m'.data == m.data || m'.data == WithNr(m.data, n.chan.recvNr))
  {
    hide WithNr, FirstDead;
  }

  lemma TickNumbers(n: Node, now: int)
    requires n.Una() >= 0 && Interval(n.chan.pending, n.Una())
    ensures Interval(Ticking(n, now).chan.pending, n.Una())
  {
    hide Scanned, FirstDead;
    var ps := Ticking(n, now).chan.pending;
    forall k | 0 <= k < |ps| ensures ps[k].ns == ToU16(n.Una() + k) {
      TickAt(n, now, k);
    }
  }

  /**
   What an arriving packet does: its message is accepted exactly when it is the next
   one, and exactly the messages below its acknowledgement leave the queue.
   */
  lemma ArrivalExactly(net: Net, side: Side, p: Packet)
    requires Inv(net) && Possible(net, Arrive(side, p))
    ensures var n, n' := net.At(side), Step(net, Arrive(side, p)).At(side);
      Took(n, n', p) && Step(net, Arrive(side, p)) == net.With(side, n', {Reply(side, n')})
  {
    InvSound(net, side);
    InvSound(net, side.Other());
    var n, s := net.At(side), net.At(side.Other());
    assert Tagged(s, p);
    assert |p.payload| <= 0xFFFF - MIN_CONTROL_HEADER_LEN;
    ControlMessageParses(s.chan.remoteTid, ToU16(p.ns), ToU16(p.nr), p.payload);
    ArriveStep(net, side, p, ControlHeader(s.chan.remoteTid, ToU16(p.ns), ToU16(p.nr), |p.payload|));
    Arrived(n, s, p);
  }

  lemma ArriveStep(net: Net, side: Side, p: Packet, h: Header)
    requires Parse(p.data) == Ok((h, p.payload)) && h.isControl
    ensures var n' := Arriving(net.At(side), h.ns, h.nr, p.payload);
      Step(net, Arrive(side, p)) == net.With(side, n', {Reply(side, n')})
  {
  }

  /** n' is n after taking p: in order, once, and acknowledged up to p.nr. */
  predicate Took(n: Node, n': Node, p: Packet) {
    && p.nr <= |n.sent| && n.Una() >= 0
    && n'.sent == n.sent && n'.chan.sendNs == n.chan.sendNs && n'.chan.remoteTid == n.chan.remoteTid
    && n'.accepted == (if p.payload != [] && p.ns == |n.accepted| then n.accepted + [p.payload] else n.accepted)
    && n'.chan.recvNr == ToU16(|n'.accepted|)
    && n'.chan.pending == if p.nr <= n.Una() then n.chan.pending else n.chan.pending[p.nr - n.Una()..]
  }

  lemma Arrived(n: Node, s: Node, p: Packet)
    requires Numbered(n, s) && Numbered(s, n) && Queue(n) && FreshFor(p, n) && Tagged(s, p)
    ensures Took(n, Arriving(n, ToU16(p.ns), ToU16(p.nr), p.payload), p)
  {
    Take(n, p);
  }

  lemma Take(n: Node, p: Packet)
    requires n.Una() >= 0 && Interval(n.chan.pending, n.Una()) && |n.chan.pending| <= MAX_OUTSTANDING
    requires n.chan.recvNr == ToU16(|n.accepted|)
    requires p.nr <= |n.sent| <= p.nr + 32769
    requires p.payload != [] ==> |n.accepted| < p.ns + MOD && p.ns < |n.accepted| + MOD
    ensures Took(n, Arriving(n, ToU16(p.ns), ToU16(p.nr), p.payload), p)
  {
    AckRemovesPrefix(n.chan.pending, n.Una(), p.nr);
    if p.payload != [] {
      SameNumber(p.ns, |n.accepted|);
    }
  }

  lemma SameNumber(a: nat, b: nat)
    requires a < b + MOD && b < a + MOD
    ensures ToU16(a) == ToU16(b) <==> a == b
    ensures ToU16(ToU16(a) + 1) == ToU16(a + 1)
  {
  }

  /** Freshness is needed: an old number is taken for the next one every full circle. */
  lemma OldNumbersAlias(n: Node, ns: nat)
    requires n.chan.recvNr == ToU16(|n.accepted|) && ns <= |n.accepted|
    ensures n.chan.InOrder(ToU16(ns), false) <==> (|n.accepted| - ns) % MOD == 0
  {
    var k: int := |n.accepted| - ns;
    assert |n.accepted| == ns + k;
  }

  lemma ArriveInv(net: Net, side: Side, p: Packet)
    requires Inv(net) && Possible(net, Arrive(side, p))
    ensures Inv(Step(net, Arrive(side, p)))
  {
    ArrivalExactly(net, side, p);
    InvSound(net, side);
    InvSound(net, side.Other());
    var n, s := net.At(side), net.At(side.Other());
    var n' := Step(net, Arrive(side, p)).At(side);
    TookSound(net.air, side, n, s, n', p);
    SideChange(net, side, n', {Reply(side, n')});
  }

  lemma TookSound(air: set<Packet>, side: Side, n: Node, s: Node, n': Node, p: Packet)
    requires Sound(air, side, n, s) && Tagged(s, p) && Took(n, n', p)
    ensures Sound(air, side, n', s) && Tagged(n', Reply(side, n'))
  {
    TookNumbered(n, s, n', p);
    TookQueue(n, n', p);
    forall q | q in air && q.src == side
      ensures Tagged(n', q)
    {
      assert Tagged(n, q);
    }
  }

  lemma TookNumbered(n: Node, s: Node, n': Node, p: Packet)
    requires Numbered(n, s) && Numbered(s, n) && Took(n, n', p) && p.nr <= |s.accepted|
    requires p.payload == [] || (p.ns < |s.sent| && p.payload == s.sent[p.ns])
    ensures Numbered(n', s) && Numbered(s, n')
  {
  }

  lemma TookQueue(n: Node, n': Node, p: Packet)
    requires Queue(n) && Took(n, n', p)
    ensures Queue(n')
  {
    hide Carries;
    forall k | 0 <= k < |n'.chan.pending|
      ensures Carries(n', n'.chan.pending[k], n'.Una() + k)
      ensures n'.chan.pending[k].ns == ToU16(n'.Una() + k)
    {
      var j := if p.nr <= n.Una() then k else k + (p.nr - n.Una());
      CarriesBefore(n, n', n.chan.pending[j], n.Una() + j);
    }
  }
}
