/**
 The L2TP reliable control channel (section 5.8 of RFC 2661): Ns and Nr modulo
 65536, cumulative acknowledgement, retransmission with exponential backoff.
 Times are milliseconds on the caller's clock.
 */
module Control {
  import opened Bytes
  import opened L2tpHeader

  const RETRANSMIT_INTERVAL: nat := 1000
  const MAX_RETRANSMIT_INTERVAL: nat := 8000
  const MAX_RETRIES: nat := 5
  const DEFAULT_RECEIVE_WINDOW: u16 := 4
  const MOD: nat := 0x1_0000

  /** a < b modulo 65536. */
  predicate SeqLessThan(a: u16, b: u16) {
    var diff := (b - a) % MOD;
    diff > 0 && diff < 32768
  }

  // The channel as a value.

  datatype Pending = Pending(data: bytes, ns: u16, retries: nat, nextRetransmit: int, interval: nat)

  datatype Chan = Chan(sendNs: u16, recvNr: u16, remoteTid: u16, pending: seq<Pending>) {

    function Message(payload: bytes): bytes { ControlMessage(remoteTid, sendNs, recvNr, payload) }

    function Sent(payload: bytes, now: int): Chan {
      this.(sendNs := ToU16(sendNs + 1),
            pending := pending + [Pending(Message(payload), sendNs, 0, now + RETRANSMIT_INTERVAL, RETRANSMIT_INTERVAL)])
    }

    function Zlb(): bytes { ControlMessage(remoteTid, sendNs, recvNr, []) }

    function Acked(nr: u16): Chan { this.(pending := Unacked(pending, nr)) }

    predicate InOrder(ns: u16, isZlb: bool) { !isZlb && ns == recvNr }

    function Received(ns: u16, nr: u16, isZlb: bool): Chan {
      if InOrder(ns, isZlb) then Acked(nr).(recvNr := ToU16(ns + 1)) else Acked(nr)
    }

    /** One scan of CheckRetransmit: up to the first message that has used up its retries. */
    function Retransmitted(now: int): Chan {
      var dead := FirstDead(pending, now);
      this.(pending := seq(|pending|, k requires 0 <= k < |pending| => Scanned(pending[k], k, dead, now, recvNr)))
    }

    predicate Alive(now: int) { FirstDead(pending, now) == |pending| }

    function Resent(now: int): seq<bytes> { ResentTo(pending, FirstDead(pending, now), now, recvNr) }
  }

  function Unacked(ps: seq<Pending>, nr: u16): seq<Pending> {
    if ps == [] then [] else
    var most, p := Unacked(ps[..|ps| - 1], nr), ps[|ps| - 1];
    if SeqLessThan(p.ns, nr) then most else most + [p]
  }

  lemma UnackedStep(ps: seq<Pending>, i: nat, nr: u16)
    requires i < |ps|
    ensures Unacked(ps[..i + 1], nr) == Unacked(ps[..i], nr) + if SeqLessThan(ps[i].ns, nr) then [] else [ps[i]]
  {
    assert ps[..i + 1][..i] == ps[..i];
  }

  predicate Due(p: Pending, now: int) { now >= p.nextRetransmit }

  predicate Dead(p: Pending, now: int) { Due(p, now) && p.retries + 1 > MAX_RETRIES }

  function FirstDead(ps: seq<Pending>, now: int): (n: nat)
    ensures n <= |ps|
    ensures forall k :: 0 <= k < n ==> !Dead(ps[k], now)
    ensures n < |ps| ==> Dead(ps[n], now)
  {
    if ps == [] then 0 else
    var n := FirstDead(ps[..|ps| - 1], now);
    if n < |ps| - 1 || Dead(ps[|ps| - 1], now) then n else |ps|
  }

  function Bumped(p: Pending, now: int, nr: u16): Pending {
    Rescheduled(p.(retries := p.retries + 1), now, nr)
  }

  function Rescheduled(p: Pending, now: int, nr: u16): Pending {
    var interval := if 2 * p.interval > MAX_RETRANSMIT_INTERVAL then MAX_RETRANSMIT_INTERVAL else 2 * p.interval;
    Pending(WithNr(p.data, nr), p.ns, p.retries, now + interval, interval)
  }

  function Scanned(p: Pending, k: nat, dead: nat, now: int, nr: u16): Pending {
    if k < dead && Due(p, now) then Bumped(p, now, nr)
    else if k == dead then p.(retries := p.retries + 1) else p
  }

  function ResentTo(ps: seq<Pending>, n: nat, now: int, nr: u16): seq<bytes>
    requires n <= |ps|
  {
    if n == 0 then [] else
    ResentTo(ps, n - 1, now, nr) + if Due(ps[n - 1], now) then [Bumped(ps[n - 1], now, nr).data] else []
  }

  // Acknowledgement on the unbounded numbers under the 16-bit ones.

  /** The queue holds exactly the numbers from una up, in order. */
  predicate Interval(ps: seq<Pending>, una: nat) {
    forall k :: 0 <= k < |ps| ==> ps[k].ns == ToU16(una + k)
  }

  /**
   Comparing a queued number with an acknowledgement modulo 65536 is right for every
   message of the queue, if and only if the acknowledgement is less than half the
   circle above the oldest message and at most half the circle below the newest.
   */
  lemma ComparisonExact(ps: seq<Pending>, una: nat, n: nat)
    requires Interval(ps, una) && una <= n + 32769 && n <= una + |ps|
    ensures (forall k :: 0 <= k < |ps| ==> SeqLessThan(ps[k].ns, ToU16(n)) == (una + k < n))
      <==> n <= una + 32767 && una + |ps| <= n + 32769
  {
    if n > una + 32767 {
      var k := n - 32768 - una;
      assert !SeqLessThan(ps[k].ns, ToU16(n)) && una + k < n;
    } else if una + |ps| > n + 32769 {
      var k := n + 32769 - una;
      assert SeqLessThan(ps[k].ns, ToU16(n)) && una + k >= n;
    } else {
      forall k | 0 <= k < |ps|
        ensures SeqLessThan(ps[k].ns, ToU16(n)) == (una + k < n)
      {
        Compared(una + k, n);
      }
    }
  }

  lemma Compared(a: nat, b: nat)
    requires b <= a + 32767 && a <= b + 32768
    ensures SeqLessThan(ToU16(a), ToU16(b)) == (a < b)
  {
    var diff: int := (ToU16(b) - ToU16(a)) % MOD;
    assert diff == (b - a) % MOD;
  }

  /** Then exactly the messages numbered below n leave the queue; a stale n removes nothing. */
  lemma {:induction false} AckRemovesPrefix(ps: seq<Pending>, una: nat, n: nat)
    requires Interval(ps, una)
    requires n <= una + 32767 && una + |ps| <= n + 32769
    ensures Unacked(ps, ToU16(n)) == if n <= una then ps else if n - una >= |ps| then [] else ps[n - una..]
  {
    if ps != [] {
      var most, last := ps[..|ps| - 1], ps[|ps| - 1];
      AckRemovesPrefix(most, una, n);
      assert SeqLessThan(last.ns, ToU16(n)) == (una + |ps| - 1 < n) by { Compared(una + |ps| - 1, n); }
      assert ps == most + [last];
      if una < n && n - una < |ps| {
        assert ps[n - una..] == most[n - una..] + [last];
      }
    }
  }

  // Pacing.

  /** A message not yet acknowledged: when it was sent first and last, and how often again. */
  datatype Entry = Entry(ns: u16, payload: bytes, first: int, last: int, again: nat)

  /** How long after a transmission the next one is due. */
  function Wait(again: nat): nat {
    if again == 0 then 1000 else if again == 1 then 2000 else if again == 2 then 4000 else 8000
  }

  /** How long the first retransmissions take at the least. */
  function Elapsed(again: nat): nat {
    if again == 0 then 0 else if again == 1 then 1000 else if again == 2 then 3000 else if again == 3 then 7000
    else if again == 4 then 15000 else 23000
  }

  predicate Overdue(e: Entry, now: int) { now >= e.last + Wait(e.again) }

  predicate GivenUp(e: Entry, now: int) { e.again == 5 && Overdue(e, now) }

  /** A queued message is what the entry says. */
  predicate Paced(p: Pending, e: Entry, remoteTid: u16) {
    && p.ns == e.ns && p.retries == e.again <= 5 && p.interval == Wait(e.again)
    && p.nextRetransmit == e.last + Wait(e.again) && e.last >= e.first + Elapsed(e.again)
    && WithNr(p.data, 0) == ControlMessage(remoteTid, e.ns, 0, e.payload)
  }

  /** A message sent again is sent with the current Nr and moves on in the schedule of 1, 2, 4, 8, 8 and 8 seconds. */
  lemma BumpKeepsPace(p: Pending, e: Entry, remoteTid: u16, now: int, nr: u16)
    requires Paced(p, e, remoteTid)
    ensures Due(p, now) <==> Overdue(e, now)
    ensures Due(p, now) && !Dead(p, now) ==>
      && Paced(Bumped(p, now, nr), e.(last := now, again := e.again + 1), remoteTid)
      && Bumped(p, now, nr).data == ControlMessage(remoteTid, e.ns, nr, e.payload)
  {
    PatchedMessage(remoteTid, e.ns, 0, e.payload, nr);
    PatchedMessage(remoteTid, e.ns, nr, e.payload, 0);
    PatchedTwice(p.data, 0, nr);
    hide ControlMessage, WithNr;
  }

  /** A message is given up exactly 8 seconds after its fifth retransmission, or later. */
  lemma DeadOnlyAfterAllRetries(p: Pending, e: Entry, remoteTid: u16, now: int)
    requires Paced(p, e, remoteTid)
    ensures Dead(p, now) <==> GivenUp(e, now)
    ensures Dead(p, now) ==> now >= e.last + 8000 && now >= e.first + 31000
  {
  }

  // Runs of one channel.

  datatype Call = SendCall(payload: bytes, now: int) | ReceiveCall(ns: u16, nr: u16, isZlb: bool) | ScanCall(now: int)

  /** A channel and the record of what it has to acknowledge, kept beside it. */
  datatype Timed = Timed(chan: Chan, log: seq<Entry>) {
    function After(c: Call): Timed {
      match c
      case SendCall(payload, now) => Timed(chan.Sent(payload, now), log + [Entry(chan.sendNs, payload, now, now, 0)])
      case ReceiveCall(ns, nr, isZlb) => Timed(chan.Received(ns, nr, isZlb), StillOpen(log, nr))
      case ScanCall(now) =>
        Timed(chan.Retransmitted(now), seq(|log|, k requires 0 <= k < |log| => Scan(log[k], now)))
    }
  }

  function Scan(e: Entry, now: int): Entry {
    if Overdue(e, now) then e.(last := now, again := e.again + 1) else e
  }

  /** What an acknowledgement leaves. */
  function StillOpen(log: seq<Entry>, nr: u16): seq<Entry> {
    if log == [] then [] else
    var n := |log| - 1;
    StillOpen(log[..n], nr) + if SeqLessThan(log[n].ns, nr) then [] else [log[n]]
  }

  function RunCalls(remoteTid: u16, calls: seq<Call>): Timed {
    if calls == [] then Timed(Chan(0, 0, remoteTid, []), []) else
    RunCalls(remoteTid, calls[..|calls| - 1]).After(calls[|calls| - 1])
  }

  /** No scan of the run has found a dead message: one that does ends the tunnel's scans. */
  predicate AliveThroughout(remoteTid: u16, calls: seq<Call>) {
    calls == [] || (
      var most, last := calls[..|calls| - 1], calls[|calls| - 1];
      AliveThroughout(remoteTid, most) && (last.ScanCall? ==> RunCalls(remoteTid, most).chan.Alive(last.now)))
  }

  /** The run's call number i sent the message of the entry for the first time. */
  predicate SentBy(remoteTid: u16, calls: seq<Call>, i: nat, e: Entry) {
    && i < |calls| && calls[i] == SendCall(e.payload, e.first)
    && RunCalls(remoteTid, calls[..i]).chan.sendNs == e.ns
  }

  ghost predicate OnPace(remoteTid: u16, calls: seq<Call>, p: Pending, e: Entry) {
    Paced(p, e, remoteTid) && exists i: nat :: SentBy(remoteTid, calls, i, e)
  }

  ghost predicate AllOnPace(remoteTid: u16, calls: seq<Call>, ps: seq<Pending>, log: seq<Entry>) {
    |log| == |ps| && forall k :: 0 <= k < |ps| ==> OnPace(remoteTid, calls, ps[k], log[k])
  }

  /** Throughout every run the queue is exactly as far as the record says. */
  lemma {:induction false} PacedThroughout(remoteTid: u16, calls: seq<Call>)
    requires AliveThroughout(remoteTid, calls)
    ensures var t := RunCalls(remoteTid, calls);
      t.chan.remoteTid == remoteTid && AllOnPace(remoteTid, calls, t.chan.pending, t.log)
  {
    if calls != [] {
      var most, last := calls[..|calls| - 1], calls[|calls| - 1];
      PacedThroughout(remoteTid, most);
      assert last.ScanCall? ==> RunCalls(remoteTid, most).chan.Alive(last.now);
      assert RunCalls(remoteTid, calls) == RunCalls(remoteTid, most).After(last);
      assert calls == most + [last];
      hide *;
      CallOnPace(remoteTid, most, last);
    }
  }

  lemma CallOnPace(remoteTid: u16, calls: seq<Call>, last: Call)
    requires var t := RunCalls(remoteTid, calls);
      && t.chan.remoteTid == remoteTid && AllOnPace(remoteTid, calls, t.chan.pending, t.log)
      && (last.ScanCall? ==> t.chan.Alive(last.now))
    ensures var t := RunCalls(remoteTid, calls).After(last);
      t.chan.remoteTid == remoteTid && AllOnPace(remoteTid, calls + [last], t.chan.pending, t.log)
  {
    var t, all := RunCalls(remoteTid, calls), calls + [last];
    hide RunCalls, OnPace, Unacked, StillOpen, FirstDead, Scanned, Scan, Due;
    LongerOnPace(remoteTid, calls, last, t.chan.pending, t.log);
    match last {
      case SendCall(payload, now) =>
        SendOnPace(remoteTid, calls, payload, now);
      case ReceiveCall(ns, nr, isZlb) =>
        UnackedOnPace(remoteTid, all, t.chan.pending, t.log, nr);
      case ScanCall(now) =>
        ScanOnPace(remoteTid, all, t, now);
    }
  }

  lemma LongerOnPace(remoteTid: u16, calls: seq<Call>, last: Call, ps: seq<Pending>, log: seq<Entry>)
    requires AllOnPace(remoteTid, calls, ps, log)
    ensures AllOnPace(remoteTid, calls + [last], ps, log)
  {
    hide Paced;
    var all := calls + [last];
    forall k | 0 <= k < |ps| ensures OnPace(remoteTid, all, ps[k], log[k]) {
      assert OnPace(remoteTid, calls, ps[k], log[k]);
      var i: nat :| SentBy(remoteTid, calls, i, log[k]);
      assert all[..i] == calls[..i] && SentBy(remoteTid, all, i, log[k]);
    }
  }

  lemma SendOnPace(remoteTid: u16, calls: seq<Call>, payload: bytes, now: int)
    requires RunCalls(remoteTid, calls).chan.remoteTid == remoteTid
    ensures var c, all := RunCalls(remoteTid, calls).chan, calls + [SendCall(payload, now)];
      OnPace(remoteTid, all, c.Sent(payload, now).pending[|c.pending|], Entry(c.sendNs, payload, now, now, 0))
  {
    var c, all := RunCalls(remoteTid, calls).chan, calls + [SendCall(payload, now)];
    PatchedMessage(remoteTid, c.sendNs, c.recvNr, payload, 0);
    assert all[..|calls|] == calls;
    assert SentBy(remoteTid, all, |calls|, Entry(c.sendNs, payload, now, now, 0));
  }

  lemma {:induction false} UnackedOnPace(remoteTid: u16, calls: seq<Call>, ps: seq<Pending>, log: seq<Entry>, nr: u16)
    requires AllOnPace(remoteTid, calls, ps, log)
    ensures AllOnPace(remoteTid, calls, Unacked(ps, nr), StillOpen(log, nr))
  {
    if ps != [] {
      var n := |ps| - 1;
      assert OnPace(remoteTid, calls, ps[n], log[n]) && ps[n].ns == log[n].ns;
      hide OnPace, SeqLessThan;
      UnackedOnPace(remoteTid, calls, ps[..n], log[..n], nr);
    }
  }

  lemma ScanOnPace(remoteTid: u16, calls: seq<Call>, t: Timed, now: int)
    requires t.chan.Alive(now) && AllOnPace(remoteTid, calls, t.chan.pending, t.log)
    ensures AllOnPace(remoteTid, calls, t.chan.Retransmitted(now).pending, t.After(ScanCall(now)).log)
  {
    hide FirstDead;
    var ps, ps', log' := t.chan.pending, t.chan.Retransmitted(now).pending, t.After(ScanCall(now)).log;
    forall k | 0 <= k < |ps| ensures OnPace(remoteTid, calls, ps'[k], log'[k]) {
      assert OnPace(remoteTid, calls, ps[k], t.log[k]) && !Dead(ps[k], now);
      ScanOne(remoteTid, calls, ps[k], t.log[k], k, |ps|, now, t.chan.recvNr);
    }
  }

  lemma ScanOne(remoteTid: u16, calls: seq<Call>, p: Pending, e: Entry, k: nat, n: nat, now: int, nr: u16)
    requires OnPace(remoteTid, calls, p, e) && !Dead(p, now) && k < n
    ensures OnPace(remoteTid, calls, Scanned(p, k, n, now, nr), Scan(e, now))
  {
    BumpKeepsPace(p, e, remoteTid, now, nr);
    hide Paced, Bumped, Overdue, Due;
    var i: nat :| SentBy(remoteTid, calls, i, e);
    assert SentBy(remoteTid, calls, i, Scan(e, now));
  }

  /** What is sent again of the first n messages. */
  function SentAgain(log: seq<Entry>, n: nat, remoteTid: u16, nr: u16, now: int): seq<bytes>
    requires n <= |log|
  {
    if n == 0 then [] else
    var e := log[n - 1];
    SentAgain(log, n - 1, remoteTid, nr, now)
    + if Overdue(e, now) then [ControlMessage(remoteTid, e.ns, nr, e.payload)] else []
  }

  /**
   In every run, whatever arrives and whenever the scans come: a scan sends again, with
   the current Nr, exactly the messages whose last transmission is 1, 2, 4, 8 or 8 seconds
   past, by how often they were sent again, up to the first one that is given up; and it
   finds the tunnel dead exactly when some message was sent again five times, the last
   time 8 seconds ago or earlier.
   */
  lemma ScansExactly(remoteTid: u16, calls: seq<Call>, now: int) returns (n: nat)
    requires AliveThroughout(remoteTid, calls)
    ensures var t := RunCalls(remoteTid, calls);
      && n <= |t.log| && (forall k :: 0 <= k < n ==> !GivenUp(t.log[k], now))
      && (n < |t.log| ==> GivenUp(t.log[n], now))
      && t.chan.Resent(now) == SentAgain(t.log, n, remoteTid, t.chan.recvNr, now)
      && (t.chan.Alive(now) <==> n == |t.log|)
  {
    var t := RunCalls(remoteTid, calls);
    hide RunCalls, AliveThroughout;
    PacedThroughout(remoteTid, calls);
    n := FirstDead(t.chan.pending, now);
    forall k | 0 <= k < |t.log| ensures Paced(t.chan.pending[k], t.log[k], remoteTid) {
      assert OnPace(remoteTid, calls, t.chan.pending[k], t.log[k]);
    }
    forall k | 0 <= k < |t.log| ensures Dead(t.chan.pending[k], now) <==> GivenUp(t.log[k], now) {
      DeadOnlyAfterAllRetries(t.chan.pending[k], t.log[k], remoteTid, now);
    }
    hide Paced, FirstDead, Dead, GivenUp, ResentTo, SentAgain;
    ResentUpTo(t.chan.pending, t.log, n, remoteTid, t.chan.recvNr, now);
  }

  lemma {:induction false} ResentUpTo(ps: seq<Pending>, log: seq<Entry>, n: nat, remoteTid: u16, nr: u16, now: int)
    requires n <= |log| == |ps| && forall k :: 0 <= k < n ==> !Dead(ps[k], now)
    requires forall k :: 0 <= k < |log| ==> Paced(ps[k], log[k], remoteTid)
    ensures ResentTo(ps, n, now, nr) == SentAgain(log, n, remoteTid, nr, now)
  {
    hide Paced, Due, Dead, Overdue, Bumped, ControlMessage;
    if n > 0 {
      ResentUpTo(ps, log, n - 1, remoteTid, nr, now);
      BumpKeepsPace(ps[n - 1], log[n - 1], remoteTid, now, nr);
    }
  }

  /**
   So the scan that declares the tunnel dead comes at least 31 seconds after the first
   transmission of the message it has given up.
   */
  lemma NoTimeoutWithin31Seconds(remoteTid: u16, calls: seq<Call>, now: int) returns (k: nat, i: nat)
    requires AliveThroughout(remoteTid, calls) && !RunCalls(remoteTid, calls).chan.Alive(now)
    ensures var ps := RunCalls(remoteTid, calls).chan.pending;
      && k < |ps| && Dead(ps[k], now) && i < |calls| && calls[i].SendCall? && now >= calls[i].now + 31000
      && RunCalls(remoteTid, calls[..i]).chan.sendNs == ps[k].ns
  {
    var t := RunCalls(remoteTid, calls);
    hide RunCalls, AliveThroughout;
    PacedThroughout(remoteTid, calls);
    k := FirstDead(t.chan.pending, now);
    assert OnPace(remoteTid, calls, t.chan.pending[k], t.log[k]);
    i :| SentBy(remoteTid, calls, i, t.log[k]);
    DeadOnlyAfterAllRetries(t.chan.pending[k], t.log[k], remoteTid, now);
  }

  class PendingMessage {
    var data: bytes
    const ns: u16
    var retries: nat
    var nextRetransmit: int
    var interval: nat

    function Value(): Pending
      reads this
    {
      Pending(data, ns, retries, nextRetransmit, interval)
    }

    constructor (data: bytes, ns: u16, nextRetransmit: int, interval: nat)
      ensures Value() == Pending(data, ns, 0, nextRetransmit, interval)
    {
      this.data, this.ns, this.nextRetransmit, this.interval := data, ns, nextRetransmit, interval;
      retries := 0;
    }

    /** The loop body of the scan: nothing before the timeout, else one more retry or death. */
    method Scan(now: int, nr: u16) returns (dead: bool, resent: bool)
      modifies this
      ensures dead == Dead(old(Value()), now) && resent == (Due(old(Value()), now) && !dead)
      ensures Value() == if resent then Bumped(old(Value()), now, nr)
                         else if dead then old(Value()).(retries := old(retries) + 1) else old(Value())
    {
      if now < nextRetransmit {
        return false, false;
      }
      retries := retries + 1;
      if retries > MAX_RETRIES {
        return true, false;
      }
      Reschedule(now, nr);
      return false, true;
    }

    /** Doubles the interval up to its cap and patches the current Nr into the message. */
    method Reschedule(now: int, nr: u16)
      modifies this
      ensures Value() == Rescheduled(old(Value()), now, nr)
    {
      interval := interval * 2;
      if interval > MAX_RETRANSMIT_INTERVAL {
        interval := MAX_RETRANSMIT_INTERVAL;
      }
      nextRetransmit := now + interval;
      if |data| >= MIN_CONTROL_HEADER_LEN {
        data := data[10 := nr / 0x100][11 := nr % 0x100];
      }
    }
  }

  class ControlChannel {
    var sendNs: u16
    var recvNr: u16
    var peerRecvWindow: u16
    var pending: seq<PendingMessage>
    var remoteTunnelId: u16

    ghost predicate Valid()
      reads this
    {
      forall i, j :: 0 <= i < j < |pending| ==> pending[i] != pending[j]
    }

    ghost function Values(): (ps: seq<Pending>)
      reads this, pending
      ensures |ps| == |pending| && forall k :: 0 <= k < |ps| ==> ps[k] == pending[k].Value()
    {
      seq(|pending|, k requires 0 <= k < |pending| reads this, pending => pending[k].Value())
    }

    ghost function State(): Chan
      reads this, pending
    {
      Chan(sendNs, recvNr, remoteTunnelId, Values())
    }

    constructor ()
      ensures Valid() && State() == Chan(0, 0, 0, []) && peerRecvWindow == DEFAULT_RECEIVE_WINDOW
    {
      sendNs, recvNr, peerRecvWindow, pending, remoteTunnelId := 0, 0, DEFAULT_RECEIVE_WINDOW, [], 0;
    }

    /** out is what goes to the sender at once.  The peer's window is not consulted. */
    method Send(payload: bytes, now: int) returns (out: bytes)
      requires Valid()
      modifies this
      ensures Valid() && fresh(set p | p in pending && p !in old(pending))
      ensures out == old(State()).Message(payload)
      ensures State() == old(State()).Sent(payload, now)
    {
      var ns: int, nr: int := sendNs, recvNr;
      var hdr := SerializeHeader(ControlHeader(remoteTunnelId, ns, nr, |payload|));
      var msg := Assemble(hdr, payload, []);
      var pm := new PendingMessage(msg, ns, now + RETRANSMIT_INTERVAL, RETRANSMIT_INTERVAL);
      pending := pending + [pm];
      sendNs := ToU16(ns + 1);
      out := msg;
      assert Values() == old(Values()) + [pm.Value()];
    }

    /** An acknowledgement without a body does not use up a number. */
    method SendZlb() returns (out: bytes)
      ensures out == State().Zlb()
    {
      var hdr := SerializeHeader(ControlHeader(remoteTunnelId, sendNs, recvNr, 0));
      out := hdr;
      assert hdr + [] == hdr;
    }

    method Receive(ns: u16, nr: u16, isZlb: bool) returns (inOrder: bool)
      requires Valid()
      modifies this
      ensures Valid() && (forall p :: p in pending ==> p in old(pending))
      ensures inOrder == old(State()).InOrder(ns, isZlb)
      ensures State() == old(State()).Received(ns, nr, isZlb)
    {
      AcknowledgeUpTo(nr);
      if isZlb {
        return false;
      }
      if ns != recvNr {
        return false;
      }
      recvNr := ToU16(ns + 1);
      inOrder := true;
    }

    method AcknowledgeUpTo(nr: u16)
      requires Valid()
      modifies this`pending
      ensures Valid() && (forall p :: p in pending ==> p in old(pending))
      ensures State() == old(State()).Acked(nr)
    {
      hide Unacked, SeqLessThan;
      ghost var ps := Values();
      pending := Remaining(pending, nr, ps);
      assert Values() == Unacked(ps, nr);
    }

    static method Remaining(ms: seq<PendingMessage>, nr: u16, ghost ps: seq<Pending>)
      returns (remaining: seq<PendingMessage>)
      requires |ps| == |ms| && forall k :: 0 <= k < |ms| ==> ps[k] == ms[k].Value()
      requires forall i, j :: 0 <= i < j < |ms| ==> ms[i] != ms[j]
      ensures |remaining| == |Unacked(ps, nr)|
      ensures forall k :: 0 <= k < |remaining| ==> remaining[k] in ms && remaining[k].Value() == Unacked(ps, nr)[k]
      ensures forall i, j :: 0 <= i < j < |remaining| ==> remaining[i] != remaining[j]
    {
      remaining := [];
      assert Unacked(ps[..0], nr) == [];
      hide Unacked, SeqLessThan;
      for i := 0 to |ms|
        invariant |remaining| == |Unacked(ps[..i], nr)|
        invariant forall k :: 0 <= k < |remaining| ==>
          remaining[k] in ms[..i] && remaining[k].Value() == Unacked(ps[..i], nr)[k]
        invariant forall j, k :: 0 <= j < k < |remaining| ==> remaining[j] != remaining[k]
      {
        UnackedStep(ps, i, nr);
        assert ms[..i + 1] == ms[..i] + [ms[i]];
        assert ps[i].ns == ms[i].ns && ms[i] !in ms[..i];
        if !SeqLessThan(ms[i].ns, nr) {
          remaining := remaining + [ms[i]];
        }
      }
      assert ps[..|ms|] == ps && ms[..|ms|] == ms;
    }

    /** alive is false when a message has used up its retries; out is what is sent again. */
    method CheckRetransmit(now: int) returns (alive: bool, out: seq<bytes>)
      requires Valid()
      modifies pending
      ensures Valid() && pending == old(pending)
      ensures alive == old(State()).Alive(now) && out == old(State()).Resent(now)
      ensures State() == old(State()).Retransmitted(now)
    {
      ghost var was := Values();
      ghost var dead := FirstDead(was, now);
      alive, out := ScanAll(now, was, dead);
      hide Scanned, FirstDead, ResentTo;
      assert Values() == old(State()).Retransmitted(now).pending;
    }

    method ScanAll(now: int, ghost was: seq<Pending>, ghost dead: nat) returns (alive: bool, out: seq<bytes>)
      requires Valid() && was == Values() && dead == FirstDead(was, now)
      modifies pending
      ensures alive == (dead == |pending|) && out == ResentTo(was, dead, now, recvNr)
      ensures forall k :: 0 <= k < |pending| ==> pending[k].Value() == Scanned(was[k], k, dead, now, recvNr)
    {
      out := [];
      hide FirstDead, Values;
      for i := 0 to |pending|
        invariant i <= dead
        invariant forall k :: 0 <= k < |pending| ==>
          pending[k].Value() == if k < i then Scanned(was[k], k, dead, now, recvNr) else was[k]
        invariant out == ResentTo(was, i, now, recvNr)
      {
        var pm := pending[i];
        var died, resent := pm.Scan(now, recvNr);
        assert forall k :: 0 <= k < |pending| && k != i ==> pending[k] != pm;
        if died {
          return false, out;
        }
        if resent {
          out := out + [pm.data];
        }
      }
      alive := true;
    }
  }
}
