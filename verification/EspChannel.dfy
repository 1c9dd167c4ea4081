/**
 One ESP direction over a hostile network: a sender association, a receiver
 association with a replay window, and a network that drops, duplicates, reorders
 and forges.  Sequence numbers are 32 bits (no extended sequence numbers).
 */
module EspChannel {
  import opened Bytes
  import opened Replay
  import opened EspPacket

  const CALLS: nat := 0x1_0000_0000_0000_0000

  datatype Message = Message(payload: bytes, nextHeader: byte, iv: bytes)

  datatype Event = Send(m: Message) | Arrive(packet: bytes)

  datatype Delivery = Delivery(n: nat, payload: bytes, nextHeader: byte)

  /** sent and wire: the messages that left, and their packets; window: the receiver's. */
  datatype Channel = Channel(seqNum: u64, sent: seq<Message>, wire: seq<bytes>,
                             window: Window, delivered: seq<Delivery>)

  /**
   The two ends of an association: making packet n of a message, and authenticating bytes;
   and the bytes that cannot be made without the keys.
   */
  datatype Ends = Ends(make: (u64, Message) -> bytes, authentic: bytes -> Option<(u32, bytes)>, intact: bytes -> bool) {
    ghost predicate Faithful() {
      && (forall n: u64, m: Message :: |m.iv| == CBC_IV_SIZE ==> Opens(authentic(make(n, m)), n, m))
      && (forall p :: authentic(p).Some? ==> intact(p))
    }
  }

  predicate Opens(a: Option<(u32, bytes)>, n: u64, m: Message) {
    a.Some? && a.value.0 == ToU32(n) && Inner(a.value.1) == Ok(Shown(m.payload, m.nextHeader))
  }

  function EndsOf(keys: Keys, spi: u32): Ends
    requires keys.Initialized()
  {
    Ends((n: u64, m: Message) => Packet(keys, spi, n, m.iv, m.payload, m.nextHeader), p => Authentic(keys, p),
         p => Intact(keys, p))
  }

  lemma EndsOfFaithful(keys: Keys, spi: u32)
    requires keys.Ready()
    ensures EndsOf(keys, spi).Faithful()
  {
    var ends := EndsOf(keys, spi);
    forall n: u64, m: Message | |m.iv| == CBC_IV_SIZE
      ensures Opens(ends.authentic(ends.make(n, m)), n, m)
    {
      PacketOpens(keys, spi, n, m.iv, m.payload, m.nextHeader);
    }
    forall p | ends.authentic(p).Some? ensures ends.intact(p) {
      AuthenticExactly(keys, p);
    }
  }

  function Start(size: nat): Channel { Channel(0, [], [], Fresh(size), []) }

  function Step(ends: Ends, c: Channel, e: Event): Channel {
    match e
    case Send(m) =>
      var n: u64 := (c.seqNum + 1) % CALLS;
      if n > MAX_SEQ then c.(seqNum := n) else
      c.(seqNum := n, sent := c.sent + [m], wire := c.wire + [ends.make(n, m)])
    case Arrive(p) => Deliver(c, ends.authentic(p))
  }

  /** The receiver's part of a step, given what the packet authenticates as. */
  function Deliver(c: Channel, a: Option<(u32, bytes)>): Channel {
    var (r, w) := Admitted(Some(c.window), a);
    if r.Err? then c.(window := w.value) else
    c.(window := w.value, delivered := c.delivered + [Delivery(a.value.0, r.value.0, r.value.1)])
  }

  function Run(ends: Ends, size: nat, es: seq<Event>): Channel {
    if es == [] then Start(size) else Step(ends, Run(ends, size, es[..|es| - 1]), es[|es| - 1])
  }

  /**
   What a network without the keys can do: deliver any bytes at any time, except
   that it cannot make what takes the keys to make: a packet that the cipher opens or
   that ends in its own MAC is one the sender made.
   */
  predicate Possible(ends: Ends, c: Channel, e: Event) {
    match e
    case Send(m) => |m.iv| == CBC_IV_SIZE
    case Arrive(p) => ends.intact(p) ==> p in c.wire
  }

  predicate Legal(ends: Ends, size: nat, es: seq<Event>) {
    es == [] || (Legal(ends, size, es[..|es| - 1]) &&
                 Possible(ends, Run(ends, size, es[..|es| - 1]), es[|es| - 1]))
  }

  function Numbers(ds: seq<Delivery>): set<int> {
    set d | d in ds :: d.n
  }

  function DeliveryOf(n: nat, m: Message): Delivery {
    var (payload, nextHeader) := Shown(m.payload, m.nextHeader);
    Delivery(n, payload, nextHeader)
  }

  /** How many calls of Encrypt a run makes. */
  function Sends(es: seq<Event>): (n: nat)
    ensures n <= |es|
  {
    if es == [] then 0 else Sends(es[..|es| - 1]) + if es[|es| - 1].Send? then 1 else 0
  }

  /** The number the k-th call of Encrypt draws: the counter is 64 bits wide. */
  function CallNumber(k: nat): u64 { k % CALLS }

  /** How many of that many calls send a packet: numbers above 2^32 - 1 are refused. */
  function Sent(calls: nat): nat
    requires calls <= CALLS
  {
    if calls <= MAX_SEQ then calls else if calls < CALLS then MAX_SEQ else MAX_SEQ + 1
  }

  /** The number of packet i on the wire; the one after the last is sent when the counter wraps. */
  function WireNumber(i: nat): u64 { if i < MAX_SEQ then i + 1 else 0 }

  predicate SenderInv(ends: Ends, c: Channel, calls: nat) {
    && calls <= CALLS && c.seqNum == CallNumber(calls)
    && |c.wire| == |c.sent| == Sent(calls)
    && (forall i :: 0 <= i < |c.sent| ==>
          |c.sent[i].iv| == CBC_IV_SIZE && c.wire[i] == ends.make(WireNumber(i), c.sent[i]))
  }

  predicate Genuine(c: Channel, d: Delivery) {
    1 <= d.n <= |c.sent| && d.n <= MAX_SEQ && d == DeliveryOf(d.n, c.sent[d.n - 1])
  }

  predicate Distinct(ds: seq<Delivery>) {
    forall j, k :: 0 <= j < k < |ds| ==> ds[j].n != ds[k].n
  }

  predicate ReceiverInv(c: Channel, size: nat) {
    && c.window.size == size
    && c.window.seen == Numbers(c.delivered)
    && (forall d :: d in c.delivered ==> d.n <= c.window.last && Genuine(c, d))
    && Distinct(c.delivered)
  }

  /**
   Delivery is genuine and at most once: every delivery is a message the sender sent
   under that number, and no number is delivered twice.
   */
  lemma AtMostOnce(keys: Keys, spi: u32, size: nat, es: seq<Event>)
    requires keys.Ready() && Legal(EndsOf(keys, spi), size, es) && Sends(es) <= CALLS
    ensures var c := Run(EndsOf(keys, spi), size, es);
      (forall d :: d in c.delivered ==> Genuine(c, d)) && Distinct(c.delivered)
  {
    EndsOfFaithful(keys, spi);
    RunInv(EndsOf(keys, spi), size, es);
  }

  /**
   What an arriving packet does, for every packet: a forged one changes nothing at
   all; a genuine one is delivered exactly when its number is not zero, it was not
   delivered before and it is less than size behind the highest number delivered.
   */
  lemma ArrivalExactly(keys: Keys, spi: u32, size: nat, es: seq<Event>, p: bytes)
    requires keys.Ready() && Legal(EndsOf(keys, spi), size, es + [Arrive(p)]) && Sends(es) <= CALLS
    ensures var c, c' := Run(EndsOf(keys, spi), size, es), Run(EndsOf(keys, spi), size, es + [Arrive(p)]);
      && |c.wire| == |c.sent|
      && (p !in c.wire ==> c' == c)
      && forall i :: 0 <= i < |c.wire| && c.wire[i] == p ==> c' == AfterGenuine(c, size, i)
  {
    var ends := EndsOf(keys, spi);
    EndsOfFaithful(keys, spi);
    assert (es + [Arrive(p)])[..|es|] == es;
    RunInv(ends, size, es);
    var c := Run(ends, size, es);
    forall i | 0 <= i < |c.wire| && c.wire[i] == p
      ensures Deliver(c, ends.authentic(p)) == AfterGenuine(c, size, i)
    {
      DeliverGenuine(c, size, i, ends.authentic(p));
    }
  }

  function AfterGenuine(c: Channel, size: nat, i: nat): Channel
    requires i < |c.sent|
  {
    var n: int := WireNumber(i);
    if n != 0 && n !in Numbers(c.delivered) && c.window.last - n < size
    then c.(window := c.window.Advance(n), delivered := c.delivered + [DeliveryOf(n, c.sent[i])])
    else c
  }

  /** The nonces of packets i and j of a wire, under an AEAD suite. */
  predicate NoncesDiffer(keys: Keys, wire: seq<bytes>, i: nat, j: nat)
    requires i < |wire| && j < |wire|
  {
    |wire[i]| >= 16 && |wire[j]| >= 16 && keys.salt + wire[i][8..16] != keys.salt + wire[j][8..16]
  }

  ghost predicate NoncesDistinct(keys: Keys, wire: seq<bytes>) {
    forall i, j :: 0 <= i < j < |wire| ==> NoncesDiffer(keys, wire, i, j)
  }

  /** No nonce is used for two packets of an AEAD association. */
  lemma NoncesNeverRepeat(keys: Keys, spi: u32, size: nat, es: seq<Event>)
    requires keys.Ready() && IsAead(keys.suite) && Legal(EndsOf(keys, spi), size, es) && Sends(es) <= CALLS
    ensures NoncesDistinct(keys, Run(EndsOf(keys, spi), size, es).wire)
  {
    var wire := Run(EndsOf(keys, spi), size, es).wire;
    hide Run, Legal, EndsOf, Keys.Ready, WireNumber, Sends;
    forall i, j | 0 <= i < j < |wire| ensures NoncesDiffer(keys, wire, i, j) {
      WireIv(keys, spi, size, es, i);
      WireIv(keys, spi, size, es, j);
      SaltedDistinct(keys.salt, WireNumber(i), WireNumber(j));
    }
  }

  lemma WireIv(keys: Keys, spi: u32, size: nat, es: seq<Event>, i: nat)
    requires keys.Ready() && IsAead(keys.suite) && Legal(EndsOf(keys, spi), size, es) && Sends(es) <= CALLS
    requires i < |Run(EndsOf(keys, spi), size, es).wire|
    ensures var p := Run(EndsOf(keys, spi), size, es).wire[i];
      i <= MAX_SEQ && |p| >= 16 && p[8..16] == Put64(WireNumber(i))
    ensures forall j: nat :: i < j <= MAX_SEQ ==> WireNumber(i) != WireNumber(j)
  {
    hide Run, Legal, EndsOf, Keys.Ready, ReceiverInv, Sends;
    EndsOfFaithful(keys, spi);
    RunInv(EndsOf(keys, spi), size, es);
    var c := Run(EndsOf(keys, spi), size, es);
    IvField(keys, spi, WireNumber(i), c.sent[i]);
  }

  lemma IvField(keys: Keys, spi: u32, n: u64, m: Message)
    requires keys.Ready() && IsAead(keys.suite)
    ensures var p := EndsOf(keys, spi).make(n, m); |p| >= 16 && p[8..16] == Put64(n)
  {
  }

  lemma SaltedDistinct(salt: bytes, m: u64, n: u64)
    requires m != n
    ensures salt + Put64(m) != salt + Put64(n)
  {
    assert (salt + Put64(m))[|salt|..] == Put64(m) && (salt + Put64(n))[|salt|..] == Put64(n);
    if Put64(m) == Put64(n) {
      Put64Injective(m, n);
    }
  }

  // The bound on the calls is exact.

  /** The run of n calls of Encrypt with the same message. */
  function Calls(m: Message, n: nat): seq<Event> { seq(n, _ => Send(m)) }

  lemma {:induction false} CallsAre(ends: Ends, size: nat, m: Message, n: nat)
    requires |m.iv| == CBC_IV_SIZE
    ensures Legal(ends, size, Calls(m, n)) && Sends(Calls(m, n)) == n
  {
    if n > 0 {
      assert Calls(m, n)[..n - 1] == Calls(m, n - 1);
      CallsAre(ends, size, m, n - 1);
    }
  }

  lemma {:induction false} SeqNumIs(ends: Ends, size: nat, es: seq<Event>)
    ensures Run(ends, size, es).seqNum == CallNumber(Sends(es))
  {
    if es != [] {
      var most, e := es[..|es| - 1], es[|es| - 1];
      SeqNumIs(ends, size, most);
      SeqNumStep(ends, Run(ends, size, most), e);
      NextCall(Sends(most));
      hide CallNumber, Step;
    }
  }

  lemma SeqNumStep(ends: Ends, c: Channel, e: Event)
    ensures Step(ends, c, e).seqNum == if e.Send? then (c.seqNum + 1) % CALLS else c.seqNum
  {
    hide Admitted;
  }

  lemma NextCall(k: nat)
    ensures CallNumber(k + 1) == (CallNumber(k) + 1) % CALLS
  {
  }

  ghost predicate NoncesSafe(keys: Keys, spi: u32, size: nat, calls: nat)
    requires keys.Initialized()
  {
    forall es :: Legal(EndsOf(keys, spi), size, es) && Sends(es) <= calls ==>
      NoncesDistinct(keys, Run(EndsOf(keys, spi), size, es).wire)
  }

  /** So the nonces of all runs of so many calls are safe up to exactly 2^64 calls. */
  lemma NonceBoundExact(keys: Keys, spi: u32, size: nat, calls: nat)
    requires keys.Ready() && IsAead(keys.suite)
    ensures NoncesSafe(keys, spi, size, calls) <==> calls <= CALLS
  {
    hide Run, Legal, Keys.Ready, NoncesDistinct, Sends;
    if calls <= CALLS {
      forall es | Legal(EndsOf(keys, spi), size, es) && Sends(es) <= calls
        ensures NoncesDistinct(keys, Run(EndsOf(keys, spi), size, es).wire)
      {
        NoncesDistinctExactly(keys, spi, size, es);
      }
    } else {
      var m := Message([], 0, Zeros(CBC_IV_SIZE));
      CallsAre(EndsOf(keys, spi), size, m, CALLS + 1);
      NoncesDistinctExactly(keys, spi, size, Calls(m, CALLS + 1));
    }
  }

  /** In every run the nonces on the wire are distinct if and only if Encrypt was called at most 2^64 times. */
  lemma NoncesDistinctExactly(keys: Keys, spi: u32, size: nat, es: seq<Event>)
    requires keys.Ready() && IsAead(keys.suite) && Legal(EndsOf(keys, spi), size, es)
    ensures NoncesDistinct(keys, Run(EndsOf(keys, spi), size, es).wire) <==> Sends(es) <= CALLS
  {
    hide Run, Legal, EndsOf, Keys.Ready, IsAead, NoncesDistinct, Sends, CallNumber;
    if Sends(es) <= CALLS {
      NoncesNeverRepeat(keys, spi, size, es);
    } else {
      var ends := EndsOf(keys, spi);
      var a := CallAt(es, 1);
      var b := CallAt(es, CALLS + 1);
      SendsGrow(es, b + 1, a + 1);
      NumbersMeet(1, CALLS + 1);
      var i := SentAt(ends, size, es, a);
      var j := SentAt(ends, size, es, b);
      WireGrows(ends, size, es, a + 1, b);
      IvField(keys, spi, 1, es[a].m);
      IvField(keys, spi, 1, es[b].m);
      SameNonce(keys, Run(ends, size, es).wire, i, j);
    }
  }

  /** Where on the wire the packet of a call is. */
  lemma SentAt(ends: Ends, size: nat, es: seq<Event>, k: nat) returns (i: nat)
    requires k < |es| && es[k].Send? && CallNumber(Sends(es[..k + 1])) <= MAX_SEQ
    ensures i == |Run(ends, size, es[..k]).wire| && |Run(ends, size, es[..k + 1]).wire| == i + 1
    ensures i < |Run(ends, size, es).wire|
    ensures Run(ends, size, es).wire[i] == ends.make(CallNumber(Sends(es[..k + 1])), es[k].m)
  {
    hide CallNumber, Sends, Admitted;
    i := |Run(ends, size, es[..k]).wire|;
    SeqNumIs(ends, size, es[..k + 1]);
    assert es[..k + 1][..k] == es[..k] && es[..|es|] == es;
    assert Run(ends, size, es[..k + 1]) == Step(ends, Run(ends, size, es[..k]), es[k]);
    hide Run;
    WireGrows(ends, size, es, k + 1, |es|);
  }

  lemma {:induction false} WireGrows(ends: Ends, size: nat, es: seq<Event>, i: nat, j: nat)
    requires i <= j <= |es|
    ensures Run(ends, size, es[..i]).wire <= Run(ends, size, es[..j]).wire
    decreases j
  {
    hide Admitted;
    if i < j {
      assert es[..j][..j - 1] == es[..j - 1];
      WireGrows(ends, size, es, i, j - 1);
    }
  }

  lemma SameNonce(keys: Keys, wire: seq<bytes>, i: nat, j: nat)
    requires i < j < |wire| && |wire[i]| >= 16 && |wire[j]| >= 16 && wire[i][8..16] == wire[j][8..16]
    ensures !NoncesDistinct(keys, wire)
  {
    assert !NoncesDiffer(keys, wire, i, j);
  }

  /** The number call k of a run draws, and whether it sends. */
  function Drawn(ends: Ends, size: nat, es: seq<Event>, k: nat): u64
    requires k < |es|
  {
    Run(ends, size, es[..k + 1]).seqNum
  }

  predicate SendsAt(ends: Ends, size: nat, es: seq<Event>, k: nat) {
    k < |es| && es[k].Send? && Drawn(ends, size, es, k) <= MAX_SEQ
  }

  ghost predicate DrawnDistinct(ends: Ends, size: nat, es: seq<Event>) {
    forall a: nat, b: nat :: a < b && SendsAt(ends, size, es, a) && SendsAt(ends, size, es, b) ==>
      Drawn(ends, size, es, a) != Drawn(ends, size, es, b)
  }

  /** In every run the numbers sent are distinct if and only if Encrypt is called at most 2^64 times. */
  lemma NumbersDistinctUntilWrap(ends: Ends, size: nat, es: seq<Event>)
    ensures DrawnDistinct(ends, size, es) <==> Sends(es) <= CALLS
  {
    hide Run, Drawn, CallNumber, Sends;
    if Sends(es) > CALLS {
      var a := CallAt(es, 1);
      var b := CallAt(es, CALLS + 1);
      DrawnIs(ends, size, es, a);
      DrawnIs(ends, size, es, b);
      SendsGrow(es, b + 1, a + 1);
      NumbersMeet(1, CALLS + 1);
      assert SendsAt(ends, size, es, a) && SendsAt(ends, size, es, b);
    } else {
      forall a: nat, b: nat | a < b && SendsAt(ends, size, es, a) && SendsAt(ends, size, es, b)
        ensures Drawn(ends, size, es, a) != Drawn(ends, size, es, b)
      {
        DrawnIs(ends, size, es, a);
        DrawnIs(ends, size, es, b);
        SendsGrow(es, a + 1, b);
        SendsGrow(es, b + 1, |es|);
        assert es[..|es|] == es;
        NumbersMeet(Sends(es[..a + 1]), Sends(es[..b + 1]));
      }
    }
  }

  lemma NumbersMeet(j: nat, k: nat)
    ensures 0 < j < k <= CALLS ==> CallNumber(j) != CallNumber(k)
    ensures CallNumber(1) == 1 && CallNumber(CALLS + 1) == 1
  {
  }

  lemma DrawnIs(ends: Ends, size: nat, es: seq<Event>, k: nat)
    requires k < |es| && es[k].Send?
    ensures Drawn(ends, size, es, k) == CallNumber(Sends(es[..k + 1])) && Sends(es[..k + 1]) == Sends(es[..k]) + 1
  {
    SeqNumIs(ends, size, es[..k + 1]);
    assert es[..k + 1][..k] == es[..k];
  }

  lemma {:induction false} SendsGrow(es: seq<Event>, i: nat, j: nat)
    requires j <= |es|
    ensures i <= j ==> Sends(es[..i]) <= Sends(es[..j])
    decreases j
  {
    if i < j {
      assert es[..j][..j - 1] == es[..j - 1];
      SendsGrow(es, i, j - 1);
    }
  }

  lemma {:induction false} CallAt(es: seq<Event>, k: nat) returns (at: nat)
    requires 1 <= k <= Sends(es)
    ensures at < |es| && es[at].Send? && Sends(es[..at + 1]) == k
  {
    var most := es[..|es| - 1];
    if k <= Sends(most) {
      at := CallAt(most, k);
      assert most[..at + 1] == es[..at + 1];
    } else {
      at := |es| - 1;
      assert es[..at + 1] == es;
    }
  }

  lemma {:induction false} RunInv(ends: Ends, size: nat, es: seq<Event>)
    requires ends.Faithful() && Legal(ends, size, es) && Sends(es) <= CALLS
    ensures SenderInv(ends, Run(ends, size, es), Sends(es))
    ensures ReceiverInv(Run(ends, size, es), size)
  {
    if es != [] {
      var most, e := es[..|es| - 1], es[|es| - 1];
      RunInv(ends, size, most);
      var c := Run(ends, size, most);
      assert Legal(ends, size, most) && Possible(ends, c, e) && Run(ends, size, es) == Step(ends, c, e);
      assert Sends(es) == Sends(most) + if e.Send? then 1 else 0;
      hide Run, Legal, Sends, Step, SenderInv, ReceiverInv, Ends.Faithful;
      match e {
        case Send(m) => SendKeeps(ends, c, m, Sends(most), size);
        case Arrive(p) => ArriveKeeps(ends, c, p, Sends(most), size);
      }
    }
  }

  lemma SendKeeps(ends: Ends, c: Channel, m: Message, calls: nat, size: nat)
    requires SenderInv(ends, c, calls) && ReceiverInv(c, size)
    requires calls < CALLS && |m.iv| == CBC_IV_SIZE
    ensures SenderInv(ends, Step(ends, c, Send(m)), calls + 1)
    ensures ReceiverInv(Step(ends, c, Send(m)), size)
  {
  }

  lemma ArriveKeeps(ends: Ends, c: Channel, p: bytes, calls: nat, size: nat)
    requires ends.Faithful() && SenderInv(ends, c, calls) && ReceiverInv(c, size)
    requires Possible(ends, c, Arrive(p))
    ensures SenderInv(ends, Step(ends, c, Arrive(p)), calls)
    ensures ReceiverInv(Step(ends, c, Arrive(p)), size)
  {
    if p in c.wire {
      var i :| 0 <= i < |c.wire| && c.wire[i] == p;
      DeliverGenuine(c, size, i, ends.authentic(p));
      DeliverKeeps(c, size, i);
    }
  }

  lemma DeliverGenuine(c: Channel, size: nat, i: nat, a: Option<(u32, bytes)>)
    requires i < |c.sent| <= MAX_SEQ + 1 && Opens(a, WireNumber(i), c.sent[i]) && ReceiverInv(c, size)
    ensures Deliver(c, a) == AfterGenuine(c, size, i)
  {
  }

  lemma DeliverKeeps(c: Channel, size: nat, i: nat)
    requires ReceiverInv(c, size) && i < |c.sent|
    ensures ReceiverInv(AfterGenuine(c, size, i), size)
  {
    var n := WireNumber(i);
    NumbersAppend(c.delivered, DeliveryOf(n, c.sent[i]));
    forall k | 0 <= k < |c.delivered| && n !in Numbers(c.delivered)
      ensures c.delivered[k].n != n
    {
      assert c.delivered[k].n in Numbers(c.delivered);
    }
  }

  lemma NumbersAppend(ds: seq<Delivery>, d: Delivery)
    ensures Numbers(ds + [d]) == Numbers(ds) + {d.n}
  {
    forall n: int
      ensures n in Numbers(ds + [d]) <==> n in Numbers(ds) + {d.n}
    {
      if n in Numbers(ds) {
        var x :| x in ds && x.n == n;
        assert x in ds + [d];
      }
      if n == d.n {
        assert d in ds + [d];
      }
    }
  }

  // The associations of the source are the two ends of a step.

  method SendStep(sa: SecurityAssociation, ghost c: Channel, m: Message) returns (r: Result<bytes>)
    requires sa.keys.Ready() && !sa.esn && |m.iv| == CBC_IV_SIZE && c.seqNum == sa.seqNum
    modifies sa`seqNum
    ensures var c' := Step(EndsOf(sa.keys, sa.spi), c, Send(m));
      && sa.seqNum == c'.seqNum
      && c'.wire == (if r.Ok? then c.wire + [r.value] else c.wire)
      && c'.sent == (if r.Ok? then c.sent + [m] else c.sent)
  {
    hide Packet;
    r := sa.Encrypt(m.payload, m.nextHeader, m.iv);
  }

  method ArriveStep(sa: SecurityAssociation, ghost c: Channel, packet: bytes) returns (r: Result<(bytes, byte)>)
    requires sa.keys.Initialized() && sa.Valid() && sa.WindowState() == Some(c.window)
    modifies sa.window, if sa.window == null then {} else {sa.window.bitmap}
    ensures sa.Valid()
    ensures var ends := EndsOf(sa.keys, sa.spi);
      var c' := Step(ends, c, Arrive(packet));
      && sa.WindowState() == Some(c'.window)
      && (r.Ok? ==> ends.authentic(packet).Some?)
      && c'.delivered == (if r.Ok?
           then c.delivered + [Delivery(ends.authentic(packet).value.0, r.value.0, r.value.1)] else c.delivered)
  {
    hide Authentic;
    r := sa.Decrypt(packet);
  }
}
