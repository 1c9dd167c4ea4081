/**
 The L2TP server: tunnels, their sessions, and the addresses the sessions hold.
 Every message is handled as one atomic step.
 */
module L2tpServer {
  import opened Bytes
  import opened Ipam
  import opened Session
  import opened ConfigOptions
  import Ppp
  import Chap
  import Ipcp

  const TUNNEL_IDLE: byte := 0
  const TUNNEL_WAIT_CTL_CONN: byte := 1
  const TUNNEL_ESTABLISHED: byte := 2
  const TUNNEL_DEAD: byte := 3

  /** A tunnel is registered under the peer's address and the peer's tunnel ID. */
  type TunnelKey = (bytes, u16)

  /** uint16 of a 32-bit counter counted on, zero left out. */
  function NextId(counter: u32): (r: (u16, u32))
    ensures r.0 != 0
  {
    var c := ToU32(counter + 1);
    if ToU16(c) != 0 then (ToU16(c), c) else (1, ToU32(c + 1))
  }

  lemma SameLowBits(n: nat)
    ensures ToU16(ToU32(n)) == ToU16(n)
  {
    var q := n / 0x1_0000_0000;
    assert n == ToU32(n) + 0x1_0000 * (0x1_0000 * q);
  }

  /** The identifiers repeat after 65536 steps of the counter, one of which gives none. */
  lemma IdsRepeat(counter: u32)
    ensures NextId(ToU32(counter + 0x1_0000)).0 == NextId(counter).0
  {
    var c, c' := counter + 1, counter + 1 + 0x1_0000;
    assert ToU16(c') == ToU16(c);
    assert ToU32(ToU32(counter + 0x1_0000) + 1) == ToU32(c');
    hide ToU16, ToU32;
    SameLowBits(c);
    SameLowBits(c');
  }

  class Tunnel {
    const localTunnelId: u16
    var remoteTunnelId: u16
    var state: byte
    var sessions: map<u16, PppSession>
    var nextSessionId: u32

    constructor (localTunnelId: u16)
      ensures this.localTunnelId == localTunnelId && state == TUNNEL_IDLE && sessions == map[] && nextSessionId == 1
    {
      this.localTunnelId, remoteTunnelId, state, sessions, nextSessionId := localTunnelId, 0, TUNNEL_IDLE, map[], 1;
    }

    method HandleSccrq(remoteTid: Option<u16>, versionOk: bool) returns (ok: bool)
      modifies this
      ensures ok <==> old(state) == TUNNEL_IDLE && remoteTid.Some? && remoteTid.value != 0 && versionOk
      ensures ok ==> state == TUNNEL_WAIT_CTL_CONN && remoteTunnelId == remoteTid.value
      ensures !ok ==>
        (state ==
          if old(state) == TUNNEL_IDLE && remoteTid.Some? && remoteTid.value != 0 then TUNNEL_DEAD else old(state))
      ensures sessions == old(sessions) && nextSessionId == old(nextSessionId)
    {
      if state != TUNNEL_IDLE {
        return false;
      }
      if remoteTid.None? || remoteTid.value == 0 {
        return false;
      }
      remoteTunnelId := remoteTid.value;
      if !versionOk {
        state := TUNNEL_DEAD;
        return false;
      }
      state := TUNNEL_WAIT_CTL_CONN;
      ok := true;
    }

    method HandleScccn() returns (ok: bool)
      modifies this`state
      ensures ok == (old(state) == TUNNEL_WAIT_CTL_CONN)
      ensures state == if ok then TUNNEL_ESTABLISHED else old(state)
    {
      if state != TUNNEL_WAIT_CTL_CONN {
        return false;
      }
      state := TUNNEL_ESTABLISHED;
      ok := true;
    }

    /** The new session takes its identifier's place in the map, whoever was there. */
    method HandleIcrq(remoteSid: Option<u16>, auth: Chap.Auth) returns (r: Result<PppSession>)
      requires auth.Valid()
      modifies this`sessions, this`nextSessionId
      ensures r.Ok? <==> state == TUNNEL_ESTABLISHED && remoteSid.Some? && remoteSid.value != 0
      ensures r.Err? ==> sessions == old(sessions) && nextSessionId == old(nextSessionId)
      ensures r.Ok? ==>
        && fresh(r.value) && r.value.Valid() && r.value.state == WAIT_CONNECT && r.value.assignedIp == None
        && r.value.ipcpHandler == null
        && (r.value.localSessionId, nextSessionId) == NextId(old(nextSessionId))
        && r.value.remoteSessionId == remoteSid.value
        && sessions == old(sessions)[r.value.localSessionId := r.value]
    {
      if state != TUNNEL_ESTABLISHED {
        return Err;
      }
      if remoteSid.None? || remoteSid.value == 0 {
        return Err;
      }
      nextSessionId := ToU32(nextSessionId + 1);
      var localSessionId := ToU16(nextSessionId);
      if localSessionId == 0 {
        nextSessionId := ToU32(nextSessionId + 1);
        localSessionId := ToU16(nextSessionId);
      }
      var sess := new PppSession(auth, localSessionId, remoteSid.value);
      sessions := sessions[localSessionId := sess];
      r := Ok(sess);
    }
  }

  // The addresses of a set of sessions.

  /** Sessions are filed under their own identifiers. */
  predicate Filed(c: PppSession, sessions: map<u16, PppSession>) {
    c.localSessionId in sessions && sessions[c.localSessionId] == c
  }

  /** Assigned an address and not closed since. */
  predicate Holds(c: PppSession)
    reads c
  {
    c.state == ESTABLISHED && c.assignedIp.Some?
  }

  /** The sessions hold exactly the allocated addresses, each its own. */
  ghost predicate Accounted(calls: set<PppSession>, held: set<int>)
    reads calls
  {
    && (forall c :: c in calls ==> WellMade(c))
    && (forall c :: c in calls && Holds(c) ==> c.assignedIp.value in held)
    && (forall c, d :: c in calls && d in calls && Holds(c) && Holds(d) && c != d ==> c.assignedIp != d.assignedIp)
    && (forall a :: a in held ==> exists c :: c in calls && Holds(c) && c.assignedIp == Some(a))
  }

  /** The addresses a session accounts for. */
  function HeldBy(c: PppSession): set<int>
    reads c
  {
    if Holds(c) then {c.assignedIp.value} else {}
  }

  /** What a session's IPCP gives the peer is the address the session was assigned. */
  ghost predicate WellMade(c: PppSession)
    reads c
  {
    && c.Valid() && (c.state == WAIT_CONNECT || c.state == ESTABLISHED || c.state == CLOSED)
    && (c.state == WAIT_CONNECT ==> c.assignedIp == None)
    && (c.ipcpHandler != null ==>
          c.assignedIp.Some? && c.ipcpHandler.config.assignedIp == Put32(c.assignedIp.value))
  }

  ghost predicate Acknowledges(c: PppSession, options: bytes)
    reads c
  {
    && c.ipcpHandler != null
    && Answer(Ipcp.Rule(c.ipcpHandler.config), ParseOptions(options)).0 == Ppp.CONFIGURE_ACK
  }

  /** No two sessions holding an address acknowledge the same one, whatever their peers ask for. */
  lemma NoAddressAckedTwice(calls: set<PppSession>, held: set<int>, c: PppSession, d: PppSession,
                            b: bytes, b': bytes, o: bytes, o': bytes)
    requires Accounted(calls, held) && c in calls && d in calls && c != d && Holds(c) && Holds(d)
    requires Acknowledges(c, b) && o in ParseOptions(b) && o[0] == Ipcp.OPT_IP_ADDRESS
    requires Acknowledges(d, b') && o' in ParseOptions(b') && o'[0] == Ipcp.OPT_IP_ADDRESS
    ensures |o| >= 6 && |o'| >= 6 && o[2..6] != o'[2..6]
  {
    hide Answer, ParseOptions, Ipcp.Rule, Put32;
    Ipcp.AckedAddress(c.ipcpHandler.config, b, o);
    Ipcp.AckedAddress(d.ipcpHandler.config, b', o');
    if Put32(c.assignedIp.value) == Put32(d.assignedIp.value) {
      Put32Injective(c.assignedIp.value, d.assignedIp.value);
    }
  }

  lemma Apart(calls: set<PppSession>, held: set<int>, c: PppSession)
    requires Accounted(calls, held) && c in calls
    ensures Accounted(calls - {c}, held - HeldBy(c)) && HeldBy(c) <= held && WellMade(c)
  {
    forall a | a in held - HeldBy(c) ensures exists d :: d in calls - {c} && Holds(d) && d.assignedIp == Some(a) {
      var d :| d in calls && Holds(d) && d.assignedIp == Some(a);
      assert d in calls - {c};
    }
  }

  lemma Together(calls: set<PppSession>, held: set<int>, c: PppSession)
    requires Accounted(calls, held) && WellMade(c) && c !in calls && HeldBy(c) !! held
    ensures Accounted(calls + {c}, held + HeldBy(c))
  {
    var all := calls + {c};
    forall a | a in held + HeldBy(c) ensures exists d :: d in all && Holds(d) && d.assignedIp == Some(a) {
      if a in held {
        var d :| d in calls && Holds(d) && d.assignedIp == Some(a);
        assert d in all;
      } else {
        assert c in all;
      }
    }
  }

  ghost function HoldersIn(calls: set<PppSession>): set<PppSession>
    reads calls
  {
    set c | c in calls && Holds(c)
  }

  /** As many addresses are allocated as sessions hold one. */
  lemma Conservation(calls: set<PppSession>, held: set<int>)
    requires Accounted(calls, held)
    ensures |held| == |HoldersIn(calls)|
  {
    OnePerAddress(HoldersIn(calls), held);
  }

  lemma {:induction false} OnePerAddress(live: set<PppSession>, held: set<int>)
    requires forall c :: c in live ==> c.assignedIp.Some? && c.assignedIp.value in held
    requires forall c, d :: c in live && d in live && c != d ==> c.assignedIp != d.assignedIp
    requires forall a :: a in held ==> exists c :: c in live && c.assignedIp == Some(a)
    ensures |held| == |live|
    decreases |live|
  {
    if live == {} {
      assert forall a :: a !in held;
      assert held == {};
    } else {
      var c :| c in live;
      var rest, left := live - {c}, held - {c.assignedIp.value};
      forall a | a in left ensures exists d :: d in rest && d.assignedIp == Some(a) {
        var d :| d in live && d.assignedIp == Some(a);
        assert d in rest;
      }
      OnePerAddress(rest, left);
    }
  }

  /** Closing a session, and the address it gives back. */
  method CloseAndRelease(c: PppSession, pool: Pool, ghost calls: set<PppSession>)
    requires pool.Valid() && Accounted(calls, pool.Held()) && c in calls
    modifies c`state, pool, pool.bitmap
    ensures pool.Valid() && Accounted(calls, pool.Held()) && c.state == CLOSED
    ensures pool.Held() == old(pool.Held()) - old(HeldBy(c))
  {
    hide *;
    Apart(calls, pool.Held(), c);
    ghost var rest := calls - {c};
    CloseAlone(c, pool);
    Together(rest, pool.Held(), c);
    assert rest + {c} == calls && pool.Held() + {} == pool.Held();
  }

  lemma HeldInRange(c: PppSession, pool: Pool)
    requires pool.Valid() && Holds(c) ==> c.assignedIp.value in pool.Held()
    ensures pool.Valid() && Holds(c) ==> pool.Contains(c.assignedIp.value)
  {
  }

  method CloseAlone(c: PppSession, pool: Pool)
    requires pool.Valid() && WellMade(c) && HeldBy(c) <= pool.Held()
    modifies c`state, pool, pool.bitmap
    ensures pool.Valid() && WellMade(c) && c.state == CLOSED && HeldBy(c) == {}
    ensures pool.Held() == old(pool.Held()) - old(HeldBy(c))
  {
    HeldInRange(c, pool);
    hide Pool.Valid, Pool.Held;
    var closed := c.CloseSession();
    if closed && c.assignedIp.Some? {
      var r := pool.Release(c.assignedIp);
      assert r.Ok?;
    }
  }

  /** An address for an established session, and PPP started on it. */
  method AllocateAndInit(c: PppSession, pool: Pool, gateway: bytes, dns1: bytes, dns2: bytes, magic: u32,
                         ghost calls: set<PppSession>)
    returns (ok: bool)
    requires pool.Valid() && Accounted(calls, pool.Held()) && c in calls
    requires c.state == ESTABLISHED && c.assignedIp == None
    modifies c, pool, pool.bitmap
    ensures pool.Valid() && Accounted(calls, pool.Held()) && c.state == ESTABLISHED
    ensures ok <==> |old(pool.Held())| < pool.size
    ensures !ok ==> pool.Held() == old(pool.Held())
    ensures c.assignedIp.Some? <==> ok
  {
    hide *;
    ghost var rest, held := calls - {c}, pool.Held();
    ApartIdle(calls, held, c);
    var ip := pool.Allocate();
    if ip.Err? {
      return false;
    }
    Init(c, ip.value, gateway, dns1, dns2, magic, rest, held);
    assert rest + {c} == calls;
    ok := true;
  }

  lemma ApartIdle(calls: set<PppSession>, held: set<int>, c: PppSession)
    requires Accounted(calls, held) && c in calls && c.assignedIp == None
    ensures Accounted(calls - {c}, held) && c.Valid()
  {
    Apart(calls, held, c);
    assert held - {} == held;
  }

  method Init(c: PppSession, ip: u32, gateway: bytes, dns1: bytes, dns2: bytes, magic: u32,
              ghost rest: set<PppSession>, ghost held: set<int>)
    requires Accounted(rest, held) && c !in rest && ip !in held && c.Valid() && c.state == ESTABLISHED
    modifies c
    ensures Accounted(rest + {c}, held + {ip}) && c.state == ESTABLISHED && c.assignedIp == Some(ip)
  {
    hide Accounted, State.Initialized;
    var _ := c.InitPpp(ip, gateway, dns1, dns2, magic);
    Together(rest, held, c);
  }

  /** What Route dispatches on. */
  datatype Message = Scccn | Icrq(remoteSid: Option<u16>) | Iccn(sessionId: u16, magic: u32) | Hello
    | Cdn(cdnSid: Option<u16>) | StopCcn | Unknown

  /** Nothing is allocated exactly when no session holds an address. */
  lemma NoneHeldExactly(calls: set<PppSession>, held: set<int>)
    requires Accounted(calls, held)
    ensures held == {} <==> forall c :: c in calls ==> !Holds(c)
  {
    if forall c :: c in calls ==> !Holds(c) {
      assert forall a :: a !in held;
      assert held == {};
    }
  }

  lemma FewerValues<K, V>(was: map<K, V>, now: map<K, V>)
    requires forall k :: k in now ==> k in was && now[k] == was[k]
    ensures now.Values <= was.Values
  {
    forall v | v in now.Values ensures v in was.Values {
      var k :| k in now && now[k] == v;
      assert was[k] == v;
    }
  }

  lemma NewValue<K, V>(was: map<K, V>, now: map<K, V>, v: V)
    requires forall k :: k in now ==> now[k] == v || (k in was && now[k] == was[k])
    ensures now.Values <= was.Values + {v}
  {
    forall w | w in now.Values && w != v ensures w in was.Values {
      var k :| k in now && now[k] == w;
      assert was[k] == w;
    }
  }

  lemma NobodyFiled()
    ensures forall c: PppSession :: !Filed(c, map[])
  {
  }

  /** In a tunnel of a set. */
  ghost predicate Among(c: PppSession, ts: set<Tunnel>)
    reads ts
  {
    exists t :: t in ts && Filed(c, t.sessions)
  }

  /** A session and its handlers. */
  function Parts(c: PppSession?): set<object>
    reads c
  {
    if c == null then {} else
    {c} + (if c.lcpHandler == null then {} else {c.lcpHandler})
    + (if c.chapHandler == null then {} else {c.chapHandler})
    + if c.ipcpHandler == null then {} else {c.ipcpHandler}
  }

  method HandleFrame(c: PppSession, payload: bytes, drawn: Drawn, ghost calls: set<PppSession>, ghost held: set<int>)
    returns (frames: seq<bytes>, tun: Option<bytes>, panics: bool)
    requires Accounted(calls, held) && c in calls && c.Valid() && |drawn.challenge| == 16
    modifies Parts(c)
    ensures Accounted(calls, held) && c.Valid()
    ensures forall d :: d in calls ==> d.state == old(d.state) && d.assignedIp == old(d.assignedIp)
    ensures (Output(frames, tun, panics), c.Value()) == old(c.Value()).OnData(c.auth, payload, drawn)
  {
    hide State.OnData;
    frames, tun, panics := c.HandleData(payload, drawn);
  }

  class Server {
    const auth: Chap.Auth
    const gateway: bytes
    const dns1: bytes
    const dns2: bytes
    const pool: Pool
    var tunnels: map<TunnelKey, Tunnel>
    var tunnelsByLocalId: map<u16, Tunnel>
    var nextTunnelId: u32

    /** All tunnels and sessions ever made. */
    ghost var known: set<Tunnel>
    ghost var calls: set<PppSession>

    ghost predicate Valid()
      reads this, pool, pool.bitmap, known, calls
    {
      && auth.Valid() && pool.Valid()
      && tunnels.Values <= known && tunnelsByLocalId.Values <= known
      && (forall t :: t in known ==> SessionsOf(t))
      && Accounted(calls, pool.Held())
    }

    ghost predicate SessionsOf(t: Tunnel)
      reads this, t
    {
      forall id :: id in t.sessions ==> t.sessions[id] in calls && t.sessions[id].localSessionId == id
    }

    constructor (auth: Chap.Auth, gateway: bytes, dns1: bytes, dns2: bytes, pool: Pool)
      requires auth.Valid() && pool.Valid() && pool.Held() == {}
      ensures Valid() && calls == {} && known == {} && this.pool == pool
    {
      this.auth, this.gateway, this.dns1, this.dns2, this.pool := auth, gateway, dns1, dns2, pool;
      tunnels, tunnelsByLocalId, nextTunnelId, known, calls := map[], map[], 1, {}, {};
    }

    /** Filed in a tunnel the server still has under one of its keys. */
    ghost predicate InReach(c: PppSession)
      reads this, tunnels.Values, tunnelsByLocalId.Values
    {
      Among(c, tunnels.Values) || Among(c, tunnelsByLocalId.Values)
    }

    method AvailableAddresses() returns (count: nat)
      requires Valid()
      ensures count + |HoldersIn(calls)| == pool.size
    {
      Conservation(calls, pool.Held());
      count := pool.Available();
    }

    /** Between messages every established session has its address. */
    ghost predicate Settled()
      reads this, calls
    {
      forall c :: c in calls && c.state == ESTABLISHED ==> c.assignedIp.Some?
    }

    /** A tunnel made for a first message, under both its keys, or nothing. */
    twostate predicate Registered(addr: bytes, remoteTid: Option<u16>, versionOk: bool, new r: Option<Tunnel>)
      reads this, calls, pool, pool.bitmap, if r.Some? then {r.value} else {}
    {
      var (id, next) := NextId(old(nextTunnelId));
      && calls == old(calls) && nextTunnelId == next
      && (old(Settled()) ==> Settled())
      && (r.Some? <==> remoteTid.Some? && remoteTid.value != 0 && versionOk)
      && if r.None?
         then tunnels == old(tunnels) && tunnelsByLocalId == old(tunnelsByLocalId) && known == old(known)
         else
         && known == old(known) + {r.value}
         && r.value.state == TUNNEL_WAIT_CTL_CONN && r.value.sessions == map[] && r.value.nextSessionId == 1
         && tunnels == old(tunnels)[(addr, remoteTid.value) := r.value]
         && tunnelsByLocalId == old(tunnelsByLocalId)[id := r.value]
    }

    /** A tunnel's first message.  A tunnel under the same key or local identifier loses its place. */
    method HandleNewTunnel(addr: bytes, remoteTid: Option<u16>, versionOk: bool) returns (r: Option<Tunnel>)
      requires Valid()
      modifies this
      ensures Valid() && Registered(addr, remoteTid, versionOk, r) && (r.Some? ==> fresh(r.value))
      ensures pool.Held() == old(pool.Held())
      ensures forall c :: c in calls && InReach(c) ==> old(InReach(c))
    {
      hide Accounted, NextId, Filed;
      r := RegisterTunnel(addr, remoteTid, versionOk);
      if r.Some? {
        NewValue(old(tunnels), tunnels, r.value);
        NewValue(old(tunnelsByLocalId), tunnelsByLocalId, r.value);
        assert forall c: PppSession :: !Filed(c, map[]) by { NobodyFiled(); }
      }
    }

    method RegisterTunnel(addr: bytes, remoteTid: Option<u16>, versionOk: bool) returns (r: Option<Tunnel>)
      requires Valid()
      modifies this
      ensures Valid() && Registered(addr, remoteTid, versionOk, r) && (r.Some? ==> fresh(r.value))
      ensures pool.Held() == old(pool.Held())
    {
      hide Accounted, NextId, Filed, Holds, Pool.Valid, Pool.Held;
      var localTid := AllocateTunnelId();
      var tunnel := new Tunnel(localTid);
      var ok := tunnel.HandleSccrq(remoteTid, versionOk);
      if !ok {
        return None;
      }
      known := known + {tunnel};
      tunnels := tunnels[(addr, remoteTid.value) := tunnel];
      tunnelsByLocalId := tunnelsByLocalId[localTid := tunnel];
      r := Some(tunnel);
    }

    method AllocateTunnelId() returns (localTid: u16)
      modifies this`nextTunnelId
      ensures (localTid, nextTunnelId) == NextId(old(nextTunnelId))
    {
      nextTunnelId := ToU32(nextTunnelId + 1);
      localTid := ToU16(nextTunnelId);
      if localTid == 0 {
        nextTunnelId := ToU32(nextTunnelId + 1);
        localTid := ToU16(nextTunnelId);
      }
    }

    /** A session the new one takes the identifier from is out of reach from then on. */
    method HandleIcrq(tunnel: Tunnel, remoteSid: Option<u16>) returns (r: Result<PppSession>)
      requires Valid() && Settled() && tunnel in known
      modifies this`calls, tunnel`sessions, tunnel`nextSessionId
      ensures Valid() && Settled()
      ensures r.Ok? <==> tunnel.state == TUNNEL_ESTABLISHED && remoteSid.Some? && remoteSid.value != 0
      ensures r.Err? ==>
        && calls == old(calls) && tunnel.sessions == old(tunnel.sessions)
        && tunnel.nextSessionId == old(tunnel.nextSessionId)
      ensures r.Ok? ==>
        && fresh(r.value) && r.value.state == WAIT_CONNECT && calls == old(calls) + {r.value}
        && (r.value.localSessionId, tunnel.nextSessionId) == NextId(old(tunnel.nextSessionId))
        && r.value.remoteSessionId == remoteSid.value
        && tunnel.sessions == old(tunnel.sessions)[NextId(old(tunnel.nextSessionId)).0 := r.value]
        && forall c :: c in old(calls) ==>
          (Filed(c, tunnel.sessions) <==>
            Filed(c, old(tunnel.sessions)) && c.localSessionId != NextId(old(tunnel.nextSessionId)).0)
    {
      hide NextId, Accounted;
      r := tunnel.HandleIcrq(remoteSid, auth);
      if r.Ok? {
        Together(calls, pool.Held(), r.value);
        assert HeldBy(r.value) == {} && pool.Held() + {} == pool.Held();
        calls := calls + {r.value};
      }
    }

    /** The address goes back when the session is closed, and never twice. */
    method CloseSession(c: PppSession)
      requires Valid() && c in calls
      modifies c`state, pool, pool.bitmap
      ensures Valid() && c.state == CLOSED
      ensures pool.Held() == old(pool.Held()) - old(HeldBy(c))
    {
      hide Accounted;
      CloseAndRelease(c, pool, calls);
    }

    method CloseAndForget(tunnel: Tunnel, sessionId: u16)
      requires Valid() && tunnel in known && sessionId in tunnel.sessions
      modifies tunnel`sessions, calls`state, pool, pool.bitmap
      ensures Valid() && tunnel.sessions == old(tunnel.sessions) - {sessionId}
      ensures forall c :: c in calls ==>
        (c.state == if c == old(tunnel.sessions)[sessionId] then CLOSED else old(c.state))
      ensures pool.Held() == old(pool.Held()) - old(HeldBy(tunnel.sessions[sessionId]))
    {
      CloseSession(tunnel.sessions[sessionId]);
      tunnel.sessions := tunnel.sessions - {sessionId};
    }

    /** Sending a disconnect notice closes the session, if it is known. */
    method SendCdn(tunnel: Tunnel, sessionId: u16)
      requires Valid() && tunnel in known
      modifies tunnel`sessions, calls`state, pool, pool.bitmap
      ensures Valid() && tunnel.sessions == old(tunnel.sessions) - {sessionId}
      ensures forall c :: c in calls ==>
        (c.state == if Filed(c, old(tunnel.sessions)) && c.localSessionId == sessionId then CLOSED else old(c.state))
      ensures (forall c ::
          c in calls && Filed(c, old(tunnel.sessions)) && c.localSessionId == sessionId ==> !old(Holds(c)))
        ==> pool.Held() == old(pool.Held())
    {
      hide Accounted;
      if sessionId in tunnel.sessions {
        CloseAndForget(tunnel, sessionId);
      }
    }

    /** Receiving one does the same. */
    method HandleCdn(tunnel: Tunnel, sessionId: Option<u16>)
      requires Valid() && Settled() && tunnel in known
      modifies tunnel`sessions, calls`state, pool, pool.bitmap
      ensures Valid() && Settled()
      ensures tunnel.sessions ==
        if sessionId.Some? then old(tunnel.sessions) - {sessionId.value} else old(tunnel.sessions)
      ensures forall c :: c in calls ==>
        (c.state ==
          if Filed(c, old(tunnel.sessions)) && sessionId == Some(c.localSessionId) then CLOSED else old(c.state))
      ensures forall c :: Filed(c, tunnel.sessions) ==> Filed(c, old(tunnel.sessions))
    {
      hide Accounted;
      if sessionId.None? {
        return;
      }
      if sessionId.value in tunnel.sessions {
        CloseAndForget(tunnel, sessionId.value);
      }
    }

    /** Only the state is touched, so an established session without an address holds as little as before. */
    method Establish(sess: PppSession) returns (ok: bool)
      requires Valid() && sess in calls
      modifies sess`state
      ensures Valid() && ok == (old(sess.state) == WAIT_CONNECT)
      ensures sess.state == if ok then ESTABLISHED else old(sess.state)
      ensures ok ==> sess.assignedIp == None
    {
      ok := sess.HandleIccn();
    }

    method Assign(sess: PppSession, magic: u32) returns (ok: bool)
      requires Valid() && sess in calls && sess.state == ESTABLISHED && sess.assignedIp == None
      modifies sess, pool, pool.bitmap
      ensures Valid() && sess.state == ESTABLISHED
      ensures ok <==> |old(pool.Held())| < pool.size
      ensures !ok ==> pool.Held() == old(pool.Held())
      ensures sess.assignedIp.Some? <==> ok
    {
      hide Accounted;
      ok := AllocateAndInit(sess, pool, gateway, dns1, dns2, magic, calls);
    }

    /** With no address left the session that just connected is closed again. */
    method HandleIccn(tunnel: Tunnel, sessionId: u16, magic: u32) returns (connected: bool)
      requires Valid() && Settled() && tunnel in known
      modifies tunnel`sessions, calls, pool, pool.bitmap
      ensures Valid() && Settled() && (sessionId in old(tunnel.sessions) ==> old(tunnel.sessions)[sessionId] in calls)
      ensures connected <==>
        && sessionId in old(tunnel.sessions) && old(tunnel.sessions[sessionId].state) == WAIT_CONNECT
        && |old(pool.Held())| < pool.size
      ensures connected ==> tunnel.sessions == old(tunnel.sessions) && Holds(tunnel.sessions[sessionId])
      ensures !connected ==> pool.Held() == old(pool.Held())
      ensures !connected ==>
        if sessionId in old(tunnel.sessions) && old(tunnel.sessions[sessionId].state) == WAIT_CONNECT
        then tunnel.sessions == old(tunnel.sessions) - {sessionId} && old(tunnel.sessions)[sessionId].state == CLOSED
        else tunnel.sessions == old(tunnel.sessions) && forall c :: c in calls ==> c.state == old(c.state)
      ensures forall c :: Filed(c, tunnel.sessions) ==> Filed(c, old(tunnel.sessions))
      ensures forall c :: c in calls && !(Filed(c, old(tunnel.sessions)) && c.localSessionId == sessionId) ==>
        c.state == old(c.state) && c.assignedIp == old(c.assignedIp)
    {
      hide Accounted;
      if sessionId !in tunnel.sessions {
        return false;
      }
      var sess := tunnel.sessions[sessionId];
      var ok := Establish(sess);
      if !ok {
        return false;
      }
      connected := Assign(sess, magic);
      if !connected {
        SendCdn(tunnel, sess.localSessionId);
      }
    }

    method CloseSessions(tunnel: Tunnel)
      requires Valid() && tunnel in known
      modifies tunnel`sessions, calls`state, pool, pool.bitmap
      ensures Valid() && tunnel.sessions == map[]
      ensures forall c :: c in calls ==>
        (c.state == if Filed(c, old(tunnel.sessions)) then CLOSED else old(c.state))
    {
      hide Accounted;
      var todo := tunnel.sessions.Keys;
      while todo != {}
        invariant Valid() && todo == tunnel.sessions.Keys
        invariant forall id :: id in tunnel.sessions ==>
          id in old(tunnel.sessions) && old(tunnel.sessions)[id] == tunnel.sessions[id]
        invariant forall c :: c in calls ==>
          (c.state == if Filed(c, old(tunnel.sessions)) && !Filed(c, tunnel.sessions) then CLOSED else old(c.state))
      {
        var id :| id in todo;
        todo := todo - {id};
        CloseAndForget(tunnel, id);
      }
    }

    method RemoveTunnel(tunnel: Tunnel)
      requires Valid()
      modifies this`tunnels, this`tunnelsByLocalId
      ensures Valid() && tunnelsByLocalId == old(tunnelsByLocalId) - {tunnel.localTunnelId}
      ensures if tunnel in old(tunnels).Values
        then exists k :: k in old(tunnels) && old(tunnels)[k] == tunnel && tunnels == old(tunnels) - {k}
        else tunnels == old(tunnels)
    {
      hide Accounted;
      tunnelsByLocalId := tunnelsByLocalId - {tunnel.localTunnelId};
      var todo := tunnels.Keys;
      while todo != {}
        invariant todo <= tunnels.Keys
        invariant forall k :: k in tunnels && tunnels[k] == tunnel ==> k in todo
      {
        var k :| k in todo;
        todo := todo - {k};
        if tunnels[k] == tunnel {
          tunnels := tunnels - {k};
          return;
        }
      }
    }

    method HandleStopCcn(tunnel: Tunnel)
      requires Valid() && Settled() && tunnel in known
      modifies this`tunnels, this`tunnelsByLocalId, tunnel`state, tunnel`sessions, calls`state, pool, pool.bitmap
      ensures Valid() && Settled() && tunnel.state == TUNNEL_DEAD && tunnel.sessions == map[]
      ensures forall c :: c in calls ==>
        (c.state == if Filed(c, old(tunnel.sessions)) then CLOSED else old(c.state))
      ensures tunnelsByLocalId == old(tunnelsByLocalId) - {tunnel.localTunnelId}
      ensures if tunnel in old(tunnels).Values
        then exists k :: k in old(tunnels) && old(tunnels)[k] == tunnel && tunnels == old(tunnels) - {k}
        else tunnels == old(tunnels)
      ensures tunnels.Values <= old(tunnels).Values && tunnelsByLocalId.Values <= old(tunnelsByLocalId).Values
      ensures forall c :: !Filed(c, tunnel.sessions)
    {
      hide Accounted, Filed;
      tunnel.state := TUNNEL_DEAD;
      CloseSessions(tunnel);
      RemoveTunnel(tunnel);
      FewerValues(old(tunnels), tunnels);
      FewerValues(old(tunnelsByLocalId), tunnelsByLocalId);
      NobodyFiled();
    }

    /** What each message does to its tunnel and to the sessions. */
    twostate predicate Routed(tunnel: Tunnel, m: Message)
      reads this, tunnel, calls, pool, pool.bitmap
    {
      var was := old(tunnel.sessions);
      && known == old(known) && (!m.Icrq? ==> calls == old(calls))
      && match m
         case Scccn =>
           && tunnel.state ==
              (if old(tunnel.state) == TUNNEL_WAIT_CTL_CONN then TUNNEL_ESTABLISHED else old(tunnel.state))
           && Untouched(tunnel)
         case Icrq(remoteSid) =>
           var (id, next) := NextId(old(tunnel.nextSessionId));
           if old(tunnel.state) == TUNNEL_ESTABLISHED && remoteSid.Some? && remoteSid.value != 0 then
             && id in tunnel.sessions && tunnel.nextSessionId == next
             && var c := tunnel.sessions[id];
                && c !in old(calls) && calls == old(calls) + {c}
                && c.state == WAIT_CONNECT && tunnel.sessions == was[id := c]
           else calls == old(calls) && Untouched(tunnel)
         case Iccn(id, magic) =>
           if id !in was || old(was[id].state) != WAIT_CONNECT then Untouched(tunnel)
           else if |old(pool.Held())| < pool.size then tunnel.sessions == was && was[id] in calls && Holds(was[id])
           else
             && tunnel.sessions == was - {id} && was[id] in calls && was[id].state == CLOSED
             && pool.Held() == old(pool.Held())
         case Cdn(id) =>
           && tunnel.sessions == (if id.Some? then was - {id.value} else was)
           && forall c :: c in calls ==>
                (c.state == if Filed(c, was) && id == Some(c.localSessionId) then CLOSED else old(c.state))
         case StopCcn =>
           && tunnel.state == TUNNEL_DEAD && tunnel.sessions == map[]
           && forall c :: c in calls ==> (c.state == if Filed(c, was) then CLOSED else old(c.state))
         case Hello => Untouched(tunnel)
         case Unknown => Untouched(tunnel)
    }

    twostate predicate Untouched(tunnel: Tunnel)
      reads this, tunnel, calls, pool, pool.bitmap
    {
      && tunnel.sessions == old(tunnel.sessions) && pool.Held() == old(pool.Held())
      && forall c :: c in old(calls) && c in calls ==> c.state == old(c.state)
    }

    /** The switch over the message type. */
    method Dispatch(tunnel: Tunnel, m: Message)
      requires Valid() && Settled() && tunnel in known
      modifies this`tunnels, this`tunnelsByLocalId, this`calls, tunnel, calls, pool, pool.bitmap
      ensures Valid() && Settled() && Routed(tunnel, m)
      ensures tunnels.Values <= old(tunnels).Values && tunnelsByLocalId.Values <= old(tunnelsByLocalId).Values
      ensures forall c :: c in old(calls) && !Filed(c, old(tunnel.sessions)) ==>
        !Filed(c, tunnel.sessions) && c.state == old(c.state) && c.assignedIp == old(c.assignedIp)
    {
      hide Accounted, Filed, Holds, NextId, Pool.Valid, Pool.Held, Valid, Settled, InReach, SessionsOf;
      match m
      case Scccn =>
        var _ := Confirm(tunnel);
      case Icrq(remoteSid) =>
        var _ := HandleIcrq(tunnel, remoteSid);
      case Iccn(sessionId, magic) =>
        var _ := HandleIccn(tunnel, sessionId, magic);
      case Hello =>
      case Cdn(sessionId) =>
        HandleCdn(tunnel, sessionId);
      case StopCcn =>
        HandleStopCcn(tunnel);
      case Unknown =>
    }

    /** Every control message on a tunnel keeps the accounts, and what is out of reach stays so. */
    method Route(tunnel: Tunnel, m: Message)
      requires Valid() && Settled() && tunnel in known
      modifies this`tunnels, this`tunnelsByLocalId, this`calls, tunnel, calls, pool, pool.bitmap
      ensures Valid() && Settled() && Routed(tunnel, m)
      ensures tunnel in old(tunnelsByLocalId).Values ==>
        forall c :: c in old(calls) && !old(InReach(c)) ==>
          !InReach(c) && c.state == old(c.state) && c.assignedIp == old(c.assignedIp)
    {
      hide Accounted, Filed, Pool.Valid, Pool.Held, Routed;
      Dispatch(tunnel, m);
    }

    /** The session a data message is for; null when there is none. */
    function SessionFor(tunnelId: u16, sessionId: u16): PppSession?
      reads this, tunnelsByLocalId.Values
    {
      if tunnelId in tunnelsByLocalId && sessionId in tunnelsByLocalId[tunnelId].sessions
      then tunnelsByLocalId[tunnelId].sessions[sessionId] else null
    }

    lemma ForCall(tunnelId: u16, sessionId: u16)
      requires Valid()
      ensures var c := SessionFor(tunnelId, sessionId); c != null ==> c in calls && WellMade(c) && c.Valid()
    {
      hide Pool.Valid, Pool.Held;
      if SessionFor(tunnelId, sessionId) != null {
        assert tunnelsByLocalId[tunnelId] in tunnelsByLocalId.Values;
      }
    }

    /** A data message: one step of its session, which keeps its state and its address. */
    method HandleData(tunnelId: u16, sessionId: u16, payload: bytes, drawn: Drawn)
      returns (frames: seq<bytes>, tun: Option<bytes>, panics: bool)
      requires Valid() && Settled() && |drawn.challenge| == 16
      modifies Parts(SessionFor(tunnelId, sessionId))
      ensures Valid() && Settled()
      ensures forall c :: c in calls ==> c.state == old(c.state) && c.assignedIp == old(c.assignedIp)
      ensures var c := old(SessionFor(tunnelId, sessionId));
        if c == null then (frames, tun, panics) == ([], None, false) else
        && old(c.Valid()) && c.Valid()
        && (Output(frames, tun, panics), c.Value()) == old(c.Value()).OnData(c.auth, payload, drawn)
    {
      ForCall(tunnelId, sessionId);
      hide Accounted, State.OnData, SessionFor, Parts, Pool.Valid, Pool.Held, PppSession.Valid, PppSession.Value, Holds;
      frames, tun, panics := [], None, false;
      var c := SessionFor(tunnelId, sessionId);
      if c != null {
        frames, tun, panics := HandleFrame(c, payload, drawn, calls, pool.Held());
      }
    }

    method Confirm(tunnel: Tunnel) returns (ok: bool)
      requires Valid() && tunnel in known
      modifies tunnel`state
      ensures Valid() && ok == (old(tunnel.state) == TUNNEL_WAIT_CTL_CONN) && (old(Settled()) ==> Settled())
      ensures tunnel.state == if ok then TUNNEL_ESTABLISHED else old(tunnel.state)
    {
      hide Accounted;
      ok := tunnel.HandleScccn();
    }

    method CloseTunnel(tunnel: Tunnel)
      requires Valid() && tunnel in known
      modifies tunnel`state, tunnel`sessions, calls`state, pool, pool.bitmap
      ensures Valid() && tunnel.state == TUNNEL_DEAD && tunnel.sessions == map[]
      ensures forall c :: c in calls ==>
        (c.state == if Filed(c, old(tunnel.sessions)) then CLOSED else old(c.state))
    {
      hide Accounted;
      if tunnel.state == TUNNEL_ESTABLISHED || tunnel.state == TUNNEL_WAIT_CTL_CONN {
        tunnel.state := TUNNEL_DEAD;
      }
      CloseSessions(tunnel);
      tunnel.state := TUNNEL_DEAD;
    }

    /**
     Closing the server closes what the tunnel map leads to.  All addresses are free
     then if and only if every session holding one was still filed in such a tunnel.
     */
    method Close()
      requires Valid() && Settled()
      modifies this`tunnels, this`tunnelsByLocalId, known, calls`state, pool, pool.bitmap
      ensures Valid() && Settled() && tunnels == map[] && tunnelsByLocalId == map[]
      ensures forall c :: c in calls ==>
        (c.state == if old(Among(c, tunnels.Values)) then CLOSED else old(c.state))
      ensures pool.Held() == {} <==> forall c :: c in calls && old(Holds(c)) ==> old(Among(c, tunnels.Values))
      ensures forall c :: c in calls && !old(InReach(c)) ==> !InReach(c) && c.state == old(c.state)
    {
      hide Accounted, Pool.Held, Pool.Valid;
      CloseReached();
      tunnels := map[];
      tunnelsByLocalId := map[];
    }

    method CloseReached()
      requires Valid() && Settled()
      modifies known, calls`state, pool, pool.bitmap
      ensures Valid() && Settled()
      ensures forall c :: c in calls ==>
        (c.state == if old(Among(c, tunnels.Values)) then CLOSED else old(c.state))
      ensures pool.Held() == {} <==> forall c :: c in calls && old(Holds(c)) ==> old(Among(c, tunnels.Values))
    {
      hide Accounted, Filed, Pool.Held, Pool.Valid;
      ghost var was: map<Tunnel, map<u16, PppSession>> := map t: Tunnel | t in known :: t.sessions;
      ghost var before: map<PppSession, byte> := map c: PppSession | c in calls :: c.state;
      ghost var reached := tunnels.Values;
      assert forall c :: c in calls ==> (old(Among(c, tunnels.Values)) <==> FiledWas(c, reached, was));
      hide FiledWas, Among, SessionsOf;
      CloseTunnels(was, before);
      AllClosed(calls, pool.Held(), reached, was, before);
    }

    lemma AllClosed(calls: set<PppSession>, held: set<int>, reached: set<Tunnel>,
                    was: map<Tunnel, map<u16, PppSession>>, before: map<PppSession, byte>)
      requires Accounted(calls, held) && before.Keys == calls
      requires forall c :: c in calls ==> (c.state == if FiledWas(c, reached, was) then CLOSED else before[c])
      ensures held == {} <==> forall c :: c in calls && before[c] == ESTABLISHED && c.assignedIp.Some? ==>
        FiledWas(c, reached, was)
    {
      hide Accounted, FiledWas;
      NoneHeldExactly(calls, held);
    }

    /** How far closing a set of tunnels has come: theirs are closed, all else is as it was before. */
    ghost predicate Progress(done: set<Tunnel>, was: map<Tunnel, map<u16, PppSession>>, before: map<PppSession, byte>)
      reads this, known, calls
    {
      && was.Keys == known && before.Keys == calls && done <= known
      && (forall t :: t in known ==> t.sessions == if t in done then map[] else was[t])
      && StatesAre(done, was, before)
    }

    ghost predicate StatesAre(done: set<Tunnel>, was: map<Tunnel, map<u16, PppSession>>, before: map<PppSession, byte>)
      requires before.Keys == calls
      reads this, calls
    {
      forall c :: c in calls ==> (c.state == if FiledWas(c, done, was) then CLOSED else before[c])
    }

    method CloseTunnels(ghost was: map<Tunnel, map<u16, PppSession>>, ghost before: map<PppSession, byte>)
      requires Valid() && Progress({}, was, before)
      modifies known, calls`state, pool, pool.bitmap
      ensures Valid() && Progress(tunnels.Values, was, before)
    {
      assert tunnels.Values <= known;
      hide *;
      ghost var done: set<Tunnel> := {};
      var todo := tunnels.Keys;
      while todo != {}
        invariant Valid() && todo <= tunnels.Keys && Progress(done, was, before)
        invariant done <= tunnels.Values && forall k :: k in tunnels ==> k in todo || tunnels[k] in done
      {
        var k :| k in todo;
        todo := todo - {k};
        CloseOnce(tunnels[k], done, was, before);
        done := done + {tunnels[k]};
      }
      assert done == tunnels.Values;
    }

    /** One turn of the loop; a tunnel met again has nothing left to close. */
    method CloseOnce(tunnel: Tunnel, ghost done: set<Tunnel>,
                     ghost was: map<Tunnel, map<u16, PppSession>>, ghost before: map<PppSession, byte>)
      requires Valid() && tunnel in known && Progress(done, was, before)
      modifies tunnel`state, tunnel`sessions, calls`state, pool, pool.bitmap
      ensures Valid() && Progress(done + {tunnel}, was, before)
    {
      hide FiledWas, Filed, Valid, Pool.Held;
      FiledWasGrows(done, tunnel, was);
      NobodyFiled();
      assert tunnel in done ==> done + {tunnel} == done;
      CloseTunnel(tunnel);
      assert StatesAre(done + {tunnel}, was, before);
    }
  }

  /** Filed in a tunnel of a set, by what the tunnels' maps were. */
  ghost predicate FiledWas(c: PppSession, ts: set<Tunnel>, was: map<Tunnel, map<u16, PppSession>>) {
    exists t :: t in ts && t in was && Filed(c, was[t])
  }

  lemma FiledWasGrows(done: set<Tunnel>, tunnel: Tunnel, was: map<Tunnel, map<u16, PppSession>>)
    requires tunnel in was
    ensures forall c :: FiledWas(c, done + {tunnel}, was) <==> FiledWas(c, done, was) || Filed(c, was[tunnel])
  {
    forall c: PppSession | Filed(c, was[tunnel]) ensures FiledWas(c, done + {tunnel}, was) {
      assert tunnel in done + {tunnel};
    }
  }

  /** A tunnel is set up, and a session in it. */
  method Call(s: Server, addr: bytes, remoteTid: u16, remoteSid: u16) returns (tunnel: Tunnel, c: PppSession)
    requires s.Valid() && s.Settled() && remoteTid != 0 && remoteSid != 0
    modifies s
    ensures s.Valid() && s.Settled() && s.pool.Held() == old(s.pool.Held())
    ensures fresh(tunnel) && fresh(c) && s.known == old(s.known) + {tunnel} && s.calls == old(s.calls) + {c}
    ensures s.tunnels == old(s.tunnels)[(addr, remoteTid) := tunnel]
    ensures c.state == WAIT_CONNECT && tunnel.sessions == map[c.localSessionId := c]
    ensures forall t :: t in old(s.known) ==> !Filed(c, t.sessions)
  {
    hide Accounted, Holds, NextId, Filed, Pool.Valid, Pool.Held, Server.Valid, Server.InReach, Server.SessionsOf;
    SessionsAmong(s);
    var first := s.HandleNewTunnel(addr, Some(remoteTid), true);
    tunnel := first.value;
    var _ := s.Confirm(tunnel);
    var r := s.HandleIcrq(tunnel, Some(remoteSid));
    c := r.value;
    forall t | t in old(s.known) ensures !Filed(c, t.sessions) {
      FiledIsValue(c, t.sessions);
      assert old(t.sessions.Values) <= old(s.calls);
    }
  }

  /** A session connected in a tunnel that is set up. */
  method Connect(s: Server, tunnel: Tunnel, remoteSid: u16, magic: u32) returns (c: PppSession)
    requires s.Valid() && s.Settled() && tunnel in s.known && tunnel.state == TUNNEL_ESTABLISHED
    requires |s.pool.Held()| < s.pool.size && remoteSid != 0
    modifies s`calls, tunnel`sessions, tunnel`nextSessionId, s.calls, s.pool, s.pool.bitmap
    ensures s.Valid() && s.Settled() && fresh(c) && s.calls == old(s.calls) + {c} && Holds(c)
    ensures (c.localSessionId, tunnel.nextSessionId) == NextId(old(tunnel.nextSessionId))
    ensures forall t :: t in s.known && t != tunnel ==> !Filed(c, t.sessions)
  {
    hide Accounted, Holds, NextId, Filed, Pool.Valid, Pool.Held, Server.Valid, Server.Settled, Server.SessionsOf;
    SessionsAmong(s);
    var r := s.HandleIcrq(tunnel, Some(remoteSid));
    c := r.value;
    forall t | t in s.known && t != tunnel ensures !Filed(c, t.sessions) {
      FiledIsValue(c, t.sessions);
      assert old(t.sessions.Values) <= old(s.calls);
    }
    var _ := s.HandleIccn(tunnel, c.localSessionId, magic);
  }

  lemma HeldByHolder(s: Server, c: PppSession)
    requires s.Valid() && c in s.calls && Holds(c)
    ensures s.pool.Held() != {}
  {
    NoneHeldExactly(s.calls, s.pool.Held());
  }

  lemma SessionsAmong(s: Server)
    requires s.Valid()
    ensures s.tunnels.Values <= s.known
    ensures forall t :: t in s.known ==> t.sessions.Values <= s.calls
  {
    hide Accounted, Pool.Valid, Pool.Held;
  }

  lemma FiledIsValue(c: PppSession, sessions: map<u16, PppSession>)
    ensures Filed(c, sessions) ==> c in sessions.Values
  {
  }

  lemma NotAmong(c: PppSession, first: Tunnel, ts: set<Tunnel>)
    requires first !in ts && forall t :: t in ts ==> !Filed(c, t.sessions)
    ensures !Among(c, ts)
  {
  }

  /**
   A run that loses an address: a session is connected, a second tunnel takes its
   tunnel's key, and the server is closed.  Everything the server has is closed then,
   and the address is still allocated to a session out of reach.
   */
  method DisplacedTunnelKeepsAddress(s: Server, addr: bytes, remoteTid: u16, remoteSid: u16, magic: u32)
    returns (lost: PppSession)
    requires s.Valid() && s.Settled() && |s.pool.Held()| < s.pool.size
    requires remoteTid != 0 && remoteSid != 0
    modifies s, s.known, s.calls, s.pool, s.pool.bitmap
    ensures s.Valid() && s.Settled() && s.tunnels == map[] && s.tunnelsByLocalId == map[]
    ensures fresh(lost) && lost in s.calls && Holds(lost) && !s.InReach(lost) && s.pool.Held() != {}
  {
    hide Accounted, Holds, NextId, Filed, Pool.Valid, Pool.Held, Server.Valid, Server.Settled, Server.SessionsOf;
    var first;
    first, lost := Call(s, addr, remoteTid, remoteSid);
    var _ := s.HandleIccn(first, lost.localSessionId, magic);
    assert Holds(lost);
    var _ := s.HandleNewTunnel(addr, Some(remoteTid), true);
    SessionsAmong(s);
    NobodyFiled();
    NotAmong(lost, first, s.tunnels.Values);
    s.Close();
  }

  lemma OneCount(n: nat)
    ensures ToU32(ToU32(n) + 1) == ToU32(n + 1)
  {
    var q := n / 0x1_0000_0000;
    assert n + 1 == ToU32(n) + 1 + 0x1_0000_0000 * q;
  }

  lemma OneAboveNone(n: nat)
    ensures ToU16(n) == 0 ==> ToU16(n + 1) == 1
  {
    var q := n / 0x1_0000;
    assert n + 1 == ToU16(n) + 1 + 0x1_0000 * q;
  }

  lemma OneRound(n: nat)
    ensures ToU16(n + 0x1_0000) == ToU16(n)
  {
  }

  /** Counting on from an identifier without reaching it again takes fewer than 65536 counts. */
  lemma NotYetAround(first: u32, k: nat) returns (k': nat)
    requires ToU16(first) != 0 && k < 0x1_0000 && NextId(ToU32(first + k)).0 != ToU16(first)
    ensures k < k' < 0x1_0000 && NextId(ToU32(first + k)).1 == ToU32(first + k')
  {
    hide ToU16, ToU32;
    var c := first + k + 1;
    OneCount(first + k);
    OneCount(c);
    OneAboveNone(c);
    SameLowBits(c);
    SameLowBits(c + 1);
    OneRound(first);
    k' := if ToU16(c) != 0 then k + 1 else k + 2;
  }

  lemma NextIdLow(counter: u32)
    ensures NextId(counter).0 == ToU16(NextId(counter).1)
  {
    var c := ToU32(counter + 1);
    assert ToU16(c) == 0 ==> c + 1 <= 0xFFFF_FFFF && ToU16(c + 1) == 1;
  }

  /**
   Another run that loses an address: a session is connected, and incoming calls follow in
   its tunnel until one is given its identifier again.  Its address is still allocated and
   no tunnel leads to it.
   */
  method ReusedIdentifierKeepsAddress(s: Server, tunnel: Tunnel, remoteSid: u16, magic: u32) returns (lost: PppSession)
    requires s.Valid() && s.Settled() && tunnel in s.known && tunnel.state == TUNNEL_ESTABLISHED
    requires |s.pool.Held()| < s.pool.size && remoteSid != 0
    modifies s`calls, tunnel`sessions, tunnel`nextSessionId, s.calls, s.pool, s.pool.bitmap
    ensures s.Valid() && s.Settled()
    ensures fresh(lost) && lost in s.calls && Holds(lost) && s.pool.Held() != {}
    ensures lost.localSessionId in tunnel.sessions && tunnel.sessions[lost.localSessionId] != lost
    ensures forall t :: t in s.known ==> !Filed(lost, t.sessions)
  {
    hide Accounted, Holds, NextId, Filed, Pool.Valid, Pool.Held, Server.Valid, Server.Settled, Server.SessionsOf;
    NextIdLow(tunnel.nextSessionId);
    lost := Connect(s, tunnel, remoteSid, magic);
    ghost var first, k := tunnel.nextSessionId, 0;
    while NextId(tunnel.nextSessionId).0 != lost.localSessionId
      invariant s.Valid() && s.Settled() && lost in s.calls && Holds(lost)
      invariant forall t :: t in s.known && t != tunnel ==> !Filed(lost, t.sessions)
      invariant k < 0x1_0000 && tunnel.nextSessionId == ToU32(first + k)
      decreases 0x1_0000 - k
    {
      k := NotYetAround(first, k);
      var _ := s.HandleIcrq(tunnel, Some(remoteSid));
    }
    var r := s.HandleIcrq(tunnel, Some(remoteSid));
    HeldByHolder(s, lost);
  }
}
