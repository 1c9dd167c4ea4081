/** Server-side CHAP (RFC 1994) with MD5 as an uninterpreted function. */
module Chap {
  import opened Bytes
  import opened Ppp

  const CHALLENGE: byte := 1
  const RESPONSE: byte := 2
  const SUCCESS: byte := 3
  const FAILURE: byte := 4

  const MALFORMED := Text("malformed response")
  const FAILED := Text("authentication failed")
  const WELCOME := Text("Welcome ")

  /** The hash, the user database and the server's name. */
  datatype Auth = Auth(md5: bytes -> bytes, lookup: bytes -> Option<bytes>, serverName: bytes) {
    ghost predicate Valid() {
      && (forall x :: |md5(x)| == 16)
      && |serverName| <= 0xFFFF - 21
    }
  }

  /** The name in a response and the value in front of it; the value's size comes first. */
  predicate Readable(payload: bytes) {
    |payload| >= 1 && 1 + payload[0] <= |payload|
  }

  function NameIn(payload: bytes): bytes
    requires Readable(payload)
  {
    payload[1 + payload[0]..]
  }

  function ValueIn(payload: bytes): bytes
    requires Readable(payload)
  {
    payload[1..1 + payload[0]]
  }

  /** A response that proves knowledge of the named user's password (section 4.1 of RFC 1994). */
  predicate Proves(auth: Auth, challenge: bytes, id: byte, payload: bytes) {
    && Readable(payload)
    && auth.lookup(NameIn(payload)).Some?
    && ValueIn(payload) == auth.md5([id] + auth.lookup(NameIn(payload)).value + challenge)
  }

  datatype State = State(challengeId: byte, challenge: bytes, authenticated: bool, username: bytes) {
    function Challenge(auth: Auth, rand: bytes): (Reply, State) {
      var id := ToByte(challengeId + 1);
      (Response(CHALLENGE, id, [16] + rand + auth.serverName), this.(challengeId := id, challenge := rand))
    }

    /** The identifier hashed is the response's own. */
    function OnResponse(auth: Auth, id: byte, payload: bytes): (Reply, State) {
      if !Readable(payload) then (Response(FAILURE, id, MALFORMED), this) else
      if !Proves(auth, challenge, id, payload) then (Response(FAILURE, id, FAILED), this) else
      (Response(SUCCESS, id, WELCOME + NameIn(payload)), this.(authenticated := true, username := NameIn(payload)))
    }

    function Handle(auth: Auth, data: bytes): (Reply, State) {
      match Received(data)
      case Ignored => (Silent, this)
      case Unguarded => if data[0] == RESPONSE then (Panics, this) else (Silent, this)
      case Packet(code, id, payload) => if code == RESPONSE then OnResponse(auth, id, payload) else (Silent, this)
    }
  }

  const INITIAL := State(0, [], false, [])

  /** A packet authenticates exactly when it is a response that proves the password. */
  lemma AuthenticatesExactly(h: State, auth: Auth, data: bytes)
    ensures var h', p := h.Handle(auth, data).1, Received(data);
      && h'.challenge == h.challenge
      && (h'.authenticated <==>
        || h.authenticated
        || (p.Packet? && p.code == RESPONSE && Proves(auth, h.challenge, p.id, p.payload)))
      && (!h.authenticated && h'.authenticated ==> h'.username == NameIn(p.payload))
  {
    hide Received, Response;
  }

  /**
   The answer to a response, field by field: it holds a value behind its length, and a
   name; it is a success exactly when the value is the hash of identifier, that name's
   password and the challenge.
   */
  lemma ResponseAnswered(h: State, auth: Auth, id: byte, n: byte, rest: bytes)
    ensures var (r, h') := h.OnResponse(auth, id, [n] + rest);
      if |rest| < n then r == Response(4, id, Text("malformed response")) && h' == h else
      var value, name := rest[..n], rest[n..];
      if auth.lookup(name).Some? && value == auth.md5([id] + auth.lookup(name).value + h.challenge)
      then r == Response(3, id, Text("Welcome ") + name) && h' == h.(authenticated := true, username := name)
      else r == Response(4, id, Text("authentication failed")) && h' == h
    ensures h.OnResponse(auth, id, []) == (Response(4, id, Text("malformed response")), h)
  {
    var payload := [n] + rest;
    if |rest| >= n {
      assert payload[1..1 + payload[0]] == rest[..n] && payload[1 + payload[0]..] == rest[n..];
    }
    hide Response;
  }

  /** A response under an identifier other than the challenge's is taken as well, hashed with its own. */
  lemma AnyIdentifierAccepted(h: State, auth: Auth, name: bytes, id: byte)
    requires auth.Valid() && auth.lookup(name).Some?
    ensures h.OnResponse(auth, id, [16] + auth.md5([id] + auth.lookup(name).value + h.challenge) + name).1.authenticated
  {
    var value := auth.md5([id] + auth.lookup(name).value + h.challenge);
    var payload := [16] + value + name;
    assert payload[1..17] == value && payload[17..] == name;
    hide Response;
  }

  /** A response without a header's length is the one input the handler does not guard. */
  lemma PanicsExactly(h: State, auth: Auth, data: bytes)
    requires auth.Valid()
    ensures h.Handle(auth, data).0.Panics? <==> Received(data).Unguarded? && data[0] == RESPONSE
  {
    match Received(data)
    case Ignored =>
    case Unguarded =>
    case Packet(code, id, payload) =>
      assert |payload| <= 0xFFFB;
      hide Received, Response;
      ShortSends(FAILURE, id, MALFORMED);
      ShortSends(FAILURE, id, FAILED);
      if Readable(payload) && Proves(auth, h.challenge, id, payload) {
        ShortSends(SUCCESS, id, WELCOME + NameIn(payload));
      }
  }

  lemma ChallengeSends(h: State, auth: Auth, rand: bytes)
    requires auth.Valid() && |rand| == 16
    ensures h.Challenge(auth, rand).0.Send?
  {
  }

  class ChapHandler {
    const auth: Auth
    var challengeId: byte
    var challenge: bytes
    var authenticated: bool
    var username: bytes

    ghost function Value(): State
      reads this
    {
      State(challengeId, challenge, authenticated, username)
    }

    constructor (auth: Auth)
      ensures Value() == INITIAL && this.auth == auth
    {
      this.auth, challengeId, challenge, authenticated, username := auth, 0, [], false, [];
    }

    /** rand is the 16 bytes drawn. */
    method BuildChallenge(rand: bytes) returns (r: Reply)
      requires |rand| == 16 && auth.Valid()
      modifies this
      ensures (r, Value()) == old(Value()).Challenge(auth, rand)
    {
      challengeId := ToByte(challengeId + 1);
      challenge := rand;
      r := BuildResponse(CHALLENGE, challengeId, [|challenge|] + challenge + auth.serverName);
    }

    method HandleResponse(id: byte, payload: bytes) returns (r: Reply)
      requires auth.Valid()
      modifies this
      ensures (r, Value()) == old(Value()).OnResponse(auth, id, payload)
    {
      hide Response;
      if |payload| < 1 {
        r := BuildResponse(FAILURE, id, MALFORMED);
        return;
      }
      var valueSize: int := payload[0];
      if 1 + valueSize > |payload| {
        r := BuildResponse(FAILURE, id, MALFORMED);
        return;
      }
      var responseValue, peerName := payload[1..1 + valueSize], payload[1 + valueSize..];
      var password := auth.lookup(peerName);
      if password.None? {
        r := BuildResponse(FAILURE, id, FAILED);
        return;
      }
      var expected := auth.md5([id] + password.value + challenge);
      if |responseValue| != |expected| {
        r := BuildResponse(FAILURE, id, FAILED);
        return;
      }
      var same := true;
      for i := 0 to |expected|
        invariant same <==> responseValue[..i] == expected[..i]
      {
        assert responseValue[..i + 1] == responseValue[..i] + [responseValue[i]];
        assert expected[..i + 1] == expected[..i] + [expected[i]];
        if responseValue[i] != expected[i] {
          same := false;
        }
      }
      assert responseValue[..|expected|] == responseValue && expected[..|expected|] == expected;
      if !same {
        r := BuildResponse(FAILURE, id, FAILED);
        return;
      }
      authenticated, username := true, peerName;
      r := BuildResponse(SUCCESS, id, WELCOME + peerName);
    }

    method Handle(data: bytes) returns (r: Reply)
      requires auth.Valid()
      modifies this
      ensures (r, Value()) == old(Value()).Handle(auth, data)
    {
      hide State.OnResponse;
      if |data| < 4 {
        return Silent;
      }
      var code, id, pktLen := data[0], data[1], Get16(data, 2);
      if pktLen > |data| {
        return Silent;
      }
      if code != RESPONSE {
        return Silent;
      }
      if pktLen < 4 {
        return Panics;
      }
      r := HandleResponse(id, data[4..pktLen]);
    }
  }
}
