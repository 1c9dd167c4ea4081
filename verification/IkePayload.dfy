/** The bodies of the IKEv2 payloads (section 3 of RFC 7296), printed and parsed. */
module IkePayload {
  import opened Bytes
  import opened SaPayload

  const PAYLOAD_NONE: byte := 0
  const PAYLOAD_SA: byte := 33
  const PAYLOAD_KE: byte := 34
  const PAYLOAD_IDI: byte := 35
  const PAYLOAD_IDR: byte := 36
  const PAYLOAD_CERT: byte := 37
  const PAYLOAD_CERTREQ: byte := 38
  const PAYLOAD_AUTH: byte := 39
  const PAYLOAD_NONCE: byte := 40
  const PAYLOAD_NOTIFY: byte := 41
  const PAYLOAD_DELETE: byte := 42
  const PAYLOAD_VENDOR_ID: byte := 43
  const PAYLOAD_TSI: byte := 44
  const PAYLOAD_TSR: byte := 45
  const PAYLOAD_SK: byte := 46
  const PAYLOAD_CP: byte := 47
  const PAYLOAD_EAP: byte := 48
  const PAYLOAD_SKF: byte := 53

  /** A parse ends with a value, an error return, or a run-time panic of the source. */
  datatype Parsed<+T> = Done(value: T) | Malformed | Panics

  datatype Selector = Selector(tsType: byte, ipProto: byte, startPort: u16, endPort: u16,
                               startAddr: bytes, endAddr: bytes)

  datatype ConfigAttribute = ConfigAttribute(atype: u16, value: bytes)

  datatype Payload =
    | Sa(proposals: seq<Proposal>)
    | Ke(dhGroup: u16, data: bytes)
    | Id(isInitiator: bool, idType: byte, data: bytes)
    | Cert(encoding: byte, data: bytes)
    | CertReq(encoding: byte, data: bytes)
    | Auth(authMethod: byte, data: bytes)
    | Nonce(data: bytes)
    | Notify(protocolId: byte, spiSize: byte, msgType: u16, spi: bytes, notifyData: bytes)
    | Delete(protocolId: byte, spiSize: byte, spis: seq<bytes>)
    | VendorId(data: bytes)
    | Ts(isInitiator: bool, selectors: seq<Selector>)
    | Sk(data: bytes)
    | Cp(configType: byte, attributes: seq<ConfigAttribute>)
    | Eap(data: bytes)
    | Skf(fragmentNumber: u16, totalFragments: u16, data: bytes)
    | Raw(ptype: byte, data: bytes)

  function TypeOf(p: Payload): byte {
    match p
    case Sa(_) => PAYLOAD_SA
    case Ke(_, _) => PAYLOAD_KE
    case Id(i, _, _) => if i then PAYLOAD_IDI else PAYLOAD_IDR
    case Cert(_, _) => PAYLOAD_CERT
    case CertReq(_, _) => PAYLOAD_CERTREQ
    case Auth(_, _) => PAYLOAD_AUTH
    case Nonce(_) => PAYLOAD_NONCE
    case Notify(_, _, _, _, _) => PAYLOAD_NOTIFY
    case Delete(_, _, _) => PAYLOAD_DELETE
    case VendorId(_) => PAYLOAD_VENDOR_ID
    case Ts(i, _) => if i then PAYLOAD_TSI else PAYLOAD_TSR
    case Sk(_) => PAYLOAD_SK
    case Cp(_, _) => PAYLOAD_CP
    case Eap(_) => PAYLOAD_EAP
    case Skf(_, _, _) => PAYLOAD_SKF
    case Raw(t, _) => t
  }

  predicate Known(ptype: byte) { PAYLOAD_SA <= ptype <= PAYLOAD_EAP || ptype == PAYLOAD_SKF }

  // Printing.

  /** copy(buf[at:], src): as much of src as fits. */
  function Overlay(buf: bytes, at: nat, src: bytes): (r: bytes)
    requires at <= |buf|
    ensures |r| == |buf|
  {
    if |src| <= |buf| - at then buf[..at] + src + buf[at + |src|..] else buf[..at] + src[..|buf| - at]
  }

  /** The room for n SPIs. */
  function Slots(n: nat, size: nat): nat { n * size }

  lemma NextSlot(n: nat, size: nat)
    ensures Slots(n + 1, size) == size + Slots(n, size)
  {
  }

  /** The SPIs are copied one slot apart whatever their own length. */
  function SpisInto(buf: bytes, at: nat, spis: seq<bytes>, size: nat): (r: bytes)
    requires at + Slots(|spis|, size) <= |buf|
    ensures |r| == |buf|
    decreases |spis|
  {
    if spis == [] then buf else
    assert Slots(|spis|, size) == size + Slots(|spis| - 1, size);
    SpisInto(Overlay(buf, at, spis[0]), at + size, spis[1..], size)
  }

  function SelectorBytes(s: Selector): bytes {
    var addrLen := |s.startAddr|;
    [s.tsType, s.ipProto] + Put16(ToU16(8 + 2 * addrLen)) + Put16(s.startPort) + Put16(s.endPort)
    + s.startAddr + Overlay(Zeros(addrLen), 0, s.endAddr)
  }

  function SelectorsBytes(ss: seq<Selector>): bytes {
    if ss == [] then [] else SelectorBytes(ss[0]) + SelectorsBytes(ss[1..])
  }

  function ConfigBytes(a: ConfigAttribute): bytes {
    Put16(a.atype) + Put16(ToU16(|a.value|)) + a.value
  }

  function ConfigsBytes(attrs: seq<ConfigAttribute>): bytes {
    if attrs == [] then [] else ConfigBytes(attrs[0]) + ConfigsBytes(attrs[1..])
  }

  function DeleteBody(protocolId: byte, spiSize: byte, spis: seq<bytes>): bytes {
    [protocolId, spiSize] + Put16(ToU16(|spis|)) + SpisInto(Zeros(Slots(|spis|, spiSize)), 0, spis, spiSize)
  }

  function Body(p: Payload): bytes {
    match p
    case Sa(ps) => ProposalsBytes(ps)
    case Ke(g, d) => Put16(g) + [0, 0] + d
    case Id(_, t, d) => [t, 0, 0, 0] + d
    case Cert(e, d) => [e] + d
    case CertReq(e, d) => [e] + d
    case Auth(m, d) => [m, 0, 0, 0] + d
    case Nonce(d) => d
    case Notify(proto, _, t, spi, d) => [proto, ToByte(|spi|)] + Put16(t) + spi + d
    case Delete(proto, size, spis) => DeleteBody(proto, size, spis)
    case VendorId(d) => d
    case Ts(_, ss) => [ToByte(|ss|), 0, 0, 0] + SelectorsBytes(ss)
    case Sk(d) => d
    case Cp(t, attrs) => [t, 0, 0, 0] + ConfigsBytes(attrs)
    case Eap(d) => d
    case Skf(n, total, d) => Put16(n) + Put16(total) + d
    case Raw(_, d) => d
  }

  // Parsing.

  /** The end of the SPI is computed in uint8. */
  function ParseNotify(body: bytes): Parsed<Payload> {
    if |body| < 4 then Malformed else
    var spiSize: int := body[1];
    var end := (4 + spiSize) % 0x100;
    if end > |body| then Malformed else
    if spiSize > 0 && end < 4 then Panics else
    var spi := if spiSize > 0 then body[4..end] else [];
    Done(Notify(body[0], spiSize, Get16(body, 2), spi, body[end..]))
  }

  function Chunks(buf: bytes, n: nat, size: nat): (r: seq<bytes>)
    requires Slots(n, size) <= |buf|
    ensures |r| == n
  {
    if n == 0 then [] else
    assert Slots(n, size) == size + Slots(n - 1, size);
    [buf[..size]] + Chunks(buf[size..], n - 1, size)
  }

  function ParseDelete(body: bytes): Parsed<Payload> {
    if |body| < 4 then Malformed else
    var size: nat, n: nat := body[1], Get16(body, 2);
    if |body| < 4 + Slots(n, size) then Malformed else
    Done(Delete(body[0], size, Chunks(body[4..], n, size)))
  }

  /** A selector length of 6 or less makes the address length negative. */
  function ParseSelectors(buf: bytes, n: nat): Parsed<seq<Selector>> {
    if n == 0 then Done([]) else
    if |buf| < 8 then Malformed else
    var len := Get16(buf, 2);
    if len > |buf| then Malformed else
    if len < 7 then Panics else
    match ParseSelectors(buf[len..], n - 1)
    case Malformed => Malformed
    case Panics => Panics
    case Done(rest) => Done([ParsedSelector(buf, len)] + rest)
  }

  function ParsedSelector(buf: bytes, len: nat): Selector
    requires 7 <= len <= |buf| && |buf| >= 8
  {
    var addrLen := if len == 7 then 0 else (len - 8) / 2;
    Selector(buf[0], buf[1], Get16(buf, 4), Get16(buf, 6), buf[8..8 + addrLen], buf[8 + addrLen..8 + 2 * addrLen])
  }

  /** A truncated attribute ends the list without an error. */
  function ParseConfigs(buf: bytes): seq<ConfigAttribute> {
    if |buf| < 4 then [] else
    var len := Get16(buf, 2);
    if 4 + len > |buf| then [] else
    [ConfigAttribute(Get16(buf, 0), buf[4..4 + len])] + ParseConfigs(buf[4 + len..])
  }

  function ParseV2Payload(ptype: byte, body: bytes): Parsed<Payload> {
    if ptype == PAYLOAD_KE then if |body| < 4 then Malformed else Done(Ke(Get16(body, 0), body[4..]))
    else if ptype == PAYLOAD_NONCE then Done(Nonce(body))
    else if ptype == PAYLOAD_IDI || ptype == PAYLOAD_IDR then
      if |body| < 4 then Malformed else Done(Id(ptype == PAYLOAD_IDI, body[0], body[4..]))
    else if ptype == PAYLOAD_CERT then if |body| < 1 then Malformed else Done(Cert(body[0], body[1..]))
    else if ptype == PAYLOAD_CERTREQ then if |body| < 1 then Malformed else Done(CertReq(body[0], body[1..]))
    else if ptype == PAYLOAD_AUTH then if |body| < 4 then Malformed else Done(Auth(body[0], body[4..]))
    else if ptype == PAYLOAD_NOTIFY then ParseNotify(body)
    else if ptype == PAYLOAD_DELETE then ParseDelete(body)
    else if ptype == PAYLOAD_VENDOR_ID then Done(VendorId(body))
    else if ptype == PAYLOAD_TSI || ptype == PAYLOAD_TSR then
      if |body| < 4 then Malformed else
      match ParseSelectors(body[4..], body[0])
      case Malformed => Malformed
      case Panics => Panics
      case Done(ss) => Done(Ts(ptype == PAYLOAD_TSI, ss))
    else if ptype == PAYLOAD_SK then Done(Sk(body))
    else if ptype == PAYLOAD_CP then if |body| < 4 then Malformed else Done(Cp(body[0], ParseConfigs(body[4..])))
    else if ptype == PAYLOAD_EAP then Done(Eap(body))
    else if ptype == PAYLOAD_SA then
      match ParseSa(body)
      case Err => Malformed
      case Ok(ps) => Done(Sa(ps))
    else if ptype == PAYLOAD_SKF then
      if |body| < 4 then Malformed else Done(Skf(Get16(body, 0), Get16(body, 2), body[4..]))
    else Done(Raw(ptype, body))
  }

  /** A body that does not parse is kept as it is. */
  function ParseTyped(ptype: byte, body: bytes): Parsed<Payload> {
    match ParseV2Payload(ptype, body)
    case Malformed => Done(Raw(ptype, body))
    case Panics => Panics
    case Done(p) => Done(p)
  }

  /** A body too short for its fixed fields, or a malformed list of proposals, is kept as it came. */
  lemma ShortBodiesKept(t: byte, body: bytes)
    ensures t in {34, 35, 36, 39, 41, 42, 44, 45, 47, 53} && |body| < 4 ==> ParseTyped(t, body) == Done(Raw(t, body))
    ensures (t == 37 || t == 38) && body == [] ==> ParseTyped(t, body) == Done(Raw(t, body))
    ensures t == 33 && ParseSa(body).Err? ==> ParseTyped(t, body) == Done(Raw(t, body))
    ensures !Known(t) ==> ParseTyped(t, body) == Done(Raw(t, body))
  {
    hide ParseSa, ParseSelectors, ParseConfigs;
  }

  // The formats byte by byte.

  /** The payload types of section 3.2 of RFC 7296, and of RFC 7383. */
  lemma TypeNumbers(p: Payload)
    ensures TypeOf(p) ==
      match p
      case Sa(_) => 33 case Ke(_, _) => 34 case Id(i, _, _) => (if i then 35 else 36)
      case Cert(_, _) => 37 case CertReq(_, _) => 38 case Auth(_, _) => 39 case Nonce(_) => 40
      case Notify(_, _, _, _, _) => 41 case Delete(_, _, _) => 42 case VendorId(_) => 43
      case Ts(i, _) => (if i then 44 else 45) case Sk(_) => 46 case Cp(_, _) => 47 case Eap(_) => 48
      case Skf(_, _, _) => 53 case Raw(t, _) => t
  {
  }

  function Digits(x: u16): bytes { [x / 256, x % 256] }

  /** The bodies of sections 3.3 to 3.16 of RFC 7296 and section 2.5 of RFC 7383, whose lists are laid out below. */
  lemma BodyIs(p: Payload)
    requires Fits(p)
    ensures Body(p) ==
      match p
      case Sa(ps) => ProposalsBytes(ps)
      case Ke(group, d) => Digits(group) + [0, 0] + d
      case Id(_, t, d) => [t, 0, 0, 0] + d
      case Cert(encoding, d) => [encoding] + d
      case CertReq(encoding, d) => [encoding] + d
      case Auth(m, d) => [m, 0, 0, 0] + d
      case Nonce(d) => d
      case Notify(protocol, _, t, spi, d) => [protocol, |spi|] + Digits(t) + spi + d
      case Delete(protocol, size, spis) => [protocol, size] + Digits(|spis|) + Concat(spis)
      case VendorId(d) => d
      case Ts(_, ss) => [|ss|, 0, 0, 0] + SelectorsBytes(ss)
      case Sk(d) => d
      case Cp(t, attrs) => [t, 0, 0, 0] + ConfigsBytes(attrs)
      case Eap(d) => d
      case Skf(n, total, d) => Digits(n) + Digits(total) + d
      case Raw(_, d) => d
  {
    hide DeleteBody, Concat, SelectorsBytes, ConfigsBytes, Digits, Put16, ToU16, ToByte;
    match p {
      case Ke(group, _) => InDigits(group);
      case Notify(_, _, t, spi, _) => InDigits(t); Narrow(|spi|);
      case Delete(protocol, size, spis) => DeleteBodyIs(protocol, size, spis); InDigits(|spis|); Narrow(|spis|);
      case Ts(_, ss) => Narrow(|ss|);
      case Skf(n, total, _) => InDigits(n); InDigits(total);
      case _ =>
    }
  }

  lemma InDigits(x: u16)
    ensures Put16(x) == Digits(x)
  {
  }

  lemma Narrow(n: nat)
    ensures n <= 0xFF ==> ToByte(n) == n
    ensures n <= 0xFFFF ==> ToU16(n) == n
  {
  }

  lemma SelectorsAre(s: Selector, rest: seq<Selector>)
    requires |s.endAddr| == |s.startAddr| && 8 + 2 * |s.startAddr| <= 0xFFFF
    ensures SelectorsBytes([]) == []
    ensures SelectorsBytes([s] + rest)
      == [s.tsType, s.ipProto] + Digits(8 + 2 * |s.startAddr|) + Digits(s.startPort) + Digits(s.endPort)
         + s.startAddr + s.endAddr + SelectorsBytes(rest)
  {
    SelectorSplit(s, []);
    assert ([s] + rest)[1..] == rest && SelectorBytes(s) + [] == SelectorBytes(s);
    var fixed := SelectorFixed(s, |s.startAddr|);
    assert fixed + (s.startAddr + s.endAddr + []) == fixed + s.startAddr + s.endAddr;
    hide SelectorBytes;
  }

  lemma ConfigsAre(a: ConfigAttribute, rest: seq<ConfigAttribute>)
    requires |a.value| <= 0xFFFF
    ensures ConfigsBytes([]) == []
    ensures ConfigsBytes([a] + rest) == Digits(a.atype) + Digits(|a.value|) + a.value + ConfigsBytes(rest)
  {
    assert ([a] + rest)[1..] == rest;
  }

  // The bodies the parsers do not guard.

  /** What is left behind k well-formed selectors. */
  function BehindSelectors(buf: bytes, k: nat): Option<bytes> {
    if k == 0 then Some(buf) else
    if |buf| < 8 || !(7 <= Get16(buf, 2) <= |buf|) then None else BehindSelectors(buf[Get16(buf, 2)..], k - 1)
  }

  /** Behind k well-formed selectors comes a header stating a length below 7. */
  predicate ShortSelector(buf: bytes, k: nat) {
    var rest := BehindSelectors(buf, k);
    rest.Some? && |rest.value| >= 8 && Get16(rest.value, 2) < 7
  }

  lemma {:induction false} SelectorsPanicExactly(buf: bytes, n: nat)
    ensures ParseSelectors(buf, n).Panics? <==> exists k: nat :: k < n && ShortSelector(buf, k)
    decreases n
  {
    if n > 0 {
      if |buf| >= 8 && 7 <= Get16(buf, 2) <= |buf| {
        var rest := buf[Get16(buf, 2)..];
        SelectorsPanicExactly(rest, n - 1);
        assert forall k: nat :: k > 0 ==> BehindSelectors(buf, k) == BehindSelectors(rest, k - 1);
        if ParseSelectors(rest, n - 1).Panics? {
          var k: nat :| k < n - 1 && ShortSelector(rest, k);
          assert ShortSelector(buf, k + 1);
        }
        if k: nat :| k < n && ShortSelector(buf, k) {
          assert BehindSelectors(buf, 0) == Some(buf) && k != 0;
          assert ShortSelector(rest, k - 1);
          assert ParseSelectors(rest, n - 1).Panics?;
        }
        assert ParseSelectors(buf, n).Panics? == ParseSelectors(rest, n - 1).Panics?;
      } else {
        assert forall k: nat :: k > 0 ==> BehindSelectors(buf, k) == None;
        assert BehindSelectors(buf, 0) == Some(buf);
        if |buf| >= 8 && Get16(buf, 2) < 7 {
          assert ShortSelector(buf, 0);
        }
      }
    }
  }

  /** A Notify whose SPI size wraps, or traffic selectors one of which is too short. */
  ghost predicate Unguarded(ptype: byte, body: bytes) {
    && |body| >= 4
    && (|| (ptype == PAYLOAD_NOTIFY && body[1] >= 252)
        || ((ptype == PAYLOAD_TSI || ptype == PAYLOAD_TSR)
            && exists k: nat :: k < body[0] && ShortSelector(body[4..], k)))
  }

  /** The parser fails on exactly those bodies. */
  lemma BodyPanicsExactly(ptype: byte, body: bytes)
    ensures ParseTyped(ptype, body).Panics? <==> Unguarded(ptype, body)
  {
    NotifyPanicsExactly(body);
    DeletePanicsNever(body);
    hide ParseSelectors, BehindSelectors, ShortSelector, ParseDelete, ParseNotify, ParseConfigs, ParseSa;
    if |body| >= 4 {
      SelectorsPanicExactly(body[4..], body[0]);
    }
  }

  lemma NotifyPanicsExactly(body: bytes)
    ensures ParseNotify(body).Panics? <==> |body| >= 4 && body[1] >= 252
  {
    if |body| >= 4 {
      var spiSize: int := body[1];
      assert (4 + spiSize) % 0x100 == if spiSize >= 252 then spiSize - 252 else 4 + spiSize;
    }
  }

  lemma DeletePanicsNever(body: bytes)
    ensures !ParseDelete(body).Panics?
  {
  }

  /** Whatever is parsed keeps the type it was parsed under. */
  lemma TypeKept(ptype: byte, body: bytes)
    ensures ParseTyped(ptype, body).Done? ==> TypeOf(ParseTyped(ptype, body).value) == ptype
  {
    hide ParseSelectors, ParseDelete, ParseConfigs, ParseSa, ParseNotify;
    NotifyIsNotify(body);
    DeleteIsDelete(body);
  }

  lemma NotifyIsNotify(body: bytes)
    ensures ParseNotify(body).Done? ==> ParseNotify(body).value.Notify?
  {
  }

  lemma DeleteIsDelete(body: bytes)
    ensures ParseDelete(body).Done? ==> ParseDelete(body).value.Delete?
  {
  }

  // Parsing undoes printing.

  /** What the count and length fields of a body can describe. */
  predicate Fits(p: Payload) {
    match p
    case Sa(ps) => AllCountsFit(ps)
    case Notify(_, size, _, spi, _) => size == |spi| <= 251
    case Delete(_, size, spis) => |spis| <= 0xFFFF && forall s :: s in spis ==> |s| == size
    case Ts(_, ss) =>
      |ss| <= 0xFF && forall s :: s in ss ==> |s.endAddr| == |s.startAddr| && 8 + 2 * |s.startAddr| <= 0xFFFF
    case Cp(_, attrs) => forall a :: a in attrs ==> |a.value| <= 0xFFFF
    case Raw(t, _) => !Known(t)
    case _ => true
  }

  /** Only the last flags of an SA payload are not carried as given. */
  function Normal(p: Payload): Payload {
    match p
    case Sa(ps) => Sa(Positioned(ps))
    case _ => p
  }

  lemma BodyRoundTrip(p: Payload)
    requires Fits(p)
    ensures ParseTyped(TypeOf(p), Body(p)) == Done(Normal(p))
  {
    hide ParseTyped;
    match p {
      case Sa(ps) => SaRoundTrip(ps);
      case Notify(_, _, _, _, _) => NotifyTyped(p);
      case Delete(proto, size, spis) => DeleteTyped(proto, size, spis);
      case Ts(i, ss) => TsRoundTrip(i, ss);
      case Cp(t, attrs) => CpRoundTrip(t, attrs);
      case _ => PlainRoundTrip(p);
    }
  }

  predicate Nested(p: Payload) { p.Sa? || p.Notify? || p.Delete? || p.Ts? || p.Cp? }

  lemma PlainRoundTrip(p: Payload)
    requires Fits(p) && !Nested(p)
    ensures ParseTyped(TypeOf(p), Body(p)) == Done(Normal(p))
  {
    hide ParseNotify, ParseDelete, ParseSelectors, ParseConfigs, ParseSa;
    match p {
      case Ke(g, d) => FourThenData(Put16(g) + [0, 0], d);
      case Id(_, t, d) => FourThenData([t, 0, 0, 0], d);
      case Cert(e, d) => assert ([e] + d)[1..] == d;
      case CertReq(e, d) => assert ([e] + d)[1..] == d;
      case Auth(m, d) => FourThenData([m, 0, 0, 0], d);
      case Skf(n, total, d) => FourThenData(Put16(n) + Put16(total), d);
      case _ =>
    }
  }

  lemma SaRoundTrip(ps: seq<Proposal>)
    requires Fits(Sa(ps))
    ensures ParseTyped(PAYLOAD_SA, ProposalsBytes(ps)) == Done(Sa(Positioned(ps)))
  {
    hide ParseSa, ProposalsBytes, Positioned;
    RoundTripExactly(ps);
  }

  lemma NotifyTyped(p: Payload)
    requires p.Notify? && Fits(p)
    ensures ParseTyped(PAYLOAD_NOTIFY, Body(p)) == Done(p)
  {
    hide ParseNotify, Body;
    NotifyRoundTrip(p);
  }

  lemma DeleteTyped(protocolId: byte, size: byte, spis: seq<bytes>)
    requires Fits(Delete(protocolId, size, spis))
    ensures ParseTyped(PAYLOAD_DELETE, DeleteBody(protocolId, size, spis)) == Done(Delete(protocolId, size, spis))
  {
    hide ParseDelete, DeleteBody;
    DeleteRoundTrip(protocolId, size, spis);
  }

  lemma TsRoundTrip(isInitiator: bool, ss: seq<Selector>)
    requires Fits(Ts(isInitiator, ss))
    ensures ParseTyped(if isInitiator then PAYLOAD_TSI else PAYLOAD_TSR, Body(Ts(isInitiator, ss)))
      == Done(Ts(isInitiator, ss))
  {
    hide ParseSelectors, SelectorsBytes;
    FourThenData([|ss|, 0, 0, 0], SelectorsBytes(ss));
    SelectorsRoundTrip(ss);
  }

  lemma CpRoundTrip(t: byte, attrs: seq<ConfigAttribute>)
    requires Fits(Cp(t, attrs))
    ensures ParseTyped(PAYLOAD_CP, Body(Cp(t, attrs))) == Done(Cp(t, attrs))
  {
    hide ParseConfigs, ConfigsBytes;
    FourThenData([t, 0, 0, 0], ConfigsBytes(attrs));
    ConfigsRoundTrip(attrs);
  }

  lemma FourThenData(head: bytes, d: bytes)
    requires |head| == 4
    ensures var b := head + d; b[0] == head[0] && b[1] == head[1] && b[2] == head[2] && b[3] == head[3] && b[4..] == d
  {
  }

  lemma NotifyRoundTrip(p: Payload)
    requires p.Notify? && Fits(p)
    ensures ParseNotify(Body(p)) == Done(p)
  {
    var head := [p.protocolId, p.spiSize] + Put16(p.msgType);
    var body := Body(p);
    assert body == head + (p.spi + p.notifyData);
    FourThenData(head, p.spi + p.notifyData);
    assert body[4..4 + |p.spi|] == p.spi && body[4 + |p.spi|..] == p.notifyData;
  }

  lemma {:induction false} SelectorsRoundTrip(ss: seq<Selector>)
    requires forall s :: s in ss ==> |s.endAddr| == |s.startAddr| && 8 + 2 * |s.startAddr| <= 0xFFFF
    ensures ParseSelectors(SelectorsBytes(ss), |ss|) == Done(ss)
  {
    hide SelectorBytes, ParseSelectors;
    if ss == [] {
      assert ParseSelectors([], 0) == Done([]) by { NoSelectors(); }
    } else {
      assert ss[0] in ss && ss == [ss[0]] + ss[1..];
      SelectorsRoundTrip(ss[1..]);
      FirstSelector(ss[0], SelectorsBytes(ss[1..]), ss[1..]);
    }
  }

  lemma NoSelectors()
    ensures ParseSelectors([], 0) == Done([])
  {
  }

  lemma FirstSelector(s: Selector, tail: bytes, rest: seq<Selector>)
    requires |s.endAddr| == |s.startAddr| && 8 + 2 * |s.startAddr| <= 0xFFFF
    requires ParseSelectors(tail, |rest|) == Done(rest)
    ensures ParseSelectors(SelectorBytes(s) + tail, |rest| + 1) == Done([s] + rest)
  {
    var head := SelectorBytes(s);
    SelectorFields(s, tail);
    hide SelectorBytes, ParsedSelector, Get16;
    assert (head + tail)[|head|..] == tail;
  }

  lemma SelectorFields(s: Selector, tail: bytes)
    requires |s.endAddr| == |s.startAddr| && 8 + 2 * |s.startAddr| <= 0xFFFF
    ensures var head := SelectorBytes(s);
      var buf := head + tail;
      |head| >= 8 && Get16(buf, 2) == |head| && ParsedSelector(buf, |head|) == s
  {
    hide SelectorBytes, SelectorFixed, Get16;
    var n := |s.startAddr|;
    SelectorSplit(s, tail);
    SelectorFixedFields(s, n, s.startAddr + s.endAddr + tail);
    SelectorSlices(SelectorFixed(s, n), s.startAddr, s.endAddr, tail);
  }

  lemma SelectorSplit(s: Selector, tail: bytes)
    requires |s.endAddr| == |s.startAddr| && 8 + 2 * |s.startAddr| <= 0xFFFF
    ensures |SelectorBytes(s)| == 8 + 2 * |s.startAddr|
    ensures SelectorBytes(s) + tail == SelectorFixed(s, |s.startAddr|) + (s.startAddr + s.endAddr + tail)
  {
    var fixed := SelectorFixed(s, |s.startAddr|);
    assert SelectorBytes(s) == fixed + s.startAddr + s.endAddr;
    hide SelectorBytes, SelectorFixed;
  }

  function SelectorFixed(s: Selector, n: nat): (f: bytes)
    requires 8 + 2 * n <= 0xFFFF
    ensures |f| == 8
  {
    [s.tsType, s.ipProto] + Put16(8 + 2 * n) + Put16(s.startPort) + Put16(s.endPort)
  }

  lemma SelectorFixedFields(s: Selector, n: nat, rest: bytes)
    requires 8 + 2 * n <= 0xFFFF
    ensures var buf := SelectorFixed(s, n) + rest;
      && buf[0] == s.tsType && buf[1] == s.ipProto
      && Get16(buf, 2) == 8 + 2 * n && Get16(buf, 4) == s.startPort && Get16(buf, 6) == s.endPort
  {
    var f, buf := SelectorFixed(s, n), SelectorFixed(s, n) + rest;
    var len, start, end := Put16(8 + 2 * n), Put16(s.startPort), Put16(s.endPort);
    assert f[2] == len[0] && f[3] == len[1] && f[4] == start[0] && f[5] == start[1];
    assert f[6] == end[0] && f[7] == end[1];
    assert forall i :: 0 <= i < 8 ==> buf[i] == f[i];
  }

  lemma SelectorSlices(fixed: bytes, start: bytes, end: bytes, tail: bytes)
    requires |fixed| == 8 && |end| == |start|
    ensures var buf, n := fixed + (start + end + tail), |start|;
      buf[8..8 + n] == start && buf[8 + n..8 + 2 * n] == end
  {
  }

  lemma {:induction false} ConfigsRoundTrip(attrs: seq<ConfigAttribute>)
    requires forall a :: a in attrs ==> |a.value| <= 0xFFFF
    ensures ParseConfigs(ConfigsBytes(attrs)) == attrs
  {
    if attrs != [] {
      hide ConfigBytes, ParseConfigs;
      assert attrs[0] in attrs;
      FirstConfig(attrs[0], ConfigsBytes(attrs[1..]));
      ConfigsRoundTrip(attrs[1..]);
    } else {
      assert ParseConfigs([]) == [];
    }
  }

  lemma FirstConfig(a: ConfigAttribute, tail: bytes)
    requires |a.value| <= 0xFFFF
    ensures ParseConfigs(ConfigBytes(a) + tail) == [a] + ParseConfigs(tail)
  {
    var head := Put16(a.atype) + Put16(|a.value|);
    var buf := ConfigBytes(a) + tail;
    FourThenData(head, a.value + tail);
    assert buf == head + (a.value + tail);
    assert buf[4..4 + |a.value|] == a.value && buf[4 + |a.value|..] == tail;
    assert Get16(buf, 0) == a.atype && Get16(buf, 2) == |a.value|;
  }

  /** One turn of the parse loop. */
  lemma ConfigStep(body: bytes, offset: nat, done: seq<ConfigAttribute>)
    requires offset + 4 <= |body|
    ensures var len: int := Get16(body, offset + 2);
      if offset + 4 + len > |body| then ParseConfigs(body[offset..]) == [] else
      done + ParseConfigs(body[offset..])
        == done + [ConfigAttribute(Get16(body, offset), body[offset + 4..offset + 4 + len])]
           + ParseConfigs(body[offset + 4 + len..])
  {
    hide Get16, ParseConfigs;
    var left, len := body[offset..], Get16(body, offset + 2);
    ShiftedGet16(body, offset, 0);
    ShiftedGet16(body, offset, 2);
    ReadConfig(left);
    if offset + 4 + len <= |body| {
      Shifted(body, offset, 4, len);
      Appended(done, ConfigAttribute(Get16(left, 0), left[4..4 + len]), ParseConfigs(left[4 + len..]));
    }
  }

  lemma ReadConfig(buf: bytes)
    requires |buf| >= 4
    ensures var len := Get16(buf, 2);
      ParseConfigs(buf) == if 4 + len > |buf| then [] else
        [ConfigAttribute(Get16(buf, 0), buf[4..4 + len])] + ParseConfigs(buf[4 + len..])
  {
    hide Get16;
  }

  /** Cutting what starts at an offset is cutting behind that offset. */
  lemma Shifted(body: bytes, offset: nat, from: nat, len: nat)
    requires offset + from + len <= |body|
    ensures body[offset..][from..from + len] == body[offset + from..offset + from + len]
    ensures body[offset..][from + len..] == body[offset + from + len..]
  {
  }

  lemma ShiftedGet16(body: bytes, offset: nat, at: nat)
    requires offset + at + 2 <= |body|
    ensures Get16(body[offset..], at) == Get16(body, offset + at)
  {
  }

  lemma Appended<T>(done: seq<T>, x: T, rest: seq<T>)
    ensures done + ([x] + rest) == done + [x] + rest
  {
  }

  lemma {:induction false} ConcatLength(spis: seq<bytes>, size: nat)
    requires forall s :: s in spis ==> |s| == size
    ensures |Concat(spis)| == Slots(|spis|, size)
  {
    if spis != [] {
      ConcatLength(spis[1..], size);
      NextSlot(|spis| - 1, size);
    }
  }

  lemma {:induction false} SpisIntoConcat(buf: bytes, at: nat, spis: seq<bytes>, size: nat)
    requires forall s :: s in spis ==> |s| == size
    requires at + Slots(|spis|, size) == |buf|
    ensures SpisInto(buf, at, spis, size) == buf[..at] + Concat(spis)
    decreases |spis|
  {
    hide Overlay, SpisInto, Concat, Slots;
    if spis == [] {
      NoSpis(buf, at, size);
    } else {
      OneSlot(at, spis, size);
      OverlayFits(buf, at, spis[0]);
      var next, rest := Overlay(buf, at, spis[0]), spis[1..];
      SpisIntoConcat(next, at + size, rest, size);
      FirstSpi(buf, at, spis, size);
      Associative(buf[..at], spis[0], Concat(rest));
    }
  }

  lemma NoSpis(buf: bytes, at: nat, size: nat)
    requires at + Slots(0, size) == |buf|
    ensures SpisInto(buf, at, [], size) == buf[..at] + Concat([])
  {
    assert buf == buf[..at] + [];
  }

  lemma OneSlot(at: nat, spis: seq<bytes>, size: nat)
    requires spis != [] && forall s :: s in spis ==> |s| == size
    ensures |spis[0]| == size && forall s :: s in spis[1..] ==> |s| == size
    ensures at + Slots(|spis|, size) == at + size + Slots(|spis[1..]|, size)
  {
    NextSlot(|spis| - 1, size);
  }

  lemma FirstSpi(buf: bytes, at: nat, spis: seq<bytes>, size: nat)
    requires spis != [] && at + Slots(|spis|, size) <= |buf| && at + size + Slots(|spis[1..]|, size) <= |buf|
    ensures SpisInto(buf, at, spis, size) == SpisInto(Overlay(buf, at, spis[0]), at + size, spis[1..], size)
    ensures Concat(spis) == spis[0] + Concat(spis[1..])
  {
    hide Overlay, Slots;
  }

  lemma OverlayFits(buf: bytes, at: nat, src: bytes)
    requires at + |src| <= |buf|
    ensures Overlay(buf, at, src)[..at + |src|] == buf[..at] + src
  {
  }

  lemma {:induction false} ChunksConcat(spis: seq<bytes>, size: nat)
    requires forall s :: s in spis ==> |s| == size
    requires Slots(|spis|, size) == |Concat(spis)|
    ensures Chunks(Concat(spis), |spis|, size) == spis
  {
    if spis != [] {
      var rest := spis[1..];
      ConcatLength(rest, size);
      assert Slots(|spis|, size) == size + Slots(|rest|, size);
      ChunksConcat(rest, size);
      assert Concat(spis)[..size] == spis[0] && Concat(spis)[size..] == Concat(rest);
    }
  }

  lemma DeleteBodyIs(protocolId: byte, size: byte, spis: seq<bytes>)
    requires forall s :: s in spis ==> |s| == size
    ensures |Concat(spis)| == Slots(|spis|, size)
    ensures DeleteBody(protocolId, size, spis) == [protocolId, size] + Put16(ToU16(|spis|)) + Concat(spis)
  {
    ConcatLength(spis, size);
    SpisIntoConcat(Zeros(Slots(|spis|, size)), 0, spis, size);
    assert Zeros(Slots(|spis|, size))[..0] + Concat(spis) == Concat(spis);
  }

  lemma DeleteRoundTrip(protocolId: byte, size: byte, spis: seq<bytes>)
    requires |spis| <= 0xFFFF && forall s :: s in spis ==> |s| == size
    ensures ParseDelete(DeleteBody(protocolId, size, spis)) == Done(Delete(protocolId, size, spis))
  {
    hide *;
    DeleteBodyIs(protocolId, size, spis);
    ConcatLength(spis, size);
    ChunksConcat(spis, size);
    ParsedDelete(protocolId, size, |spis|, Concat(spis));
    assert ToU16(|spis|) == |spis| by { Small(|spis|); }
  }

  lemma Small(n: nat)
    requires n <= 0xFFFF
    ensures ToU16(n) == n
  {
  }

  lemma ParsedDelete(protocolId: byte, size: byte, n: nat, data: bytes)
    requires n <= 0xFFFF && |data| == Slots(n, size)
    ensures ParseDelete([protocolId, size] + Put16(n) + data) == Done(Delete(protocolId, size, Chunks(data, n, size)))
  {
    hide Chunks;
    var count := Put16(n);
    var head := [protocolId, size] + count;
    assert head[2] == count[0] && head[3] == count[1];
    FourThenData(head, data);
  }

  // The loops of the source.

  method MarshalSelectors(ss: seq<Selector>) returns (r: bytes)
    ensures r == SelectorsBytes(ss)
  {
    hide SelectorBytes;
    r := [];
    for i := 0 to |ss|
      invariant r + SelectorsBytes(ss[i..]) == SelectorsBytes(ss)
    {
      assert ss[i..][1..] == ss[i + 1..];
      r := r + SelectorBytes(ss[i]);
    }
  }

  function Before<T>(done: seq<T>, r: Parsed<seq<T>>): Parsed<seq<T>> {
    match r
    case Done(rest) => Done(done + rest)
    case _ => r
  }

  lemma SelectorsStep(buf: bytes, n: nat, done: seq<Selector>)
    ensures Before(done, ParseSelectors(buf, n)) ==
      if n == 0 then Done(done) else
      if |buf| < 8 || Get16(buf, 2) > |buf| then Malformed else
      if Get16(buf, 2) < 7 then Panics else
      Before(done + [ParsedSelector(buf, Get16(buf, 2))], ParseSelectors(buf[Get16(buf, 2)..], n - 1))
  {
    hide ParsedSelector;
    assert done + [] == done;
    if n > 0 && |buf| >= 8 && 7 <= Get16(buf, 2) <= |buf| {
      var s, rest := ParsedSelector(buf, Get16(buf, 2)), ParseSelectors(buf[Get16(buf, 2)..], n - 1);
      if rest.Done? {
        assert done + ([s] + rest.value) == done + [s] + rest.value;
      }
    }
  }

  /** Panics where the source would slice with a negative address length. */
  method ParseV2Selectors(body: bytes, numTs: nat) returns (r: Parsed<seq<Selector>>)
    ensures r == ParseSelectors(body, numTs)
  {
    hide ParseSelectors, ParsedSelector;
    var selectors: seq<Selector> := [];
    var offset := 0;
    assert body[0..] == body;
    BeforeNothing(ParseSelectors(body, numTs));
    for i := 0 to numTs
      invariant offset <= |body|
      invariant ParseSelectors(body, numTs) == Before(selectors, ParseSelectors(body[offset..], numTs - i))
    {
      ghost var left := body[offset..];
      SelectorsStep(left, numTs - i, selectors);
      if offset + 8 > |body| {
        return Malformed;
      }
      var selectorLen: int := Get16(body, offset + 2);
      if offset + selectorLen > |body| {
        return Malformed;
      }
      if selectorLen < 7 {
        return Panics;
      }
      var s := SelectorAt(body, offset, selectorLen);
      selectors := selectors + [s];
      assert left[selectorLen..] == body[offset + selectorLen..];
      offset := offset + selectorLen;
    }
    SelectorsStep(body[offset..], 0, selectors);
    r := Done(selectors);
  }

  lemma BeforeNothing<T>(r: Parsed<seq<T>>)
    ensures Before([], r) == r
  {
    if r.Done? {
      assert [] + r.value == r.value;
    }
  }

  method SelectorAt(body: bytes, offset: nat, selectorLen: nat) returns (s: Selector)
    requires 7 <= selectorLen && offset + selectorLen <= |body| && offset + 8 <= |body|
    ensures s == ParsedSelector(body[offset..], selectorLen)
  {
    ghost var left := body[offset..];
    var addrLen := if selectorLen == 7 then 0 else (selectorLen - 8) / 2;
    assert body[offset + 8..offset + 8 + addrLen] == left[8..8 + addrLen];
    assert body[offset + 8 + addrLen..offset + 8 + 2 * addrLen] == left[8 + addrLen..8 + 2 * addrLen];
    s := Selector(body[offset], body[offset + 1], Get16(body, offset + 4), Get16(body, offset + 6),
                  body[offset + 8..offset + 8 + addrLen], body[offset + 8 + addrLen..offset + 8 + 2 * addrLen]);
  }

  method MarshalConfigs(attrs: seq<ConfigAttribute>) returns (r: bytes)
    ensures r == ConfigsBytes(attrs)
  {
    hide ConfigBytes;
    r := [];
    for i := 0 to |attrs|
      invariant r + ConfigsBytes(attrs[i..]) == ConfigsBytes(attrs)
    {
      assert attrs[i..][1..] == attrs[i + 1..];
      r := r + ConfigBytes(attrs[i]);
    }
  }

  method ParseV2Configs(body: bytes) returns (attrs: seq<ConfigAttribute>)
    ensures attrs == ParseConfigs(body)
  {
    hide Get16;
    attrs := [];
    var offset := 0;
    assert body[0..] == body;
    while offset + 4 <= |body|
      invariant offset <= |body|
      invariant ParseConfigs(body) == attrs + ParseConfigs(body[offset..])
    {
      ConfigStep(body, offset, attrs);
      var attrLen: int := Get16(body, offset + 2);
      if offset + 4 + attrLen > |body| {
        return;
      }
      var a := ConfigAttribute(Get16(body, offset), body[offset + 4..offset + 4 + attrLen]);
      attrs := attrs + [a];
      offset := offset + 4 + attrLen;
    }
  }

  method MarshalSpis(spis: seq<bytes>, size: byte) returns (r: bytes)
    ensures r == SpisInto(Zeros(Slots(|spis|, size)), 0, spis, size)
  {
    hide Overlay;
    r := Zeros(Slots(|spis|, size));
    var offset := 0;
    for i := 0 to |spis|
      invariant 0 <= offset && offset + Slots(|spis| - i, size) == |r|
      invariant SpisInto(r, offset, spis[i..], size) == SpisInto(Zeros(Slots(|spis|, size)), 0, spis, size)
    {
      NextSlot(|spis| - i - 1, size);
      assert spis[i..][1..] == spis[i + 1..];
      r := Overlay(r, offset, spis[i]);
      offset := offset + size;
    }
  }

  lemma CutSpi(body: bytes, offset: nat, n: nat, size: nat, done: seq<bytes>)
    requires n > 0 && offset + Slots(n, size) <= |body|
    ensures offset + size + Slots(n - 1, size) <= |body|
    ensures done + Chunks(body[offset..], n, size)
      == done + [body[offset..offset + size]] + Chunks(body[offset + size..], n - 1, size)
  {
    NextSlot(n - 1, size);
    hide Slots;
    Shifted(body, offset, 0, size);
    Appended(done, body[offset..][..size], Chunks(body[offset..][size..], n - 1, size));
  }

  method ParseSpis(body: bytes, n: nat, size: byte) returns (spis: seq<bytes>)
    requires Slots(n, size) <= |body|
    ensures spis == Chunks(body, n, size)
  {
    hide Chunks, Slots;
    spis := [];
    var offset := 0;
    assert body[0..] == body;
    for i := 0 to n
      invariant 0 <= offset && offset + Slots(n - i, size) <= |body|
      invariant Chunks(body, n, size) == spis + Chunks(body[offset..], n - i, size)
    {
      CutSpi(body, offset, n - i, size, spis);
      spis := spis + [body[offset..offset + size]];
      offset := offset + size;
    }
  }
}
