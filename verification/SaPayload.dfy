/**
 The IKEv2 Security Association payload body (section 3.3 of RFC 7296): proposals
 holding transforms holding attributes, printed and parsed.
 */
module SaPayload {
  import opened Bytes

  const ATTR_KEY_LENGTH: u16 := 14

  datatype Transform = Transform(ttype: byte, id: u16, keyLength: u16, isLast: bool)

  datatype Proposal = Proposal(number: byte, protocolId: byte, spi: bytes, transforms: seq<Transform>, isLast: bool)

  /** An ISAKMP data attribute (section 3.3 of RFC 2408): short (type, value) or long. */
  datatype Attribute = Attribute(atype: u16, isTv: bool, value: bytes)

  // Printing.

  /** ISAKMPAttribute.Marshal: the top bit of the type tells short from long. */
  function AttributeBytes(a: Attribute): bytes {
    if a.isTv then Put16(a.atype % 0x8000 + 0x8000) + (if |a.value| >= 2 then a.value[..2] else Zeros(2))
    else Put16(a.atype % 0x8000) + Put16(ToU16(|a.value|)) + a.value
  }

  function AttributesBytes(attrs: seq<Attribute>): bytes {
    if attrs == [] then [] else AttributeBytes(attrs[0]) + AttributesBytes(attrs[1..])
  }

  function KeyLengthAttr(keyLength: u16): bytes {
    if keyLength > 0 then Put16(ATTR_KEY_LENGTH + 0x8000) + Put16(keyLength) else []
  }

  function TransformBytes(x: Transform, last: bool): bytes {
    var attrs := KeyLengthAttr(x.keyLength);
    [if last then 0 else 3, 0] + Put16(8 + |attrs|) + [x.ttype, 0] + Put16(x.id) + attrs
  }

  function TransformsBytes(xs: seq<Transform>): bytes {
    if xs == [] then [] else TransformBytes(xs[0], |xs| == 1) + TransformsBytes(xs[1..])
  }

  function ProposalLen(p: Proposal): nat { 8 + |p.spi| + |TransformsBytes(p.transforms)| }

  /** The length, SPI size and transform count fields are truncated to their widths. */
  function ProposalBytes(p: Proposal, last: bool): bytes {
    [if last then 0 else 2, 0] + Put16(ToU16(ProposalLen(p)))
    + [p.number, p.protocolId, ToByte(|p.spi|), ToByte(|p.transforms|)] + p.spi + TransformsBytes(p.transforms)
  }

  function ProposalsBytes(ps: seq<Proposal>): bytes {
    if ps == [] then [] else ProposalBytes(ps[0], |ps| == 1) + ProposalsBytes(ps[1..])
  }

  // Parsing.

  function ParseAttributes(buf: bytes): seq<Attribute> {
    if |buf| < 4 then [] else
    var head := Get16(buf, 0);
    if head >= 0x8000 then [Attribute(head - 0x8000, true, buf[2..4])] + ParseAttributes(buf[4..]) else
    var len := Get16(buf, 2);
    if 4 + len > |buf| then [] else
    [Attribute(head, false, buf[4..4 + len])] + ParseAttributes(buf[4 + len..])
  }

  /** The last short key-length attribute wins. */
  function KeyLengthOf(attrs: seq<Attribute>): u16 {
    if attrs == [] then 0 else
    var a := attrs[|attrs| - 1];
    if a.atype == ATTR_KEY_LENGTH && a.isTv && |a.value| >= 2 then Get16(a.value, 0)
    else KeyLengthOf(attrs[..|attrs| - 1])
  }

  function ParsedTransform(buf: bytes, len: nat): Transform
    requires 8 <= len <= |buf|
  {
    Transform(buf[4], Get16(buf, 6), KeyLengthOf(ParseAttributes(buf[8..len])), buf[0] == 0)
  }

  /** At most count transforms; a malformed one ends the list without an error. */
  function ParseTransforms(buf: bytes, count: nat): (xs: seq<Transform>)
    ensures |xs| <= count
  {
    if count == 0 || |buf| < 8 then [] else
    var len := Get16(buf, 2);
    if len < 8 || len > |buf| then [] else
    [ParsedTransform(buf, len)] + if buf[0] == 0 then [] else ParseTransforms(buf[len..], count - 1)
  }

  /** A malformed proposal is an error. */
  function ParseSa(body: bytes): Result<seq<Proposal>> {
    if body == [] then Ok([]) else
    if |body| < 8 then Err else
    var len := Get16(body, 2);
    var spiSize := body[6];
    if len < 8 || len > |body| || 8 + spiSize > len then Err else
    var p := ParsedProposal(body, len);
    if body[0] == 0 then Ok([p]) else Prepend([p], ParseSa(body[len..]))
  }

  function Prepend<T>(done: seq<T>, r: Result<seq<T>>): Result<seq<T>> {
    match r
    case Err => Err
    case Ok(rest) => Ok(done + rest)
  }

  function ParsedProposal(body: bytes, len: nat): Proposal
    requires 8 <= len <= |body| && 8 + body[6] <= len
  {
    var spiSize: int := body[6];
    var spiEnd := 8 + spiSize;
    Proposal(body[4], body[5], body[8..spiEnd], ParseTransforms(body[spiEnd..len], body[7]), body[0] == 0)
  }

  // The formats byte by byte.

  /** A key length is the short attribute 14 (section 3.3.5 of RFC 7296), and none when it is zero. */
  lemma TransformIs(x: Transform, last: bool)
    ensures var more := if last then 0 else 3;
      TransformBytes(x, last) ==
        if x.keyLength == 0 then [more, 0, 0, 8, x.ttype, 0, x.id / 256, x.id % 256]
        else [more, 0, 0, 12, x.ttype, 0, x.id / 256, x.id % 256, 0x80, 0x0E, x.keyLength / 256, x.keyLength % 256]
  {
    assert Put16(8) == [0, 8] && Put16(12) == [0, 12] && Put16(ATTR_KEY_LENGTH + 0x8000) == [0x80, 0x0E];
  }

  lemma ProposalIs(p: Proposal, last: bool)
    requires |p.spi| <= 0xFF && |p.transforms| <= 0xFF
    ensures var xs := TransformsBytes(p.transforms);
      var len := 8 + |p.spi| + |xs|;
      && len <= 0xFFFF
      && ProposalBytes(p, last) ==
           [if last then 0 else 2, 0, len / 256, len % 256, p.number, p.protocolId, |p.spi|, |p.transforms|]
           + p.spi + xs
  {
    CountsFitLengths([p]);
    assert p in [p];
    hide TransformsBytes, LengthsFit, AllCountsFit;
    ProposalHead(p, last, ProposalLen(p));
    hide Put16, ToU16, ToByte;
  }

  lemma ProposalHead(p: Proposal, last: bool, len: nat)
    requires |p.spi| <= 0xFF && |p.transforms| <= 0xFF && len <= 0xFFFF
    ensures [if last then 0 else 2, 0] + Put16(ToU16(len))
      + [p.number, p.protocolId, ToByte(|p.spi|), ToByte(|p.transforms|)]
      == [if last then 0 else 2, 0, len / 256, len % 256, p.number, p.protocolId, |p.spi|, |p.transforms|]
  {
    HeadJoined(if last then 0 else 2, len / 256, len % 256, [p.number, p.protocolId, |p.spi|, |p.transforms|]);
  }

  lemma HeadJoined(more: byte, hi: byte, lo: byte, rest: bytes)
    requires |rest| == 4
    ensures [more, 0] + [hi, lo] + rest == [more, 0, hi, lo, rest[0], rest[1], rest[2], rest[3]]
  {
  }

  /** The end of a list of proposals, or of transforms, is where one says that it is the last. */
  lemma LastEnds(p: Proposal, x: Transform, junk: bytes, n: nat)
    requires CountsFit(p) && n > 0
    ensures ParseSa(ProposalBytes(p, true) + junk) == ParseSa(ProposalBytes(p, true))
    ensures ParseTransforms(TransformBytes(x, true) + junk, n) == [x.(isLast := true)]
  {
    CountsFitLengths([p]);
    assert p in [p];
    hide Read, ProposalBytes, TransformBytes, ParsedTransform;
    ParseHead(p, true, junk);
    ParseHead(p, true, []);
    assert ProposalBytes(p, true) + [] == ProposalBytes(p, true);
    TransformFields(x, true, junk);
  }

  /** The key length of a transform is that of its last short attribute of type 14. */
  lemma {:induction false} KeyLengthExactly(attrs: seq<Attribute>, i: int)
    requires LastKeyLengthAt(attrs, i)
    ensures KeyLengthOf(attrs) == attrs[i].value[0] as int * 256 + attrs[i].value[1] as int
  {
    hide Get16;
    var most := attrs[..|attrs| - 1];
    if i < |most| {
      assert !IsKeyLength(attrs[|most|]);
      assert most[i] == attrs[i] && LastKeyLengthAt(most, i);
      KeyLengthExactly(most, i);
    } else {
      GetIs(attrs[i].value);
    }
  }

  lemma GetIs(b: bytes)
    ensures |b| >= 2 ==> Get16(b, 0) == b[0] as int * 256 + b[1] as int
  {
  }

  /** And zero without one. */
  lemma {:induction false} KeyLengthNone(attrs: seq<Attribute>)
    requires forall i :: 0 <= i < |attrs| ==> !IsKeyLength(attrs[i])
    ensures KeyLengthOf(attrs) == 0
  {
    if attrs != [] {
      assert !IsKeyLength(attrs[|attrs| - 1]);
      KeyLengthNone(attrs[..|attrs| - 1]);
    }
  }

  ghost predicate LastKeyLengthAt(attrs: seq<Attribute>, i: int) {
    0 <= i < |attrs| && IsKeyLength(attrs[i]) && forall k :: i < k < |attrs| ==> !IsKeyLength(attrs[k])
  }

  predicate IsKeyLength(a: Attribute) { a.atype == 14 && a.isTv && |a.value| >= 2 }

  /** A short attribute sets the top bit of its type, a long one states its length. */
  lemma AttributeIs(a: Attribute)
    requires Representable(a)
    ensures AttributeBytes(a) ==
      if a.isTv then [a.atype / 256 + 128, a.atype % 256] + a.value
      else [a.atype / 256, a.atype % 256, |a.value| / 256, |a.value| % 256] + a.value
  {
    if a.isTv {
      assert (a.atype + 0x8000) / 256 == a.atype / 256 + 128 && (a.atype + 0x8000) % 256 == a.atype % 256;
      assert a.value[..2] == a.value;
    }
  }

  // Parsing undoes printing.

  /** The last flags, which printing takes from the position in the list. */
  function PositionedTransforms(xs: seq<Transform>): (r: seq<Transform>)
    ensures |r| == |xs|
  {
    if xs == [] then [] else [xs[0].(isLast := |xs| == 1)] + PositionedTransforms(xs[1..])
  }

  function Positioned(ps: seq<Proposal>): (r: seq<Proposal>)
    ensures |r| == |ps|
  {
    if ps == [] then [] else
    [ps[0].(transforms := PositionedTransforms(ps[0].transforms), isLast := |ps| == 1)] + Positioned(ps[1..])
  }

  predicate LengthsFit(ps: seq<Proposal>) {
    forall p :: p in ps ==> ProposalLen(p) <= 0xFFFF
  }

  predicate CountsFit(p: Proposal) { |p.spi| <= 0xFF && |p.transforms| <= 0xFF }

  predicate AllCountsFit(ps: seq<Proposal>) {
    forall p :: p in ps ==> CountsFit(p)
  }

  /**
   A list of proposals comes back as it was, with the last flags set from position,
   if and only if every SPI size and every transform count fits its byte.
   */
  lemma RoundTripExactly(ps: seq<Proposal>)
    ensures ParseSa(ProposalsBytes(ps)) == Ok(Positioned(ps)) <==> AllCountsFit(ps)
  {
    hide *;
    if AllCountsFit(ps) {
      CountsFitLengths(ps);
      FittingRoundTrip(ps);
    } else {
      ParsedCountsFit(ProposalsBytes(ps));
      PositionedCounts(ps);
    }
  }

  lemma {:induction false} FittingRoundTrip(ps: seq<Proposal>)
    requires LengthsFit(ps)
    ensures ParseSa(ProposalsBytes(ps)) == Ok(Positioned(ps)) <==> AllCountsFit(ps)
  {
    if ps == [] {
      ParseEmpty();
    } else {
      hide *;
      FitCons(ps);
      FittingRoundTrip(ps[1..]);
      ConsExactly(ps);
    }
  }

  /** Counts that fit keep the lengths below 16 bits: a transform takes at most 12 bytes. */
  lemma CountsFitLengths(ps: seq<Proposal>)
    requires AllCountsFit(ps)
    ensures LengthsFit(ps)
  {
    hide TransformsBytes;
    forall p | p in ps ensures ProposalLen(p) <= 0xFFFF {
      TransformsLength(p.transforms);
    }
  }

  lemma {:induction false} TransformsLength(xs: seq<Transform>)
    ensures |TransformsBytes(xs)| <= 12 * |xs|
  {
    if xs != [] {
      TransformsLength(xs[1..]);
    }
  }

  /** Whatever is parsed has counts that fit. */
  lemma {:induction false} ParsedCountsFit(body: bytes)
    ensures ParseSa(body).Ok? ==> AllCountsFit(ParseSa(body).value)
    decreases |body|
  {
    hide ParseTransforms;
    if |body| >= 8 {
      var len: int := Get16(body, 2);
      if 8 <= len <= |body| {
        ParsedCountsFit(body[len..]);
      }
    }
  }

  lemma {:induction false} PositionedCounts(ps: seq<Proposal>)
    ensures AllCountsFit(Positioned(ps)) <==> AllCountsFit(ps)
  {
    if ps != [] {
      PositionedCounts(ps[1..]);
      FitCons(ps);
      FitCons(Positioned(ps));
      assert Positioned(ps)[1..] == Positioned(ps[1..]);
    }
  }

  lemma FitCons(ps: seq<Proposal>)
    requires ps != []
    ensures AllCountsFit(ps) <==> CountsFit(ps[0]) && AllCountsFit(ps[1..])
    ensures LengthsFit(ps) ==> LengthsFit(ps[1..])
  {
    hide ProposalLen, CountsFit;
    assert ps == [ps[0]] + ps[1..];
  }

  lemma ConsExactly(ps: seq<Proposal>)
    requires ps != [] && LengthsFit(ps)
    ensures ParseSa(ProposalsBytes(ps)) == Ok(Positioned(ps)) <==>
      CountsFit(ps[0]) && ParseSa(ProposalsBytes(ps[1..])) == Ok(Positioned(ps[1..]))
  {
    var p, last, rest := ps[0], |ps| == 1, ps[1..];
    ParseHead(p, last, ProposalsBytes(rest));
    FirstExactly(p, last);
    hide ParseSa, ProposalBytes, Read, CountsFit;
    var p' := p.(transforms := PositionedTransforms(p.transforms), isLast := last);
    assert Positioned(ps) == [p'] + Positioned(rest);
    if last {
      assert rest == [] && Positioned(rest) == [] && ParseSa([]) == Ok([]) by { ParseEmpty(); }
      assert [p'] + [] == [p'];
    } else if ParseSa(ProposalsBytes(rest)).Ok? {
      ConsEqual(Read(p, last), ParseSa(ProposalsBytes(rest)).value, p', Positioned(rest));
    }
  }

  lemma ParseEmpty()
    ensures ParseSa([]) == Ok([])
  {
  }

  lemma ConsEqual<T>(x: T, s: seq<T>, y: T, t: seq<T>)
    ensures [x] + s == [y] + t <==> x == y && s == t
  {
    if [x] + s == [y] + t {
      assert ([x] + s)[0] == ([y] + t)[0];
      assert ([x] + s)[1..] == s && ([y] + t)[1..] == t;
    }
  }

  /** What is read of a printed proposal, when its counts are taken modulo 256. */
  function Read(p: Proposal, last: bool): Proposal {
    var spiSize: int := ToByte(|p.spi|);
    Proposal(p.number, p.protocolId, p.spi[..spiSize],
             ParseTransforms(p.spi[spiSize..] + TransformsBytes(p.transforms), ToByte(|p.transforms|)), last)
  }

  lemma ParseHead(p: Proposal, last: bool, tail: bytes)
    requires ProposalLen(p) <= 0xFFFF
    ensures ParseSa(ProposalBytes(p, last) + tail) ==
      if last then Ok([Read(p, last)]) else Prepend([Read(p, last)], ParseSa(tail))
  {
    var len := ProposalLen(p);
    var body := ProposalBytes(p, last) + tail;
    ProposalFields(p, last, tail);
    assert body[len..] == tail;
    assert ParsedProposal(body, len) == Read(p, last) by {
      ProposalSlices(p, last, tail);
    }
  }

  lemma ProposalFields(p: Proposal, last: bool, tail: bytes)
    requires ProposalLen(p) <= 0xFFFF
    ensures var body := ProposalBytes(p, last) + tail;
      && |body| == ProposalLen(p) + |tail|
      && body[0] == (if last then 0 else 2) && Get16(body, 2) == ProposalLen(p)
      && body[4] == p.number && body[5] == p.protocolId
      && body[6] == ToByte(|p.spi|) && body[7] == ToByte(|p.transforms|)
  {
    var body := ProposalBytes(p, last) + tail;
    var len := Put16(ToU16(ProposalLen(p)));
    assert body[2] == len[0] && body[3] == len[1];
  }

  lemma ProposalSlices(p: Proposal, last: bool, tail: bytes)
    requires ProposalLen(p) <= 0xFFFF
    ensures var body, s := ProposalBytes(p, last) + tail, ToByte(|p.spi|) as int;
      && 8 + s <= ProposalLen(p) <= |body|
      && body[8..8 + s] == p.spi[..s]
      && body[8 + s..ProposalLen(p)] == p.spi[s..] + TransformsBytes(p.transforms)
  {
    hide TransformsBytes;
    var s: int := ToByte(|p.spi|);
    var head := ProposalBytes(p, last)[..8];
    var xs := TransformsBytes(p.transforms);
    assert ProposalBytes(p, last) == head + p.spi[..s] + (p.spi[s..] + xs);
  }

  lemma FirstExactly(p: Proposal, last: bool)
    ensures Read(p, last) == p.(transforms := PositionedTransforms(p.transforms), isLast := last) <==> CountsFit(p)
  {
    hide TransformsBytes, ParseTransforms;
    if CountsFit(p) {
      assert p.spi[..|p.spi|] == p.spi;
      assert p.spi[|p.spi|..] + TransformsBytes(p.transforms) == TransformsBytes(p.transforms);
      TransformsRoundTrip(p.transforms);
    } else {
      assert |Read(p, last).spi| < |p.spi| || |Read(p, last).transforms| < |p.transforms|;
    }
  }

  lemma {:induction false} TransformsRoundTrip(xs: seq<Transform>)
    ensures ParseTransforms(TransformsBytes(xs), |xs|) == PositionedTransforms(xs)
  {
    hide TransformBytes, ParsedTransform;
    if xs != [] {
      var x, last, rest := xs[0], |xs| == 1, xs[1..];
      var head, tail := TransformBytes(x, last), TransformsBytes(rest);
      TransformFields(x, last, tail);
      assert (head + tail)[|head|..] == tail;
      TransformsRoundTrip(rest);
    }
  }

  lemma TransformFields(x: Transform, last: bool, tail: bytes)
    ensures var head := TransformBytes(x, last);
      var buf := head + tail;
      && |head| >= 8 && buf[0] == (if last then 0 else 3) && Get16(buf, 2) == |head|
      && ParsedTransform(buf, |head|) == x.(isLast := last)
  {
    var head := TransformBytes(x, last);
    var buf := head + tail;
    var len, id, attrs := Put16(8 + |KeyLengthAttr(x.keyLength)|), Put16(x.id), KeyLengthAttr(x.keyLength);
    assert buf[2] == len[0] && buf[3] == len[1] && buf[6] == id[0] && buf[7] == id[1];
    assert buf[8..|head|] == attrs;
    AttributeRoundTrip(x.keyLength);
  }

  predicate Representable(a: Attribute) {
    a.atype < 0x8000 && if a.isTv then |a.value| == 2 else |a.value| <= 0xFFFF
  }

  /**
   A list of attributes comes back if and only if every type leaves the format bit
   free, every short value is two bytes and every long one fits its length field.
   */
  lemma {:induction false} AttributesRoundTripExactly(attrs: seq<Attribute>)
    ensures ParseAttributes(AttributesBytes(attrs)) == attrs
      <==> forall i :: 0 <= i < |attrs| ==> Representable(attrs[i])
  {
    if attrs != [] {
      var a, rest := attrs[0], attrs[1..];
      AttributesRoundTripExactly(rest);
      FirstAttribute(a, AttributesBytes(rest), rest);
      assert attrs == [a] + rest;
      assert (forall i :: 0 <= i < |attrs| ==> Representable(attrs[i])) <==>
        Representable(a) && forall i :: 0 <= i < |rest| ==> Representable(rest[i]) by {
        assert forall i :: 0 <= i < |rest| ==> attrs[i + 1] == rest[i];
        assert forall i :: 0 < i < |attrs| ==> attrs[i] == rest[i - 1];
      }
      hide Representable, ParseAttributes, AttributeBytes;
    } else {
      assert ParseAttributes([]) == [];
    }
  }

  lemma FirstAttribute(a: Attribute, tail: bytes, rest: seq<Attribute>)
    ensures ParseAttributes(AttributeBytes(a) + tail) == [a] + rest
      <==> Representable(a) && ParseAttributes(tail) == rest
  {
    var buf := AttributeBytes(a) + tail;
    AttributeFields(a, tail);
    var parsed := ParseAttributes(buf);
    if a.isTv {
      var read := Attribute(a.atype % 0x8000, true, buf[2..4]);
      assert buf[4..] == tail && parsed == [read] + ParseAttributes(tail);
      ConsEqual(read, ParseAttributes(tail), a, rest);
    } else {
      var len := ToU16(|a.value|);
      var read := Attribute(a.atype % 0x8000, false, buf[4..4 + len]);
      assert parsed == [read] + ParseAttributes(buf[4 + len..]);
      ConsEqual(read, ParseAttributes(buf[4 + len..]), a, rest);
      if |a.value| <= 0xFFFF {
        assert buf[4..4 + len] == a.value && buf[4 + len..] == tail;
      }
    }
  }

  lemma AttributeFields(a: Attribute, tail: bytes)
    ensures var buf := AttributeBytes(a) + tail;
      && |buf| >= 4 && Get16(buf, 0) == a.atype % 0x8000 + (if a.isTv then 0x8000 else 0)
      && (a.isTv ==> |buf| == 4 + |tail| && (|a.value| == 2 ==> buf[2..4] == a.value))
      && (!a.isTv ==> |buf| == 4 + |a.value| + |tail| && Get16(buf, 2) == ToU16(|a.value|))
  {
    var buf := AttributeBytes(a) + tail;
    var t, n := Put16(a.atype % 0x8000 + if a.isTv then 0x8000 else 0), Put16(ToU16(|a.value|));
    assert buf[0] == t[0] && buf[1] == t[1];
    if !a.isTv {
      assert buf[2] == n[0] && buf[3] == n[1];
    }
  }

  /** The key-length attribute of a transform is one of them. */
  lemma AttributeRoundTrip(keyLength: u16)
    ensures KeyLengthOf(ParseAttributes(KeyLengthAttr(keyLength))) == keyLength
  {
    if keyLength > 0 {
      var buf := KeyLengthAttr(keyLength);
      var value := Put16(keyLength);
      assert Get16(buf, 0) == ATTR_KEY_LENGTH + 0x8000 && buf[2..4] == value;
      assert ParseAttributes(buf[4..]) == [];
      assert ParseAttributes(buf) == [Attribute(ATTR_KEY_LENGTH, true, value)];
      assert Get16(value, 0) == keyLength;
    }
  }

  // The loops of the source.

  method MarshalIsakmpAttribute(a: Attribute) returns (buf: bytes)
    ensures buf == AttributeBytes(a)
  {
    hide Put16;
    if a.isTv {
      var b := new byte[4](_ => 0);
      CopyInto(b, 0, Put16(a.atype % 0x8000 + 0x8000));
      if |a.value| >= 2 {
        CopyInto(b, 2, a.value[..2]);
      }
      return b[..];
    }
    var b := new byte[4 + |a.value|](_ => 0);
    CopyInto(b, 0, Put16(a.atype % 0x8000));
    CopyInto(b, 2, Put16(ToU16(|a.value|)));
    CopyInto(b, 4, a.value);
    buf := b[..];
  }

  method MarshalV2Transform(x: Transform, isLast: bool) returns (buf: bytes)
    ensures buf == TransformBytes(x, isLast)
  {
    var attrBytes: bytes := [];
    if x.keyLength > 0 {
      attrBytes := Put16(ATTR_KEY_LENGTH + 0x8000) + Put16(x.keyLength);
    }
    var xfLen := 8 + |attrBytes|;
    var b := new byte[xfLen](_ => 0);
    hide Put16;
    FillTransformHeader(b, x, isLast);
    CopyInto(b, 8, attrBytes);
    buf := b[..];
  }

  /** The fixed fields, into a buffer of zeros. */
  method FillTransformHeader(b: array<byte>, x: Transform, isLast: bool)
    requires 8 <= b.Length <= 0xFFFF && forall i :: 0 <= i < 8 ==> b[i] == 0
    modifies b
    ensures b[..8] == [if isLast then 0 else 3, 0] + Put16(b.Length) + [x.ttype, 0] + Put16(x.id)
    ensures b[8..] == old(b[8..])
  {
    hide Put16;
    b[0] := if isLast then 0 else 3;
    CopyInto(b, 2, Put16(b.Length));
    b[4] := x.ttype;
    CopyInto(b, 6, Put16(x.id));
  }

  method MarshalV2Proposal(p: Proposal, isLast: bool) returns (buf: bytes)
    ensures buf == ProposalBytes(p, isLast)
  {
    hide Put16, ToU16, ToByte, TransformsBytes;
    var xformBytes := MarshalV2Transforms(p.transforms);
    var spiSize := |p.spi|;
    var propLen := 8 + spiSize + |xformBytes|;
    var header := new byte[8](_ => 0);
    header[0] := if isLast then 0 else 2;
    CopyInto(header, 2, Put16(ToU16(propLen)));
    header[4], header[5], header[6], header[7] := p.number, p.protocolId, ToByte(spiSize), ToByte(|p.transforms|);
    assert header[..] == [if isLast then 0 else 2, 0] + Put16(ToU16(propLen))
      + [p.number, p.protocolId, ToByte(spiSize), ToByte(|p.transforms|)];
    buf := Assemble(header[..], p.spi, xformBytes);
  }

  method MarshalV2Transforms(xs: seq<Transform>) returns (xformBytes: bytes)
    ensures xformBytes == TransformsBytes(xs)
  {
    hide TransformBytes;
    xformBytes := [];
    for i := 0 to |xs|
      invariant xformBytes + TransformsBytes(xs[i..]) == TransformsBytes(xs)
    {
      var xfData := MarshalV2Transform(xs[i], i == |xs| - 1);
      assert xs[i..][1..] == xs[i + 1..];
      xformBytes := xformBytes + xfData;
    }
  }

  method MarshalSa(ps: seq<Proposal>) returns (body: bytes)
    ensures body == ProposalsBytes(ps)
  {
    hide ProposalBytes;
    body := [];
    for i := 0 to |ps|
      invariant body + ProposalsBytes(ps[i..]) == ProposalsBytes(ps)
    {
      var propData := MarshalV2Proposal(ps[i], i == |ps| - 1);
      assert ps[i..][1..] == ps[i + 1..];
      body := body + propData;
    }
  }

  lemma SaStep(body: bytes)
    ensures ParseSa(body) ==
      if body == [] then Ok([]) else
      if |body| < 8 || Get16(body, 2) < 8 || Get16(body, 2) > |body| then Err else
      var spiSize: int := body[6];
      if 8 + spiSize > Get16(body, 2) then Err else
      var p := ParsedProposal(body, Get16(body, 2));
      if body[0] == 0 then Ok([p]) else Prepend([p], ParseSa(body[Get16(body, 2)..]))
  {
  }

  /** Ends on every input, and every index it uses lies inside the buffer. */
  method ParseV2Sa(body: bytes) returns (r: Result<seq<Proposal>>)
    ensures r == ParseSa(body)
  {
    hide ParsedProposal, ParseSa;
    var proposals: seq<Proposal> := [];
    var offset := 0;
    assert body[0..] == body;
    PrependNothing(ParseSa(body));
    while offset < |body|
      invariant offset <= |body|
      invariant ParseSa(body) == Prepend(proposals, ParseSa(body[offset..]))
      decreases |body| - offset
    {
      ghost var left := body[offset..];
      SaStep(left);
      if offset + 8 > |body| {
        return Err;
      }
      var lastOrMore := body[offset];
      var propLen: int := Get16(body, offset + 2);
      var spiSize: int := body[offset + 6];
      if propLen < 8 || offset + propLen > |body| {
        return Err;
      }
      if spiSize > 0 {
        if offset + 8 + spiSize > offset + propLen {
          return Err;
        }
      }
      var p := ParseProposalBody(body, offset, propLen, spiSize);
      PrependTwice(proposals, p, ParseSa(left[propLen..]));
      proposals := proposals + [p];
      if lastOrMore == 0 {
        return Ok(proposals);
      }
      assert left[propLen..] == body[offset + propLen..];
      offset := offset + propLen;
    }
    SaStep(body[offset..]);
    assert proposals + [] == proposals;
    r := Ok(proposals);
  }

  lemma PrependNothing<T>(r: Result<seq<T>>)
    ensures Prepend([], r) == r
  {
    if r.Ok? {
      assert [] + r.value == r.value;
    }
  }

  lemma PrependTwice<T>(done: seq<T>, x: T, r: Result<seq<T>>)
    ensures Prepend(done, Prepend([x], r)) == Prepend(done + [x], r)
  {
    if r.Ok? {
      assert done + ([x] + r.value) == done + [x] + r.value;
    }
  }

  method ParseProposalBody(body: bytes, offset: nat, propLen: nat, spiSize: nat) returns (p: Proposal)
    requires offset + 8 <= offset + propLen <= |body| && spiSize == body[offset + 6] && 8 + spiSize <= propLen
    ensures p == ParsedProposal(body[offset..], propLen)
  {
    hide ParseTransforms;
    ghost var left := body[offset..];
    var spi: bytes := [];
    if spiSize > 0 {
      spi := body[offset + 8..offset + 8 + spiSize];
    }
    assert spi == left[8..8 + spiSize];
    var numTransforms: int := body[offset + 7];
    assert body[offset + 8 + spiSize..offset + propLen] == left[8 + spiSize..propLen];
    var transforms := ParseV2Transforms(body[offset + 8 + spiSize..offset + propLen], numTransforms);
    p := Proposal(body[offset + 4], body[offset + 5], spi, transforms, body[offset] == 0);
  }

  lemma TransformsStep(buf: bytes, count: nat)
    ensures var ends := count == 0 || |buf| < 8 || Get16(buf, 2) < 8 || Get16(buf, 2) > |buf|;
      ParseTransforms(buf, count) ==
        if ends then [] else
        [ParsedTransform(buf, Get16(buf, 2))]
        + if buf[0] == 0 then [] else ParseTransforms(buf[Get16(buf, 2)..], count - 1)
  {
  }

  /** The same at an offset, behind what was read before. */
  lemma TransformsAt(buf: bytes, offset: nat, count: nat, done: seq<Transform>)
    requires offset + 8 <= |buf| && count > 0
    ensures var len: int := Get16(buf, offset + 2);
      if len < 8 || offset + len > |buf| then ParseTransforms(buf[offset..], count) == [] else
      done + ParseTransforms(buf[offset..], count)
        == done + [ParsedTransform(buf[offset..], len)]
           + if buf[offset] == 0 then [] else ParseTransforms(buf[offset + len..], count - 1)
  {
    var left, len := buf[offset..], Get16(buf, offset + 2);
    TransformsStep(left, count);
    assert Get16(left, 2) == len && left[0] == buf[offset];
    hide ParseTransforms, ParsedTransform, Get16;
    if 8 <= len && offset + len <= |buf| {
      assert left[len..] == buf[offset + len..];
      var rest := if buf[offset] == 0 then [] else ParseTransforms(buf[offset + len..], count - 1);
      assert done + ([ParsedTransform(left, len)] + rest) == done + [ParsedTransform(left, len)] + rest;
    }
  }

  method ParseV2Transforms(buf: bytes, count: nat) returns (transforms: seq<Transform>)
    ensures transforms == ParseTransforms(buf, count)
  {
    hide ParsedTransform, ParseTransforms, Get16;
    transforms := [];
    var offset, i := 0, 0;
    assert buf[0..] == buf;
    while i < count && offset < |buf|
      invariant 0 <= offset <= |buf| && 0 <= i <= count
      invariant ParseTransforms(buf, count) == transforms + ParseTransforms(buf[offset..], count - i)
    {
      if offset + 8 > |buf| {
        TransformsStep(buf[offset..], count - i);
        return;
      }
      TransformsAt(buf, offset, count - i, transforms);
      var lastOrMore := buf[offset];
      var xfLen: int := Get16(buf, offset + 2);
      if xfLen < 8 || offset + xfLen > |buf| {
        return;
      }
      var x := ParseTransformBody(buf, offset, xfLen);
      transforms := transforms + [x];
      if lastOrMore == 0 {
        return;
      }
      offset, i := offset + xfLen, i + 1;
    }
    TransformsStep(buf[offset..], count - i);
  }

  method ParseTransformBody(buf: bytes, offset: nat, xfLen: nat) returns (x: Transform)
    requires offset + 8 <= offset + xfLen <= |buf|
    ensures x == ParsedTransform(buf[offset..], xfLen)
  {
    hide ParseAttributes;
    assert buf[offset + 8..offset + xfLen] == buf[offset..][8..xfLen];
    var attrs := ParseIsakmpAttributes(buf[offset + 8..offset + xfLen]);
    var keyLength := LastKeyLength(attrs);
    x := Transform(buf[offset + 4], Get16(buf, offset + 6), keyLength, buf[offset] == 0);
  }

  method LastKeyLength(attrs: seq<Attribute>) returns (keyLength: u16)
    ensures keyLength == KeyLengthOf(attrs)
  {
    keyLength := 0;
    for i := 0 to |attrs|
      invariant keyLength == KeyLengthOf(attrs[..i])
    {
      assert attrs[..i + 1][..i] == attrs[..i];
      if attrs[i].atype == ATTR_KEY_LENGTH && attrs[i].isTv && |attrs[i].value| >= 2 {
        keyLength := Get16(attrs[i].value, 0);
      }
    }
    assert attrs[..|attrs|] == attrs;
  }

  lemma AttributesStep(buf: bytes)
    ensures ParseAttributes(buf) ==
      if |buf| < 4 then [] else
      if Get16(buf, 0) >= 0x8000
      then [Attribute(Get16(buf, 0) - 0x8000, true, buf[2..4])] + ParseAttributes(buf[4..])
      else if 4 + Get16(buf, 2) > |buf| then []
      else [Attribute(Get16(buf, 0), false, buf[4..4 + Get16(buf, 2)])] + ParseAttributes(buf[4 + Get16(buf, 2)..])
  {
  }

  method ParseIsakmpAttributes(buf: bytes) returns (attrs: seq<Attribute>)
    ensures attrs == ParseAttributes(buf)
  {
    hide ParseAttributes;
    attrs := [];
    var offset := 0;
    assert buf[0..] == buf;
    while offset + 4 <= |buf|
      invariant offset <= |buf|
      invariant ParseAttributes(buf) == attrs + ParseAttributes(buf[offset..])
    {
      ghost var left := buf[offset..];
      AttributesStep(left);
      var typeField: int := Get16(buf, offset);
      var length, a := 4, Attribute(typeField % 0x8000, true, buf[offset + 2..offset + 4]);
      assert left[2..4] == buf[offset + 2..offset + 4];
      if typeField < 0x8000 {
        var attrLen: int := Get16(buf, offset + 2);
        if offset + 4 + attrLen > |buf| {
          return;
        }
        length, a := 4 + attrLen, Attribute(typeField, false, buf[offset + 4..offset + 4 + attrLen]);
        assert left[4..4 + attrLen] == buf[offset + 4..offset + 4 + attrLen];
      }
      assert ParseAttributes(left) == [a] + ParseAttributes(left[length..]);
      assert attrs + ([a] + ParseAttributes(left[length..])) == attrs + [a] + ParseAttributes(left[length..]);
      assert left[length..] == buf[offset + length..];
      attrs := attrs + [a];
      offset := offset + length;
    }
    AttributesStep(buf[offset..]);
  }
}
