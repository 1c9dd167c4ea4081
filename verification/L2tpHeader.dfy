/** L2TPv2 message headers (section 3.1 of RFC 2661). */
module L2tpHeader {
  import opened Bytes

  const MIN_CONTROL_HEADER_LEN := 12
  const MIN_DATA_HEADER_LEN := 6

  datatype Header = Header(isControl: bool, hasLength: bool, hasSequence: bool, hasOffset: bool, priority: bool,
                           length: u16, tunnelId: u16, sessionId: u16, ns: u16, nr: u16)

  function Flag(isSet: bool, bit: nat): nat { if isSet then bit else 0 }

  /** The flag word: the type, length, sequence, offset and priority bits over version 2. */
  function FlagWord(t: bool, l: bool, s: bool, o: bool, p: bool): u16 {
    Flag(t, 0x8000) + Flag(l, 0x4000) + Flag(s, 0x0800) + Flag(o, 0x0200) + Flag(p, 0x0100) + 2
  }

  predicate Has(flags: u16, bit: nat)
    requires bit > 0
  {
    flags / bit % 2 == 1
  }

  lemma FlagsRead(t: bool, l: bool, s: bool, o: bool, p: bool)
    ensures var f := FlagWord(t, l, s, o, p);
      f % 16 == 2 && Has(f, 0x8000) == t && Has(f, 0x4000) == l && Has(f, 0x0800) == s
      && Has(f, 0x0200) == o && Has(f, 0x0100) == p
  {
  }

  /** A control header always carries its length and sequence fields. */
  function Serialized(h: Header): bytes {
    var l, s := h.isControl || h.hasLength, h.isControl || h.hasSequence;
    Put16(FlagWord(h.isControl, l, s, h.hasOffset, h.priority))
    + (if l then Put16(h.length) else [])
    + Put16(h.tunnelId) + Put16(h.sessionId)
    + (if s then Put16(h.ns) + Put16(h.nr) else [])
  }

  method SerializeHeader(h: Header) returns (r: bytes)
    ensures r == Serialized(h)
  {
    var l, s := h.isControl || h.hasLength, h.isControl || h.hasSequence;
    var size := 2;
    if l { size := size + 2; }
    size := size + 4;
    if s { size := size + 4; }
    var buf := new byte[size](_ => 0);
    CopyInto(buf, 0, Put16(FlagWord(h.isControl, l, s, h.hasOffset, h.priority)));
    var offset := 2;
    if l {
      CopyInto(buf, offset, Put16(h.length));
      offset := offset + 2;
    }
    ghost var done := Put16(FlagWord(h.isControl, l, s, h.hasOffset, h.priority)) + if l then Put16(h.length) else [];
    assert buf[..offset] == done;
    CopyInto(buf, offset, Put16(h.tunnelId) + Put16(h.sessionId));
    offset := offset + 4;
    assert buf[..offset] == done + (Put16(h.tunnelId) + Put16(h.sessionId));
    if s {
      CopyInto(buf, offset, Put16(h.ns) + Put16(h.nr));
    }
    r := buf[..];
  }

  /** The header and the payload behind it. */
  function Parse(data: bytes): Result<(Header, bytes)> {
    if |data| < MIN_DATA_HEADER_LEN then Err else
    var flags := Get16(data, 0);
    if flags % 16 != 2 then Err else
    var t, l, s := Has(flags, 0x8000), Has(flags, 0x4000), Has(flags, 0x0800);
    var o, p := Has(flags, 0x0200), Has(flags, 0x0100);
    if t && (!l || !s) then Err else
    var length: u16 := if l then Get16(data, 2) else 0;
    if l && length > |data| then Err else
    var at := if l then 4 else 2;
    if |data| < at + 4 then Err else
    if s && |data| < at + 8 then Err else
    var h := Header(t, l, s, o, p, length, Get16(data, at), Get16(data, at + 2),
                    if s then Get16(data, at + 4) else 0, if s then Get16(data, at + 6) else 0);
    var behind := if s then at + 8 else at + 4;
    if o && |data| < behind + 2 then Err else
    var start := if o then behind + 2 + Get16(data, behind) else behind;
    var end := if l then length as int else |data|;
    if start > end then Err else Ok((h, data[start..end]))
  }

  /** BuildControlHeader: the length field is computed in uint16. */
  function ControlHeader(tunnelId: u16, ns: u16, nr: u16, payloadLen: nat): Header {
    Header(true, true, true, false, false, ToU16(MIN_CONTROL_HEADER_LEN + payloadLen), tunnelId, 0, ns, nr)
  }

  function ControlMessage(tunnelId: u16, ns: u16, nr: u16, payload: bytes): bytes {
    Serialized(ControlHeader(tunnelId, ns, nr, |payload|)) + payload
  }

  /** Flags T, L and S with version 2, then length, tunnel, session 0, Ns and Nr (section 3.1 of RFC 2661). */
  lemma ControlMessageIs(tunnelId: u16, ns: u16, nr: u16, payload: bytes)
    requires MIN_CONTROL_HEADER_LEN + |payload| <= 0xFFFF
    ensures var len := 12 + |payload|;
      ControlMessage(tunnelId, ns, nr, payload) ==
        [0xC8, 0x02, len / 256, len % 256, tunnelId / 256, tunnelId % 256, 0, 0,
         ns / 256, ns % 256, nr / 256, nr % 256] + payload
  {
    assert FlagWord(true, true, true, false, false) == 0xC802;
  }

  /**
   What is read of any bytes: the flags T, L, S and O at their bits, the version in the low
   four, and the fields they announce one after the other; or an error.
   */
  lemma ParsedExactly(data: bytes)
    ensures |data| < 6 || data[1] % 16 != 2 ==> Parse(data) == Err
    ensures |data| >= 6 && data[1] % 16 == 2 ==>
      var t, l, s := data[0] / 128 == 1, data[0] / 64 % 2 == 1, data[0] / 8 % 2 == 1;
      var o, at := data[0] / 2 % 2 == 1, if l then 4 else 2;
      var behind := if s then at + 8 else at + 4;
      var length := data[2] as int * 256 + data[3] as int;
      && ((t && !(l && s)) || (l && length > |data|) || behind > |data| || (o && behind + 2 > |data|) ==>
            Parse(data) == Err)
      && (Parse(data).Ok? ==>
            var (h, payload) := Parse(data).value;
            var start := if o then behind + 2 + (data[behind] as int * 256 + data[behind + 1] as int) else behind;
            var end := if l then length else |data|;
            && h.isControl == t && h.hasLength == l && h.hasSequence == s && h.hasOffset == o
            && h.tunnelId == data[at] as int * 256 + data[at + 1] as int
            && h.sessionId == data[at + 2] as int * 256 + data[at + 3] as int
            && (s ==> h.ns == data[at + 4] as int * 256 + data[at + 5] as int
                      && h.nr == data[at + 6] as int * 256 + data[at + 7] as int)
            && start <= end <= |data| && payload == data[start..end])
      && (Parse(data).Err? ==>
            || (t && !(l && s)) || (l && length > |data|) || behind > |data| || (o && behind + 2 > |data|)
            || (if o then behind + 2 + (data[behind] as int * 256 + data[behind + 1] as int) else behind)
               > (if l then length else |data|))
  {
    if |data| >= 6 {
      FlagBits(data[0], data[1]);
    }
  }

  lemma FlagBits(hi: byte, lo: byte)
    ensures var f: u16 := hi as int * 256 + lo as int;
      && f % 16 == lo % 16 && Has(f, 0x8000) == (hi / 128 == 1) && Has(f, 0x4000) == (hi / 64 % 2 == 1)
      && Has(f, 0x0800) == (hi / 8 % 2 == 1) && Has(f, 0x0200) == (hi / 2 % 2 == 1)
  {
  }

  /** A control message parses back to its numbers and payload whenever its length fits 16 bits. */
  lemma ControlMessageParses(tunnelId: u16, ns: u16, nr: u16, payload: bytes)
    requires MIN_CONTROL_HEADER_LEN + |payload| <= 0xFFFF
    ensures Parse(ControlMessage(tunnelId, ns, nr, payload))
      == Ok((ControlHeader(tunnelId, ns, nr, |payload|), payload))
  {
    SerializedParses(ControlHeader(tunnelId, ns, nr, |payload|), payload);
  }

  /**
   Parsing undoes serializing for every header without an offset field whose length,
   when present, is the message's.
   */
  lemma SerializedParses(h: Header, payload: bytes)
    requires !h.hasOffset && (h.isControl ==> h.hasLength && h.hasSequence)
    requires if h.hasLength then h.length == |Serialized(h)| + |payload| else h.length == 0
    requires !h.hasSequence ==> h.ns == 0 && h.nr == 0
    ensures Parse(Serialized(h) + payload) == Ok((h, payload))
  {
    FlagsRead(h.isControl, h.hasLength, h.hasSequence, false, h.priority);
    Layout(h, payload);
    Behind(Serialized(h), payload);
  }

  lemma Behind(head: bytes, rest: bytes)
    ensures (head + rest)[|head|..|head + rest|] == rest
  {
  }

  lemma Layout(h: Header, payload: bytes)
    requires !h.hasOffset && (h.isControl ==> h.hasLength && h.hasSequence)
    ensures var data, at := Serialized(h) + payload, if h.hasLength then 4 else 2;
      && |Serialized(h)| == (if h.hasSequence then at + 8 else at + 4)
      && Get16(data, 0) == FlagWord(h.isControl, h.hasLength, h.hasSequence, false, h.priority)
      && (h.hasLength ==> Get16(data, 2) == h.length)
      && Get16(data, at) == h.tunnelId && Get16(data, at + 2) == h.sessionId
      && (h.hasSequence ==> Get16(data, at + 4) == h.ns && Get16(data, at + 6) == h.nr)
  {
    var data := Serialized(h) + payload;
    var flags := Put16(FlagWord(h.isControl, h.hasLength, h.hasSequence, false, h.priority));
    var len := if h.hasLength then Put16(h.length) else [];
    var tid, sid, ns, nr := Put16(h.tunnelId), Put16(h.sessionId), Put16(h.ns), Put16(h.nr);
    var seqs := if h.hasSequence then ns + nr else [];
    assert data == flags + len + tid + sid + seqs + payload;
    var at := if h.hasLength then 4 else 2;
    assert data[0] == flags[0] && data[1] == flags[1];
    assert h.hasLength ==> data[2] == len[0] && data[3] == len[1];
    assert data[at] == tid[0] && data[at + 1] == tid[1] && data[at + 2] == sid[0] && data[at + 3] == sid[1];
    if h.hasSequence {
      assert data[at + 4] == ns[0] && data[at + 5] == ns[1] && data[at + 6] == nr[0] && data[at + 7] == nr[1];
    }
  }

  /** data with bytes 10 and 11, where a control message has its Nr, overwritten. */
  function WithNr(data: bytes, nr: u16): (d: bytes)
    ensures |d| == |data|
  {
    if |data| < MIN_CONTROL_HEADER_LEN then data else data[10 := nr / 0x100][11 := nr % 0x100]
  }

  /** The patch makes of a control message the same message with the new Nr. */
  lemma PatchedMessage(tunnelId: u16, ns: u16, nr: u16, payload: bytes, x: u16)
    ensures WithNr(ControlMessage(tunnelId, ns, nr, payload), x) == ControlMessage(tunnelId, ns, x, payload)
  {
    var h := ControlHeader(tunnelId, ns, nr, |payload|);
    var flags := Put16(FlagWord(true, true, true, false, false));
    var head := flags + Put16(h.length) + Put16(tunnelId) + Put16(0) + Put16(ns);
    assert ControlMessage(tunnelId, ns, nr, payload) == head + Put16(nr) + payload;
    assert ControlMessage(tunnelId, ns, x, payload) == head + Put16(x) + payload;
  }

  lemma PatchedTwice(data: bytes, x: u16, y: u16)
    ensures WithNr(WithNr(data, x), y) == WithNr(data, y)
  {
  }
}
