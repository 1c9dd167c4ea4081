/**
 The Internet checksum (RFC 1071) and the ICMP Fragmentation Needed packet built
 with it: both checksums of the packet re-sum to all ones.
 */
module Checksum {
  import opened Bytes

  /** The largest number of 16-bit words a uint32 sum can hold for certain. */
  const MAX_WORDS: nat := 65537

  /** The sum of the big-endian words before index i. */
  function SumTo(data: bytes, i: nat): nat
    requires i <= |data| && i % 2 == 0
  {
    if i == 0 then 0 else SumTo(data, i - 2) + Get16(data, i - 2)
  }

  /** All words, an odd last byte being the high byte of a word. */
  function Total(data: bytes): nat {
    if |data| % 2 == 0 then SumTo(data, |data|)
    else
      var last: int := data[|data| - 1];
      SumTo(data, |data| - 1) + last * 0x100
  }

  /** Word by word from the front: the first byte of a word counts 256, and an odd last byte does. */
  lemma {:induction false} TotalExactly(hi: byte, lo: byte, rest: bytes)
    ensures Total([]) == 0 && Total([hi]) == hi as int * 256
    ensures Total([hi, lo] + rest) == hi as int * 256 + lo as int + Total(rest)
  {
    var data := [hi, lo] + rest;
    var even := |rest| / 2 * 2;
    SumFromFront(hi, lo, rest, even);
    if |rest| % 2 == 1 {
      assert data[|data| - 1] == rest[|rest| - 1];
    }
  }

  lemma {:induction false} SumFromFront(hi: byte, lo: byte, rest: bytes, i: nat)
    requires i <= |rest| && i % 2 == 0
    ensures SumTo([hi, lo] + rest, i + 2) == hi as int * 256 + lo as int + SumTo(rest, i)
  {
    var data := [hi, lo] + rest;
    if i == 0 {
      assert SumTo(data, 0) == 0;
    } else {
      SumFromFront(hi, lo, rest, i - 2);
      assert data[i] == rest[i - 2] && data[i + 1] == rest[i - 1];
    }
  }

  function Fold(sum: nat): u16 {
    if sum > 0xFFFF then Fold(sum % 0x1_0000 + sum / 0x1_0000) else sum
  }

  /** What a receiver computes over a message with its checksum in place. */
  function Resum(data: bytes): u16 { Fold(ToU32(Total(data))) }

  function Complement(x: u16): u16 { 0xFFFF - x }

  /** Folding keeps the value modulo 65535, and only zero folds to zero. */
  lemma {:induction false} FoldMod(sum: nat)
    ensures Fold(sum) % 0xFFFF == sum % 0xFFFF
    ensures Fold(sum) == 0 <==> sum == 0
    ensures Fold(sum) <= sum
    decreases sum
  {
    if sum > 0xFFFF {
      var next := sum % 0x1_0000 + sum / 0x1_0000;
      FoldMod(next);
      ModShift(next, sum, sum / 0x1_0000);
    }
  }

  lemma {:induction false} ModShift(x: nat, y: nat, k: nat)
    requires y == x + 0xFFFF * k
    ensures y % 0xFFFF == x % 0xFFFF
  {
    if k > 0 {
      ModShift(x, y - 0xFFFF, k - 1);
    }
  }

  /** A uint32 sum wraps, and wrapping early or late is the same. */
  lemma AddWraps(x: nat, y: nat)
    ensures ToU32(ToU32(x) + y) == ToU32(x + y)
  {
  }

  lemma {:induction false} SumBound(data: bytes, i: nat)
    requires i <= |data| && i % 2 == 0
    ensures SumTo(data, i) <= i / 2 * 0xFFFF
  {
    if i > 0 {
      SumBound(data, i - 2);
    }
  }

  /** No buffer of at most 65537 words overflows the uint32 sum. */
  lemma NoOverflow(data: bytes)
    requires |data| <= 2 * MAX_WORDS
    ensures Total(data) < 0x1_0000_0000
  {
    SumBound(data, |data| / 2 * 2);
  }

  /** The bound is exact: one word more can overflow. */
  lemma OverflowAbove(data: bytes)
    requires |data| == 2 * (MAX_WORDS + 1) && forall i :: 0 <= i < |data| ==> data[i] == 0xFF
    ensures ToU32(Total(data)) != Total(data)
  {
    AllOnesSum(data, |data|);
  }

  lemma {:induction false} AllOnesSum(data: bytes, i: nat)
    requires i <= |data| && i % 2 == 0 && forall k :: 0 <= k < |data| ==> data[k] == 0xFF
    ensures SumTo(data, i) == i / 2 * 0xFFFF
  {
    if i > 0 {
      AllOnesSum(data, i - 2);
    }
  }

  method IcmpChecksum(data: bytes) returns (r: u16)
    ensures r == Complement(Resum(data))
  {
    SumStarts(data);
    hide Get16, ToU32, SumTo;
    var sum: u32 := 0;
    var i := 0;
    while i + 1 < |data|
      invariant 0 <= i <= |data| && i % 2 == 0
      invariant sum == ToU32(SumTo(data, i))
    {
      SumStep(data, i);
      sum := ToU32(sum + Get16(data, i));
      i := i + 2;
    }
    if |data| % 2 == 1 {
      var last: int := data[|data| - 1];
      AddWraps(SumTo(data, i), last * 0x100);
      sum := ToU32(sum + last * 0x100);
    }
    r := FoldAndComplement(sum);
  }

  lemma SumStarts(data: bytes)
    ensures ToU32(SumTo(data, 0)) == 0
  {
  }

  /** One turn of the summing loop. */
  lemma SumStep(data: bytes, i: nat)
    requires i + 2 <= |data| && i % 2 == 0
    ensures ToU32(SumTo(data, i + 2)) == ToU32(ToU32(SumTo(data, i)) + Get16(data, i))
  {
    hide Get16;
    AddWraps(SumTo(data, i), Get16(data, i));
  }

  /** The header with its checksum field, bytes 10 and 11, read as zero. */
  function Blanked(header: bytes): (r: bytes)
    ensures |r| == |header|
  {
    if |header| >= 12 then WithField(header, 10, 0) else header
  }

  /** The sum leaves out the checksum field and an odd last byte. */
  method Ipv4HeaderChecksum(header: bytes) returns (r: u16)
    ensures r == Complement(Fold(ToU32(SumTo(Blanked(header), |header| / 2 * 2))))
  {
    SumStarts(Blanked(header));
    hide Get16, ToU32, Blanked, SumTo;
    var sum: u32 := 0;
    var i := 0;
    while i + 1 < |header|
      invariant 0 <= i <= |header| && i % 2 == 0
      invariant sum == ToU32(SumTo(Blanked(header), i))
    {
      BlankedWord(header, i);
      SumStep(Blanked(header), i);
      if i != 10 {
        sum := ToU32(sum + Get16(header, i));
      }
      if i == 10 {
        AddWraps(SumTo(Blanked(header), i), 0);
      }
      i := i + 2;
    }
    assert i == |header| / 2 * 2;
    r := FoldAndComplement(sum);
  }

  lemma BlankedWord(header: bytes, i: nat)
    requires i % 2 == 0 && i + 2 <= |header|
    ensures Get16(Blanked(header), i) == if i == 10 then 0 else Get16(header, i)
  {
    if i == 10 {
      Get16Put(header[..10], 0, header[12..]);
    } else if |header| >= 12 {
      FieldElsewhere(header, 10, 0, i);
    }
  }

  method FoldAndComplement(total: u32) returns (r: u16)
    ensures r == Complement(Fold(total))
  {
    var sum: u32 := total;
    while sum > 0xFFFF
      invariant Fold(sum) == Fold(total)
      decreases sum
    {
      sum := sum % 0x1_0000 + sum / 0x1_0000;
    }
    r := Complement(sum);
  }

  /** data with the 16-bit field at that index set to x. */
  function WithField(data: bytes, at: nat, x: u16): (r: bytes)
    requires at + 2 <= |data|
    ensures |r| == |data|
  {
    data[..at] + Put16(x) + data[at + 2..]
  }

  /** Storing the checksum of a message in its zero field makes the message re-sum to all ones. */
  lemma ChecksumHolds(data: bytes, at: nat)
    requires at % 2 == 0 && at + 2 <= |data| <= 2 * MAX_WORDS && Get16(data, at) == 0
    ensures Resum(WithField(data, at, Complement(Resum(data)))) == 0xFFFF
  {
    var c := Complement(Resum(data));
    var stored := WithField(data, at, c);
    hide WithField, Total, Fold, Resum;
    ResumIs(data);
    ResumIs(stored);
    TotalField(data, at, c);
    Complemented(Total(data), Total(stored));
  }

  lemma ResumIs(data: bytes)
    requires |data| <= 2 * MAX_WORDS
    ensures Resum(data) == Fold(Total(data))
  {
    hide Total, Fold;
    NoOverflow(data);
  }

  lemma TotalField(data: bytes, at: nat, x: u16)
    requires at % 2 == 0 && at + 2 <= |data| && Get16(data, at) == 0
    ensures Total(WithField(data, at, x)) == Total(data) + x
  {
    SumField(data, at, x, |data| / 2 * 2);
  }

  lemma Complemented(t: nat, u: nat)
    requires u == t + (0xFFFF - Fold(t))
    ensures Fold(u) == 0xFFFF
  {
    FoldMod(t);
    FoldMod(u);
    if t > 0 {
      AllOnes(t, Fold(t), Fold(u));
    }
  }

  /** Adding the complement of a residue of t gives a multiple of 65535. */
  lemma AllOnes(t: nat, f: nat, g: nat)
    requires 0 < f <= 0xFFFF && f % 0xFFFF == t % 0xFFFF && f <= t
    requires 0 < g <= 0xFFFF && g % 0xFFFF == (t + (0xFFFF - f)) % 0xFFFF
    ensures g == 0xFFFF
  {
    var k := t / 0xFFFF - f / 0xFFFF;
    assert t - f == 0xFFFF * k;
    ModShift(0, t + (0xFFFF - f), k + 1);
  }

  lemma {:induction false} SumField(data: bytes, at: nat, x: u16, i: nat)
    requires at % 2 == 0 && at + 2 <= |data| && Get16(data, at) == 0
    requires i <= |data| && i % 2 == 0
    ensures SumTo(WithField(data, at, x), i) == SumTo(data, i) + if at < i then x else 0
  {
    if i > 0 {
      SumField(data, at, x, i - 2);
      if i - 2 == at {
        Get16Put(data[..at], x, data[at + 2..]);
      } else {
        FieldElsewhere(data, at, x, i - 2);
      }
    }
  }

  lemma FieldElsewhere(data: bytes, at: nat, x: u16, i: nat)
    requires at + 2 <= |data| && i + 2 <= |data| && (i + 2 <= at || at + 2 <= i)
    ensures Get16(WithField(data, at, x), i) == Get16(data, i)
  {
  }

  // The ICMP Destination Unreachable, Fragmentation Needed packet (RFC 792, RFC 1191).

  function Quoted(original: bytes): bytes {
    if |original| > 28 then original[..28] else original
  }

  function IcmpUnsummed(quoted: bytes, nextHopMtu: u16): bytes {
    [3, 4] + Put16(0) + [0, 0] + Put16(nextHopMtu) + quoted
  }

  function Ipv4Unsummed(original: bytes, totalLen: u16): bytes
    requires |original| >= 20
  {
    [0x45, 0] + Put16(totalLen) + [0, 0, 0, 0, 64, 1] + Put16(0) + original[16..20] + original[12..16]
  }

  /**
   The reply to a packet of at least 20 bytes: a 20-byte IPv4 header from the
   packet's destination to its source, and an ICMP message quoting the packet's
   first 28 bytes, with both checksums valid.
   */
  method BuildIcmpFragNeeded(original: bytes, nextHopMtu: u16) returns (r: bytes)
    ensures |original| < 20 ==> |r| == 8 + |original| && Resum(r) == 0xFFFF
    ensures |original| >= 20 ==>
      && |r| == 28 + |Quoted(original)|
      && Resum(r[..20]) == 0xFFFF && Resum(r[20..]) == 0xFFFF
      && r[0] == 0x45 && Get16(r, 2) == |r| && r[8] == 64 && r[9] == 1
      && r[12..16] == original[16..20] && r[16..20] == original[12..16]
      && r[20] == 3 && r[21] == 4 && Get16(r, 26) == nextHopMtu && r[28..] == Quoted(original)
  {
    var origLen := |original|;
    if origLen > 28 {
      origLen := 28;
    }
    var icmp := BuildIcmp(original[..origLen], nextHopMtu);
    r := WrapInIpv4(original, icmp);
    if |original| >= 20 {
      IcmpIn(r, icmp);
    }
  }

  lemma IcmpIn(r: bytes, icmp: bytes)
    requires |r| == 20 + |icmp| && r[20..] == icmp && |icmp| >= 8
    ensures r[20] == icmp[0] && r[21] == icmp[1] && Get16(r, 26) == Get16(icmp, 6) && r[28..] == icmp[8..]
  {
    assert r[20] == r[20..][0] && r[21] == r[20..][1] && r[26] == r[20..][6] && r[27] == r[20..][7];
  }

  method BuildIcmp(quoted: bytes, nextHopMtu: u16) returns (r: bytes)
    requires |quoted| <= 28
    ensures |r| == 8 + |quoted| && Resum(r) == 0xFFFF
    ensures r[0] == 3 && r[1] == 4 && Get16(r, 6) == nextHopMtu && r[8..] == quoted
  {
    var icmp := new byte[8 + |quoted|](_ => 0);
    FillIcmp(icmp, quoted, nextHopMtu);
    IcmpHolds(quoted, nextHopMtu);
    var checksum := IcmpChecksum(icmp[..]);
    IcmpStored(quoted, nextHopMtu, checksum);
    hide Resum, IcmpUnsummed;
    CopyInto(icmp, 2, Put16(checksum));
    r := icmp[..];
  }

  lemma IcmpStored(quoted: bytes, nextHopMtu: u16, checksum: u16)
    ensures var r := WithField(IcmpUnsummed(quoted, nextHopMtu), 2, checksum);
      |r| == 8 + |quoted| && r[0] == 3 && r[1] == 4 && Get16(r, 6) == nextHopMtu && r[8..] == quoted
  {
    var r := WithField(IcmpUnsummed(quoted, nextHopMtu), 2, checksum);
    var mtu := Put16(nextHopMtu);
    assert r[6] == mtu[0] && r[7] == mtu[1];
  }

  method FillIcmp(icmp: array<byte>, quoted: bytes, nextHopMtu: u16)
    requires icmp.Length == 8 + |quoted| && icmp[..] == Zeros(8 + |quoted|)
    modifies icmp
    ensures icmp[..] == IcmpUnsummed(quoted, nextHopMtu)
  {
    icmp[0] := 3;
    icmp[1] := 4;
    CopyInto(icmp, 6, Put16(nextHopMtu));
    CopyInto(icmp, 8, quoted);
  }

  lemma IcmpHolds(quoted: bytes, nextHopMtu: u16)
    requires |quoted| <= 28
    ensures var data := IcmpUnsummed(quoted, nextHopMtu);
      Resum(WithField(data, 2, Complement(Resum(data)))) == 0xFFFF
  {
    var data := IcmpUnsummed(quoted, nextHopMtu);
    ChecksumHolds(data, 2);
  }

  lemma Ipv4Holds(original: bytes, totalLen: u16)
    requires |original| >= 20
    ensures var data := Ipv4Unsummed(original, totalLen);
      Blanked(data) == data && Resum(WithField(data, 10, Complement(Resum(data)))) == 0xFFFF
  {
    var data := Ipv4Unsummed(original, totalLen);
    ChecksumHolds(data, 10);
  }

  method WrapInIpv4(original: bytes, icmp: bytes) returns (r: bytes)
    requires |icmp| <= 36
    ensures |original| < 20 ==> r == icmp
    ensures |original| >= 20 ==>
      && |r| == 20 + |icmp| && r[20..] == icmp
      && Resum(r[..20]) == 0xFFFF
      && r[0] == 0x45 && Get16(r, 2) == |r| && r[8] == 64 && r[9] == 1
      && r[12..16] == original[16..20] && r[16..20] == original[12..16]
  {
    if |original| < 20 {
      return icmp;
    }
    var totalLen := 20 + |icmp|;
    var header := new byte[20](_ => 0);
    FillIpv4Header(header, original, totalLen);
    Ipv4Holds(original, totalLen);
    var checksum := Ipv4HeaderChecksum(header[..]);
    ghost var summed := WithField(Ipv4Unsummed(original, totalLen), 10, checksum);
    Ipv4Stored(original, totalLen, checksum, icmp);
    hide Resum, Ipv4Unsummed, Blanked, Fold, SumTo;
    CopyInto(header, 10, Put16(checksum));
    assert header[..] == summed;
    r := header[..] + icmp;
    assert r[..20] == header[..];
  }

  lemma Ipv4Stored(original: bytes, totalLen: u16, checksum: u16, icmp: bytes)
    requires |original| >= 20
    ensures var r := WithField(Ipv4Unsummed(original, totalLen), 10, checksum) + icmp;
      && |r| == 20 + |icmp| && r[20..] == icmp && r[0] == 0x45 && Get16(r, 2) == totalLen && r[8] == 64 && r[9] == 1
      && r[12..16] == original[16..20] && r[16..20] == original[12..16]
  {
    var h := WithField(Ipv4Unsummed(original, totalLen), 10, checksum);
    var len := Put16(totalLen);
    assert h[2] == len[0] && h[3] == len[1];
    assert h[12..16] == original[16..20] && h[16..20] == original[12..16];
    assert (h + icmp)[12..16] == h[12..16] && (h + icmp)[16..20] == h[16..20];
  }

  method FillIpv4Header(header: array<byte>, original: bytes, totalLen: u16)
    requires header.Length == 20 && |original| >= 20 && header[..] == Zeros(20)
    modifies header
    ensures header[..] == Ipv4Unsummed(original, totalLen)
  {
    header[0] := 0x45;
    CopyInto(header, 2, Put16(totalLen));
    header[8] := 64;
    header[9] := 1;
    CopyInto(header, 12, original[16..20]);
    CopyInto(header, 16, original[12..16]);
  }
}
