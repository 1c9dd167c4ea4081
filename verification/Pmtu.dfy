/**
 Path MTU bookkeeping and the overhead estimate, proved against the packets that
 encryption really produces.
 */
module Pmtu {
  import opened Bytes
  import opened EspPacket

  const MIN_MTU := 576
  const DEFAULT_MTU := 1280
  const NATT_ENCAP := 28

  datatype IntegritySuite = IntegNone | HmacSha1_96 | HmacSha256_128 | HmacSha384_192 | HmacSha512_256

  function IcvSize(integ: IntegritySuite): nat {
    match integ
    case IntegNone => 0
    case HmacSha1_96 => 12
    case HmacSha256_128 => 16
    case HmacSha384_192 => 24
    case HmacSha512_256 => 32
  }

  function EspOverhead(suite: Suite, integ: IntegritySuite, nattEncap: bool): nat {
    ESP_HEADER_LEN
    + (if IsAead(suite) then AEAD_IV_SIZE + 16 + 4 + 2 else CBC_IV_SIZE + CBC_BLOCK_SIZE + 2 + IcvSize(integ))
    + (if nattEncap then NATT_ENCAP else 0)
  }

  /** Whether the packet exceeds the path MTU, and the largest inner packet that does not. */
  function PacketExceedsMtu(innerLen: nat, pathMtu: int, overhead: nat): (bool, nat) {
    var maxInner := if pathMtu - overhead < 0 then 0 else pathMtu - overhead;
    (innerLen > maxInner, maxInner)
  }

  /** A packet is held back exactly when it is longer than the path takes, and what is named is the most it takes. */
  lemma ExceedsExactly(innerLen: nat, pathMtu: int, overhead: nat)
    ensures var (exceeds, largest) := PacketExceedsMtu(innerLen, pathMtu, overhead);
      && (exceeds <==> innerLen > 0 && innerLen + overhead > pathMtu)
      && (largest == 0 || largest + overhead <= pathMtu) && largest + 1 + overhead > pathMtu
      && (exceeds <==> innerLen > largest)
  {
  }

  function Alignment(suite: Suite): nat { if IsAead(suite) then 4 else CBC_BLOCK_SIZE }

  /**
   The estimate is never short, and exceeds the encapsulated packet by the alignment
   less the padding used: at least 1 byte, at most 4 (AEAD) or 16 (CBC).
   */
  lemma OverheadExact(keys: Keys, integ: IntegritySuite, spi: u32, n: u64, iv: bytes, payload: bytes, nextHeader: byte)
    requires keys.Ready() && |iv| == CBC_IV_SIZE
    requires !IsAead(keys.suite) ==> keys.mac.value.icvSize == IcvSize(integ)
    ensures |Packet(keys, spi, n, iv, payload, nextHeader)| + 28
      == |payload| + EspOverhead(keys.suite, integ, true)
         - (Alignment(keys.suite) - PadLength(|payload|, Alignment(keys.suite)))
  {
  }

  /** A packet the check lets through fits the path once it is encrypted and encapsulated. */
  lemma FittingPacketFits(keys: Keys, integ: IntegritySuite, spi: u32, n: u64, iv: bytes, payload: bytes,
                          nextHeader: byte, pathMtu: int)
    requires keys.Ready() && |iv| == CBC_IV_SIZE
    requires !IsAead(keys.suite) ==> keys.mac.value.icvSize == IcvSize(integ)
    requires pathMtu >= 576
    requires !PacketExceedsMtu(|payload|, pathMtu, EspOverhead(keys.suite, integ, true)).0
    ensures |Packet(keys, spi, n, iv, payload, nextHeader)| + 28 < pathMtu
  {
    OverheadExact(keys, integ, spi, n, iv, payload, nextHeader);
  }

  /** And one held back would have come within 16 bytes of the path's limit, or over it. */
  lemma RefusedIsNearlyFull(keys: Keys, integ: IntegritySuite, spi: u32, n: u64, iv: bytes, payload: bytes,
                            nextHeader: byte, pathMtu: int)
    requires keys.Ready() && |iv| == CBC_IV_SIZE
    requires !IsAead(keys.suite) ==> keys.mac.value.icvSize == IcvSize(integ)
    requires PacketExceedsMtu(|payload|, pathMtu, EspOverhead(keys.suite, integ, true)).0
    ensures |Packet(keys, spi, n, iv, payload, nextHeader)| + 28 > pathMtu - 16
  {
    OverheadExact(keys, integ, spi, n, iv, payload, nextHeader);
  }

  /** Peers are keyed by their printed address. */
  class PmtuManager {
    const defaultMtu: int
    var byPeer: map<string, int>

    /** No MTU this manager hands out is below the minimum. */
    ghost predicate Valid()
      reads this
    {
      defaultMtu >= MIN_MTU && forall peer :: peer in byPeer ==> byPeer[peer] >= MIN_MTU
    }

    constructor (requested: int)
      ensures Valid() && byPeer == map[]
      ensures defaultMtu == if requested < 576 then 1280 else requested
    {
      defaultMtu := if requested < MIN_MTU then DEFAULT_MTU else requested;
      byPeer := map[];
    }

    method GetMtu(peer: string) returns (mtu: int)
      requires Valid()
      ensures mtu == (if peer in byPeer then byPeer[peer] else defaultMtu) && mtu >= 576
    {
      if peer in byPeer {
        return byPeer[peer];
      }
      mtu := defaultMtu;
    }

    method SetMtu(peer: string, mtu: int)
      requires Valid()
      modifies this
      ensures Valid()
      ensures byPeer == old(byPeer)[peer := if mtu < 576 then 576 else mtu]
    {
      var enforced := mtu;
      if enforced < MIN_MTU {
        enforced := MIN_MTU;
      }
      byPeer := byPeer[peer := enforced];
    }
  }
}
