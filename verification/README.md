# Verification of the user-space IPsec and L2TP engines

A Dafny model of the protocol engines of SWAN-NG, and proofs about it. Check all
of it with `dafny verify dfyconfig.toml`.

## What is modelled

The model has the shape of the source: objects whose methods update fields are
classes, loops over buffers are loops with invariants, and each method is proved
against a function on values. The main theorems are about those functions, over
every input or every run.

- **ESP** (`Words`, `Replay`, `EspPacket`, `EspChannel`, `Checksum`, `Pmtu`): the
  anti-replay bitmap refines a plain set; the channel built with it delivers at most
  once over a hostile network (sections 3.3.3 and 3.4.3 of RFC 4303); the ICMP reply
  has valid checksums; what the MTU check lets through fits.
- **L2TP control channel** (`L2tpHeader`, `Control`, `ControlNetwork`): two endpoints
  over a lossy, duplicating, reordering network accept exactly once and in order
  (section 5.8 of RFC 2661).
- **IKE** (`SaPayload`, `IkePayload`, `IkeMessage`, `SkPayload`, `Fragment`,
  `ProposalSelection`): printers and parsers of RFC 7296 undo each other, encrypted
  payloads open to what was sealed, fragments of RFC 7383 reassemble in any order,
  negotiation picks the least pair.
- **PPP sessions** (`Ppp`, `ConfigOptions`, `ConfigWire`, `Lcp`, `LcpWire`, `Ipcp`, `IpcpWire`,
  `Chap`, `Session`, `Conversation`): option negotiation converges and a known user gets
  through; nothing is forwarded before negotiation and authentication.
- **Addresses** (`Ipam`, `L2tpServer`): the pool returns the least free address, and
  the server's sessions hold exactly the allocated ones.

Assumptions. Ciphers, MACs and MD5 are functions given as parameters: opening inverts
sealing, decryption inverts encryption, a MAC is verified by computing it again. What the
cipher opens, and what ends in its own MAC, was made by the sender. Random numbers and the
time are parameters. Every method guarded by a mutex is one atomic step. For the L2TP
network: at most 32767 messages unacknowledged per side (`Send` does not consult the peer's
window, so the source does not ensure it), no message in flight a full circle of 65536
numbers behind its receiver and no acknowledgement more than 32769 behind, and payloads of 1
to 65523 bytes.
`ControlNetwork.OldNumbersAlias` and `Control.ComparisonExact` show why.

## What came out

Statements that hold only under a condition are proved with the exact condition:

- A requested replay window above 2^32 - 64 rounds to size 0 (`Replay.RoundedSizeSuffices`).
- The 64-bit ESP counter wraps after 2^64 calls, sending resumes and an AEAD nonce repeats
  (`EspChannel.NumbersDistinctUntilWrap`, `EspChannel.NoncesDistinctExactly`).
- A full CBC fragment is 16 to 31 bytes over the limit (`Fragment.CbcFragmentFits`); 65535
  fragments never reassemble (`Fragment.ReassemblyExactly`); the inner payload type prepared
  for the first fragment is overwritten when the message is marshalled
  (`Fragment.FirstTypeNotSent`).
- When we offer several transforms of a type that the peer accepts, the key schedule gets the
  last and the wire the first (`ProposalSelection.RecordsAgreeExactly`).
- A Protocol-Reject moves the LCP identifier on, so the acknowledgment of the request before
  it is dropped (`Lcp.AckAfterRejectsExactly`).
- Suggestions of 65532 to 65535 bytes wrap the answer's 16-bit length to less than a header
  and bring the LCP handler down (`Lcp.PanicsExactly`, `LcpWire.LongRequestPanics`);
  negotiation is sure to end for requests of up to 52425 option bytes and no further
  (`LcpWire.LcpConvergesExactly`).
- A Notify SPI size of 252 or more and a selector length below 7 bring the payload parser down
  (`IkePayload.BodyPanicsExactly`, `IkeMessage.ChainPanicsExactly`).
- A fragmented message parses only if fragment 1 arrives last
  (`Fragment.FragmentedChainParsesExactly`); a second set of copies is handed on a second time
  (`Fragment.ArrivalsExactly`, `Fragment.CompletedAgain`).
- A peer that asks for an address configured as 0.0.0.0 is never acknowledged, and every other
  peer is (`IpcpWire.IpcpAckedExactly`, `Ipcp.ZeroNeverAcked`).
- A Terminate-Request does not stop a session's traffic (`Session.TerminatedStillForwards`).
- CHAP compares no identifier (`Chap.AnyIdentifierAccepted`), and LCP no algorithm
  (`LcpWire.AnyChapAlgorithmAcked`).
- A session whose identifier is taken by a newer one, or whose tunnel loses its key to a newer
  tunnel, can get out of reach with its address (`L2tpServer.ReusedIdentifierKeepsAddress`,
  `L2tpServer.DisplacedTunnelKeepsAddress`), and no later message brings it back
  (`L2tpServer.Server.Route`, `L2tpServer.Server.HandleNewTunnel`).

Where the source's own comments differ from its code the code is followed: the comment at
internal/l2tp/lcp.go:227 wants everything but CHAP MD5 refused, while any CHAP algorithm is
acknowledged; the one at internal/ike/fragment.go:206 counts one byte of padding per
fragment, while CBC adds two paddings.

## Model

| member | source | states |
|---|---|---|
| Words.SetBits | internal/esp/replay.go:125-132 | Or-ing a word with one shifted to bit b changes bit b to set and no other bit of the 64 |
| Words.TestBit | internal/esp/replay.go:77-85 | And-ing a word with one shifted to bit b is non-zero exactly when bit b is set |
| Words.CarryBits | internal/esp/replay.go:158-166 | One word of the in-word pass: bit i comes from bit i - n of the word or, below n, from the top of the word before it |
| Words.ShlBits | internal/esp/replay.go:158-166 | A uint64 shifted left by n has bit i - n at place i and zeros below; what leaves the word is lost |
| Replay.RoundedSizeSuffices | internal/esp/replay.go:23-37 | The requested size, 128 for none, rounded up to whole words covers the request if and only if that is at most 2^32 - 64, by less than a word more; above that the uint32 wraps and the size is 0 |
| Replay.AcceptsExactly | internal/esp/replay.go:40-122 | After any sequence of advances Check accepts exactly the non-zero numbers that are newer than every advanced one, or less than the window size behind the newest and never advanced |
| Replay.History | internal/esp/replay.go:88-122 | After any sequence of advances the seen set is exactly the non-zero numbers advanced and last is their maximum |
| Replay.WordsMoved | internal/esp/replay.go:143-155 | Moving whole words up by k and zeroing the low ones shifts the flat bit string by 64k |
| Replay.BitsMoved | internal/esp/replay.go:157-166 | Shifting every word with the carry from the one below shifts the flat bit string by s |
| Replay.ShiftedTwice | internal/esp/replay.go:136-167 | Two shifts of the flat bit string one after the other are one shift by the sum, so the two passes make up the whole shift |
| Replay.ReplayWindow.constructor | internal/esp/replay.go:23-37 | A new window has the rounded size and refines the empty set |
| Replay.ReplayWindow.Check | internal/esp/replay.go:46-86 | Reading one bit of one word decides membership in the set of advanced numbers, with the source's branches for zero, the first packet, newer and too old |
| Replay.ReplayWindow.Advance | internal/esp/replay.go:90-122 | The bitmap keeps refining the set: bit d is set exactly when lastSeq - d was advanced; lastSeq never decreases |
| Replay.ReplayWindow.SetBit | internal/esp/replay.go:125-132 | Exactly the named bit of the flat bitmap becomes set; an offset outside the bitmap changes nothing |
| Replay.ReplayWindow.ShiftBitmap | internal/esp/replay.go:136-167 | The in-place shift equals shifting the flat bit string by n and filling with zeros, for every n including n >= size |
| Replay.ReplayWindow.ShiftWords | internal/esp/replay.go:143-155 | The descending whole-word loop reads every word before it is overwritten and its index never wraps below zero |
| Replay.ReplayWindow.ShiftWithCarry | internal/esp/replay.go:157-166 | The descending carry loop shifts the flat bit string by the bit count in place |
| EspPacket.StripUndoesTrailer | internal/esp/packet.go:375-470 | Stripping the ESP trailer gives back payload and next header, for every payload and every alignment the pad-length byte can describe |
| EspPacket.BuildTrailer | internal/esp/packet.go:375-434 | The built plaintext is the payload, the padding bytes 1, 2, 3 and so on up to the alignment, the pad length and the next header |
| EspPacket.PacketOpens | internal/esp/packet.go:69-368 | With ideal ciphers a packet the sender makes authenticates at the receiver under its own low sequence number and opens to the payload and next header sent (a dummy packet to no payload), in both modes |
| EspPacket.AuthenticExactly | internal/esp/packet.go:196-368 | A packet is let through to the window if and only if the cipher opens it with its first eight bytes as associated data (AEAD), or its last bytes are the MAC of all the others (CBC), and its length is sufficient and block-aligned; number and plaintext are what the fields say |
| EspPacket.PacketLayout | internal/esp/packet.go:69-174 | SPI, number and IV stand at their bytes, and what the cipher protects is the payload with its trailer |
| EspPacket.TrailerLayout | internal/esp/packet.go:375-434 | The trailer: padding 1, 2, 3, ... to the next multiple of the alignment and no further, its length, the next header |
| EspPacket.InnerExactly | internal/esp/packet.go:438-470 | All but the stated trailer is handed up, nothing of a dummy packet; an error exactly when the stated padding exceeds the plaintext |
| EspPacket.SecurityAssociation.Encrypt | internal/esp/packet.go:55-66 | Every call draws the next 64-bit number; the result is that number's packet, or an error once it passes 2^32 - 1 without extended numbers |
| EspPacket.SecurityAssociation.EncryptAead | internal/esp/packet.go:69-117 | Header, IV and sealed plaintext laid out in the buffer are the packet of the number drawn |
| EspPacket.SecurityAssociation.EncryptCbc | internal/esp/packet.go:122-174 | Header, IV, ciphertext and MAC laid out in the buffer are the packet of the number drawn |
| EspPacket.SecurityAssociation.Decrypt | internal/esp/packet.go:182-193 | The result and the window afterwards are those of the specification: replay check, authentication, then the window advances, then the trailer is read; what is not intact is an error and leaves the window as it was |
| EspPacket.SecurityAssociation.DecryptAead | internal/esp/packet.go:196-278 | Offsets, order of the checks and every error branch of the AEAD receiver; nothing is accepted that the cipher does not open |
| EspPacket.SecurityAssociation.DecryptCbc | internal/esp/packet.go:282-368 | The same for CBC with the MAC verified before decryption; nothing is accepted that does not end in the MAC of all before it |
| EspChannel.AtMostOnce | internal/esp/packet.go:69-368 | For every run with at most 2^64 calls of Encrypt, over a network that drops, duplicates, reorders and forges any number of packets, each delivery is a message the sender sent under that number, and no number is delivered twice |
| EspChannel.ArrivalExactly | internal/esp/packet.go:182-368 | A packet that is not on the wire changes nothing at all, the window included; a genuine one is delivered exactly when it was not delivered before and is less than the window size behind the newest |
| EspChannel.NoncesNeverRepeat | internal/esp/packet.go:69-117 | In every run with at most 2^64 calls of Encrypt no two packets on the wire carry the same AEAD nonce |
| EspChannel.NoncesDistinctExactly | internal/esp/packet.go:55-117 | In every run the AEAD nonces on the wire are distinct if and only if the run calls Encrypt at most 2^64 times: call 2^64 + 1 sends the first call's nonce again |
| EspChannel.NonceBoundExact | internal/esp/packet.go:55-117 | The nonces of all runs with at most so many calls of Encrypt are distinct if and only if that many is at most 2^64 |
| EspChannel.NumbersDistinctUntilWrap | internal/esp/packet.go:55-80 | In every run the sequence numbers of the calls that send are distinct if and only if the run calls Encrypt at most 2^64 times: the counter then wraps and sending resumes |
| EspChannel.SeqNumIs | internal/esp/packet.go:55-80 | The counter after any run is the number of calls of Encrypt modulo 2^64, refused calls counted and arrivals not |
| EspChannel.RunInv | internal/esp/packet.go:55-368 | Invariant of every run: wire packet i is message i under number i + 1 (0 for the one sent at the wrap), and the window has seen exactly the delivered numbers |
| EspChannel.SendStep | internal/esp/packet.go:55-174 | A call of Encrypt on the association object is the sender's step of the channel: counter, packet and message agree |
| EspChannel.ArriveStep | internal/esp/packet.go:182-368 | A call of Decrypt is the receiver's step: window and delivery agree, and what it accepts authenticates |
| Checksum.IcmpChecksum | internal/esp/pmtu.go:168-184 | The loop computes the complement of the folded 32-bit sum of the big-endian words, an odd last byte counting as a high byte |
| Checksum.Ipv4HeaderChecksum | internal/esp/pmtu.go:187-204 | The loop skips the checksum field and computes the complement of the sum of the header with that field zero |
| Checksum.FoldAndComplement | internal/esp/pmtu.go:178-183 | The fold loop ends and keeps the folded value |
| Checksum.TotalExactly | internal/esp/pmtu.go:168-176 | The sum word by word: the first byte of each counts 256, and so does an odd last byte |
| Checksum.FoldMod | internal/esp/pmtu.go:178-180 | Folding preserves the value modulo 65535, and only zero folds to zero |
| Checksum.NoOverflow | internal/esp/pmtu.go:168-176 | No buffer of at most 65537 words overflows the uint32 sum |
| Checksum.OverflowAbove | internal/esp/pmtu.go:168-176 | One word more overflows it when all bytes are ones, so the bound is exact |
| Checksum.ChecksumHolds | internal/esp/pmtu.go:168-204 | Storing the checksum of a message in its zero field makes the message re-sum to 0xFFFF, for every content |
| Checksum.BuildIcmpFragNeeded | internal/esp/pmtu.go:100-129 | For a packet of at least 20 bytes the reply is a 20-byte IPv4 header with the addresses exchanged and an ICMP message with type, code, MTU and the first 28 bytes, and both checksums re-sum to 0xFFFF; a shorter packet gives the bare ICMP message |
| Checksum.WrapInIpv4 | internal/esp/pmtu.go:134-165 | The header fields, the total length and a header that re-sums to 0xFFFF |
| Pmtu.OverheadExact | internal/esp/pmtu.go:71-89 | The estimate is never short: it exceeds the encapsulated packet Encrypt makes by the alignment less the padding used, so by 1 to 4 bytes (AEAD) or 1 to 16 (CBC) |
| Pmtu.FittingPacketFits | internal/esp/pmtu.go:208-219 | Whatever the check lets through, Encrypt's packet with its NAT-T encapsulation is below the path MTU, for every suite, integrity and length |
| Pmtu.ExceedsExactly | internal/esp/pmtu.go:208-219 | A packet is held back if and only if it is not empty and with the overhead longer than the path MTU, and the maximum named is the longest that is not |
| Pmtu.RefusedIsNearlyFull | internal/esp/pmtu.go:208-219 | A packet held back would have come out within 16 bytes of the path MTU or above it |
| Pmtu.PmtuManager.SetMtu | internal/esp/pmtu.go:48-57 | The recorded MTU is raised to the minimum and no other peer's changes |
| Pmtu.PmtuManager.GetMtu | internal/esp/pmtu.go:35-44 | The recorded MTU or the default, never below 576 |
| L2tpHeader.SerializeHeader | internal/l2tp/packet.go:222-282 | The offset-driven writer produces the fields the flags announce, each at its place |
| L2tpHeader.SerializedParses | internal/l2tp/packet.go:128-282 | Parsing a serialized header without the offset flag gives the header and the payload back |
| L2tpHeader.ControlMessageParses | internal/l2tp/packet.go:287-301 | A control message parses to its tunnel, Ns, Nr and payload for every payload the length field can hold |
| L2tpHeader.ControlMessageIs | internal/l2tp/packet.go:222-301 | A control message byte by byte: 0xC802, length, tunnel, session 0, Ns, Nr, payload |
| L2tpHeader.ParsedExactly | internal/l2tp/packet.go:128-219 | For any bytes: the flags at their bits, the fields they announce one after the other and the payload behind them, and exactly when there is an error |
| L2tpHeader.FlagsRead | internal/l2tp/packet.go:128-150 | Each flag is read back from the flag word independently of the others |
| L2tpHeader.PatchedMessage | internal/l2tp/control.go:252-258 | Patching bytes 10 and 11 of a queued control message turns it into the same message with the new Nr |
| Control.ComparisonExact | internal/l2tp/control.go:287-291 | The 16-bit comparison is right for every message in the queue if and only if the acknowledgement is less than half the circle above the oldest and at most half the circle below the newest |
| Control.AckRemovesPrefix | internal/l2tp/control.go:198-212 | With at most 32767 outstanding, an acknowledgement removes exactly the prefix of the queue below it, and a stale one removes nothing |
| Control.BumpKeepsPace | internal/l2tp/control.go:218-273 | A queued message is due exactly when its last transmission is as long ago as its place in the schedule of 1, 2, 4, 8, 8 and 8 seconds says, and a retransmission moves it one place on and carries the current Nr |
| Control.DeadOnlyAfterAllRetries | internal/l2tp/control.go:218-273 | A message is given up if and only if it was sent again five times, the last time 8 seconds ago or earlier; that is 31 seconds after its first transmission at the least |
| Control.PacedThroughout | internal/l2tp/control.go:114-273 | After any sequence of sends, receives and scans that found no dead message, the queue agrees message by message with a record kept beside it: payload, number, first and last transmission, how often again |
| Control.ScansExactly | internal/l2tp/control.go:114-273 | In every run a scan sends again, with the current Nr, exactly the messages whose last transmission is 1, 2, 4, 8 or 8 seconds past by how often they were sent again, up to the first one given up; it finds the tunnel dead exactly when some message was sent again five times, the last time 8 seconds ago or earlier |
| Control.NoTimeoutWithin31Seconds | internal/l2tp/control.go:114-273 | In every run the scan that finds the tunnel dead comes at least 31 seconds after the call of Send of the message it gives up, whatever arrives and whenever the scans come |
| Control.PendingMessage.Scan | internal/l2tp/control.go:218-273 | The loop body of the scan: not due, dead after five retries, or sent again with a doubled interval and a fresh Nr |
| Control.ControlChannel.Send | internal/l2tp/control.go:114-145 | The message goes out under the next Ns and joins the end of the queue |
| Control.ControlChannel.SendZlb | internal/l2tp/control.go:149-160 | An acknowledgement without a body uses up no number and is not queued |
| Control.ControlChannel.Receive | internal/l2tp/control.go:166-195 | Acknowledges first, then accepts exactly the message with the expected Ns |
| Control.ControlChannel.AcknowledgeUpTo | internal/l2tp/control.go:198-212 | Keeps exactly the messages not below Nr, in order, the same objects |
| Control.ControlChannel.CheckRetransmit | internal/l2tp/control.go:218-273 | Everything due before the first dead message is sent again and rescheduled; nothing after it is touched; alive is false exactly when there is one |
| ControlNetwork.ExactlyOnceInOrder | internal/l2tp/control.go:114-273 | In every run of two channels over a network that drops, duplicates and reorders, what each side accepted is a prefix of what the other passed to Send, and what left a queue was accepted, across wraparound of the 16-bit numbers |
| ControlNetwork.ArrivalExactly | internal/l2tp/control.go:166-212 | An arriving message is accepted exactly when it is the next one, and exactly the messages below its Nr leave the queue |
| ControlNetwork.StepInv | internal/l2tp/control.go:114-273 | Every send, arrival and retransmission scan keeps the queue equal to the interval of unacknowledged numbers and every packet in the air a genuine message |
| ControlNetwork.RetransmissionsAreResent | internal/l2tp/control.go:218-273 | What a tick of the network model puts in the air is exactly what the channel's scan sends |
| ControlNetwork.OldNumbersAlias | internal/l2tp/control.go:166-195 | Without the freshness assumption an old message is taken for the next one exactly when it is a multiple of 65536 behind |
| SaPayload.RoundTripExactly | internal/ike/payload_sa.go:236-414 | Proposals come back as they were, IsLast set from position, if and only if every SPI size and transform count fits its byte; no length can overflow then |
| SaPayload.TransformsRoundTrip | internal/ike/payload_sa.go:283-414 | Transforms with optional key lengths come back in order through the attribute parser |
| SaPayload.AttributeRoundTrip | internal/ike/payload_v1.go:154-209 | The key-length attribute written is the one found |
| SaPayload.AttributesRoundTripExactly | internal/ike/payload_v1.go:154-209 | A list of attributes, short and long, comes back if and only if every type leaves the format bit free, every short value is two bytes and every long one fits 16 bits |
| SaPayload.MarshalIsakmpAttribute | internal/ike/payload_v1.go:154-174 | Both formats written by index, a short value cut to two bytes or left zero |
| SaPayload.MarshalSa | internal/ike/payload_sa.go:236-245 | The loop writes the proposals one after the other, the last marked |
| SaPayload.MarshalV2Proposal | internal/ike/payload_sa.go:248-280 | Header by index, SPI and transforms, with the truncations of the length and count fields |
| SaPayload.MarshalV2Transform | internal/ike/payload_sa.go:283-315 | Header by index and the key-length attribute when there is one |
| SaPayload.ParseV2Sa | internal/ike/payload_sa.go:319-367 | The offset loop ends on every input, stays within the buffer and returns what the specification parses or its error |
| SaPayload.ParseV2Transforms | internal/ike/payload_sa.go:369-414 | The offset loop ends on every input; a malformed transform ends the list without an error |
| SaPayload.ParseIsakmpAttributes | internal/ike/payload_v1.go:177-209 | The attribute loop reads short and long attributes and stops at a truncated one |
| SaPayload.LastKeyLength | internal/ike/payload_sa.go:395-402 | The last short key-length attribute wins |
| SaPayload.KeyLengthExactly | internal/ike/payload_sa.go:395-402 | The key length of a transform is the value of its last short attribute of type 14 |
| SaPayload.TransformIs | internal/ike/payload_sa.go:283-315 | A transform byte by byte, the key length as attribute 0x800E and left out when zero |
| SaPayload.ProposalIs | internal/ike/payload_sa.go:248-280 | A proposal byte by byte, whenever its counts fit |
| SaPayload.AttributeIs | internal/ike/payload_v1.go:154-174 | An attribute byte by byte in both formats |
| SaPayload.LastEnds | internal/ike/payload_sa.go:319-414 | What follows a proposal, or a transform, marked as the last is not read |
| IkePayload.BodyRoundTrip | internal/ike/payload_v2.go:171-723 | Parsing the body of each IKEv2 payload the parser knows gives the payload back |
| IkePayload.NotifyRoundTrip | internal/ike/payload_v2.go:290-620 | A Notify whose SPI is shorter than 252 bytes comes back with SPI and data |
| IkePayload.SelectorsRoundTrip | internal/ike/payload_v2.go:367-695 | Traffic selectors with ports and both addresses come back in order |
| IkePayload.ConfigsRoundTrip | internal/ike/payload_v2.go:424-723 | Configuration attributes come back in order |
| IkePayload.DeleteRoundTrip | internal/ike/payload_v2.go:314-649 | SPIs of the stated size copied into one buffer are cut out of it again |
| IkePayload.TypeNumbers | internal/ike/payload.go:33-50 | The payload types are those of RFC 7296 and RFC 7383 |
| IkePayload.BodyIs | internal/ike/payload_v2.go:171-458 | Every body that fits byte by byte, fields in order with their reserved zeros |
| IkePayload.SelectorsAre | internal/ike/payload_v2.go:367-392 | A list of selectors byte by byte |
| IkePayload.ConfigsAre | internal/ike/payload_v2.go:424-442 | A list of configuration attributes byte by byte |
| IkePayload.ShortBodiesKept | internal/ike/payload.go:279-325 | A body too short for its fixed fields and a malformed list of proposals are kept raw, like a payload of unknown type |
| IkePayload.BodyPanicsExactly | internal/ike/payload_v2.go:475-723 | The parser fails on exactly two kinds of bodies of at least four bytes: a Notify with an SPI size of 252 or more, and traffic selectors of which one that is reached states a length below 7 |
| IkePayload.MarshalSelectors | internal/ike/payload_v2.go:367-392 | The selector loop of the traffic selector body |
| IkePayload.ParseV2Selectors | internal/ike/payload_v2.go:651-695 | The selector loop with its error, and the slice panic for a selector length below 7 |
| IkePayload.MarshalConfigs | internal/ike/payload_v2.go:424-442 | The attribute loop of the configuration body |
| IkePayload.ParseV2Configs | internal/ike/payload_v2.go:697-723 | The attribute loop; a truncated attribute ends the list without an error |
| IkePayload.MarshalSpis | internal/ike/payload_v2.go:314-328 | The copy loop of the Delete body, short and long SPIs included |
| IkePayload.ParseSpis | internal/ike/payload_v2.go:622-649 | The cutting loop of the Delete body |
| IkeMessage.ChainRoundTrip | internal/ike/payload.go:279-399 | Every chain of payloads with non-zero types and bodies up to 65531 bytes parses back, each payload under its own generic header |
| IkeMessage.PayloadIs | internal/ike/payload.go:360-399 | The generic header byte by byte |
| IkeMessage.CriticalExactly | internal/ike/payload.go:279-325 | An unknown payload is an error if and only if it is marked critical; otherwise it is kept and the chain goes on |
| IkeMessage.MarshalPayloadChain | internal/ike/payload.go:360-399 | Each payload is marshalled with an empty link, copied behind the others and its link patched |
| IkeMessage.ParsePayloadChain | internal/ike/payload.go:279-325 | The offset loop ends on every input and never indexes outside the buffer; unknown critical payloads are an error |
| IkeMessage.ChainPanicsExactly | internal/ike/payload.go:279-325 | A chain brings its parser down exactly when such a body is reached behind payloads that parse |
| IkeMessage.HeaderRoundTrip | internal/ike/header.go:146-188 | The 28-byte header comes back field by field |
| IkeMessage.HeaderIs | internal/ike/header.go:170-188 | The 28-byte header byte by byte |
| IkeMessage.RefusedExactly | internal/ike/payload.go:409-438 | A version 2 message is refused for a length below 28 or beyond the buffer and for an initiator SPI of zeros, and is else its header and what the chain parses to |
| IkeMessage.MessageRoundTrip | internal/ike/payload.go:409-472 | Marshalling then parsing a message is the identity up to NextPayload and Length |
| SkPayload.UnpadUndoesPad | internal/ike/crypto.go:362-418 | Stripping PKCS#7 padding undoes adding it |
| SkPayload.UnpadExactly | internal/ike/crypto.go:386-418 | What comes off is 1 to 16 bytes holding their number; anything else but the empty string is an error |
| SkPayload.PadPkcs7 | internal/ike/crypto.go:362-384 | The padding loop always adds 1 to 16 bytes holding their count |
| SkPayload.StripPkcs7 | internal/ike/crypto.go:386-418 | The scan accepts exactly a last byte from 1 to 16 repeated that often |
| SkPayload.UnsealUndoesSeal | internal/ike/fragment.go:430-509 | Opening undoes sealing under the same keys and header argument, in the AEAD branch and, with both paddings, in the CBC branch |
| SkPayload.OpensOnlyIntact | internal/ike/fragment.go:430-509 | Nothing is opened that the AEAD cipher does not open with the header as associated data, or that does not end in the MAC of header and body |
| SkPayload.SealedLayout | internal/ike/ikev2_session.go:183-261 | What is sealed byte by byte: the plaintext with its zero byte (AEAD), or with zeros, their number and sixteen sixteens (CBC), behind the IV and before the MAC of header and body |
| SkPayload.StripPadLengthExactly | internal/ike/ikev2_session.go:322-339 | The last byte says how many before it are padding; more than there are is an error |
| SkPayload.SealedLength | internal/ike/ikev2_session.go:183-261 | The exact length of a sealed body: under CBC the pad-length byte and then a whole PKCS#7 block more |
| SkPayload.SealBody | internal/ike/ikev2_session.go:183-261 | Padding, encryption and MAC copied into one buffer |
| SkPayload.UnsealBody | internal/ike/ikev2_session.go:266-339 | Every length check, the MAC check and both paddings, with their error branches; a body that is not intact is an error |
| SkPayload.EncryptSkPayload | internal/ike/ikev2_session.go:183-261 | The sealed bytes of the printed chain and the first payload's type |
| SkPayload.DecryptSkPayload | internal/ike/ikev2_session.go:266-339 | The chain parsed from the opened bytes, or an error, which a body that is not intact always is |
| SkPayload.DecryptSkUndoesEncryptSk | internal/ike/ikev2_session.go:183-339 | Decrypting undoes encrypting for every payload chain that fits, in both modes |
| Fragment.JoinUndoesPieces | internal/ike/fragment.go:221-232 | The pieces of a plaintext joined in order are the plaintext |
| Fragment.PiecesFull | internal/ike/fragment.go:221-232 | All pieces but the last are as long as the limit lets them be |
| Fragment.Split | internal/ike/fragment.go:221-232 | The chunking loop cuts the plaintext into full pieces and a shorter last one |
| Fragment.FragmentSkPayload | internal/ike/fragment.go:195-357 | Errors for a limit too small and for more than 65535 pieces; otherwise fragment i of n seals piece i, and only the first message is given the inner payload type |
| Fragment.AeadFragmentsFit | internal/ike/fragment.go:200-232 | Under an AEAD cipher no fragment's data exceeds the limit, the default of 1200 included |
| Fragment.AeadFragmentFull | internal/ike/fragment.go:200-232 | Under an AEAD cipher a fragment is 25 bytes longer than its piece, so a full one reaches the limit exactly |
| Fragment.CbcFragmentFits | internal/ike/fragment.go:208-232 | Under CBC a fragment fits exactly when its length with both paddings does; a full one exceeds the limit by 16 to 31 bytes |
| Fragment.FirstTypeNotSent | internal/ike/payload.go:443-472 | Marshalling overwrites the NextPayload prepared for the first fragment unless it already was SKF |
| Fragment.CompleteExactly | internal/ike/fragment.go:87-108 | For any order with any duplicates AddFragment reports completion exactly when the numbers seen are 1 to total |
| Fragment.AddExactly | internal/ike/fragment.go:87-108 | Refused are exactly number 0, total 0, a number above the total and a total other than before, without effect; anything else is kept under its number |
| Fragment.ReassemblyExactly | internal/ike/fragment.go:111-135 | Once all fragments are in, Reassemble returns the original plaintext if and only if there are fewer than 65535; at 65535 the uint16 loop index wraps |
| Fragment.FragmentedPlaintextArrives | internal/ike/fragment.go:363-427 | Sealed fragments arriving at the manager in any order with duplicates: the last missing one yields the plaintext, its inner type only if it is number 1, and the cache is removed |
| Fragment.FragmentedChainParsesExactly | internal/ike/fragment.go:195-427 | A payload chain that is printed, cut, sealed, received in any order with duplicates, reassembled and parsed comes back if and only if fragment 1 arrives last and its message still carries the first inner type |
| Fragment.ArrivalsExactly | internal/ike/fragment.go:363-427 | For any sequence of copies of a message's fragments, in any order and as often as they come: a copy hands the plaintext on exactly when it completes the set of those that came since the plaintext was last handed on, and otherwise is kept; at 65535 fragments completion is an error |
| Fragment.ForgedFragmentIgnored | internal/ike/fragment.go:363-427 | A fragment that is not intact is an error and changes no reassembly |
| Fragment.DeliveriesExactly | internal/ike/fragment.go:363-427 | A message of fewer than 65535 fragments is handed on as often as the copies complete a set of all its fragments, a longer one never |
| Fragment.CompletedNoMoreThanSent | internal/ike/fragment.go:363-427 | That is no more often than any one of its fragments came, so at most once without duplicates |
| Fragment.CompletedAgain | internal/ike/fragment.go:363-427 | Copies that come after a completed set count as if they were the first, so the same sequence over again hands the message on again |
| Fragment.FragmentCache.AddFragment | internal/ike/fragment.go:87-108 | Refuses zero numbers, numbers above the total and a changed total; else stores the piece |
| Fragment.FragmentCache.Reassemble | internal/ike/fragment.go:111-135 | Both uint16 loops end, also at total 65535, with the concatenation or the error |
| Fragment.FragmentManager.GetOrCreate | internal/ike/fragment.go:158-171 | The cache of that key, made empty if there was none; no other cache changes |
| Fragment.FragmentManager.ReassembleFragment | internal/ike/fragment.go:363-427 | Opens, adds, and on completion reassembles and removes, as the specification of one arrival says |
| ProposalSelection.SelectProposal | internal/ike/proposal.go:121-154 | Fails if and only if for every pair the protocols differ or some type of ours, other than integrity, is absent from theirs, or some type is there and no two transforms of it agree in algorithm and key length, zero being open; otherwise picks the least pair, ours first; every transform on the wire and every algorithm recorded for the key schedule is one such two transforms agree on, with their key length |
| ProposalSelection.CompatibleExactly | internal/ike/proposal.go:157-224 | Two proposals are compatible if and only if that holds of them, spelled out field by field |
| ProposalSelection.RecordsAgreed | internal/ike/proposal.go:226-309 | Both records name only what both sides have, type, algorithm and key length |
| ProposalSelection.ProposalMatch | internal/ike/proposal.go:157-182 | True exactly when every type we list is offered with an algorithm of ours, integrity alone being dispensable |
| ProposalSelection.HasMatchingTransform | internal/ike/proposal.go:195-205 | True exactly when some pair agrees |
| ProposalSelection.GroupTransforms | internal/ike/proposal.go:185-192 | Each type's transforms in their order, and no empty group |
| ProposalSelection.ExtractSelected | internal/ike/proposal.go:226-270 | Of each type the last of our offered transforms is recorded, in whatever order the types are visited |
| ProposalSelection.BuildSelectedProposal | internal/ike/proposal.go:273-309 | Of each type the first of our offered transforms is listed, once, in whatever order |
| ProposalSelection.BuiltMatchesBoth | internal/ike/proposal.go:273-309 | Every transform listed matches one of ours and one of the peer's, key lengths included |
| ProposalSelection.LastChoiceMatches | internal/ike/proposal.go:226-270 | A recorded transform exists exactly when the lists overlap, and matches both sides |
| ProposalSelection.BuiltTypes | internal/ike/proposal.go:273-309 | A compatible pair lists exactly the types both sides have |
| ProposalSelection.RecordsAgreeExactly | internal/ike/proposal.go:226-309 | The two records name the same algorithm of a type if and only if the first and the last of our offered transforms of that type come to the same |
| ProposalSelection.OnePerTypeAgrees | internal/ike/proposal.go:226-309 | With at most one transform of a type on our side the records agree |
| ProposalSelection.TwoOfATypeDisagree | internal/ike/proposal.go:226-309 | With two key lengths offered and accepted, 256 goes on the wire and 128 into the record |
| Ppp.FrameRoundTripExactly | internal/l2tp/ppp.go:50-115 | A frame parses back to its protocol and payload if and only if the protocol's high byte is even |
| Ppp.FormsParsed | internal/l2tp/ppp.go:50-95 | A frame is read alike with address and control or without, and with its protocol in two bytes or, where possible, in one |
| Ppp.FrameRefusedExactly | internal/l2tp/ppp.go:50-95 | An error exactly for a frame too short and for a control byte other than 3 |
| Ppp.PacketRead | internal/l2tp/lcp.go:141-160 | A control packet byte by byte: ignored when it states more than there is, not guarded when it states less than its header |
| Ppp.ResponseReceivedExactly | internal/l2tp/lcp.go:416-430 | A response is read back as built if and only if its data is at most 65531 bytes |
| ConfigOptions.ParseUndoesConcat | internal/l2tp/lcp.go:194-206 | A list of well-formed options is read back as it was written |
| ConfigOptions.ParsedIsPrefix | internal/l2tp/lcp.go:194-206 | What the option loop reads is a prefix of the bytes, up to the first malformed option |
| ConfigOptions.AckExactly | internal/l2tp/lcp.go:189-280 | A request is acknowledged if and only if every option read is acceptable, and the acknowledgment carries exactly those options in order |
| ConfigOptions.ThirdRequestAcked | internal/l2tp/lcp.go:189-280 | For any rule whose suggestions it accepts itself, a peer that deletes what is rejected and takes over what is suggested is acknowledged by its third request |
| ConfigOptions.NeverAcked | internal/l2tp/ipcp.go:189-246 | Where the suggestions for a type are objected to as well, no number of rounds leads to an acknowledgment |
| Lcp.LcpConverges | internal/l2tp/lcp.go:189-280 | On the option lists, lengths aside, LCP acknowledges the third request at the latest, for every list of well-formed options |
| LcpWire.LcpConvergesExactly | internal/l2tp/lcp.go:141-280 | On the wire, answers built and read back with their 16-bit lengths, every request of at most so many option bytes is followed by an acknowledged one, the third at the latest, if and only if that many is at most 52425 |
| LcpWire.HandlerAnswers | internal/l2tp/lcp.go:141-280 | The handler in any state answers a request packet as the rule alone does, which is what the exchanges on the wire are made of |
| Lcp.LcpAckMeans | internal/l2tp/lcp.go:189-280 | An acknowledged request has an MRU from 128 to 16384 and CHAP where it names them, and no unknown option |
| Lcp.AnswersExactly | internal/l2tp/lcp.go:189-280 | The answer to every request: the unknown and short options refused in order; failing that, [1,4,5,220] for each MRU out of 128 to 16384 and [3,5,0xC2,0x23,5] for each protocol other than CHAP suggested in order; failing that the request as it came |
| Lcp.RequestIs | internal/l2tp/lcp.go:98-137 | Our request byte by byte, CHAP with MD5 always in it |
| Lcp.LearnedExactly | internal/l2tp/lcp.go:208-262 | The last acceptable MRU and the last magic number of a request are remembered, and nothing else |
| Lcp.AdjustedExactly | internal/l2tp/lcp.go:297-336 | The last MRU of a Nak is taken over whatever it is, and a magic number named in it is drawn anew |
| Lcp.RejectionExactly | internal/l2tp/lcp.go:340-373 | A Reject naming authentication closes the link with a Terminate-Request; any other is met with our request, without a magic number if that was rejected |
| Lcp.OthersAnswered | internal/l2tp/lcp.go:141-185 | What each of the other codes is answered with: Echo-Requests with our magic number and their data, Terminate-Requests with an acknowledgment, unknown codes not at all |
| Lcp.ProtocolRejectIs | internal/l2tp/lcp.go:434-456 | A Protocol-Reject byte by byte, cut to what the MRU leaves |
| Lcp.AcksExactly | internal/l2tp/lcp.go:141-293 | Ours is acknowledged only by a Configure-Ack with the current identifier, the peer's only by a request we acknowledge; Opened needs both |
| Lcp.AckAfterRejectsExactly | internal/l2tp/lcp.go:434-456 | After n Protocol-Rejects a Configure-Ack of the earlier request counts if and only if n is a multiple of 256 |
| Lcp.PanicsExactly | internal/l2tp/lcp.go:141-430 | For packets of any length the handler fails exactly on a stated length below four, and on a request with nothing to reject whose suggestions, 4 bytes for each MRU out of range and 5 for each other protocol than CHAP, take up 65532 to 65535 bytes |
| LcpWire.LongRequestPanics | internal/l2tp/lcp.go:189-430 | A request of 52432 bytes, 13107 authentication options of four bytes, brings the handler down in every state |
| LcpWire.AnyChapAlgorithmAcked | internal/l2tp/lcp.go:226-240 | An authentication option that names CHAP is acknowledged with any algorithm |
| Lcp.LcpHandler.HandleConfigureRequest | internal/l2tp/lcp.go:189-280 | The option loop with its three accumulators answers with the specified packet, and MRU and magic number are taken over as read |
| Lcp.LcpHandler.HandleConfigureNak | internal/l2tp/lcp.go:297-336 | Suggestions are taken over in order and a new request goes out |
| Lcp.LcpHandler.HandleConfigureReject | internal/l2tp/lcp.go:340-373 | A rejected authentication closes the link at once; otherwise a new request goes out |
| Lcp.LcpHandler.Handle | internal/l2tp/lcp.go:141-185 | Length checks and dispatch over the codes |
| Lcp.LcpHandler.BuildConfigureRequest | internal/l2tp/lcp.go:98-137 | MRU, CHAP with MD5 and the magic number under the next identifier |
| Lcp.LcpHandler.BuildProtocolReject | internal/l2tp/lcp.go:434-456 | The rejected packet cut to the MRU, under the next identifier |
| Ipcp.IpcpConvergesExactly | internal/l2tp/ipcp.go:173-275 | IPCP acknowledges all peers by their third requests if and only if the assigned address and both DNS servers are not 0.0.0.0 |
| IpcpWire.IpcpAckedExactly | internal/l2tp/ipcp.go:134-343 | On the wire, for every request of well-formed options up to the 65531 bytes a packet holds: the third request is acknowledged at the latest if and only if the first names no address configured as 0.0.0.0 in an option of six bytes or more |
| IpcpWire.AddressesGranted | internal/l2tp/ipcp.go:134-343 | With addresses configured, a peer asking for addresses only is acknowledged by its second request at the latest, and that names the same types in order, each with the configured address |
| IpcpWire.HandlerAnswers | internal/l2tp/ipcp.go:134-275 | The handler in any state answers a request packet as the rule alone does |
| Ipcp.ZeroNeverAcked | internal/l2tp/ipcp.go:189-246 | A request naming an option whose configured value is zero is never acknowledged, however many rounds follow |
| Ipcp.IpcpAckMeans | internal/l2tp/ipcp.go:173-275 | An acknowledged request holds the configured values, the assigned address among them, and nothing else |
| Ipcp.AnswersExactly | internal/l2tp/ipcp.go:173-275 | The answer to every request: options other than the three and short ones refused in order; failing that, [type, 6] and the configured value suggested in order for exactly the options holding zeros or another value; failing that the request as it came |
| Ipcp.OthersAnswered | internal/l2tp/ipcp.go:134-169 | A Nak is met with our request again, whatever it suggests; other codes are not answered |
| Ipcp.AcksExactly | internal/l2tp/ipcp.go:134-288 | As for LCP, and the assigned values never change |
| Ipcp.PanicsExactly | internal/l2tp/ipcp.go:134-343 | For packets of any length the handler fails exactly on a stated length below four: no answer is longer than its request |
| Ipcp.IpcpHandler.HandleConfigureRequest | internal/l2tp/ipcp.go:173-275 | The option loop with its three accumulators answers with the specified packet |
| Ipcp.IpcpHandler.TakeOption | internal/l2tp/ipcp.go:192-256 | One arm for each of the three options: zero or another value is answered with the configured one |
| Ipcp.IpcpHandler.Handle | internal/l2tp/ipcp.go:134-169 | Length checks and dispatch; a Configure-Reject is not answered |
| Chap.AuthenticatesExactly | internal/l2tp/chap.go:117-212 | A packet authenticates exactly when it is a response holding MD5 of its identifier, the named user's password and the challenge |
| Chap.ResponseAnswered | internal/l2tp/chap.go:149-224 | The answer to every response byte by byte: a Success exactly when the value is MD5 of identifier, the named user's password and the challenge, else one of two Failures |
| Chap.AnyIdentifierAccepted | internal/l2tp/chap.go:149-224 | The identifier is not compared with the challenge's: a response under any identifier, hashed with it, is accepted |
| Chap.PanicsExactly | internal/l2tp/chap.go:117-212 | The handler fails exactly on a Response with a stated length below four |
| Chap.ChapHandler.HandleResponse | internal/l2tp/chap.go:149-212 | Every failure branch and the comparison loop |
| Chap.ChapHandler.BuildChallenge | internal/l2tp/chap.go:83-113 | The 16 bytes drawn under the next identifier, with the server's name |
| Session.ForwardedOnlyWhenUp | internal/l2tp/session.go:160-356 | In every run a packet reaches the TUN device only after both IPCP acknowledgments, each after a proof of the user's password against a challenge drawn in the run, and that after both LCP acknowledgments |
| Session.PhasesInOrder | internal/l2tp/session.go:160-337 | In every run the phase goes LCP, CHAP, IPCP, data, one step at a time and never back |
| Session.AddressIsAssigned | internal/l2tp/session.go:307-337 | The address option acknowledged in a run holds the address assigned to the session |
| Conversation.ReachesData | internal/l2tp/session.go:141-337 | A peer that makes its packets from the frames it was sent alone, acknowledging our requests, hashing the challenge in the frame with a known user's password and asking for the addresses suggested, is in the data phase after taking six frames, and the last acknowledges the configured addresses; for any acceptable LCP options and any types asked for |
| Conversation.InitSends | internal/l2tp/session.go:141-156 | InitPPP sends one LCP Configure-Request under the current identifier, byte by byte |
| Conversation.ChallengeSent | internal/l2tp/session.go:238-266 | Going on to authentication, the last frame sent is the challenge just drawn, byte by byte, under its new identifier |
| Conversation.SuccessSent | internal/l2tp/session.go:269-304 | Going on to IPCP, a Success and behind it the request with our address under its new identifier are sent, byte by byte |
| Conversation.RepliesGoOut | internal/l2tp/session.go:160-337 | Whatever a handler answers goes out first, framed under its protocol, in the phase it is live in; nothing else is sent but the two packets that open a phase |
| Conversation.LcpRequestAnswered | internal/l2tp/session.go:238-266 | An LCP request is answered in any phase, byte by byte |
| Conversation.IpcpRequestAnswered | internal/l2tp/session.go:307-337 | An IPCP request is answered in its phase, byte by byte |
| Session.StepMoves | internal/l2tp/session.go:160-337 | What one frame can change: each acknowledgment and each phase change has exactly its cause |
| Session.TunExactly | internal/l2tp/session.go:341-356 | A frame is forwarded exactly when it is IPv4 in the data phase of an established session |
| Session.ForwardsUntilClosed | internal/l2tp/session.go:160-356 | In every run from the data phase on IPv4 is forwarded until the session is closed, whatever PPP frames arrive |
| Session.TerminatedStillForwards | internal/l2tp/session.go:238-356 | A Terminate-Request in the data phase closes LCP, and the next IPv4 frame still goes to the TUN device |
| Session.PanicsExactly | internal/l2tp/session.go:160-337 | A frame brings the session down exactly when it is established and the frame is one that its protocol's handler, live in the phase, does not guard; building the challenge and the IPCP request never does |
| Session.RunHolds | internal/l2tp/session.go:141-356 | The invariant of every run from a fresh session on |
| Session.InitializedIsFresh | internal/l2tp/session.go:141-156 | InitPPP makes an established session fresh, which is where the runs start |
| Session.PppSession.HandleIccn | internal/l2tp/session.go:111-133 | Only a waiting session becomes established |
| Session.PppSession.InitPpp | internal/l2tp/session.go:141-156 | New handlers, the assigned address, the LCP phase and the first Configure-Request |
| Session.PppSession.HandleData | internal/l2tp/session.go:160-235 | Dispatch over the PPP protocol onto three mutable handlers equals one step of the session state machine |
| Session.PppSession.HandleLcp | internal/l2tp/session.go:238-266 | An opened LCP starts CHAP and sends the challenge behind the response; a failure of either is reported |
| Session.PppSession.HandleChap | internal/l2tp/session.go:269-304 | A proven password starts IPCP and sends its request behind the response; a failure of either is reported |
| Session.PppSession.HandleIpcp | internal/l2tp/session.go:307-337 | An opened IPCP starts the data phase |
| Session.PppSession.CloseSession | internal/l2tp/session.go:380-400 | Closing happens once |
| Ipam.NewPool | internal/ipam/pool.go:24-53 | A pool exists exactly for a non-zero ascending range of at most 65536 addresses, and starts empty |
| Ipam.FullExactly | internal/ipam/pool.go:56-71 | As many addresses are held as there are exactly when none is free |
| Ipam.Pool.Allocate | internal/ipam/pool.go:56-71 | The hint and the circular scan return the least free address, and fail only when none is free |
| Ipam.Pool.AllocateSpecific | internal/ipam/pool.go:74-95 | Succeeds exactly for a free address of the range and takes that one |
| Ipam.Pool.Release | internal/ipam/pool.go:98-123 | Succeeds exactly for an allocated address of the range and frees that one; everything below the hint stays allocated |
| Ipam.Pool.Available | internal/ipam/pool.go:126-138 | The size less the number of addresses held |
| L2tpServer.Conservation | internal/l2tp/server.go:285-327 | As many addresses are allocated as sessions hold one, each session its own |
| L2tpServer.NoneHeldExactly | internal/l2tp/server.go:377-400 | Nothing is allocated exactly when no session holds an address |
| L2tpServer.IdsRepeat | internal/l2tp/tunnel.go:237-241 | Session and tunnel identifiers repeat 65536 counts later, across the wrap of the 32-bit counter too |
| L2tpServer.Tunnel.HandleSccrq | internal/l2tp/tunnel.go:131-194 | An idle tunnel with a non-zero peer identifier and a supported version waits for its connection; a wrong version kills it |
| L2tpServer.Tunnel.HandleScccn | internal/l2tp/tunnel.go:199-217 | Only a waiting tunnel becomes established |
| L2tpServer.Tunnel.HandleIcrq | internal/l2tp/tunnel.go:221-262 | A new session under the next identifier, which takes the place of any session there |
| L2tpServer.Server.HandleNewTunnel | internal/l2tp/server.go:199-259 | A new tunnel, waiting and empty, is registered under both its keys, displacing what was there, or nothing is; the identifier counter moves on either way; no session comes back into reach |
| L2tpServer.Server.HandleIcrq | internal/l2tp/server.go:272-283 | The new session waits under the next identifier and the counter moves on; the accounts are kept, and a session leaves reach exactly when the new one takes its identifier |
| L2tpServer.Server.HandleIccn | internal/l2tp/server.go:285-312 | A waiting session gets an address exactly when one is free, and is closed otherwise; no other session changes |
| L2tpServer.Server.HandleCdn | internal/l2tp/tunnel.go:291-312 | Exactly the named session is closed and forgotten |
| L2tpServer.Server.SendCdn | internal/l2tp/tunnel.go:357-374 | The same for a disconnect we send |
| L2tpServer.Server.HandleStopCcn | internal/l2tp/tunnel.go:316-334 | Exactly the tunnel's sessions are closed and the tunnel forgotten |
| L2tpServer.Server.RemoveTunnel | internal/l2tp/server.go:414-431 | The first key leading to the tunnel is removed, and its local identifier |
| L2tpServer.Server.CloseSession | internal/l2tp/session.go:380-400 | The address of a session that held one goes back, exactly once, and the release never fails |
| L2tpServer.Server.Route | internal/l2tp/server.go:262-335 | Whatever the message: the new state, sessions and counter of the tunnel, which sessions close, for a call accepted, refused or without an address too; the accounts kept, and every session out of reach still out of reach with state and address unchanged |
| L2tpServer.Server.Close | internal/l2tp/server.go:442-454 | Exactly the sessions the tunnel map leads to are closed; all addresses are free then if and only if every session holding one was among them; a session out of reach stays so |
| L2tpServer.DisplacedTunnelKeepsAddress | internal/l2tp/server.go:199-454 | From any state with a free address: a session connects, a second SCCRQ takes its tunnel's key, the server closes, and its address is still allocated while nothing leads to it |
| L2tpServer.ReusedIdentifierKeepsAddress | internal/l2tp/server.go:262-335 | From any state with a free address and a tunnel set up: a session connects, calls follow until one is given its identifier, within 65536 counts, and its address is still allocated while no tunnel leads to it |
| L2tpServer.Server.HandleData | internal/l2tp/server.go:338-374 | A data message is one step of the session it is for, if there is one, and keeps the accounts and every session's state and address |
| L2tpServer.NoAddressAckedTwice | internal/l2tp/server.go:285-327 | Two sessions holding addresses never acknowledge the same one to their peers, whatever these ask for |
| L2tpServer.Server.AvailableAddresses | internal/ipam/pool.go:126-138 | The addresses available and the sessions holding one add up to the size of the pool, after every message |

## Left out

- Replay.ReplayWindow.Check: the mutexes of the source, here and everywhere; each locked method is one step, and nothing is said of the explicit unlock in the timeout branch of CheckRetransmit.
- EspPacket.SecurityAssociation.Decrypt: extended sequence numbers on the receiving side; the source compares only the low 32 bits, and so does the model.
- EspPacket.SecurityAssociation.Encrypt: unknown cipher suites, key installation and the size tables; keys are installed and sizes right.
- Control.ControlChannel.Send: the peer's receive window, which the source records but does not consult.
- ControlNetwork.ExactlyOnceInOrder: an empty payload, which the receiver cannot tell from a bare acknowledgement and never accepts, and payloads whose length the header cannot hold.
- L2tpHeader.SerializedParses: headers with the offset flag, for which the serializer writes the flag and no field.
- IkePayload.BodyRoundTrip: a Notify SPI of 252 bytes or more, where the size check wraps in a uint8, and selector lengths below 7, where the source panics; both are outcomes of the parsers here, not of the round trip.
- IkePayload.ParseV2Selectors: a selector's addresses are cut by the stated length, as in the source, whatever their type.
- SkPayload.DecryptSkUndoesEncryptSk: agreement on the header bytes between sender and receiver; the source seals under a header of length 0, so the round trip is stated for equal header arguments.
- Fragment.FragmentedPlaintextArrives: as for the encrypted payload, fragments are opened under the header they were sealed under.
- ProposalSelection.SelectProposal: IKEv1 selection and the proposal string parsers, which add table look-ups only.
- Ipcp.IpcpConvergesExactly: configured addresses that are not IPv4, for which the source panics when it answers.
- Lcp.LcpConverges: the 16-bit length of a packet, which LcpWire.LcpConvergesExactly takes into account.
- Chap.ChapHandler.BuildChallenge: a server name too long for the challenge packet's length field.
- Session.ForwardedOnlyWhenUp: the TUN device itself; what is said is when the server's forwarding function is called.
- Conversation.ReachesData: frames that are lost, which the source sends again for none of the PPP protocols, and peers that send theirs in another order.
- Ipam.NewPool: parsing the range string.
- L2tpServer.Server.Route: AVP encoding, acknowledgements sent and Hello timers; a message arrives already decoded, and the control channel is its own model.
- L2tpServer.Server.HandleIccn: a server configured without a pool.
- Interleavings inside one message handler: the server's messages are atomic steps.
- IKEv1 parsing beyond the data attributes, EAP, XAUTH, key derivation, Diffie-Hellman and the session managers: mostly cryptographic plumbing.
- UDP sockets, the TUN device, goroutines, tickers, configuration, certificates, the command line and logging: input and output.
