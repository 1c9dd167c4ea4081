/**
 Byte strings, fixed-width unsigned integers and their big-endian encoding.
 Every wire format of the system is written with these few functions.
 */
module Bytes {

  type byte = x: int | 0 <= x < 0x100
  type u16 = x: int | 0 <= x < 0x1_0000
  type u32 = x: int | 0 <= x < 0x1_0000_0000
  type u64 = x: int | 0 <= x < 0x1_0000_0000_0000_0000
  type bytes = seq<byte>

  datatype Option<+T> = None | Some(value: T)

  datatype Result<+T> = Ok(value: T) | Err

  /** Truncating conversions: byte(x), uint16(x) and uint32(x) of a non-negative int. */
  function ToByte(x: nat): byte { x % 0x100 }

  function ToU16(x: nat): u16 { x % 0x1_0000 }

  function ToU32(x: nat): u32 { x % 0x1_0000_0000 }

  /** binary.BigEndian.PutUint16 and PutUint32 as the bytes they write. */
  function Put16(x: u16): (b: bytes)
    ensures |b| == 2
  {
    [x / 0x100, x % 0x100]
  }

  function Put32(x: u32): (b: bytes)
    ensures |b| == 4
  {
    Put16(x / 0x1_0000) + Put16(x % 0x1_0000)
  }

  /** binary.BigEndian.Uint16(buf[at:at+2]) and Uint32(buf[at:at+4]). */
  function Get16(buf: bytes, at: nat): u16
    requires at + 2 <= |buf|
  {
    var hi: int := buf[at];
    hi * 0x100 + buf[at + 1]
  }

  function Get32(buf: bytes, at: nat): u32
    requires at + 4 <= |buf|
  {
    var hi: int := Get16(buf, at);
    hi * 0x1_0000 + Get16(buf, at + 2)
  }

  /** A 64-bit number in big-endian order. */
  function Put64(x: u64): (b: bytes)
    ensures |b| == 8
  {
    Put32(x / 0x1_0000_0000) + Put32(x % 0x1_0000_0000)
  }

  /** The first byte counts most. */
  lemma BigEndian16(x: u16)
    ensures Put16(x)[0] as int * 0x100 + Put16(x)[1] as int == x
  {
  }

  lemma BigEndian32(x: u32)
    ensures var b := Put32(x);
      b[0] as int * 0x100_0000 + b[1] as int * 0x1_0000 + b[2] as int * 0x100 + b[3] as int == x
  {
  }

  lemma BigEndian64(x: u64)
    ensures Get32(Put64(x), 0) as int * 0x1_0000_0000 + Get32(Put64(x), 4) == x
  {
    Get32Put([], x / 0x1_0000_0000, Put32(x % 0x1_0000_0000));
    Get32Put(Put32(x / 0x1_0000_0000), x % 0x1_0000_0000, []);
    assert Put64(x) == [] + Put32(x / 0x1_0000_0000) + Put32(x % 0x1_0000_0000);
    assert Put64(x) == Put32(x / 0x1_0000_0000) + Put32(x % 0x1_0000_0000) + [];
  }

  lemma GetIsBigEndian(buf: bytes, at: nat)
    requires at + 4 <= |buf|
    ensures Get16(buf, at) == buf[at] as int * 0x100 + buf[at + 1] as int
    ensures Get32(buf, at)
      == buf[at] as int * 0x100_0000 + buf[at + 1] as int * 0x1_0000 + buf[at + 2] as int * 0x100 + buf[at + 3] as int
  {
  }

  /** The bytes of an ASCII string. */
  function Text(s: string): (b: bytes)
    ensures |b| == |s|
  {
    seq(|s|, i requires 0 <= i < |s| => (s[i] as int) % 0x100)
  }

  /** Byte strings one after the other. */
  function Concat(parts: seq<bytes>): bytes {
    if parts == [] then [] else parts[0] + Concat(parts[1..])
  }

  lemma Associative(x: bytes, y: bytes, z: bytes)
    ensures x + (y + z) == (x + y) + z
  {
  }

  function Zeros(n: nat): (z: bytes)
    ensures |z| == n && forall i :: 0 <= i < n ==> z[i] == 0
  {
    seq(n, _ => 0)
  }

  /** Reading a 16-bit field back at the place it was written. */
  lemma Get16Put(pre: bytes, x: u16, post: bytes)
    ensures Get16(pre + Put16(x) + post, |pre|) == x
  {
    var s := pre + Put16(x) + post;
    assert s[|pre|] == Put16(x)[0] && s[|pre| + 1] == Put16(x)[1];
  }

  lemma Get32Put(pre: bytes, x: u32, post: bytes)
    ensures Get32(pre + Put32(x) + post, |pre|) == x
  {
    var s := pre + Put32(x) + post;
    assert s[|pre|] == Put32(x)[0] && s[|pre| + 1] == Put32(x)[1];
    assert s[|pre| + 2] == Put32(x)[2] && s[|pre| + 3] == Put32(x)[3];
  }

  /** Two different numbers have different encodings. */
  lemma Put32Injective(x: u32, y: u32)
    requires Put32(x) == Put32(y)
    ensures x == y
  {
    assert Put32(x)[0] == Put32(y)[0] && Put32(x)[1] == Put32(y)[1];
    assert Put32(x)[2] == Put32(y)[2] && Put32(x)[3] == Put32(y)[3];
  }

  lemma Put64Injective(x: u64, y: u64)
    requires Put64(x) == Put64(y)
    ensures x == y
  {
    assert Put64(x)[..4] == Put32(x / 0x1_0000_0000) && Put64(x)[4..] == Put32(x % 0x1_0000_0000);
    assert Put64(y)[..4] == Put32(y / 0x1_0000_0000) && Put64(y)[4..] == Put32(y % 0x1_0000_0000);
    Put32Injective(x / 0x1_0000_0000, y / 0x1_0000_0000);
    Put32Injective(x % 0x1_0000_0000, y % 0x1_0000_0000);
  }

  /** copy(buf[at:], src) for a source that fits. */
  method CopyInto(buf: array<byte>, at: nat, src: bytes)
    requires at + |src| <= buf.Length
    modifies buf
    ensures buf[..] == old(buf[..at]) + src + old(buf[at + |src|..])
  {
    for i := 0 to |src|
      invariant forall j :: 0 <= j < buf.Length ==>
        buf[j] == if at <= j < at + i then src[j - at] else old(buf[j])
    {
      buf[at + i] := src[i];
    }
  }

  /** make, then three copies one after the other. */
  method Assemble(a: bytes, b: bytes, c: bytes) returns (r: bytes)
    ensures r == a + b + c
  {
    var buf := new byte[|a| + |b| + |c|](_ => 0);
    CopyInto(buf, 0, a);
    CopyInto(buf, |a|, b);
    assert buf[..|a| + |b|] == a + b;
    CopyInto(buf, |a| + |b|, c);
    r := buf[..];
  }
}
