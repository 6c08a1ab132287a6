/** Fixed-width unsigned integers and the little-endian codecs every stored record uses. */
module Bytes {

  type byte = x: int | 0 <= x < 0x100
  type uint16 = x: int | 0 <= x < 0x1_0000
  type uint32 = x: int | 0 <= x < 0x1_0000_0000
  type uint64 = x: int | 0 <= x < 0x1_0000_0000_0000_0000

  function Write16(v: uint16): (b: seq<byte>)
    ensures |b| == 2
  {
    [v % 0x100, v / 0x100]
  }

  function Read16(b: seq<byte>): (v: uint16)
    requires |b| == 2
  {
    (b[0] as int) + 0x100 * (b[1] as int)
  }

  function Write32(v: uint32): (b: seq<byte>)
    ensures |b| == 4
  {
    Write16(v % 0x1_0000) + Write16(v / 0x1_0000)
  }

  function Read32(b: seq<byte>): (v: uint32)
    requires |b| == 4
  {
    (Read16(b[..2]) as int) + 0x1_0000 * (Read16(b[2..]) as int)
  }

  function Write64(v: uint64): (b: seq<byte>)
    ensures |b| == 8
  {
    Write32(v % 0x1_0000_0000) + Write32(v / 0x1_0000_0000)
  }

  function Read64(b: seq<byte>): (v: uint64)
    requires |b| == 8
  {
    (Read32(b[..4]) as int) + 0x1_0000_0000 * (Read32(b[4..]) as int)
  }

  lemma ReadWrite16(v: uint16)
    ensures Read16(Write16(v)) == v
  {
  }

  lemma ReadWrite32(v: uint32)
    ensures Read32(Write32(v)) == v
  {
    assert Write32(v)[..2] == Write16(v % 0x1_0000);
    assert Write32(v)[2..] == Write16(v / 0x1_0000);
  }

  lemma ReadWrite64(v: uint64)
    ensures Read64(Write64(v)) == v
  {
    var low, high := v % 0x1_0000_0000, v / 0x1_0000_0000;
    assert Write64(v)[..4] == Write32(low);
    assert Write64(v)[4..] == Write32(high);
    ReadWrite32(low);
    ReadWrite32(high);
  }

  lemma WriteRead16(b: seq<byte>)
    requires |b| == 2
    ensures Write16(Read16(b)) == b
  {
  }

  lemma WriteRead32(b: seq<byte>)
    requires |b| == 4
    ensures Write32(Read32(b)) == b
  {
    hide Write16, Read16;
    var low, high := Read16(b[..2]), Read16(b[2..]);
    WriteRead16(b[..2]);
    WriteRead16(b[2..]);
    assert Read32(b) % 0x1_0000 == low && Read32(b) / 0x1_0000 == high;
    assert b == b[..2] + b[2..];
  }

  /** `count` copies of `value`, the contents `memset` leaves behind. */
  function Fill(count: nat, value: byte): (b: seq<byte>)
    ensures |b| == count && forall i :: 0 <= i < count ==> b[i] == value
  {
    seq(count, _ => value)
  }

  predicate AllZero(b: seq<byte>) {
    forall i :: 0 <= i < |b| ==> b[i] == 0
  }
}
