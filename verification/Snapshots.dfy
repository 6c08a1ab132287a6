/** The frame of every gateway snapshot: a header with magic, version, generation
    and size, and a CRC-32 over everything before it. */
module Snapshots {
  import opened Bytes
  import opened Crc

  const STORAGE_VERSION: uint16 := 2
  const SNAPSHOT_HEADER_SIZE := 12

  type Magic = m: seq<byte> | |m| == 4 witness Fill(4, 0)

  function Header(magic: Magic, generation: uint32, size: uint16): (h: seq<byte>)
    ensures |h| == SNAPSHOT_HEADER_SIZE
  {
    magic + Write16(STORAGE_VERSION) + Write32(generation) + Write16(size)
  }

  predicate ValidHeader(data: seq<byte>, magic: Magic, size: uint16)
    requires |data| >= SNAPSHOT_HEADER_SIZE
  {
    data[..4] == magic && Read16(data[4..6]) == STORAGE_VERSION && Read16(data[10..12]) == size
  }

  function GenerationOf(data: seq<byte>): uint32
    requires |data| >= SNAPSHOT_HEADER_SIZE
  {
    Read32(data[6..10])
  }

  lemma HeaderRead(magic: Magic, generation: uint32, size: uint16, rest: seq<byte>)
    ensures ValidHeader(Header(magic, generation, size) + rest, magic, size)
    ensures GenerationOf(Header(magic, generation, size) + rest) == generation
  {
    var data := Header(magic, generation, size) + rest;
    assert data[..4] == magic;
    assert data[4..6] == Write16(STORAGE_VERSION);
    assert data[6..10] == Write32(generation);
    assert data[10..12] == Write16(size);
    ReadWrite16(STORAGE_VERSION);
    ReadWrite16(size);
    ReadWrite32(generation);
  }

  /** A valid header is the one written with its generation. */
  lemma HeaderWritten(data: seq<byte>, magic: Magic, size: uint16)
    requires |data| >= SNAPSHOT_HEADER_SIZE && ValidHeader(data, magic, size)
    ensures Header(magic, GenerationOf(data), size) == data[..SNAPSHOT_HEADER_SIZE]
  {
    WriteRead16(data[4..6]);
    WriteRead32(data[6..10]);
    WriteRead16(data[10..12]);
    var head := data[..SNAPSHOT_HEADER_SIZE];
    assert head == head[..4] + head[4..6] + head[6..10] + head[10..12];
    assert head[..4] == data[..4] && head[4..6] == data[4..6] && head[6..10] == data[6..10] && head[10..12] == data[10..12];
  }

  function Sealed(body: seq<byte>): (data: seq<byte>)
    ensures |data| == |body| + 4
  {
    body + Write32(Crc32(body))
  }

  predicate Intact(data: seq<byte>) {
    |data| >= 4 && Read32(data[|data| - 4..]) == Crc32(data[..|data| - 4])
  }

  lemma SealedIsIntact(body: seq<byte>)
    ensures Intact(Sealed(body)) && Sealed(body)[..|body|] == body
  {
    var data := Sealed(body);
    assert data[..|data| - 4] == body && data[|data| - 4..] == Write32(Crc32(body));
    ReadWrite32(Crc32(body));
  }

  /** Intact data is what sealing its body writes. */
  lemma IntactIsSealed(data: seq<byte>)
    requires Intact(data)
    ensures Sealed(data[..|data| - 4]) == data
  {
    hide Crc32;
    WriteRead32(data[|data| - 4..]);
    assert data == data[..|data| - 4] + data[|data| - 4..];
  }

  /** A snapshot with exactly one altered byte, checksum bytes included, is rejected. */
  lemma AlteredNotIntact(data: seq<byte>, i: nat, x: byte)
    requires Intact(data) && i < |data| && x != data[i]
    ensures !Intact(data[i := x])
  {
    hide Crc32;
    var other := data[i := x];
    var n := |data| - 4;
    if i < n {
      assert data[..n] == data[..i] + [data[i]] + data[i + 1..n];
      assert other[..n] == data[..i] + [x] + data[i + 1..n];
      assert [data[i]] != [x];
      Crc32DetectsBurst(data[..i], [data[i]], [x], data[i + 1..n]);
      assert other[n..] == data[n..];
    } else {
      assert other[..n] == data[..n];
      ChecksumBytesDiffer(data[n..], i - n, x);
      assert other[n..] == data[n..][i - n := x];
    }
  }

  lemma ChecksumBytesDiffer(b: seq<byte>, i: nat, x: byte)
    requires |b| == 4 && i < 4 && x != b[i]
    ensures Read32(b[i := x]) != Read32(b)
  {
  }
}
