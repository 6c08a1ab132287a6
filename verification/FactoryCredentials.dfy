/** The factory credentials in the node's user row: a key guarded by a CRC-16, its
    complement and zero padding. */
module FactoryCredentials {
  import opened Bytes
  import opened Protocol
  import opened Crc
  import opened Options

  const CREDENTIAL_SIZE := 32

  function Head(key: Key): (b: seq<byte>)
    ensures |b| == 24
  {
    [0x52, 0x53, 0x46, 0x43, 1, 1, 0, 0] + key
  }

  function Encode(key: Key): (r: Option<seq<byte>>)
    ensures r.Some? ==> |r.value| == CREDENTIAL_SIZE
  {
    if AllZero(key) then None
    else
      var crc := Write16(Crc16(Head(key)));
      Some(Head(key) + crc + [0xFF - crc[0], 0xFF - crc[1]] + Fill(4, 0))
  }

  function Decode(b: seq<byte>): Option<Key> {
    if |b| != CREDENTIAL_SIZE || b[..8] != [0x52, 0x53, 0x46, 0x43, 1, 1, 0, 0] ||
       b[26] != 0xFF - b[24] || b[27] != 0xFF - b[25] || Read16(b[24..26]) != Crc16(b[..24]) ||
       !AllZero(b[28..]) || AllZero(b[8..24])
    then None else Some(b[8..24])
  }

  /** Any key but the all-zero one is stored and read back. */
  lemma DecodeEncode(key: Key)
    ensures Encode(key).None? <==> AllZero(key)
    ensures Encode(key).Some? ==> Decode(Encode(key).value) == Some(key)
  {
    hide Crc16;
    if !AllZero(key) {
      var b := Encode(key).value;
      ReadWrite16(Crc16(Head(key)));
      assert b[..24] == Head(key) && b[..8] == Head(key)[..8] && b[8..24] == key;
      assert b[24..26] == Write16(Crc16(Head(key)));
      assert b[24] == b[24..26][0] && b[25] == b[24..26][1];
      assert b[28..] == Fill(4, 0);
    }
  }

  /** A row with exactly one altered byte, whichever, is rejected. */
  lemma AlteredByteRejected(b: seq<byte>, i: nat, x: byte)
    requires Decode(b).Some? && i < |b| && x != b[i]
    ensures Decode(b[i := x]).None?
  {
    hide Crc16, Read16;
    var c := b[i := x];
    if i < 24 {
      assert b[..24] == b[..i] + [b[i]] + b[i + 1..24];
      assert c[..24] == b[..i] + [x] + b[i + 1..24];
      assert [b[i]] != [x];
      Crc16DetectsBurst(b[..i], [b[i]], [x], b[i + 1..24]);
      assert c[24..26] == b[24..26];
    } else if i >= 28 {
      assert c[28..][i - 28] == x && b[28..][i - 28] == b[i];
    }
  }
}
