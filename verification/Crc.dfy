/** The two checksums of the system: CRC-16/CCITT over the node's EEPROM records
    and the reflected CRC-32 over the gateway's snapshots, with what they detect.

    A register is the sequence of its bits in the order the code shifts them out:
    most significant first for CRC-16, least significant first for CRC-32. In that
    order both checksums run the same bit step. */
module Crc {
  import opened Bytes

  type Bits = seq<bool>

  /** `value` in `count` bits, most significant first. */
  function Msb(value: nat, count: nat): (b: Bits)
    ensures |b| == count
  {
    if count == 0 then [] else Msb(value / 2, count - 1) + [value % 2 == 1]
  }

  /** `value` in `count` bits, least significant first. */
  function Lsb(value: nat, count: nat): (b: Bits)
    ensures |b| == count
  {
    if count == 0 then [] else [value % 2 == 1] + Lsb(value / 2, count - 1)
  }

  function Pow2(n: nat): (p: nat)
    ensures p > 0
  {
    if n == 0 then 1 else 2 * Pow2(n - 1)
  }

  function Bit(b: bool): nat {
    if b then 1 else 0
  }

  function FromMsb(b: Bits): (v: nat)
    ensures v < Pow2(|b|)
  {
    if b == [] then 0 else 2 * FromMsb(b[..|b| - 1]) + Bit(b[|b| - 1])
  }

  function FromLsb(b: Bits): (v: nat)
    ensures v < Pow2(|b|)
  {
    if b == [] then 0 else Bit(b[0]) + 2 * FromLsb(b[1..])
  }

  lemma {:induction false} MsbOfFromMsb(b: Bits)
    ensures Msb(FromMsb(b), |b|) == b
  {
    if b != [] {
      MsbOfFromMsb(b[..|b| - 1]);
    }
  }

  lemma {:induction false} LsbOfFromLsb(b: Bits)
    ensures Lsb(FromLsb(b), |b|) == b
  {
    if b != [] {
      LsbOfFromLsb(b[1..]);
    }
  }

  lemma {:induction false} FromMsbOfMsb(v: nat, n: nat)
    requires v < Pow2(n)
    ensures FromMsb(Msb(v, n)) == v
  {
    if n != 0 {
      FromMsbOfMsb(v / 2, n - 1);
      assert Msb(v, n)[..n - 1] == Msb(v / 2, n - 1);
    }
  }

  lemma {:induction false} FromLsbOfLsb(v: nat, n: nat)
    requires v < Pow2(n)
    ensures FromLsb(Lsb(v, n)) == v
  {
    if n != 0 {
      FromLsbOfLsb(v / 2, n - 1);
      assert Lsb(v, n)[1..] == Lsb(v / 2, n - 1);
    }
  }

  lemma Pow2Values()
    ensures Pow2(8) == 0x100 && Pow2(16) == 0x1_0000
    ensures Pow2(31) == 0x8000_0000 && Pow2(32) == 0x1_0000_0000
  {
    assert Pow2(4) == 16;
    assert Pow2(8) == 256;
    assert Pow2(12) == 16 * 256;
    assert Pow2(16) == 256 * 256;
    assert Pow2(20) == 16 * Pow2(16);
    assert Pow2(24) == 256 * Pow2(16);
    assert Pow2(28) == 16 * Pow2(24);
    assert Pow2(31) == 8 * Pow2(28);
  }

  // ---------------------------------------------------------------- the register

  function Xor(a: Bits, b: Bits): (c: Bits)
    requires |a| == |b|
    ensures |c| == |a| && forall i :: 0 <= i < |c| ==> c[i] == (a[i] != b[i])
  {
    seq(|a|, i requires 0 <= i < |a| => a[i] != b[i])
  }

  function Zeros(n: nat): (z: Bits)
    ensures |z| == n && forall i :: 0 <= i < n ==> !z[i]
  {
    seq(n, _ => false)
  }

  /** A generator usable for detection: at least a byte wide, with a constant term. */
  predicate Generator(poly: Bits) {
    |poly| >= 8 && poly[|poly| - 1]
  }

  /** One round of the inner loop: shift out a bit, add the generator if it was set. */
  function Step(poly: Bits, reg: Bits): (r: Bits)
    requires Generator(poly) && |reg| == |poly|
    ensures |r| == |poly|
  {
    var shifted := reg[1..] + [false];
    if reg[0] then Xor(shifted, poly) else shifted
  }

  function Steps(poly: Bits, reg: Bits, n: nat): (r: Bits)
    requires Generator(poly) && |reg| == |poly|
    ensures |r| == |poly|
  {
    if n == 0 then reg else Step(poly, Steps(poly, reg, n - 1))
  }

  /** One round of the outer loop: add a byte to the end that leaves first. */
  function Absorb(poly: Bits, reg: Bits, octet: Bits): (r: Bits)
    requires Generator(poly) && |reg| == |poly| && |octet| == 8
    ensures |r| == |poly|
  {
    Steps(poly, Xor(reg, octet + Zeros(|poly| - 8)), 8)
  }

  const POLY16: Bits := Msb(0x1021, 16)
  const POLY32: Bits := Lsb(0xEDB88320, 32)

  lemma Generators()
    ensures Generator(POLY16) && Generator(POLY32)
  {
    hide Msb, Lsb, Pow2;
    LastMsb(0x1021, 16);
    Pow2Values();
    LastLsb(0xEDB88320, 32);
  }

  lemma LastMsb(v: nat, n: nat)
    requires 0 < n
    ensures Msb(v, n)[n - 1] == (v % 2 == 1)
  {
  }

  lemma {:induction false} LastLsb(v: nat, n: nat)
    requires 0 < n && Pow2(n - 1) <= v < Pow2(n)
    ensures Lsb(v, n)[n - 1]
  {
    if n > 1 {
      LastLsb(v / 2, n - 1);
    }
  }

  function Octet(msb: bool, b: byte): (o: Bits)
    ensures |o| == 8
  {
    if msb then Msb(b, 8) else Lsb(b, 8)
  }

  /** The register after `data`, byte by byte as the code processes it. */
  function Feed(poly: Bits, msb: bool, reg: Bits, data: seq<byte>): (r: Bits)
    requires Generator(poly) && |reg| == |poly|
    ensures |r| == |poly|
  {
    if data == [] then reg
    else Absorb(poly, Feed(poly, msb, reg, data[..|data| - 1]), Octet(msb, data[|data| - 1]))
  }

  function Ones(n: nat): (o: Bits)
    ensures |o| == n
  {
    seq(n, _ => true)
  }

  function Not(a: Bits): (b: Bits)
    ensures |b| == |a| && forall i :: 0 <= i < |a| ==> b[i] == !a[i]
  {
    seq(|a|, i requires 0 <= i < |a| => !a[i])
  }

  function Crc16(data: seq<byte>): uint16 {
    Generators();
    Pow2Values();
    FromMsb(Feed(POLY16, true, Ones(16), data))
  }

  function Crc32(data: seq<byte>): uint32 {
    Generators();
    Pow2Values();
    FromLsb(Not(Feed(POLY32, false, Ones(32), data)))
  }

  /** The nested loops shared by both checksums. */
  method FeedLoop(poly: Bits, msb: bool, start: Bits, data: seq<byte>) returns (reg: Bits)
    requires Generator(poly) && |start| == |poly|
    ensures reg == Feed(poly, msb, start, data)
  {
    reg := start;
    for index := 0 to |data|
      invariant reg == Feed(poly, msb, start, data[..index])
    {
      assert data[..index + 1][..index] == data[..index];
      reg := Xor(reg, Octet(msb, data[index]) + Zeros(|poly| - 8));
      ghost var loaded := reg;
      for bit := 0 to 8
        invariant reg == Steps(poly, loaded, bit)
      {
        var shifted := reg[1..] + [false];
        reg := if reg[0] then Xor(shifted, poly) else shifted;
      }
    }
    assert data[..|data|] == data;
  }

  // ---------------------------------------------------------------- detection

  /** The register after one message bit. */
  function Next(poly: Bits, reg: Bits, bit: bool): (r: Bits)
    requires Generator(poly) && |reg| == |poly|
    ensures |r| == |poly|
  {
    Step(poly, reg[0 := reg[0] != bit])
  }

  function Serial(poly: Bits, reg: Bits, message: Bits): (r: Bits)
    requires Generator(poly) && |reg| == |poly|
    ensures |r| == |poly|
  {
    if message == [] then reg
    else Next(poly, Serial(poly, reg, message[..|message| - 1]), message[|message| - 1])
  }

  lemma StepPending(poly: Bits, reg: Bits, pending: Bits)
    requires Generator(poly) && |reg| == |pending| == |poly|
    ensures Step(poly, Xor(reg, pending)) == Xor(Next(poly, reg, pending[0]), pending[1..] + [false])
  {
  }

  /** Bits waiting in front of the register pass through the shifts unchanged. */
  lemma {:induction false} PendingBits(poly: Bits, reg: Bits, octet: Bits, n: nat)
    requires Generator(poly) && |reg| == |poly| && |octet| == 8 && n <= 8
    ensures Steps(poly, Xor(reg, octet + Zeros(|poly| - 8)), n) ==
            Xor(Serial(poly, reg, octet[..n]), octet[n..] + Zeros(|poly| - 8 + n))
  {
    if n != 0 {
      PendingBits(poly, reg, octet, n - 1);
      assert octet[..n][..n - 1] == octet[..n - 1];
      var pending := octet[n - 1..] + Zeros(|poly| - 8 + n - 1);
      StepPending(poly, Serial(poly, reg, octet[..n - 1]), pending);
      assert pending[1..] + [false] == octet[n..] + Zeros(|poly| - 8 + n);
    }
  }

  lemma AbsorbIsSerial(poly: Bits, reg: Bits, octet: Bits)
    requires Generator(poly) && |reg| == |poly| && |octet| == 8
    ensures Absorb(poly, reg, octet) == Serial(poly, reg, octet)
  {
    PendingBits(poly, reg, octet, 8);
    assert octet[..8] == octet;
  }

  lemma {:induction false} SerialConcat(poly: Bits, reg: Bits, p: Bits, q: Bits)
    requires Generator(poly) && |reg| == |poly|
    ensures Serial(poly, reg, p + q) == Serial(poly, Serial(poly, reg, p), q)
  {
    if q == [] {
      assert p + q == p;
    } else {
      SerialConcat(poly, reg, p, q[..|q| - 1]);
      assert (p + q)[..|p + q| - 1] == p + q[..|q| - 1];
    }
  }

  predicate AgreeFrom(x: Bits, y: Bits, j: nat) {
    |x| == |y| && forall k :: j <= k < |x| ==> x[k] == y[k]
  }

  /** Going back one bit loses one position of agreement and shows that the
      feedback was the same. */
  lemma BackOneBit(poly: Bits, x: Bits, y: Bits, a: bool, b: bool, j: nat)
    requires Generator(poly) && |x| == |y| == |poly| && j < |poly|
    requires AgreeFrom(Next(poly, x, a), Next(poly, y, b), j)
    ensures (x[0] != a) == (y[0] != b)
    ensures AgreeFrom(x, y, j + 1)
  {
    var w := |poly|;
    var x', y' := Next(poly, x, a), Next(poly, y, b);
    assert x'[w - 1] == (x[0] != a) && y'[w - 1] == (y[0] != b);
    forall k | j + 1 <= k < w
      ensures x[k] == y[k]
    {
      assert x'[k - 1] == y'[k - 1];
    }
  }

  /** The bit step is a bijection: no two registers meet after the same bits. */
  lemma {:induction false} SerialInjective(poly: Bits, x: Bits, y: Bits, message: Bits)
    requires Generator(poly) && |x| == |y| == |poly|
    requires Serial(poly, x, message) == Serial(poly, y, message)
    ensures x == y
  {
    if message != [] {
      var front, last := message[..|message| - 1], message[|message| - 1];
      BackOneBit(poly, Serial(poly, x, front), Serial(poly, y, front), last, last, 0);
      assert Serial(poly, x, front) == Serial(poly, y, front);
      SerialInjective(poly, x, y, front);
    }
  }

  /** From one register, different bits no longer than the register stay visible. */
  lemma {:induction false} WindowInjective(poly: Bits, reg: Bits, a: Bits, b: Bits, j: nat)
    requires Generator(poly) && |reg| == |poly| && |a| == |b| && |a| + j <= |poly|
    requires AgreeFrom(Serial(poly, reg, a), Serial(poly, reg, b), j)
    ensures a == b
  {
    if a != [] {
      var n := |a| - 1;
      var x, y := Serial(poly, reg, a[..n]), Serial(poly, reg, b[..n]);
      BackOneBit(poly, x, y, a[n], b[n], j);
      WindowInjective(poly, reg, a[..n], b[..n], j + 1);
      assert a == a[..n] + [a[n]] && b == b[..n] + [b[n]];
    }
  }

  /** Two messages that differ only inside a window of register width leave
      different registers. */
  lemma BurstDetected(poly: Bits, reg: Bits, prefix: Bits, a: Bits, b: Bits, suffix: Bits)
    requires Generator(poly) && |reg| == |poly| && |a| == |b| <= |poly| && a != b
    ensures Serial(poly, reg, prefix + a + suffix) != Serial(poly, reg, prefix + b + suffix)
  {
    hide Serial;
    SerialConcat(poly, reg, prefix + a, suffix);
    SerialConcat(poly, reg, prefix + b, suffix);
    SerialConcat(poly, reg, prefix, a);
    SerialConcat(poly, reg, prefix, b);
    var start := Serial(poly, reg, prefix);
    var x, y := Serial(poly, start, a), Serial(poly, start, b);
    if Serial(poly, x, suffix) == Serial(poly, y, suffix) {
      SerialInjective(poly, x, y, suffix);
      WindowInjective(poly, start, a, b, 0);
    }
  }

  /** A message as the bit string the register sees. */
  function MessageBits(msb: bool, data: seq<byte>): (b: Bits)
    ensures |b| == 8 * |data|
  {
    if data == [] then [] else MessageBits(msb, data[..|data| - 1]) + Octet(msb, data[|data| - 1])
  }

  lemma Associative(a: Bits, b: Bits, c: Bits)
    ensures (a + b) + c == a + (b + c)
  {
  }

  lemma MessageBitsAppend(msb: bool, p: seq<byte>, b: byte)
    ensures MessageBits(msb, p + [b]) == MessageBits(msb, p) + Octet(msb, b)
  {
    assert (p + [b])[..|p|] == p;
  }

  lemma {:induction false} MessageBitsConcat(msb: bool, p: seq<byte>, q: seq<byte>)
    ensures MessageBits(msb, p + q) == MessageBits(msb, p) + MessageBits(msb, q)
    decreases |q|
  {
    if q == [] {
      assert p + q == p;
      assert MessageBits(msb, q) == [];
    } else {
      hide MessageBits, Octet;
      var front, last := q[..|q| - 1], q[|q| - 1];
      var pf := p + front;
      MessageBitsConcat(msb, p, front);
      assert p + q == pf + [last];
      assert q == front + [last];
      calc {
        MessageBits(msb, p + q);
        MessageBits(msb, pf + [last]);
        { MessageBitsAppend(msb, pf, last); }
        MessageBits(msb, pf) + Octet(msb, last);
        (MessageBits(msb, p) + MessageBits(msb, front)) + Octet(msb, last);
        { Associative(MessageBits(msb, p), MessageBits(msb, front), Octet(msb, last)); }
        MessageBits(msb, p) + (MessageBits(msb, front) + Octet(msb, last));
        { MessageBitsAppend(msb, front, last); }
        MessageBits(msb, p) + MessageBits(msb, q);
      }
    }
  }

  lemma OctetInjective(msb: bool, b: byte, c: byte)
    requires Octet(msb, b) == Octet(msb, c)
    ensures b == c
  {
    Pow2Values();
    FromMsbOfMsb(b, 8);
    FromMsbOfMsb(c, 8);
    FromLsbOfLsb(b, 8);
    FromLsbOfLsb(c, 8);
  }

  lemma ConcatCancels(u: Bits, x: Bits, v: Bits, y: Bits)
    requires u + x == v + y && |x| == |y|
    ensures u == v && x == y
  {
    assert |u| == |v|;
    assert u == (u + x)[..|u|] && x == (u + x)[|u|..];
    assert v == (v + y)[..|v|] && y == (v + y)[|v|..];
  }

  lemma {:induction false} MessageBitsInjective(msb: bool, p: seq<byte>, q: seq<byte>)
    requires MessageBits(msb, p) == MessageBits(msb, q)
    ensures p == q
  {
    hide MessageBits, Octet;
    assert |p| == |q|;
    if p != [] {
      var n := |p| - 1;
      assert p == p[..n] + [p[n]] && q == q[..n] + [q[n]];
      MessageBitsAppend(msb, p[..n], p[n]);
      MessageBitsAppend(msb, q[..n], q[n]);
      ConcatCancels(
        MessageBits(msb, p[..n]), Octet(msb, p[n]), MessageBits(msb, q[..n]), Octet(msb, q[n]));
      OctetInjective(msb, p[n], q[n]);
      MessageBitsInjective(msb, p[..n], q[..n]);
    }
  }

  lemma {:induction false} FeedIsSerial(poly: Bits, msb: bool, reg: Bits, data: seq<byte>)
    requires Generator(poly) && |reg| == |poly|
    ensures Feed(poly, msb, reg, data) == Serial(poly, reg, MessageBits(msb, data))
  {
    if data != [] {
      var n := |data| - 1;
      FeedIsSerial(poly, msb, reg, data[..n]);
      AbsorbIsSerial(poly, Feed(poly, msb, reg, data[..n]), Octet(msb, data[n]));
      SerialConcat(poly, reg, MessageBits(msb, data[..n]), Octet(msb, data[n]));
    }
  }

  lemma FeedDetectsBurst(
    poly: Bits, msb: bool, reg: Bits, prefix: seq<byte>, a: seq<byte>, b: seq<byte>, suffix: seq<byte>)
    requires Generator(poly) && |reg| == |poly| && |a| == |b| && 8 * |a| <= |poly| && a != b
    ensures Feed(poly, msb, reg, prefix + a + suffix) != Feed(poly, msb, reg, prefix + b + suffix)
  {
    FeedIsSerial(poly, msb, reg, prefix + a + suffix);
    FeedIsSerial(poly, msb, reg, prefix + b + suffix);
    MessageBitsConcat(msb, prefix + a, suffix);
    MessageBitsConcat(msb, prefix + b, suffix);
    MessageBitsConcat(msb, prefix, a);
    MessageBitsConcat(msb, prefix, b);
    if MessageBits(msb, a) == MessageBits(msb, b) {
      MessageBitsInjective(msb, a, b);
    }
    BurstDetected(
      poly, reg, MessageBits(msb, prefix), MessageBits(msb, a), MessageBits(msb, b), MessageBits(msb, suffix));
  }

  /** CRC-16 detects every change confined to two adjacent bytes. */
  lemma Crc16DetectsBurst(prefix: seq<byte>, a: seq<byte>, b: seq<byte>, suffix: seq<byte>)
    requires |a| == |b| <= 2 && a != b
    ensures Crc16(prefix + a + suffix) != Crc16(prefix + b + suffix)
  {
    Generators();
    FeedDetectsBurst(POLY16, true, Ones(16), prefix, a, b, suffix);
    FromMsbInjective(
      Feed(POLY16, true, Ones(16), prefix + a + suffix), Feed(POLY16, true, Ones(16), prefix + b + suffix));
  }

  /** CRC-32 detects every change confined to four adjacent bytes. */
  lemma Crc32DetectsBurst(prefix: seq<byte>, a: seq<byte>, b: seq<byte>, suffix: seq<byte>)
    requires |a| == |b| <= 4 && a != b
    ensures Crc32(prefix + a + suffix) != Crc32(prefix + b + suffix)
  {
    Generators();
    FeedDetectsBurst(POLY32, false, Ones(32), prefix, a, b, suffix);
    var x := Feed(POLY32, false, Ones(32), prefix + a + suffix);
    var y := Feed(POLY32, false, Ones(32), prefix + b + suffix);
    assert Not(x) != Not(y) by {
      if Not(x) == Not(y) {
        NotInjective(x, y);
      }
    }
    FromLsbInjective(Not(x), Not(y));
  }

  lemma NotInjective(x: Bits, y: Bits)
    requires Not(x) == Not(y)
    ensures x == y
  {
    assert |x| == |Not(x)| == |y|;
    forall i | 0 <= i < |x|
      ensures x[i] == y[i]
    {
      assert Not(x)[i] == Not(y)[i];
    }
  }

  lemma FromLsbInjective(x: Bits, y: Bits)
    requires |x| == |y| && x != y
    ensures FromLsb(x) != FromLsb(y)
  {
    LsbOfFromLsb(x);
    LsbOfFromLsb(y);
  }

  lemma FromMsbInjective(x: Bits, y: Bits)
    requires |x| == |y| && x != y
    ensures FromMsb(x) != FromMsb(y)
  {
    MsbOfFromMsb(x);
    MsbOfFromMsb(y);
  }

  method ComputeCrc16(data: seq<byte>) returns (crc: uint16)
    ensures crc == Crc16(data)
  {
    Generators();
    Pow2Values();
    var reg := FeedLoop(POLY16, true, Ones(16), data);
    crc := FromMsb(reg);
  }

  method ComputeCrc32(data: seq<byte>) returns (crc: uint32)
    ensures crc == Crc32(data)
  {
    Generators();
    Pow2Values();
    var reg := FeedLoop(POLY32, false, Ones(32), data);
    crc := FromLsb(Not(reg));
  }
}
