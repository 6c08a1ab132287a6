/** The nonce of a join request or a command session: the microsecond clock of the
    node, mixed with its UID. Everything that takes nonces as fresh rests on the clock
    alone. */
module Nonces {
  import opened Bytes
  import opened Protocol
  import opened Crc

  const SEED: uint32 := 0xA5C3_1F27
  const FACTOR: uint32 := 16777619

  // ---------------------------------------------------------------- words of 32 bits

  function Word(v: uint32): (b: Bits)
    ensures |b| == 32
  {
    Lsb(v, 32)
  }

  function Value(b: Bits): uint32
    requires |b| == 32
  {
    Pow2Values();
    FromLsb(b)
  }

  lemma ValueOfWord(v: uint32)
    ensures Value(Word(v)) == v
  {
    Pow2Values();
    FromLsbOfLsb(v, 32);
  }

  lemma WordOfValue(b: Bits)
    requires |b| == 32
    ensures Word(Value(b)) == b
  {
    LsbOfFromLsb(b);
  }

  function Exclusive(a: uint32, b: uint32): uint32 {
    Value(Xor(Word(a), Word(b)))
  }

  /** `v << s` drops the bits shifted out, `v >> s` likewise. */
  function ShiftLeft(b: Bits, s: nat): (r: Bits)
    requires |b| == 32 && s <= 32
    ensures |r| == 32 && forall i :: 0 <= i < 32 ==> r[i] == (i >= s && b[i - s])
  {
    Zeros(s) + b[..32 - s]
  }

  function ShiftRight(b: Bits, s: nat): (r: Bits)
    requires |b| == 32 && s <= 32
    ensures |r| == 32 && forall i :: 0 <= i < 32 ==> r[i] == (i + s < 32 && b[i + s])
  {
    b[s..] + Zeros(s)
  }

  function MixLeft(v: uint32, s: nat): uint32
    requires s <= 32
  {
    Value(Xor(Word(v), ShiftLeft(Word(v), s)))
  }

  function MixRight(v: uint32, s: nat): uint32
    requires s <= 32
  {
    Value(Xor(Word(v), ShiftRight(Word(v), s)))
  }

  function Times(v: uint32): uint32 {
    v * FACTOR % 0x1_0000_0000
  }

  // ---------------------------------------------------------------- the nonce

  function MixedUid(uid: seq<byte>, value: uint32): uint32 {
    if uid == [] then value else Times(Exclusive(MixedUid(uid[..|uid| - 1], value), uid[|uid| - 1]))
  }

  function Nonce(uid: Uid, micros: uint32): uint32 {
    MixLeft(MixRight(MixLeft(MixedUid(uid, Exclusive(micros, SEED)), 13), 17), 5)
  }

  method CreateNonce(deviceUid: Uid, micros: uint32) returns (value: uint32)
    ensures value == Nonce(deviceUid, micros)
  {
    hide Exclusive, Times, MixLeft, MixRight;
    value := Exclusive(micros, SEED);
    for index := 0 to |deviceUid|
      invariant value == MixedUid(deviceUid[..index], Exclusive(micros, SEED))
    {
      assert deviceUid[..index + 1][..index] == deviceUid[..index];
      value := Times(Exclusive(value, deviceUid[index]));
    }
    assert deviceUid[..|deviceUid|] == deviceUid;
    value := MixLeft(value, 13);
    value := MixRight(value, 17);
    value := MixLeft(value, 5);
  }

  // ---------------------------------------------------------------- no step loses anything

  lemma ExclusiveInjective(a: uint32, b: uint32, c: uint32)
    requires Exclusive(a, c) == Exclusive(b, c)
    ensures a == b
  {
    hide Lsb, FromLsb;
    var x, y := Xor(Word(a), Word(c)), Xor(Word(b), Word(c));
    WordOfValue(x);
    WordOfValue(y);
    assert x == y;
    forall i | 0 <= i < 32
      ensures Word(a)[i] == Word(b)[i]
    {
      assert x[i] == y[i];
    }
    assert Word(a) == Word(b);
    ValueOfWord(a);
    ValueOfWord(b);
  }

  /** Bit by bit from the end the shift leaves alone. */
  lemma {:induction false} LeftDetermines(x: Bits, y: Bits, s: nat, n: nat)
    requires |x| == |y| == 32 && 0 < s <= 32 && n <= 32
    requires Xor(x, ShiftLeft(x, s)) == Xor(y, ShiftLeft(y, s))
    ensures forall i :: 0 <= i < n ==> x[i] == y[i]
  {
    if n > 0 {
      LeftDetermines(x, y, s, n - 1);
      assert Xor(x, ShiftLeft(x, s))[n - 1] == Xor(y, ShiftLeft(y, s))[n - 1];
    }
  }

  lemma {:induction false} RightDetermines(x: Bits, y: Bits, s: nat, n: nat)
    requires |x| == |y| == 32 && 0 < s <= 32 && n <= 32
    requires Xor(x, ShiftRight(x, s)) == Xor(y, ShiftRight(y, s))
    ensures forall i :: 32 - n <= i < 32 ==> x[i] == y[i]
  {
    if n > 0 {
      RightDetermines(x, y, s, n - 1);
      assert Xor(x, ShiftRight(x, s))[32 - n] == Xor(y, ShiftRight(y, s))[32 - n];
    }
  }

  lemma MixLeftInjective(a: uint32, b: uint32, s: nat)
    requires 0 < s <= 32 && MixLeft(a, s) == MixLeft(b, s)
    ensures a == b
  {
    hide Lsb, FromLsb;
    var x, y := Word(a), Word(b);
    WordOfValue(Xor(x, ShiftLeft(x, s)));
    WordOfValue(Xor(y, ShiftLeft(y, s)));
    LeftDetermines(x, y, s, 32);
    ValueOfWord(a);
    ValueOfWord(b);
    assert x == y;
  }

  lemma MixRightInjective(a: uint32, b: uint32, s: nat)
    requires 0 < s <= 32 && MixRight(a, s) == MixRight(b, s)
    ensures a == b
  {
    hide Lsb, FromLsb;
    var x, y := Word(a), Word(b);
    WordOfValue(Xor(x, ShiftRight(x, s)));
    WordOfValue(Xor(y, ShiftRight(y, s)));
    RightDetermines(x, y, s, 32);
    ValueOfWord(a);
    ValueOfWord(b);
    assert x == y;
  }

  /** The factor is odd, so it has an inverse modulo 2^32. */
  lemma TimesInverse(v: uint32)
    ensures Times(v) * 899433627 % 0x1_0000_0000 == v
  {
    var q := v * FACTOR / 0x1_0000_0000;
    assert FACTOR * 899433627 == 1 + 3513497 * 0x1_0000_0000;
    assert Times(v) * 899433627 == v + 0x1_0000_0000 * (3513497 * v - 899433627 * q);
  }

  lemma {:induction false} MixedUidInjective(uid: seq<byte>, a: uint32, b: uint32)
    requires MixedUid(uid, a) == MixedUid(uid, b)
    ensures a == b
  {
    hide Exclusive, Times;
    if uid != [] {
      var front, last := uid[..|uid| - 1], uid[|uid| - 1];
      var x, y := MixedUid(front, a), MixedUid(front, b);
      TimesInverse(Exclusive(x, last));
      TimesInverse(Exclusive(y, last));
      ExclusiveInjective(x, y, last);
      MixedUidInjective(front, a, b);
    }
  }

  /** Two nonces of a device are equal exactly if the clock showed the same value, be it
      after a reset or after it wrapped. */
  lemma NonceRepeatsWithClock(uid: Uid, a: uint32, b: uint32)
    ensures Nonce(uid, a) == Nonce(uid, b) <==> a == b
  {
    hide MixLeft, MixRight, MixedUid, Exclusive;
    if Nonce(uid, a) == Nonce(uid, b) {
      var x, y := MixedUid(uid, Exclusive(a, SEED)), MixedUid(uid, Exclusive(b, SEED));
      MixLeftInjective(MixRight(MixLeft(x, 13), 17), MixRight(MixLeft(y, 13), 17), 5);
      MixRightInjective(MixLeft(x, 13), MixLeft(y, 13), 17);
      MixLeftInjective(x, y, 13);
      MixedUidInjective(uid, Exclusive(a, SEED), Exclusive(b, SEED));
      ExclusiveInjective(a, b, SEED);
    }
  }

  /** So a nonce is one the device has not used exactly if the clock shows a value it
      has not shown at any of those nonces. */
  lemma FreshExactlyIfClockIs(uid: Uid, shown: set<uint32>, micros: uint32)
    ensures Nonce(uid, micros) !in (set t | t in shown :: Nonce(uid, t)) <==> micros !in shown
  {
    hide Nonce;
    forall t | t in shown
      ensures Nonce(uid, micros) == Nonce(uid, t) <==> micros == t
    {
      NonceRepeatsWithClock(uid, micros, t);
    }
  }
}
