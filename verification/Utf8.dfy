/** The two text validators of the gateway against the UTF-8 of sections 3 and 4 of
    RFC 3629. */
module Utf8 {
  import opened Bytes
  import opened Options

  const DISPLAY_NAME_SIZE := 48

  // ---------------------------------------------------------------- the standard

  predicate Scalar(cp: int) {
    0 <= cp <= 0x10FFFF && !(0xD800 <= cp <= 0xDFFF)
  }

  function EncodeScalar(cp: int): (b: seq<byte>)
    requires Scalar(cp)
    ensures 1 <= |b| <= 4
  {
    if cp < 0x80 then [cp]
    else if cp < 0x800 then [0xC0 + cp / 0x40, 0x80 + cp % 0x40]
    else if cp < 0x10000 then [0xE0 + cp / 0x1000, 0x80 + cp / 0x40 % 0x40, 0x80 + cp % 0x40]
    else [0xF0 + cp / 0x40000, 0x80 + cp / 0x1000 % 0x40, 0x80 + cp / 0x40 % 0x40, 0x80 + cp % 0x40]
  }

  predicate Scalars(cps: seq<int>) {
    forall i :: 0 <= i < |cps| ==> Scalar(cps[i])
  }

  function EncodeText(cps: seq<int>): seq<byte>
    requires Scalars(cps)
  {
    if cps == [] then [] else EncodeScalar(cps[0]) + EncodeText(cps[1..])
  }

  /** Control characters that neither validator accepts: C0 and DEL. */
  predicate Printable(cp: int) {
    cp >= 0x20 && cp != 0x7F
  }

  /** Names also exclude the C1 controls. */
  predicate Displayable(cp: int) {
    cp >= 0x20 && !(0x7F <= cp <= 0x9F)
  }

  predicate Accepted(names: bool, cp: int) {
    Scalar(cp) && if names then Displayable(cp) else Printable(cp)
  }

  predicate AllAccepted(names: bool, cps: seq<int>) {
    forall i :: 0 <= i < |cps| ==> Accepted(names, cps[i])
  }

  /** The language: encodings of accepted scalar values. */
  ghost predicate IsText(names: bool, v: seq<byte>) {
    exists cps: seq<int> :: Scalars(cps) && AllAccepted(names, cps) && EncodeText(cps) == v
  }

  // ---------------------------------------------------------------- one character as the code reads it

  datatype Lead = Invalid | Lead(continuation: nat, bits: int)

  /** `validDisplayName` rejects the lead bytes C0, C1 and F5 up at once. */
  function NameLead(first: byte): (r: Lead)
    ensures r.Lead? ==> r.continuation <= 3 && 0 <= r.bits < 0x80
  {
    if first < 0x80 then Lead(0, first)
    else if 0xC2 <= first <= 0xDF then Lead(1, first % 0x20)
    else if 0xE0 <= first <= 0xEF then Lead(2, first % 0x10)
    else if 0xF0 <= first <= 0xF4 then Lead(3, first % 0x08)
    else Invalid
  }

  /** `validUtf8` masks the lead byte and leaves those to the checks at the end. */
  function TextLead(first: byte): (r: Lead)
    ensures r.Lead? ==> r.continuation <= 3 && 0 <= r.bits < 0x80
  {
    if first < 0x80 then Lead(0, first)
    else if first / 0x20 == 0x6 then Lead(1, first % 0x20)
    else if first / 0x10 == 0xE then Lead(2, first % 0x10)
    else if first / 0x08 == 0x1E then Lead(3, first % 0x08)
    else Invalid
  }

  /** `bits` followed by the low six bits of `n` continuation bytes from `at`. */
  function Continue(v: seq<byte>, at: nat, n: nat, bits: int): (cp: Option<int>)
    requires at + n <= |v| && bits >= 0
    ensures cp.Some? ==> cp.value >= 0
    decreases n
  {
    if n == 0 then Some(bits)
    else if v[at] / 0x40 != 2 then None
    else Continue(v, at + 1, n - 1, bits * 0x40 + v[at] % 0x40)
  }

  predicate NameCheck(cp: int, n: nat) {
    !((n == 2 && cp < 0x800) || (n == 3 && cp < 0x10000) || cp > 0x10FFFF || 0xD800 <= cp <= 0xDFFF ||
      cp < 0x20 || 0x7F <= cp <= 0x9F)
  }

  predicate TextCheck(cp: int, n: nat) {
    !((n == 1 && cp < 0x80) || (n == 2 && cp < 0x800) || (n == 3 && cp < 0x10000) || cp > 0x10FFFF ||
      0xD800 <= cp <= 0xDFFF || (n == 0 && (cp < 0x20 || cp == 0x7F)))
  }

  /** The number of bytes of the character at `i`, if it is accepted. */
  function CharacterAt(names: bool, v: seq<byte>, i: nat): (size: Option<nat>)
    requires i < |v|
    ensures size.Some? ==> 1 <= size.value <= 4 && i + size.value <= |v|
  {
    var lead := if names then NameLead(v[i]) else TextLead(v[i]);
    if lead.Invalid? || i + lead.continuation >= |v| then None
    else
      var cp := Continue(v, i + 1, lead.continuation, lead.bits);
      if cp.None? || !(if names then NameCheck(cp.value, lead.continuation) else TextCheck(cp.value, lead.continuation))
      then None else Some(lead.continuation + 1)
  }

  function ValidFrom(names: bool, v: seq<byte>, i: nat): bool
    requires i <= |v|
    decreases |v| - i
  {
    i == |v| || (CharacterAt(names, v, i).Some? && ValidFrom(names, v, i + CharacterAt(names, v, i).value))
  }

  predicate ValidDisplayName(v: seq<byte>) {
    |v| <= DISPLAY_NAME_SIZE && ValidFrom(true, v, 0)
  }

  // ---------------------------------------------------------------- the equivalence

  /** Continuation bytes spelled out. */
  lemma ContinueValue(v: seq<byte>, at: nat, n: nat, bits: int)
    requires at + n <= |v| && 0 <= bits && n <= 3
    ensures Continue(v, at, n, bits).Some? <==> forall k :: at <= k < at + n ==> v[k] / 0x40 == 2
    ensures Continue(v, at, n, bits).Some? ==>
              Continue(v, at, n, bits).value ==
              if n == 0 then bits
              else if n == 1 then bits * 0x40 + v[at] % 0x40
              else if n == 2 then (bits * 0x40 + v[at] % 0x40) * 0x40 + v[at + 1] % 0x40
              else ((bits * 0x40 + v[at] % 0x40) * 0x40 + v[at + 1] % 0x40) * 0x40 + v[at + 2] % 0x40
    decreases n
  {
    if n > 0 && v[at] / 0x40 == 2 {
      ContinueValue(v, at + 1, n - 1, bits * 0x40 + v[at] % 0x40);
    }
  }

  lemma Digit(high: int, low: byte)
    requires 0 <= high && low / 0x40 == 2
    ensures (high * 0x40 + low % 0x40) / 0x40 == high && (high * 0x40 + low % 0x40) % 0x40 == low - 0x80
  {
  }

  lemma ShiftTwice(cp: int)
    requires 0 <= cp
    ensures cp / 0x40 / 0x40 == cp / 0x1000 && cp / 0x1000 / 0x40 == cp / 0x40000
  {
  }

  lemma TwoBytes(bits: int, a: byte)
    requires 0 <= bits && a / 0x40 == 2 && 0x80 <= bits * 0x40 + a % 0x40 < 0x800
    ensures EncodeScalar(bits * 0x40 + a % 0x40) == [0xC0 + bits, a]
  {
    Digit(bits, a);
  }

  lemma ThreeBytes(bits: int, a: byte, b: byte)
    requires 0 <= bits && a / 0x40 == 2 && b / 0x40 == 2
    requires
      var cp := (bits * 0x40 + a % 0x40) * 0x40 + b % 0x40;
      0x800 <= cp < 0x10000 && Scalar(cp)
    ensures EncodeScalar((bits * 0x40 + a % 0x40) * 0x40 + b % 0x40) == [0xE0 + bits, a, b]
  {
    var high := bits * 0x40 + a % 0x40;
    Digit(bits, a);
    Digit(high, b);
    ShiftTwice(high * 0x40 + b % 0x40);
  }

  lemma FourBytes(bits: int, a: byte, b: byte, c: byte)
    requires 0 <= bits && a / 0x40 == 2 && b / 0x40 == 2 && c / 0x40 == 2
    requires
      var cp := ((bits * 0x40 + a % 0x40) * 0x40 + b % 0x40) * 0x40 + c % 0x40;
      0x10000 <= cp <= 0x10FFFF
    ensures EncodeScalar(((bits * 0x40 + a % 0x40) * 0x40 + b % 0x40) * 0x40 + c % 0x40) == [0xF0 + bits, a, b, c]
  {
    var top := bits * 0x40 + a % 0x40;
    var high := top * 0x40 + b % 0x40;
    Digit(bits, a);
    Digit(top, b);
    Digit(high, c);
    ShiftTwice(high * 0x40 + c % 0x40);
  }

  /** The bytes of a character of `n` continuation bytes, given that its value needs them. */
  lemma CharacterBytes(v: seq<byte>, i: nat, n: nat, bits: int) returns (cp: int)
    requires n <= 3 && i + n < |v| && 0 <= bits
    requires v[i] == bits + if n == 0 then 0 else if n == 1 then 0xC0 else if n == 2 then 0xE0 else 0xF0
    requires Continue(v, i + 1, n, bits).Some?
    requires
      var value := Continue(v, i + 1, n, bits).value;
      Scalar(value) && if n == 0 then value < 0x80 else if n == 1 then 0x80 <= value < 0x800
                       else if n == 2 then 0x800 <= value < 0x10000 else 0x10000 <= value
    ensures cp == Continue(v, i + 1, n, bits).value && Scalar(cp)
    ensures EncodeScalar(cp) == v[i..i + n + 1]
  {
    cp := Continue(v, i + 1, n, bits).value;
    ContinueValue(v, i + 1, n, bits);
    hide Continue, EncodeScalar;
    if n == 0 {
      PlainEncoding(cp);
      assert v[i..i + 1] == [v[i]];
    } else if n == 1 {
      TwoBytes(bits, v[i + 1]);
      assert v[i..i + 2] == [v[i], v[i + 1]];
    } else if n == 2 {
      ThreeBytes(bits, v[i + 1], v[i + 2]);
      SliceThree(v, i);
    } else {
      FourBytes(bits, v[i + 1], v[i + 2], v[i + 3]);
      SliceFour(v, i);
    }
  }

  lemma SliceThree(v: seq<byte>, i: nat)
    requires i + 2 < |v|
    ensures v[i..i + 3] == [v[i], v[i + 1], v[i + 2]]
  {
  }

  lemma SliceFour(v: seq<byte>, i: nat)
    requires i + 3 < |v|
    ensures v[i..i + 4] == [v[i], v[i + 1], v[i + 2], v[i + 3]]
  {
  }

  /** An accepted character is the encoding of an accepted scalar value. */
  lemma CharacterIsScalar(names: bool, v: seq<byte>, i: nat) returns (cp: int)
    requires i < |v| && CharacterAt(names, v, i).Some?
    ensures Accepted(names, cp) && EncodeScalar(cp) == v[i..i + CharacterAt(names, v, i).value]
  {
    var lead := if names then NameLead(v[i]) else TextLead(v[i]);
    var n := lead.continuation;
    var value := Continue(v, i + 1, n, lead.bits).value;
    ContinueBounds(v, i + 1, n, lead.bits);
    LeadBits(names, v[i]);
    CheckedScalar(names, value, n);
    hide Continue, NameLead, TextLead, EncodeScalar, NameCheck, TextCheck, Accepted;
    cp := CharacterBytes(v, i, n, lead.bits);
  }

  lemma ContinueBounds(v: seq<byte>, at: nat, n: nat, bits: int)
    requires at + n <= |v| && 0 <= bits && n <= 3 && Continue(v, at, n, bits).Some?
    ensures
      var value := Continue(v, at, n, bits).value;
      && (n == 0 ==> value == bits)
      && (n == 1 ==> bits * 0x40 <= value < (bits + 1) * 0x40)
      && (n == 2 ==> value < (bits + 1) * 0x1000)
  {
    ContinueValue(v, at, n, bits);
  }

  lemma PlainEncoding(cp: int)
    requires 0 <= cp < 0x80
    ensures EncodeScalar(cp) == [cp]
  {
  }

  /** The checks at the end of either validator, by the length of the character. */
  lemma CheckedScalar(names: bool, cp: int, n: nat)
    requires cp >= 0 && n <= 3 && if names then NameCheck(cp, n) else TextCheck(cp, n)
    ensures Scalar(cp)
    ensures n > 0 && (n == 1 ==> cp >= 0x80) ==> Accepted(names, cp)
    ensures n == 0 ==> Accepted(names, cp)
    ensures !names && n == 1 ==> cp >= 0x80
    ensures (n == 2 ==> cp >= 0x800) && (n == 3 ==> cp >= 0x10000)
  {
  }

  lemma LeadBits(names: bool, first: byte)
    ensures
      var lead := if names then NameLead(first) else TextLead(first);
      lead.Lead? ==>
        && (lead.continuation == 0 ==> lead.bits < 0x80)
        && (names && lead.continuation == 1 ==> lead.bits >= 2)
        && (lead.continuation == 1 ==> lead.bits < 0x20) && (lead.continuation == 2 ==> lead.bits < 0x10)
        && first == lead.bits + if lead.continuation == 0 then 0 else if lead.continuation == 1 then 0xC0
                                          else if lead.continuation == 2 then 0xE0 else 0xF0
  {
  }

  /** The encoding of an accepted scalar value is read as one character. */
  lemma ScalarIsCharacter(names: bool, cp: int, v: seq<byte>, i: nat)
    requires Accepted(names, cp)
    requires i + |EncodeScalar(cp)| <= |v| && v[i..i + |EncodeScalar(cp)|] == EncodeScalar(cp)
    ensures i < |v| && CharacterAt(names, v, i) == Some(|EncodeScalar(cp)|)
  {
    var e := EncodeScalar(cp);
    assert v[i] == v[i..i + |e|][0];
    var lead := if names then NameLead(v[i]) else TextLead(v[i]);
    LeadOf(names, cp);
    assert lead.continuation == |e| - 1;
    ContinueEncoded(cp, v, i);
    hide Continue, NameLead, TextLead, EncodeScalar;
  }

  /** Reading the continuation bytes of an encoding restores the scalar value. */
  lemma ContinueEncoded(cp: int, v: seq<byte>, i: nat)
    requires Scalar(cp)
    requires i + |EncodeScalar(cp)| <= |v| && v[i..i + |EncodeScalar(cp)|] == EncodeScalar(cp)
    ensures Continue(v, i + 1, |EncodeScalar(cp)| - 1, TopBits(cp)) == Some(cp)
  {
    var e := EncodeScalar(cp);
    assert forall k :: 0 <= k < |e| ==> v[i + k] == e[k];
    ContinueValue(v, i + 1, |e| - 1, TopBits(cp));
    hide Continue;
    DigitsOf(cp);
    if |e| >= 2 {
      SixBits(cp % 0x40);
      assert v[i + |e| - 1] == e[|e| - 1];
    }
    if |e| >= 3 {
      SixBits(cp / 0x40 % 0x40);
      assert v[i + |e| - 2] == e[|e| - 2];
    }
    if |e| == 4 {
      SixBits(cp / 0x1000 % 0x40);
      assert v[i + 1] == e[1];
    }
  }

  lemma SixBits(d: int)
    requires 0 <= d < 0x40
    ensures (0x80 + d) / 0x40 == 2 && (0x80 + d) % 0x40 == d
  {
  }

  function TopBits(cp: int): (b: int)
    requires Scalar(cp)
    ensures b >= 0
  {
    if cp < 0x80 then cp else if cp < 0x800 then cp / 0x40 else if cp < 0x10000 then cp / 0x1000 else cp / 0x40000
  }

  lemma LeadOf(names: bool, cp: int)
    requires Accepted(names, cp)
    ensures
      var e := EncodeScalar(cp);
      var lead := if names then NameLead(e[0]) else TextLead(e[0]);
      lead == Lead(|e| - 1, TopBits(cp))
  {
  }

  lemma DigitsOf(cp: int)
    requires 0 <= cp
    ensures cp == cp / 0x40 * 0x40 + cp % 0x40
    ensures cp / 0x40 == cp / 0x1000 * 0x40 + cp / 0x40 % 0x40
    ensures cp / 0x1000 == cp / 0x40000 * 0x40 + cp / 0x1000 % 0x40
  {
  }

  lemma AcceptedScalar(names: bool, cp: int)
    requires Accepted(names, cp)
    ensures Scalar(cp)
  {
  }

  lemma EncodeCons(cp: int, rest: seq<int>)
    requires Scalar(cp) && Scalars(rest)
    ensures Scalars([cp] + rest) && EncodeText([cp] + rest) == EncodeScalar(cp) + EncodeText(rest)
  {
    assert ([cp] + rest)[1..] == rest;
  }

  lemma {:induction false} ValidIsText(names: bool, v: seq<byte>, i: nat) returns (cps: seq<int>)
    requires i <= |v| && ValidFrom(names, v, i)
    ensures Scalars(cps) && AllAccepted(names, cps) && EncodeText(cps) == v[i..]
    decreases |v| - i
  {
    if i == |v| {
      cps := [];
    } else {
      hide CharacterAt, EncodeScalar, EncodeText, Accepted, Scalar;
      var cp := CharacterIsScalar(names, v, i);
      AcceptedScalar(names, cp);
      var next := i + CharacterAt(names, v, i).value;
      var rest := ValidIsText(names, v, next);
      cps := [cp] + rest;
      EncodeCons(cp, rest);
      assert v[i..] == v[i..next] + v[next..];
    }
  }

  lemma SplitAt(v: seq<byte>, i: nat, e: seq<byte>, rest: seq<byte>)
    requires i <= |v| && v[i..] == e + rest
    ensures i + |e| <= |v| && v[i..i + |e|] == e && v[i + |e|..] == rest
  {
    assert |v[i..]| == |e| + |rest|;
    assert v[i..][..|e|] == e && v[i..][|e|..] == rest;
  }

  lemma Parts(names: bool, cps: seq<int>)
    requires cps != [] && Scalars(cps) && AllAccepted(names, cps)
    ensures Scalar(cps[0]) && Accepted(names, cps[0]) && Scalars(cps[1..]) && AllAccepted(names, cps[1..])
  {
  }

  lemma {:induction false} TextIsValid(names: bool, cps: seq<int>, v: seq<byte>, i: nat)
    requires i <= |v| && Scalars(cps) && AllAccepted(names, cps)
    requires EncodeText(cps) == v[i..]
    ensures ValidFrom(names, v, i)
    decreases |cps|
  {
    hide CharacterAt, EncodeScalar, EncodeText, Accepted, Scalar, AllAccepted, Scalars, ValidFrom;
    if cps == [] {
      EmptyText(names, v, i);
    } else {
      Parts(names, cps);
      var size := |EncodeScalar(cps[0])|;
      EncodeCons(cps[0], cps[1..]);
      assert cps == [cps[0]] + cps[1..];
      SplitAt(v, i, EncodeScalar(cps[0]), EncodeText(cps[1..]));
      ScalarIsCharacter(names, cps[0], v, i);
      TextIsValid(names, cps[1..], v, i + size);
      NextValid(names, v, i, size);
    }
  }

  lemma EmptyText(names: bool, v: seq<byte>, i: nat)
    requires i <= |v| && EncodeText([]) == v[i..]
    ensures ValidFrom(names, v, i)
  {
    assert |v[i..]| == 0;
  }

  lemma NextValid(names: bool, v: seq<byte>, i: nat, size: nat)
    requires i < |v| && CharacterAt(names, v, i) == Some(size) && i + size <= |v| && ValidFrom(names, v, i + size)
    ensures ValidFrom(names, v, i)
  {
    hide CharacterAt;
  }

  /** Each validator accepts exactly the encodings of its scalar values. */
  lemma ValidatorsAreExact(names: bool, v: seq<byte>)
    ensures ValidFrom(names, v, 0) <==> IsText(names, v)
  {
    assert v[0..] == v;
    if ValidFrom(names, v, 0) {
      var cps := ValidIsText(names, v, 0);
    }
    if IsText(names, v) {
      var cps: seq<int> :|
        Scalars(cps) && AllAccepted(names, cps) && EncodeText(cps) == v;
      TextIsValid(names, cps, v, 0);
    }
  }

  /** So every valid name is a valid text, although the two reject overlong forms at
      different places. */
  lemma NamesAreTexts(v: seq<byte>)
    requires ValidDisplayName(v)
    ensures ValidFrom(false, v, 0)
  {
    ValidatorsAreExact(true, v);
    ValidatorsAreExact(false, v);
  }

  // ---------------------------------------------------------------- the loops

  /** The inner loop of both validators. */
  method ReadContinuation(value: seq<byte>, at: nat, continuation: nat, bits: int) returns (codePoint: Option<int>)
    requires at + continuation <= |value| && bits >= 0
    ensures codePoint == Continue(value, at, continuation, bits)
  {
    var cp := bits;
    for offset := 0 to continuation
      invariant cp >= 0
      invariant Continue(value, at + offset, continuation - offset, cp) == Continue(value, at, continuation, bits)
    {
      var next := value[at + offset];
      if next / 0x40 != 2 {
        return None;
      }
      cp := cp * 0x40 + next % 0x40;
    }
    codePoint := Some(cp);
  }

  method CheckDisplayName(value: seq<byte>) returns (valid: bool)
    ensures valid <==> |value| <= DISPLAY_NAME_SIZE && IsText(true, value)
    ensures valid <==> ValidDisplayName(value)
  {
    ValidatorsAreExact(true, value);
    hide IsText, Continue;
    if |value| > DISPLAY_NAME_SIZE {
      return false;
    }
    var index := 0;
    while index < |value|
      invariant index <= |value|
      invariant ValidFrom(true, value, 0) == ValidFrom(true, value, index)
    {
      var first := value[index];
      var bits: int, continuation;
      if first < 0x80 {
        bits, continuation := first, 0;
      } else if 0xC2 <= first <= 0xDF {
        bits, continuation := first % 0x20, 1;
      } else if 0xE0 <= first <= 0xEF {
        bits, continuation := first % 0x10, 2;
      } else if 0xF0 <= first <= 0xF4 {
        bits, continuation := first % 0x08, 3;
      } else {
        return false;
      }
      assert NameLead(first) == Lead(continuation, bits);
      if index + continuation >= |value| {
        return false;
      }
      var codePoint := ReadContinuation(value, index + 1, continuation, bits);
      if codePoint.None? || !NameCheck(codePoint.value, continuation) {
        return false;
      }
      index := index + continuation + 1;
    }
    valid := true;
  }

  method CheckUtf8(data: seq<byte>) returns (valid: bool)
    ensures valid <==> IsText(false, data)
  {
    ValidatorsAreExact(false, data);
    hide IsText, Continue;
    var index := 0;
    while index < |data|
      invariant index <= |data|
      invariant ValidFrom(false, data, 0) == ValidFrom(false, data, index)
    {
      var first := data[index];
      if first < 0x20 || first == 0x7F {
        ControlRejected(data, index);
        return false;
      }
      if first < 0x80 {
        PlainAccepted(data, index);
        index := index + 1;
        continue;
      }
      var continuation, bits: int;
      if first / 0x20 == 0x6 {
        continuation, bits := 1, first % 0x20;
      } else if first / 0x10 == 0xE {
        continuation, bits := 2, first % 0x10;
      } else if first / 0x08 == 0x1E {
        continuation, bits := 3, first % 0x08;
      } else {
        return false;
      }
      assert TextLead(first) == Lead(continuation, bits);
      if index + 1 + continuation > |data| {
        return false;
      }
      var codePoint := ReadContinuation(data, index + 1, continuation, bits);
      if codePoint.None? || !TextCheck(codePoint.value, continuation) {
        return false;
      }
      index := index + 1 + continuation;
    }
    valid := true;
  }

  lemma ControlRejected(v: seq<byte>, i: nat)
    requires i < |v| && (v[i] < 0x20 || v[i] == 0x7F)
    ensures CharacterAt(false, v, i).None?
  {
  }

  lemma PlainAccepted(v: seq<byte>, i: nat)
    requires i < |v| && 0x20 <= v[i] < 0x80 && v[i] != 0x7F
    ensures CharacterAt(false, v, i) == Some(1)
  {
  }
}
