/** API tokens: 32 bytes spelled as 43 characters of unpadded base64url (section 5 of
    RFC 4648). Encoder and decoder are proved against the numbers the two digit
    strings denote. */
module Base64Url {
  import opened Bytes
  import opened Options

  const API_TOKEN_CHARACTERS := 43
  const API_TOKEN_BYTES := 32

  type sextet = x: int | 0 <= x < 64

  // ---------------------------------------------------------------- numbers in a base

  ghost predicate DigitsIn(base: int, d: seq<int>) {
    forall i :: 0 <= i < |d| ==> 0 <= d[i] < base
  }

  /** The number a digit string denotes, most significant digit first. */
  ghost function Value(base: int, d: seq<int>): int {
    if d == [] then 0 else Value(base, d[..|d| - 1]) * base + d[|d| - 1]
  }

  lemma ValueAppend(base: int, d: seq<int>, x: int)
    ensures Value(base, d + [x]) == Value(base, d) * base + x
  {
    assert (d + [x])[..|d|] == d;
  }

  lemma SameQuotient(base: int, p: int, r: int, q: int, t: int)
    requires 0 <= r < base && 0 <= t < base && p * base + r == q * base + t
    ensures p == q && r == t
  {
    assert (p - q) * base == t - r;
    if p > q {
      assert (p - q) * base == base + (p - q - 1) * base;
      NonNegative(p - q - 1, base);
    } else if q > p {
      assert (q - p) * base == base + (q - p - 1) * base;
      NonNegative(q - p - 1, base);
    }
  }

  lemma NonNegative(a: int, b: int)
    requires a >= 0 && b >= 0
    ensures a * b >= 0
  {
  }

  /** Digit strings of one length are determined by their number. */
  lemma {:induction false} ValueInjective(base: int, a: seq<int>, b: seq<int>)
    requires |a| == |b| && DigitsIn(base, a) && DigitsIn(base, b) && Value(base, a) == Value(base, b)
    ensures a == b
  {
    if a != [] {
      var m := |a| - 1;
      SameQuotient(base, Value(base, a[..m]), a[m], Value(base, b[..m]), b[m]);
      ValueInjective(base, a[..m], b[..m]);
      assert a == a[..m] + [a[m]] && b == b[..m] + [b[m]];
    }
  }

  // ---------------------------------------------------------------- the alphabet

  function Character(d: sextet): byte {
    if d < 26 then 0x41 + d
    else if d < 52 then 0x61 + d - 26
    else if d < 62 then 0x30 + d - 52
    else if d == 62 then 0x2D
    else 0x5F
  }

  /** -1 outside the alphabet. */
  function CharacterValue(c: byte): (d: int)
    ensures -1 <= d < 64
  {
    if 0x41 <= c <= 0x5A then c - 0x41
    else if 0x61 <= c <= 0x7A then c - 0x61 + 26
    else if 0x30 <= c <= 0x39 then c - 0x30 + 52
    else if c == 0x2D then 62
    else if c == 0x5F then 63
    else -1
  }

  lemma CharactersMatch(d: sextet, c: byte)
    ensures CharacterValue(Character(d)) == d
    ensures CharacterValue(c) >= 0 ==> Character(CharacterValue(c)) == c
  {
  }

  /** The digits a text spells. */
  ghost function Spelled(text: seq<byte>): (d: seq<int>)
    ensures |d| == |text| && forall i :: 0 <= i < |text| ==> d[i] == CharacterValue(text[i])
  {
    seq(|text|, i requires 0 <= i < |text| => CharacterValue(text[i]))
  }

  ghost predicate InAlphabet(text: seq<byte>) {
    forall i :: 0 <= i < |text| ==> CharacterValue(text[i]) >= 0
  }

  lemma SpelledInjective(a: seq<byte>, b: seq<byte>)
    requires InAlphabet(a) && InAlphabet(b) && Spelled(a) == Spelled(b)
    ensures a == b
  {
    forall i | 0 <= i < |a|
      ensures a[i] == b[i]
    {
      assert Spelled(a)[i] == Spelled(b)[i];
      CharactersMatch(0, a[i]);
      CharactersMatch(0, b[i]);
    }
  }

  // ---------------------------------------------------------------- what an encoding is

  /** The weight of the zero bits that fill up the last character. */
  function Filling(size: nat): int {
    if size % 3 == 0 then 1 else if size % 3 == 1 then 16 else 4
  }

  function EncodedLength(size: nat): nat {
    4 * (size / 3) + if size % 3 == 0 then 0 else size % 3 + 1
  }

  /** The unpadded encoding: as many characters as the bits need, spelling the same
      number with zero bits after it. */
  ghost predicate Encodes(text: seq<byte>, data: seq<byte>) {
    && |text| == EncodedLength(|data|) && InAlphabet(text)
    && Value(64, Spelled(text)) == Value(256, data) * Filling(|data|)
  }

  /** Every value has exactly one encoding. */
  lemma EncodingUnique(a: seq<byte>, b: seq<byte>, data: seq<byte>)
    requires Encodes(a, data) && Encodes(b, data)
    ensures a == b
  {
    ValueInjective(64, Spelled(a), Spelled(b));
    SpelledInjective(a, b);
  }

  /** A text encodes at most one value of a length. */
  lemma EncodedUnique(text: seq<byte>, a: seq<byte>, b: seq<byte>)
    requires Encodes(text, a) && Encodes(text, b) && |a| == |b|
    ensures a == b
  {
    ValueInjective(256, a, b);
  }

  // ---------------------------------------------------------------- the encoder

  /** Four sextets of a 24-bit value. */
  lemma Sextets(v: int)
    requires 0 <= v < 0x100_0000
    ensures v / 0x4_0000 < 64
    ensures v / 64 == (v / 0x4_0000 * 64 + v / 0x1000 % 64) * 64 + v / 64 % 64
    ensures v == v / 64 * 64 + v % 64
  {
    var u := v / 64;
    assert u / 64 == v / 0x1000 && u / 0x1000 == v / 0x4_0000;
    var t := u / 64;
    assert t / 64 == u / 0x1000;
    assert u == t * 64 + u % 64 && t == t / 64 * 64 + t % 64;
  }

  lemma GroupOfThree(out: seq<int>, data: seq<byte>, a: byte, b: byte, c: byte)
    requires Value(64, out) == Value(256, data)
    ensures
      var v := a * 0x1_0000 + b * 0x100 + c;
      Value(64, out + [v / 0x4_0000, v / 0x1000 % 64, v / 64 % 64, v % 64]) == Value(256, data + [a, b, c])
  {
    var v := a * 0x1_0000 + b * 0x100 + c;
    var p, q, r, t := v / 0x4_0000, v / 0x1000 % 64, v / 64 % 64, v % 64;
    hide Value;
    Sextets(v);
    assert v == ((p * 64 + q) * 64 + r) * 64 + t;
    assert out + [p, q, r, t] == (((out + [p]) + [q]) + [r]) + [t];
    ValueAppend(64, out, p);
    ValueAppend(64, out + [p], q);
    ValueAppend(64, out + [p] + [q], r);
    ValueAppend(64, out + [p] + [q] + [r], t);
    assert data + [a, b, c] == ((data + [a]) + [b]) + [c];
    ValueAppend(256, data, a);
    ValueAppend(256, data + [a], b);
    ValueAppend(256, data + [a] + [b], c);
  }

  lemma LastTwo(out: seq<int>, data: seq<byte>, a: byte, b: byte)
    requires Value(64, out) == Value(256, data)
    ensures
      var v := a * 0x1_0000 + b * 0x100;
      Value(64, out + [v / 0x4_0000, v / 0x1000 % 64, v / 64 % 64]) == Value(256, data + [a, b]) * 4
  {
    var v := a * 0x1_0000 + b * 0x100;
    var p, q, r := v / 0x4_0000, v / 0x1000 % 64, v / 64 % 64;
    hide Value;
    Sextets(v);
    assert v == (a * 0x100 + b) * 4 * 64;
    assert v / 64 == (a * 0x100 + b) * 4;
    assert out + [p, q, r] == ((out + [p]) + [q]) + [r];
    ValueAppend(64, out, p);
    ValueAppend(64, out + [p], q);
    ValueAppend(64, out + [p] + [q], r);
    assert data + [a, b] == (data + [a]) + [b];
    ValueAppend(256, data, a);
    ValueAppend(256, data + [a], b);
  }

  lemma LastOne(out: seq<int>, data: seq<byte>, a: byte)
    requires Value(64, out) == Value(256, data)
    ensures
      var v := a * 0x1_0000;
      Value(64, out + [v / 0x4_0000, v / 0x1000 % 64]) == Value(256, data + [a]) * 16
  {
    var v := a * 0x1_0000;
    var p, q := v / 0x4_0000, v / 0x1000 % 64;
    assert p * 64 + q == a * 16;
    assert out + [p, q] == (out + [p]) + [q];
    ValueAppend(64, out, p);
    ValueAppend(64, out + [p], q);
    ValueAppend(256, data, a);
  }

  /** Appending the characters of digits appends the digits. */
  lemma SpelledAppend(text: seq<byte>, digits: seq<sextet>)
    requires InAlphabet(text)
    ensures
      var more := seq(|digits|, i requires 0 <= i < |digits| => Character(digits[i]));
      InAlphabet(text + more) && Spelled(text + more) == Spelled(text) + digits
  {
    var more := seq(|digits|, i requires 0 <= i < |digits| => Character(digits[i]));
    forall i | 0 <= i < |digits|
      ensures CharacterValue(more[i]) == digits[i]
    {
      CharactersMatch(digits[i], 0);
    }
  }

  method Characters(digits: seq<sextet>) returns (text: seq<byte>)
    ensures text == seq(|digits|, i requires 0 <= i < |digits| => Character(digits[i]))
  {
    text := seq(|digits|, i requires 0 <= i < |digits| => Character(digits[i]));
  }

  method EncodeBase64Url(input: seq<byte>) returns (output: seq<byte>)
    ensures Encodes(output, input)
  {
    hide Value, Character, CharacterValue;
    output := [];
    var inputIndex := 0;
    assert Value(64, Spelled([])) == Value(256, input[..0]) by { EmptyValues(input); }
    while inputIndex + 3 <= |input|
      invariant 0 <= inputIndex <= |input| && inputIndex % 3 == 0
      invariant |output| == 4 * (inputIndex / 3) && InAlphabet(output)
      invariant Value(64, Spelled(output)) == Value(256, input[..inputIndex])
    {
      var a, b, c := input[inputIndex], input[inputIndex + 1], input[inputIndex + 2];
      var value := a as int * 0x1_0000 + b as int * 0x100 + c as int;
      var digits: seq<sextet> := [value / 0x4_0000, value / 0x1000 % 64, value / 64 % 64, value % 64];
      var more := Characters(digits);
      GroupOfThree(Spelled(output), input[..inputIndex], a, b, c);
      SpelledAppend(output, digits);
      assert input[..inputIndex + 3] == input[..inputIndex] + [a, b, c];
      output := output + more;
      inputIndex := inputIndex + 3;
    }
    if inputIndex < |input| {
      var value := input[inputIndex] as int * 0x1_0000;
      var digits: seq<sextet>;
      if inputIndex + 1 < |input| {
        value := value + input[inputIndex + 1] as int * 0x100;
        digits := [value / 0x4_0000, value / 0x1000 % 64, value / 64 % 64];
        LastTwo(Spelled(output), input[..inputIndex], input[inputIndex], input[inputIndex + 1]);
        assert input == input[..inputIndex] + [input[inputIndex], input[inputIndex + 1]];
      } else {
        digits := [value / 0x4_0000, value / 0x1000 % 64];
        LastOne(Spelled(output), input[..inputIndex], input[inputIndex]);
        assert input == input[..inputIndex] + [input[inputIndex]];
      }
      var more := Characters(digits);
      SpelledAppend(output, digits);
      output := output + more;
    } else {
      assert input[..inputIndex] == input;
    }
  }

  lemma EmptyValues(input: seq<byte>)
    ensures Spelled([]) == [] && Value(64, Spelled([])) == Value(256, input[..0]) == 0
  {
  }

  // ---------------------------------------------------------------- the decoder

  /** The texts the decoder accepts: 43 characters of the alphabet whose last two bits
      are zero. */
  ghost predicate Acceptable(text: seq<byte>) {
    |text| == API_TOKEN_CHARACTERS && InAlphabet(text) && Value(64, Spelled(text)) % 4 == 0
  }

  function Weight(bits: nat): int
    requires bits <= 6 && bits % 2 == 0
  {
    if bits == 0 then 1 else if bits == 2 then 4 else if bits == 4 then 16 else 64
  }

  /** One character: the bits pending grow by six and shrink by eight when a byte is out. */
  lemma CharacterStep(out: seq<byte>, accumulator: int, bits: nat, total: int, digit: sextet)
    requires bits <= 6 && bits % 2 == 0 && 0 <= accumulator < Weight(bits)
    requires total == Value(256, out) * Weight(bits) + accumulator
    ensures
      var next := accumulator * 64 + digit;
      && 0 <= next < 0x1000
      && (bits == 0 ==> total * 64 + digit == Value(256, out) * Weight(6) + next && next < Weight(6))
      && (bits > 0 ==>
            && next / Weight(bits - 2) < 0x100
            && total * 64 + digit ==
                 Value(256, out + [next / Weight(bits - 2)]) * Weight(bits - 2) + next % Weight(bits - 2))
  {
    hide Value;
    var next := accumulator * 64 + digit;
    if bits > 0 {
      var b := next / Weight(bits - 2);
      ValueAppend(256, out, b);
    }
  }

  lemma SpelledPrefix(text: seq<byte>, n: nat)
    requires n < |text|
    ensures Value(64, Spelled(text[..n + 1])) == Value(64, Spelled(text[..n])) * 64 + CharacterValue(text[n])
  {
    assert Spelled(text[..n + 1]) == Spelled(text[..n]) + [CharacterValue(text[n])];
    ValueAppend(64, Spelled(text[..n]), CharacterValue(text[n]));
  }

  lemma AlphabetPrefix(text: seq<byte>, n: nat)
    requires n < |text| && InAlphabet(text[..n]) && CharacterValue(text[n]) >= 0
    ensures InAlphabet(text[..n + 1])
  {
    hide CharacterValue;
  }

  method DecodeApiToken(input: seq<byte>) returns (output: Option<seq<byte>>)
    ensures output.Some? <==> Acceptable(input)
    ensures output.Some? ==> |output.value| == API_TOKEN_BYTES && Encodes(input, output.value)
  {
    hide Value, CharacterValue;
    if |input| != API_TOKEN_CHARACTERS {
      return None;
    }
    var accumulator, bits := 0, 0;
    var out: seq<byte> := [];
    assert Value(64, Spelled(input[..0])) == Value(256, []) == 0 by { EmptyValues([]); assert input[..0] == []; }
    for index := 0 to API_TOKEN_CHARACTERS
      invariant 0 <= bits <= 6 && bits % 2 == 0 && 8 * |out| + bits == 6 * index
      invariant 0 <= accumulator < Weight(bits)
      invariant InAlphabet(input[..index])
      invariant Value(64, Spelled(input[..index])) == Value(256, out) * Weight(bits) + accumulator
    {
      var decoded := CharacterValue(input[index]);
      if decoded < 0 {
        assert !InAlphabet(input) by { var i := index; assert CharacterValue(input[i]) < 0; }
        return None;
      }
      AlphabetPrefix(input, index);
      SpelledPrefix(input, index);
      CharacterStep(out, accumulator, bits, Value(64, Spelled(input[..index])), decoded);
      accumulator := accumulator * 64 + decoded;
      bits := bits + 6;
      if bits >= 8 {
        bits := bits - 8;
        out := out + [accumulator / Weight(bits)];
        accumulator := accumulator % Weight(bits);
      }
    }
    assert input[..API_TOKEN_CHARACTERS] == input;
    assert |out| == API_TOKEN_BYTES && bits == 2;
    output := if accumulator == 0 then Some(out) else None;
  }

  /** Every value's encoding is accepted. */
  lemma EncodingAcceptable(text: seq<byte>, data: seq<byte>)
    requires Encodes(text, data) && |data| == API_TOKEN_BYTES
    ensures Acceptable(text)
  {
    hide Value;
  }

  /** Encoding and decoding undo each other, so each value has exactly one accepted
      spelling: what is encoded decodes to itself, and what decodes encodes to itself. */
  method RoundTrips(data: seq<byte>, text: seq<byte>)
    returns (encoded: seq<byte>, decoded: Option<seq<byte>>, again: Option<seq<byte>>)
    requires |data| == API_TOKEN_BYTES
    ensures |encoded| == API_TOKEN_CHARACTERS && decoded == Some(data)
    ensures again.Some? <==> Acceptable(text)
    ensures again == Some(data) <==> text == encoded
  {
    encoded := EncodeBase64Url(data);
    EncodingAcceptable(encoded, data);
    decoded := DecodeApiToken(encoded);
    EncodedUnique(encoded, decoded.value, data);
    again := DecodeApiToken(text);
    if again == Some(data) {
      EncodingUnique(text, encoded, data);
    } else if text == encoded {
      EncodedUnique(text, again.value, data);
    }
  }
}
