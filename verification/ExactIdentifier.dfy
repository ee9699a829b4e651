/** The exact identifier encoder: one ASCII token for each identifier, from which it can be read back. */
module ExactIdentifier {
  import opened Vault
  import opened Base32
  import opened Arithmetic

  const TOKEN_PREFIX := "z"

  /// ---- UTF-16 and UTF-8 ---------------------------------------------------------------------------------

  /** A Unicode scalar string: surrogates come in pairs only. */
  predicate IsScalar(s: Units) {
    s == []
    || (!IsHighSurrogate(s[0]) && !IsLowSurrogate(s[0]) && IsScalar(s[1..]))
    || (IsHighSurrogate(s[0]) && |s| > 1 && IsLowSurrogate(s[1]) && IsScalar(s[2..]))
  }

  /** A high surrogate is followed by a low one, and a low one follows a high one. */
  predicate Paired(s: Units, i: nat)
    requires i < |s|
  {
    && (0xd800 <= s[i] <= 0xdbff ==> i + 1 < |s| && 0xdc00 <= s[i + 1] <= 0xdfff)
    && (0xdc00 <= s[i] <= 0xdfff ==> i > 0 && 0xd800 <= s[i - 1] <= 0xdbff)
  }

  lemma PairedTail(s: Units, n: nat)
    requires 1 <= n <= |s| && forall i: nat :: i < |s| ==> Paired(s, i)
    requires n < |s| ==> !(0xdc00 <= s[n] <= 0xdfff)
    ensures forall i: nat :: i < |s[n..]| ==> Paired(s[n..], i)
  {
    forall i: nat | i < |s[n..]| ensures Paired(s[n..], i) {
      assert Paired(s, n + i);
    }
  }

  lemma {:induction false} ScalarIffPaired(s: Units)
    ensures IsScalar(s) <==> forall i: nat :: i < |s| ==> Paired(s, i)
  {
    if s != [] {
      if forall i: nat :: i < |s| ==> Paired(s, i) {
        assert Paired(s, 0);
        var n := if 0xd800 <= s[0] <= 0xdbff then 2 else 1;
        if n < |s| { assert Paired(s, n); }
        PairedTail(s, n);
        ScalarIffPaired(s[n..]);
      }
      if IsScalar(s) {
        var n := Width(s);
        ScalarIffPaired(s[n..]);
        forall i: nat | i < |s| ensures Paired(s, i) {
          if i >= n {
            assert Paired(s[n..], i - n);
          }
        }
      }
    }
  }

  /** How many units the first scalar value of a scalar string takes. */
  function Width(s: Units): (n: nat)
    requires s != [] && IsScalar(s)
    ensures 1 <= n <= |s| && IsScalar(s[n..])
  {
    if IsHighSurrogate(s[0]) then 2 else 1
  }

  function FirstScalar(s: Units): (c: nat)
    requires s != [] && IsScalar(s)
    ensures c < 0x11_0000
  {
    if IsHighSurrogate(s[0]) then
      var high: int, low: int := s[0], s[1];
      0x1_0000 + (high - 0xd800) * 0x400 + (low - 0xdc00)
    else s[0]
  }

  /** The UTF-8 form of one scalar value. */
  function Utf8Of(c: nat): (bytes: seq<Byte>)
    requires c < 0x11_0000
    ensures 1 <= |bytes| <= 4
  {
    if c < 0x80 then [c]
    else if c < 0x800 then [0xc0 + c / 0x40, 0x80 + c % 0x40]
    else if c < 0x1_0000 then [0xe0 + c / 0x1000, 0x80 + c / 0x40 % 0x40, 0x80 + c % 0x40]
    else [0xf0 + c / 0x4_0000, 0x80 + c / 0x1000 % 0x40, 0x80 + c / 0x40 % 0x40, 0x80 + c % 0x40]
  }

  /** TextEncoder.encode on a scalar string. */
  function Utf8(s: Units): (bytes: seq<Byte>)
    requires IsScalar(s)
    ensures s != [] ==> bytes != []
  {
    if s == [] then [] else Utf8Of(FirstScalar(s)) + Utf8(s[Width(s)..])
  }

  /** How long a UTF-8 sequence is, by its first byte. */
  function Utf8Length(lead: Byte): nat {
    if lead < 0xc0 then 1 else if lead < 0xe0 then 2 else if lead < 0xf0 then 3 else 4
  }

  lemma LeadTellsLength(c: nat)
    requires c < 0x11_0000
    ensures |Utf8Of(c)| == Utf8Length(Utf8Of(c)[0])
  {
  }

  /** Reading a UTF-8 sequence back. */
  function ScalarOf(bytes: seq<Byte>): int
    requires 1 <= |bytes| <= 4
  {
    var b: seq<int> := bytes;
    match |b|
    case 1 => b[0]
    case 2 => (b[0] - 0xc0) * 0x40 + (b[1] - 0x80)
    case 3 => (b[0] - 0xe0) * 0x1000 + (b[1] - 0x80) * 0x40 + (b[2] - 0x80)
    case _ => (b[0] - 0xf0) * 0x4_0000 + (b[1] - 0x80) * 0x1000 + (b[2] - 0x80) * 0x40 + (b[3] - 0x80)
  }

  /** A number and its digits to base 64. */
  lemma SixBitDigits(c: nat)
    ensures c == 0x40 * (c / 0x40) + c % 0x40
    ensures c / 0x40 == 0x40 * (c / 0x1000) + c / 0x40 % 0x40
    ensures c / 0x1000 == 0x40 * (c / 0x4_0000) + c / 0x1000 % 0x40
  {
    assert c / 0x40 / 0x40 == c / 0x1000;
    assert c / 0x1000 / 0x40 == c / 0x4_0000;
  }

  lemma ScalarRoundTrip(c: nat)
    requires c < 0x11_0000
    ensures ScalarOf(Utf8Of(c)) == c
  {
    SixBitDigits(c);
  }

  /**
   Sections 3 and 4 of RFC 3629: the shortest form, with lead and continuation bytes in their ranges; a scalar value
   that is no surrogate has no surrogate's form.
   */
  lemma Utf8WellFormed(c: nat)
    requires c < 0x11_0000
    ensures
      var b: seq<int> := Utf8Of(c);
      && (|b| == 1 <==> c < 0x80) && (|b| == 2 <==> 0x80 <= c < 0x800) && (|b| == 3 <==> 0x800 <= c < 0x1_0000)
      && (|b| == 1 ==> b[0] == c)
      && (|b| == 2 ==> 0xc2 <= b[0] <= 0xdf && c == (b[0] - 0xc0) * 0x40 + (b[1] - 0x80))
      && (|b| == 3 ==> 0xe0 <= b[0] <= 0xef && c == (b[0] - 0xe0) * 0x1000 + (b[1] - 0x80) * 0x40 + (b[2] - 0x80)
                       && (b[0] == 0xe0 ==> b[1] >= 0xa0) && (b[0] == 0xed && !(0xd800 <= c <= 0xdfff) ==> b[1] <= 0x9f))
      && (|b| == 4 ==> 0xf0 <= b[0] <= 0xf4
                       && c == (b[0] - 0xf0) * 0x4_0000 + (b[1] - 0x80) * 0x1000 + (b[2] - 0x80) * 0x40 + (b[3] - 0x80)
                       && (b[0] == 0xf0 ==> b[1] >= 0x90) && (b[0] == 0xf4 ==> b[1] <= 0x8f))
      && forall i :: 1 <= i < |b| ==> 0x80 <= b[i] <= 0xbf
  {
    SixBitDigits(c);
  }

  /** The first scalar value is a unit of its own or a surrogate pair, and never a surrogate. */
  lemma FirstScalarExact(s: Units)
    requires s != [] && IsScalar(s)
    ensures !(0xd800 <= FirstScalar(s) <= 0xdfff)
    ensures Width(s) == 1 ==> FirstScalar(s) == s[0]
    ensures Width(s) == 2 ==>
              var high: int, low: int := s[0], s[1];
              0xd800 <= high <= 0xdbff && 0xdc00 <= low <= 0xdfff && FirstScalar(s) == 0x1_0000 + 0x400 * (high - 0xd800) + (low - 0xdc00)
    ensures Width(s) == 2 <==> 0xd800 <= s[0] <= 0xdfff
  {
  }

  /** A scalar value fixes the units it came from. */
  lemma FirstScalarInjective(s: Units, t: Units)
    requires s != [] && IsScalar(s) && t != [] && IsScalar(t) && FirstScalar(s) == FirstScalar(t)
    ensures s[..Width(s)] == t[..Width(t)]
  {
  }

  /** Scalar strings with the same UTF-8 are the same. */
  lemma {:induction false} Utf8Injective(s: Units, t: Units)
    requires IsScalar(s) && IsScalar(t) && Utf8(s) == Utf8(t)
    ensures s == t
  {
    if s != [] && t != [] {
      var a, b := Utf8Of(FirstScalar(s)), Utf8Of(FirstScalar(t));
      var restA, restB := Utf8(s[Width(s)..]), Utf8(t[Width(t)..]);
      LeadTellsLength(FirstScalar(s));
      LeadTellsLength(FirstScalar(t));
      assert (a + restA)[0] == (b + restB)[0];
      assert a == (a + restA)[..|a|] && b == (b + restB)[..|b|];
      assert restA == (a + restA)[|a|..] && restB == (b + restB)[|b|..];
      ScalarRoundTrip(FirstScalar(s));
      ScalarRoundTrip(FirstScalar(t));
      FirstScalarInjective(s, t);
      Utf8Injective(s[Width(s)..], t[Width(t)..]);
      assert s == s[..Width(s)] + s[Width(s)..] && t == t[..Width(t)] + t[Width(t)..];
    }
  }

  /** isUnicodeScalarString. */
  method IsUnicodeScalarString(value: Units) returns (scalar: bool)
    ensures scalar <==> IsScalar(value)
  {
    var index := 0;
    while index < |value|
      invariant index <= |value|
      invariant IsScalar(value) <==> IsScalar(value[index..])
    {
      var code := value[index];
      assert value[index..][1..] == value[index + 1..];
      if code < 0xd800 || code > 0xdfff {
        index := index + 1;
        continue;
      }
      if code > 0xdbff || index + 1 >= |value| {
        return false;
      }
      var low := value[index + 1];
      if low < 0xdc00 || low > 0xdfff {
        return false;
      }
      assert value[index..][2..] == value[index + 2..];
      index := index + 2;
    }
    scalar := true;
  }

  /// ---- the bit buffer -------------------------------------------------------------------------------------

  /** The letters of whole groups. */
  function Letters(bits: seq<Bit>): (text: string)
    requires |bits| % 5 == 0
    ensures |text| == |bits| / 5
  {
    if bits == [] then "" else Letters(bits[..|bits| - 5]) + [CharOf(bits[|bits| - 5..])]
  }

  lemma LettersAppend(bits: seq<Bit>, group: seq<Bit>)
    requires |bits| % 5 == 0 && |group| == 5
    ensures Letters(bits + group) == Letters(bits) + [CharOf(group)]
  {
    assert (bits + group)[..|bits|] == bits && (bits + group)[|bits|..] == group;
  }

  lemma {:induction false} GroupsAppend(bits: seq<Bit>, group: seq<Bit>)
    requires |bits| % 5 == 0 && 0 < |group| <= 5
    ensures Groups(bits + group) == Groups(bits) + [group + Zeros(5 - |group|)]
  {
    if bits == [] {
      assert bits + group == group && group[5 - (5 - |group|)..] == [];
      if |group| == 5 {
        assert group[..5] == group && group + Zeros(0) == group && Groups(group[5..]) == [];
      }
    } else {
      assert (bits + group)[..5] == bits[..5] && (bits + group)[5..] == bits[5..] + group;
      GroupsAppend(bits[5..], group);
    }
  }

  lemma {:induction false} LettersAreGroups(bits: seq<Bit>)
    requires |bits| % 5 == 0
    ensures |Letters(bits)| == |Groups(bits)|
    ensures forall i :: 0 <= i < |Groups(bits)| ==> Letters(bits)[i] == CharOf(Groups(bits)[i])
  {
    if bits != [] {
      var n := |bits| - 5;
      LettersAreGroups(bits[..n]);
      assert bits == bits[..n] + bits[n..];
      GroupsAppend(bits[..n], bits[n..]);
      assert bits[n..] + Zeros(0) == bits[n..];
    }
  }

  /** Whole groups, then what remains filled with zeros, are the encoding. */
  lemma LettersEncode(bytes: seq<Byte>, whole: seq<Bit>, rest: seq<Bit>)
    requires BitsOfBytes(bytes) == whole + rest && |whole| % 5 == 0 && |rest| < 5
    ensures Encode(bytes) == Letters(whole) + if rest == [] then "" else [CharOf(rest + Zeros(5 - |rest|))]
  {
    LettersAreGroups(whole);
    if rest != [] {
      GroupsAppend(whole, rest);
    } else {
      assert whole + rest == whole;
    }
  }

  lemma GroupBound(group: seq<Bit>)
    requires |group| == 5
    ensures ValueOf(group) < 32
  {
    ValueBound(group);
    Pow2Small();
  }

  lemma Digits(first: nat, rest: nat, d: nat)
    requires first < 32 && rest < d
    ensures var v := first * d + rest; v / d % 32 == first && v % d == rest
  {
    assert first * d == d * first;
    DivUnique(first, rest, d);
  }

  /** `buffer >>> bits` is the next group, and masking keeps what follows it. */
  lemma TakeGroup(group: seq<Bit>, rest: seq<Bit>)
    requires |group| == 5
    ensures ValueOf(group + rest) / Pow2(|rest|) % 32 == ValueOf(group)
    ensures ValueOf(group + rest) % Pow2(|rest|) == ValueOf(rest)
  {
    GroupBound(group);
    ValueBound(rest);
    Digits(ValueOf(group), ValueOf(rest), Pow2(|rest|));
    ValueAppend(group, rest);
  }

  /** `buffer << (5 - bits)` fills the last group with zeros. */
  lemma {:induction false} FillGroup(rest: seq<Bit>, n: nat)
    ensures ValueOf(rest + Zeros(n)) == ValueOf(rest) * Pow2(n)
  {
    if n == 0 {
      assert rest + Zeros(0) == rest;
    } else {
      FillGroup(rest, n - 1);
      assert (rest + Zeros(n))[..|rest| + n - 1] == rest + Zeros(n - 1);
      Doubled(ValueOf(rest), Pow2(n - 1));
    }
  }

  lemma Doubled(v: nat, p: nat)
    ensures v * (2 * p) == 2 * (v * p)
  {
  }

  /// ---- JavaScript's bitwise operators on nonnegative numbers, bit by bit ----------------------------------

  /** The 32-bit left shift, which wraps to a signed number. */
  function ShiftLeft(x: nat, k: nat): int {
    var low := x * Pow2(k) % 0x1_0000_0000;
    if low < 0x8000_0000 then low else low - 0x1_0000_0000
  }

  function ShiftRight(x: nat, k: nat): nat {
    if k == 0 then x else ShiftRight(x / 2, k - 1)
  }

  function Or(x: nat, y: nat): nat {
    if x == 0 && y == 0 then 0
    else 2 * Or(x / 2, y / 2) + if x % 2 == 1 || y % 2 == 1 then 1 else 0
  }

  function And(x: nat, y: nat): nat {
    if x == 0 || y == 0 then 0
    else 2 * And(x / 2, y / 2) + if x % 2 == 1 && y % 2 == 1 then 1 else 0
  }

  /** `>>>` divides. */
  lemma {:induction false} ShiftRightDivides(x: nat, k: nat)
    ensures ShiftRight(x, k) == x / Pow2(k)
  {
    if k > 0 {
      ShiftRightDivides(x / 2, k - 1);
      HalvedQuotient(x, Pow2(k - 1));
    }
  }

  lemma HalvedQuotient(x: nat, p: nat)
    requires p >= 1
    ensures x / (2 * p) == x / 2 / p && x % (2 * p) == 2 * (x / 2 % p) + x % 2
  {
    var q, r := x / 2 / p, x / 2 % p;
    DivMod(x / 2, p);
    assert x == (2 * p) * q + (2 * r + x % 2) by {
      assert x == 2 * (p * q + r) + x % 2;
      assert (2 * p) * q == 2 * (p * q);
    }
    DivUnique(q, 2 * r + x % 2, 2 * p);
  }

  lemma {:induction false} OrZero(x: nat)
    ensures Or(x, 0) == x
  {
    if x > 0 {
      OrZero(x / 2);
    }
  }

  /** `|` adds where the low bits of one operand are clear and the other has no more than those. */
  lemma {:induction false} OrAdds(x: nat, y: nat, k: nat)
    requires y < Pow2(k)
    ensures Or(x * Pow2(k), y) == x * Pow2(k) + y
  {
    if k == 0 {
      OrZero(x);
    } else {
      var half := x * Pow2(k - 1);
      assert x * Pow2(k) == 2 * half;
      OrAdds(x, y / 2, k - 1);
    }
  }

  /** `&` with a mask of low bits takes the remainder. */
  lemma {:induction false} AndMasks(x: nat, k: nat)
    ensures And(x, Pow2(k) - 1) == x % Pow2(k)
  {
    if k > 0 {
      var p := Pow2(k - 1);
      AndMasks(x / 2, k - 1);
      HalvedQuotient(x, p);
      assert (2 * p - 1) / 2 == p - 1 && (2 * p - 1) % 2 == 1;
    }
  }

  /// ---- the encoder ----------------------------------------------------------------------------------------

  /** encodeExactIdentifierToken; None is the thrown error. */
  method EncodeExactIdentifierToken(identifier: Units) returns (token: Option<string>)
    ensures token.Some? <==> identifier != [] && IsScalar(identifier)
    ensures token.Some? ==> token.value == TOKEN_PREFIX + Encode(Utf8(identifier))
    ensures token == TokenOf(identifier)
  {
    var scalar := IsUnicodeScalarString(identifier);
    if identifier == [] || !scalar {
      return None;
    }
    var bytes := Utf8(identifier);
    var text := EncodeBytes(bytes);
    token := Some(text);
  }

  lemma {:induction false} Pow2AtMost(n: nat, m: nat)
    requires n <= m
    ensures Pow2(n) <= Pow2(m)
  {
    if n < m {
      Pow2AtMost(n, m - 1);
    }
  }

  lemma SmallShift(x: nat, k: nat)
    requires x * Pow2(k) < 0x8000_0000
    ensures ShiftLeft(x, k) == x * Pow2(k)
  {
  }

  /** Fewer than five bits are shifted without overflow, by up to eight places. */
  lemma ShiftFits(rest: seq<Bit>, n: nat)
    requires |rest| <= 5 && n <= 8
    ensures ShiftLeft(ValueOf(rest), n) == ValueOf(rest) * Pow2(n)
  {
    var v, p := ValueOf(rest), Pow2(n);
    Pow2Small();
    ValueBound(rest);
    Pow2AtMost(|rest|, 5);
    Pow2AtMost(n, 8);
    ProductBelow(v, p);
    SmallShift(v, n);
  }

  lemma ProductBelow(v: nat, p: nat)
    requires v < 32 && p <= 256
    ensures v * p < 0x8000_0000
  {
    assert v * p <= 32 * p;
  }

  /** The next byte's bits join the buffer. */
  lemma ByteValue(rest: seq<Bit>, byte: Byte)
    requires |rest| < 5
    ensures ShiftLeft(ValueOf(rest), 8) >= 0
    ensures Or(ShiftLeft(ValueOf(rest), 8), byte) == ValueOf(rest + BitsOfNumber(byte, 8))
  {
    assert byte < Pow2(8) by { Pow2Small(); }
    ShiftFits(rest, 8);
    OrAdds(ValueOf(rest), byte, 8);
    NumberRoundTrip(byte, 8);
    ValueAppend(rest, BitsOfNumber(byte, 8));
  }

  lemma ByteStep(bytes: seq<Byte>, i: nat, whole: seq<Bit>, rest: seq<Bit>)
    requires i < |bytes| && BitsOfBytes(bytes[..i]) == whole + rest
    ensures BitsOfBytes(bytes[..i + 1]) == whole + (rest + BitsOfNumber(bytes[i], 8))
  {
    var low := BitsOfNumber(bytes[i], 8);
    assert bytes[..i + 1] == bytes[..i] + [bytes[i]] && bytes[..i + 1][..i] == bytes[..i];
    assert (whole + rest) + low == whole + (rest + low);
  }

  /** A letter leaves the buffer. */
  lemma GroupStep(whole: seq<Bit>, rest: seq<Bit>)
    requires |whole| % 5 == 0 && |rest| >= 5
    ensures |whole + rest[..5]| % 5 == 0
    ensures Letters(whole + rest[..5]) == Letters(whole) + [Letter(ValueOf(rest) / Pow2(|rest| - 5) % 32)]
    ensures ValueOf(rest) % Pow2(|rest| - 5) == ValueOf(rest[5..])
    ensures (whole + rest[..5]) + rest[5..] == whole + rest
  {
    assert rest == rest[..5] + rest[5..];
    TakeGroup(rest[..5], rest[5..]);
    LettersAppend(whole, rest[..5]);
  }

  /** The mask of the bits that stay: `bits === 0 ? 0 : (1 << bits) - 1`. */
  function LowMask(bits: nat): nat {
    Pow2(bits) - 1
  }

  lemma MaskOfBits(bits: nat)
    requires bits <= 8
    ensures ShiftLeft(1, bits) - 1 == LowMask(bits)
  {
    Pow2Small();
    Pow2AtMost(bits, 8);
    SmallShift(1, bits);
  }

  lemma AndThirtyOne(x: nat)
    ensures And(x, 31) == x % 32
  {
    assert Pow2(5) == 32 by { Pow2Small(); }
    AndLowMask(x, 5, 31);
  }

  lemma AndLowMask(x: nat, k: nat, mask: nat)
    requires mask == Pow2(k) - 1
    ensures And(x, mask) == x % Pow2(k)
  {
    AndMasks(x, k);
  }

  /** The last letter: what remains, filled with zeros on the right, and nothing for the mask to take. */
  lemma LastValue(rest: seq<Bit>, n: nat, filled: nat)
    requires |rest| + n == 5 && filled == ValueOf(rest + Zeros(n))
    ensures ShiftLeft(ValueOf(rest), n) == filled < 32
  {
    FillGroup(rest, n);
    ShiftFits(rest, n);
    GroupBound(rest + Zeros(n));
  }

  lemma LastLetter(bytes: seq<Byte>, whole: seq<Bit>, rest: seq<Bit>, last: Quintet)
    requires BitsOfBytes(bytes) == whole + rest && |whole| % 5 == 0 && 0 < |rest| < 5
    requires last == ValueOf(rest + Zeros(5 - |rest|))
    ensures Encode(bytes) == Letters(whole) + [Letter(last)]
  {
    LettersEncode(bytes, whole, rest);
  }

  /** The encoder's loop over the bytes. Between bytes the buffer holds fewer than five bits. */
  method EncodeBytes(bytes: seq<Byte>) returns (token: string)
    ensures token == TOKEN_PREFIX + Encode(bytes)
  {
    token := TOKEN_PREFIX;
    var buffer: nat, bits: nat := 0, 0;
    ghost var whole: seq<Bit>, rest: seq<Bit> := [], [];
    for i := 0 to |bytes|
      invariant BitsOfBytes(bytes[..i]) == whole + rest
      invariant |whole| % 5 == 0 && token == TOKEN_PREFIX + Letters(whole)
      invariant bits == |rest| < 5 && buffer == ValueOf(rest) < Pow2(bits)
    {
      ByteStep(bytes, i, whole, rest);
      ByteValue(rest, bytes[i]);
      token, buffer, bits, whole, rest :=
        EmitGroups(token, Or(ShiftLeft(buffer, 8), bytes[i]), bits + 8, whole, rest + BitsOfNumber(bytes[i], 8));
    }
    assert bytes[..|bytes|] == bytes;
    token := EmitRest(token, buffer, bits, bytes, whole, rest);
  }

  /** The last letter, if bits remain. */
  method EmitRest(token: string, buffer: nat, bits: nat, ghost bytes: seq<Byte>, ghost whole: seq<Bit>, ghost rest: seq<Bit>)
    returns (token': string)
    requires BitsOfBytes(bytes) == whole + rest && |whole| % 5 == 0 && token == TOKEN_PREFIX + Letters(whole)
    requires bits == |rest| < 5 && buffer == ValueOf(rest)
    ensures token' == TOKEN_PREFIX + Encode(bytes)
  {
    if bits == 0 {
      LettersEncode(bytes, whole, rest);
      assert Letters(whole) + "" == Letters(whole);
      return token;
    }
    var last := FilledQuintet(buffer, bits, rest);
    LastLetter(bytes, whole, rest, last);
    token' := token + [Letter(last)];
    assert token' == TOKEN_PREFIX + (Letters(whole) + [Letter(last)]);
  }

  method FilledQuintet(buffer: nat, bits: nat, ghost rest: seq<Bit>) returns (last: Quintet)
    requires bits == |rest| < 5 && buffer == ValueOf(rest)
    ensures last == ValueOf(rest + Zeros(5 - bits))
  {
    LastValue(rest, 5 - bits, ValueOf(rest + Zeros(5 - bits)));
    last := LowFiveBits(ShiftLeft(buffer, 5 - bits));
  }

  /** `& 31`. */
  method LowFiveBits(x: nat) returns (low: nat)
    ensures low == x % 32
  {
    AndThirtyOne(x);
    low := And(x, 31);
  }

  /** The inner loop: a letter for every five bits. */
  method EmitGroups(token: string, buffer: nat, bits: nat, ghost whole: seq<Bit>, ghost rest: seq<Bit>)
    returns (token': string, buffer': nat, bits': nat, ghost whole': seq<Bit>, ghost rest': seq<Bit>)
    requires |whole| % 5 == 0 && token == TOKEN_PREFIX + Letters(whole)
    requires bits == |rest| <= 12 && buffer == ValueOf(rest)
    ensures |whole'| % 5 == 0 && token' == TOKEN_PREFIX + Letters(whole') && whole' + rest' == whole + rest
    ensures bits' == |rest'| < 5 && buffer' == ValueOf(rest') < Pow2(bits')
  {
    token', buffer', bits', whole', rest' := token, buffer, bits, whole, rest;
    while bits' >= 5
      invariant |whole'| % 5 == 0 && token' == TOKEN_PREFIX + Letters(whole') && whole' + rest' == whole + rest
      invariant bits' == |rest'| <= 12 && buffer' == ValueOf(rest')
    {
      bits' := bits' - 5;
      ShiftRightDivides(buffer', bits');
      GroupStep(whole', rest');
      var quintet := LowFiveBits(ShiftRight(buffer', bits'));
      token' := token' + [Letter(quintet)];
      MaskOfBits(bits');
      AndMasks(buffer', bits');
      buffer' := And(buffer', if bits' == 0 then 0 else ShiftLeft(1, bits') - 1);
      whole', rest' := whole' + rest'[..5], rest'[5..];
    }
    ValueBound(rest');
  }

  /// ---- the match ------------------------------------------------------------------------------------------

  function TokenOf(identifier: Units): (token: Option<string>)
    ensures token.Some? ==> ' ' !in token.value && token.value != ""
  {
    if identifier == [] || !IsScalar(identifier) then None
    else
      Some(TOKEN_PREFIX + Encode(Utf8(identifier)))
  }

  function Join(tokens: seq<string>): string {
    if tokens == [] then ""
    else if |tokens| == 1 then tokens[0]
    else tokens[0] + " " + Join(tokens[1..])
  }

  /** encodeExactIdentifierMatch; None when some identifier makes it throw. */
  function MatchOf(identifiers: seq<Units>): Option<string> {
    if forall i :: 0 <= i < |identifiers| ==> TokenOf(identifiers[i]).Some?
    then Some(Join(seq(|identifiers|, i requires 0 <= i < |identifiers| => TokenOf(identifiers[i]).value)))
    else None
  }

  /** Section 6 of RFC 4648: the token's length, and that no other identifier has it. */
  lemma TokenInjective(a: Units, b: Units)
    requires TokenOf(a).Some? && TokenOf(a) == TokenOf(b)
    ensures a == b
    ensures |TokenOf(a).value| == 1 + (8 * |Utf8(a)| + 4) / 5
  {
    var s, t := TokenOf(a).value, TokenOf(b).value;
    assert s[1..] == Encode(Utf8(a)) && t[1..] == Encode(Utf8(b));
    RoundTrip(Utf8(a));
    RoundTrip(Utf8(b));
    Utf8Injective(a, b);
  }

  predicate Tokens(tokens: seq<string>) {
    forall i :: 0 <= i < |tokens| ==> ' ' !in tokens[i] && tokens[i] != ""
  }

  /** The position of the first space, or the length. */
  function FirstSpace(s: string): nat {
    if s == "" || s[0] == ' ' then 0 else 1 + FirstSpace(s[1..])
  }

  lemma {:induction false} SpaceEndsToken(a: string, rest: string)
    requires ' ' !in a && (rest == "" || rest[0] == ' ')
    ensures FirstSpace(a + rest) == |a|
  {
    if a == "" {
      assert a + rest == rest;
    } else {
      assert (a + rest)[1..] == a[1..] + rest;
      SpaceEndsToken(a[1..], rest);
    }
  }

  /** What precedes the first space is the first token. */
  lemma FirstToken(a: string, b: string, restA: string, restB: string)
    requires ' ' !in a && ' ' !in b && a + restA == b + restB
    requires restA == "" || restA[0] == ' '
    requires restB == "" || restB[0] == ' '
    ensures a == b && restA == restB
  {
    SpaceEndsToken(a, restA);
    SpaceEndsToken(b, restB);
    assert a == (a + restA)[..|a|] && b == (b + restB)[..|b|];
    assert restA == (a + restA)[|a|..] && restB == (b + restB)[|b|..];
  }

  lemma {:induction false} JoinInjective(s: seq<string>, t: seq<string>)
    requires Tokens(s) && Tokens(t) && Join(s) == Join(t)
    ensures s == t
  {
    if s != [] && t != [] {
      var restS := if |s| == 1 then "" else " " + Join(s[1..]);
      var restT := if |t| == 1 then "" else " " + Join(t[1..]);
      assert Join(s) == s[0] + restS && Join(t) == t[0] + restT;
      FirstToken(s[0], t[0], restS, restT);
      if |s| > 1 && |t| > 1 {
        assert Join(s[1..]) == restS[1..] && Join(t[1..]) == restT[1..];
        JoinInjective(s[1..], t[1..]);
        assert s == [s[0]] + s[1..] && t == [t[0]] + t[1..];
      }
    }
  }

  /** Where a token begins in the joined text: after the earlier ones and a space each. */
  function PlaceOf(tokens: seq<string>, k: nat): nat
    requires k <= |tokens|
  {
    if k == 0 then 0 else PlaceOf(tokens, k - 1) + |tokens[k - 1]| + 1
  }

  lemma {:induction false} PlaceInRest(tokens: seq<string>, k: nat)
    requires 0 < k <= |tokens|
    ensures PlaceOf(tokens, k) == |tokens[0]| + 1 + PlaceOf(tokens[1..], k - 1)
  {
    if k > 1 {
      PlaceInRest(tokens, k - 1);
    }
  }

  /** The tokens stand in the order of the identifiers, each preceded by one space. */
  lemma {:induction false} JoinPlaces(tokens: seq<string>, k: nat)
    requires k < |tokens|
    ensures
      var at := PlaceOf(tokens, k);
      && at + |tokens[k]| <= |Join(tokens)| && Join(tokens)[at..at + |tokens[k]|] == tokens[k]
      && (k > 0 ==> Join(tokens)[at - 1] == ' ')
      && (k == |tokens| - 1 ==> |Join(tokens)| == at + |tokens[k]|)
  {
    if |tokens| > 1 {
      var first, rest := tokens[0] + " ", Join(tokens[1..]);
      assert Join(tokens) == first + rest;
      if k > 0 {
        PlaceInRest(tokens, k);
        JoinPlaces(tokens[1..], k - 1);
        var at := PlaceOf(tokens[1..], k - 1);
        assert (first + rest)[|first| + at..|first| + at + |tokens[k]|] == rest[at..at + |tokens[k]|];
      }
    }
  }

  /** Two lists of identifiers with the same match are the same list. */
  lemma MatchInjective(a: seq<Units>, b: seq<Units>)
    requires MatchOf(a).Some? && MatchOf(a) == MatchOf(b)
    ensures a == b
  {
    var s := seq(|a|, i requires 0 <= i < |a| => TokenOf(a[i]).value);
    var t := seq(|b|, i requires 0 <= i < |b| => TokenOf(b[i]).value);
    JoinInjective(s, t);
    assert |a| == |s| == |t| == |b|;
    forall i | 0 <= i < |a| ensures a[i] == b[i] {
      assert s[i] == t[i];
      TokenInjective(a[i], b[i]);
    }
  }
}
