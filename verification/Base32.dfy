/** Base32 of section 6 of RFC 4648 as a statement about bits, and its decoding. */
module Base32 {
  import opened Vault

  type Bit = b: int | 0 <= b < 2
  type Quintet = q: int | 0 <= q < 32

  const ALPHABET := "abcdefghijklmnopqrstuvwxyz234567"

  function Pow2(n: nat): (p: nat)
    ensures p >= 1
  {
    if n == 0 then 1 else 2 * Pow2(n - 1)
  }

  /** The low `n` bits of `v`, most significant first. */
  function BitsOfNumber(v: nat, n: nat): (bits: seq<Bit>)
    ensures |bits| == n
  {
    if n == 0 then [] else BitsOfNumber(v / 2, n - 1) + [v % 2]
  }

  function ValueOf(bits: seq<Bit>): nat {
    if bits == [] then 0 else 2 * ValueOf(bits[..|bits| - 1]) + bits[|bits| - 1]
  }

  function Zeros(n: nat): (bits: seq<Bit>)
    ensures |bits| == n
  {
    seq(n, i => 0)
  }

  function BitsOfBytes(bytes: seq<Byte>): (bits: seq<Bit>)
    ensures |bits| == 8 * |bytes|
  {
    if bytes == [] then [] else BitsOfBytes(bytes[..|bytes| - 1]) + BitsOfNumber(bytes[|bytes| - 1], 8)
  }

  /** Groups of five bits, the last filled with zeros on the right. */
  function Groups(bits: seq<Bit>): (groups: seq<seq<Bit>>)
    ensures |groups| == (|bits| + 4) / 5
    ensures forall g :: g in groups ==> |g| == 5
  {
    if bits == [] then []
    else if |bits| < 5 then [bits + Zeros(5 - |bits|)]
    else [bits[..5]] + Groups(bits[5..])
  }

  lemma {:induction false} ValueBound(bits: seq<Bit>)
    ensures ValueOf(bits) < Pow2(|bits|)
  {
    if bits != [] {
      ValueBound(bits[..|bits| - 1]);
    }
  }

  lemma {:induction false} ValueAppend(a: seq<Bit>, b: seq<Bit>)
    ensures ValueOf(a + b) == ValueOf(a) * Pow2(|b|) + ValueOf(b)
  {
    if b == [] {
      assert a + b == a;
    } else {
      var n := |b| - 1;
      ValueAppend(a, b[..n]);
      assert (a + b)[..|a + b| - 1] == a + b[..n];
      assert ValueOf(a) * Pow2(|b|) == 2 * (ValueOf(a) * Pow2(n));
    }
  }

  lemma {:induction false} NumberRoundTrip(v: nat, n: nat)
    requires v < Pow2(n)
    ensures ValueOf(BitsOfNumber(v, n)) == v
  {
    if n > 0 {
      NumberRoundTrip(v / 2, n - 1);
      assert BitsOfNumber(v, n)[..n - 1] == BitsOfNumber(v / 2, n - 1);
    }
  }

  lemma {:induction false} BitsRoundTrip(bits: seq<Bit>)
    ensures BitsOfNumber(ValueOf(bits), |bits|) == bits
  {
    if bits != [] {
      BitsRoundTrip(bits[..|bits| - 1]);
      assert bits == bits[..|bits| - 1] + [bits[|bits| - 1]];
    }
  }

  lemma Pow2Small()
    ensures Pow2(0) == 1 && Pow2(1) == 2 && Pow2(2) == 4 && Pow2(3) == 8 && Pow2(4) == 16 && Pow2(5) == 32
    ensures Pow2(6) == 64 && Pow2(7) == 128 && Pow2(8) == 256
  {
    assert Pow2(2) == 2 * Pow2(1);
    assert Pow2(4) == 2 * Pow2(3);
    assert Pow2(6) == 2 * Pow2(5);
    assert Pow2(8) == 2 * Pow2(7);
  }

  predicate IsLetter(c: char) {
    'a' <= c <= 'z' || '2' <= c <= '7'
  }

  /** The alphabet in lower case: `a` to `z`, then `2` to `7`. */
  function Letter(q: Quintet): (c: char)
    ensures IsLetter(c)
  {
    if q < 26 then 'a' + q as char else '2' + (q - 26) as char
  }

  /** That is indexing the alphabet string. */
  lemma LetterOfAlphabet(q: Quintet)
    ensures |ALPHABET| == 32 && ALPHABET[q] == Letter(q)
  {
  }

  function CharOf(group: seq<Bit>): (c: char)
    requires |group| == 5
    ensures IsLetter(c)
  {
    ValueBound(group);
    Pow2Small();
    Letter(ValueOf(group))
  }

  /** Unpadded lower-case base32. */
  function Encode(bytes: seq<Byte>): (text: string)
    ensures |text| == (8 * |bytes| + 4) / 5
    ensures forall c :: c in text ==> IsLetter(c)
  {
    var groups := Groups(BitsOfBytes(bytes));
    seq(|groups|, i requires 0 <= i < |groups| => CharOf(groups[i]))
  }

  /// ---- decoding ------------------------------------------------------------------------------------------

  function Flatten(groups: seq<seq<Bit>>): seq<Bit> {
    if groups == [] then [] else groups[0] + Flatten(groups[1..])
  }

  /** The index of a letter of the alphabet, or of `a` for any other character. */
  function IndexOf(c: char): (i: nat)
    ensures i < 32
  {
    if 'a' <= c <= 'z' then c as int - 'a' as int else if '2' <= c <= '7' then 26 + (c as int - '2' as int) else 0
  }

  function BytesOfBits(bits: seq<Bit>): seq<Byte> {
    if |bits| < 8 then []
    else
      ValueBound(bits[..8]);
      Pow2Small();
      [ValueOf(bits[..8])] + BytesOfBits(bits[8..])
  }

  /** The whole bytes of the decoded bits; bits left over are dropped. */
  function Decode(text: string): seq<Byte> {
    BytesOfBits(Flatten(seq(|text|, i requires 0 <= i < |text| => BitsOfNumber(IndexOf(text[i]), 5))))
  }

  lemma Rejoined<T>(s: seq<T>, k: nat, t: seq<T>)
    requires k <= |s|
    ensures s[..k] + (s[k..] + t) == s + t
  {
  }

  /** Flattening the groups gives the bits back, with the zeros that fill the last one. */
  lemma {:induction false} GroupsFlatten(bits: seq<Bit>) returns (n: nat)
    ensures n < 5 && Flatten(Groups(bits)) == bits + Zeros(n)
  {
    if bits == [] {
      n := 0;
      assert bits + Zeros(0) == bits;
    } else if |bits| < 5 {
      n := 5 - |bits|;
      assert Groups(bits)[1..] == [] && (bits + Zeros(n)) + [] == bits + Zeros(n);
    } else {
      n := GroupsFlatten(bits[5..]);
      assert Groups(bits)[0] == bits[..5] && Groups(bits)[1..] == Groups(bits[5..]);
      Rejoined(bits, 5, Zeros(n));
    }
  }

  lemma FirstByte(b: Byte, bits: seq<Bit>)
    ensures BytesOfBits(BitsOfNumber(b, 8) + bits) == [b] + BytesOfBits(bits)
  {
    var all := BitsOfNumber(b, 8) + bits;
    assert all[..8] == BitsOfNumber(b, 8) && all[8..] == bits;
    Pow2Small();
    NumberRoundTrip(b, 8);
  }

  lemma {:induction false} BytesOfBitsDropsTail(bytes: seq<Byte>, tail: seq<Bit>)
    requires |tail| < 8
    ensures BytesOfBits(BitsOfBytes(bytes) + tail) == bytes
  {
    if bytes == [] {
      assert BitsOfBytes(bytes) + tail == tail;
    } else {
      var first, rest := BitsOfNumber(bytes[0], 8), BitsOfBytes(bytes[1..]);
      BytesOfBitsDropsTail(bytes[1..], tail);
      FirstByte(bytes[0], rest + tail);
      BitsOfBytesCons(bytes);
      assert BitsOfBytes(bytes) + tail == first + (rest + tail);
      assert [bytes[0]] + bytes[1..] == bytes;
    }
  }

  lemma {:induction false} BitsOfBytesCons(bytes: seq<Byte>)
    requires bytes != []
    ensures BitsOfBytes(bytes) == BitsOfNumber(bytes[0], 8) + BitsOfBytes(bytes[1..])
  {
    var n := |bytes| - 1;
    if n > 0 {
      BitsOfBytesCons(bytes[..n]);
      assert bytes[..n][1..] == bytes[1..][..n - 1];
    }
  }

  /** decode(encode(bytes)) is bytes, so no two byte strings share an encoding. */
  lemma RoundTrip(bytes: seq<Byte>)
    ensures Decode(Encode(bytes)) == bytes
  {
    var bits := BitsOfBytes(bytes);
    var groups, text := Groups(bits), Encode(bytes);
    var decoded := seq(|text|, i requires 0 <= i < |text| => BitsOfNumber(IndexOf(text[i]), 5));
    forall i | 0 <= i < |text| ensures decoded[i] == groups[i] {
      ValueBound(groups[i]);
      Pow2Small();
      assert IndexOf(Letter(ValueOf(groups[i]))) == ValueOf(groups[i]);
      BitsRoundTrip(groups[i]);
    }
    assert decoded == groups;
    var n := GroupsFlatten(bits);
    BytesOfBitsDropsTail(bytes, Zeros(n));
  }

  /// ---- the encoding as a number ----------------------------------------------------------------------------

  /** The number with these digits, the first being the most significant. */
  function Number(digits: seq<nat>, base: nat): nat {
    if digits == [] then 0 else Number(digits[..|digits| - 1], base) * base + digits[|digits| - 1]
  }

  function Numbers(bytes: seq<Byte>): (digits: seq<nat>)
    ensures |digits| == |bytes| && forall i :: 0 <= i < |bytes| ==> digits[i] == bytes[i]
  {
    seq(|bytes|, i requires 0 <= i < |bytes| => bytes[i])
  }

  function GroupValues(groups: seq<seq<Bit>>): (digits: seq<nat>)
    ensures |digits| == |groups| && forall i :: 0 <= i < |groups| ==> digits[i] == ValueOf(groups[i])
  {
    seq(|groups|, i requires 0 <= i < |groups| => ValueOf(groups[i]))
  }

  lemma {:induction false} ZerosValue(n: nat)
    ensures ValueOf(Zeros(n)) == 0
  {
    if n > 0 {
      assert Zeros(n)[..n - 1] == Zeros(n - 1);
      ZerosValue(n - 1);
    }
  }

  lemma {:induction false} BytesValue(bytes: seq<Byte>)
    ensures ValueOf(BitsOfBytes(bytes)) == Number(Numbers(bytes), 256)
  {
    if bytes != [] {
      var n := |bytes| - 1;
      BytesValue(bytes[..n]);
      assert Numbers(bytes)[..n] == Numbers(bytes[..n]);
      ValueAppend(BitsOfBytes(bytes[..n]), BitsOfNumber(bytes[n], 8));
      Pow2Small();
      NumberRoundTrip(bytes[n], 8);
    }
  }

  lemma {:induction false} FlattenAppend(groups: seq<seq<Bit>>, group: seq<Bit>)
    ensures Flatten(groups + [group]) == Flatten(groups) + group
  {
    if groups == [] {
      assert [group][1..] == [] && group + [] == group;
      assert [] + [group] == [group];
    } else {
      assert (groups + [group])[1..] == groups[1..] + [group];
      FlattenAppend(groups[1..], group);
    }
  }

  lemma {:induction false} GroupsValue(groups: seq<seq<Bit>>)
    requires forall g :: g in groups ==> |g| == 5
    ensures ValueOf(Flatten(groups)) == Number(GroupValues(groups), 32)
  {
    if groups != [] {
      var n := |groups| - 1;
      GroupsValue(groups[..n]);
      assert groups == groups[..n] + [groups[n]];
      FlattenAppend(groups[..n], groups[n]);
      ValueAppend(Flatten(groups[..n]), groups[n]);
      Pow2Small();
      assert GroupValues(groups)[..n] == GroupValues(groups[..n]);
    }
  }

  lemma {:induction false} FlattenLength(groups: seq<seq<Bit>>)
    requires forall g :: g in groups ==> |g| == 5
    ensures |Flatten(groups)| == 5 * |groups|
  {
    if groups != [] {
      FlattenLength(groups[1..]);
    }
  }

  /**
   Section 6 of RFC 4648 in terms of numbers: read as digits to base 32, the letters' places in the alphabet make the
   big-endian number of the bytes, with the unused bits of the last letter as zeros.
   */
  lemma EncodesNumber(bytes: seq<Byte>) returns (digits: seq<nat>)
    ensures |digits| == |Encode(bytes)|
    ensures forall i :: 0 <= i < |digits| ==> digits[i] < |ALPHABET| && Encode(bytes)[i] == ALPHABET[digits[i]]
    ensures 8 * |bytes| <= 5 * |digits| < 8 * |bytes| + 5
    ensures Number(digits, 32) == Number(Numbers(bytes), 256) * Pow2(5 * |digits| - 8 * |bytes|)
  {
    digits := GroupValues(Groups(BitsOfBytes(bytes)));
    LettersAreDigits(bytes);
    var n := DigitsValue(BitsOfBytes(bytes));
    BytesValue(bytes);
    assert n == 5 * |digits| - 8 * |bytes|;
  }

  lemma LettersAreDigits(bytes: seq<Byte>)
    ensures
      var digits := GroupValues(Groups(BitsOfBytes(bytes)));
      forall i :: 0 <= i < |digits| ==> digits[i] < |ALPHABET| && Encode(bytes)[i] == ALPHABET[digits[i]]
  {
    var groups := Groups(BitsOfBytes(bytes));
    forall i | 0 <= i < |groups| ensures ValueOf(groups[i]) < |ALPHABET| && Encode(bytes)[i] == ALPHABET[ValueOf(groups[i])] {
      ValueBound(groups[i]);
      Pow2Small();
      LetterOfAlphabet(ValueOf(groups[i]));
    }
  }

  lemma DigitsValue(bits: seq<Bit>) returns (n: nat)
    ensures n < 5 && 5 * |Groups(bits)| == |bits| + n
    ensures Number(GroupValues(Groups(bits)), 32) == ValueOf(bits) * Pow2(n)
  {
    n := GroupsFlatten(bits);
    FlattenLength(Groups(bits));
    GroupsValue(Groups(bits));
    ValueAppend(bits, Zeros(n));
    ZerosValue(n);
  }
}
