/** Minimum and maximum, and division with remainder, by which block positions and bit buffers are read. */
module Arithmetic {
  function Min(a: int, b: int): int { if a < b then a else b }

  function Max(a: int, b: int): int { if a < b then b else a }

  lemma {:induction false} DivMod(k: nat, b: nat)
    requires b >= 1
    ensures k == b * (k / b) + k % b && 0 <= k % b < b && 0 <= k / b
  {
  }

  lemma Multiples(b: nat, d: int)
    requires b >= 1
    ensures d >= 1 ==> b * d >= b
    ensures d <= -1 ==> b * d + b <= 0
  {
    if d >= 1 {
      assert b * (d - 1) >= 0;
    } else if d <= -1 {
      assert b * (-1 - d) >= 0;
    }
  }

  lemma {:induction false} DivUnique(q: int, r: nat, b: nat)
    requires b >= 1 && r < b && b * q + r >= 0
    ensures (b * q + r) / b == q && (b * q + r) % b == r
  {
    var k := b * q + r;
    DivMod(k, b);
    var d := q - k / b;
    assert b * d == k % b - r;
    Multiples(b, d);
  }
}
