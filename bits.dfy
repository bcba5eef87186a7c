/** The u64 bit operations the packed edit script uses, on natural numbers: a word is a
    natural number below 2^64, `|` and `&` are bitwise on its binary digits, `<<`
    wraps at 64 bits and `>>` drops low bits. */
module Bits {

  function Pow2(n: nat): (p: nat)
    ensures p >= 1
  {
    if n == 0 then 1 else 2 * Pow2(n - 1)
  }

  /** 2^64, one more than the largest u64. */
  const WORD: nat := 0x1_0000_0000_0000_0000

  lemma Pow2Word()
    ensures Pow2(64) == WORD
  {
    Pow2Add(32, 32);
    assert Pow2(32) == 0x1_0000_0000 by {
      Pow2Add(16, 16);
      assert Pow2(16) == 0x1_0000 by {
        Pow2Add(8, 8);
      }
    }
  }

  /** A value that fits in a u64. */
  predicate IsWord(x: int) {
    0 <= x < WORD
  }

  /** Bitwise or. */
  function Or(x: nat, y: nat): (r: nat)
    ensures r <= x + y
    ensures x <= r && y <= r
  {
    if x == 0 then y
    else if y == 0 then x
    else 2 * Or(x / 2, y / 2) + (if x % 2 == 1 || y % 2 == 1 then 1 else 0)
  }

  /** Bitwise and. */
  function And(x: nat, y: nat): (r: nat)
    ensures r <= x && r <= y
  {
    if x == 0 || y == 0 then 0
    else 2 * And(x / 2, y / 2) + (if x % 2 == 1 && y % 2 == 1 then 1 else 0)
  }

  /** u64 `<<`: the bits shifted past bit 63 are lost. */
  function Shl(x: nat, s: nat): (r: nat)
    requires s < 64
    ensures IsWord(r)
  {
    (x * Pow2(s)) % WORD
  }

  /** u64 `>>`. */
  function Shr(x: nat, s: nat): nat
    requires s < 64
  {
    DivNonneg(x, Pow2(s));
    x / Pow2(s)
  }

  lemma DivNonneg(x: nat, d: int)
    requires d >= 1
    ensures x / d >= 0
  {
    var q := x / d;
    assert d * (q + 1) > 0 by {
      assert x == d * q + x % d;
      assert d * (q + 1) == d * q + d;
    }
  }

  lemma {:induction false} Pow2Add(a: nat, b: nat)
    ensures Pow2(a + b) == Pow2(a) * Pow2(b)
    decreases a
  {
    if a > 0 {
      Pow2Add(a - 1, b);
    }
  }

  lemma {:induction false} Pow2Monotone(a: nat, b: nat)
    requires a <= b
    ensures Pow2(a) <= Pow2(b)
    decreases b
  {
    if a < b {
      Pow2Monotone(a, b - 1);
    }
  }

  lemma MulAtLeast(d: int, k: int)
    requires d > 0 && k >= 1
    ensures d * k >= d
  {
    assert d * k == d * (k - 1) + d;
    assert d * (k - 1) >= 0;
  }

  lemma MulMonotone(a: nat, b: nat, c: nat)
    requires a <= b
    ensures a * c <= b * c
  {
    assert b * c == a * c + (b - a) * c;
  }

  /** Quotient and remainder are unique. */
  lemma DivUnique(x: int, d: int, q: int, r: int)
    requires d > 0 && 0 <= r < d && x == d * q + r
    ensures x / d == q && x % d == r
  {
    var q', r' := x / d, x % d;
    assert x == d * q' + r';
    assert d * (q - q') == r' - r by {
      assert d * (q - q') == d * q - d * q';
    }
    if q > q' {
      MulAtLeast(d, q - q');
    } else if q < q' {
      assert d * (q' - q) == -(d * (q - q'));
      MulAtLeast(d, q' - q);
    }
  }

  /** Or of two numbers whose set bits lie apart (every bit of x below bit k, every bit
      of y at or above it) is their sum. */
  lemma {:induction false} OrDisjoint(x: nat, y: nat, k: nat)
    requires x < Pow2(k) && y % Pow2(k) == 0
    ensures Or(x, y) == x + y
    decreases k
  {
    if x != 0 && y != 0 {
      assert k > 0;
      var p := Pow2(k - 1);
      assert y % 2 == 0 && (y / 2) % p == 0 by {
        DivUnique(y, 2 * p, y / (2 * p), 0);
        DivUnique(y / 2, p, y / (2 * p), 0);
      }
      OrDisjoint(x / 2, y / 2, k - 1);
    }
  }

  /** Masking with 3 keeps the lowest two bits: the remainder modulo 4. */
  lemma AndThree(x: nat)
    ensures And(x, 3) == x % 4
  {
    if x != 0 {
      var h := x / 2;
      assert And(x, 3) == 2 * And(h, 1) + x % 2;
      if h != 0 {
        assert And(h, 1) == 2 * And(h / 2, 0) + h % 2;
      }
      assert And(h, 1) == h % 2;
      DivUnique(x, 4, h / 2, 2 * (h % 2) + x % 2);
    }
  }

  /** Appending a top digit o at weight 4*p to a base-4 number c + 4*x. */
  lemma TopDigit(c: nat, x: nat, o: nat, p: nat)
    ensures c + 4 * (x + o * p) == (c + 4 * x) + o * (4 * p)
  {
  }

  /** Dividing a base-4 number with lowest digit c by 4*p drops the digit, then divides
      by p. */
  lemma DivDropDigit(c: nat, x: nat, p: nat)
    requires c < 4 && p > 0
    ensures (c + 4 * x) / (4 * p) == x / p
  {
    var q, r := x / p, x % p;
    assert x == p * q + r;
    assert c + 4 * x == (4 * p) * q + (4 * r + c) by {
      assert 4 * (p * q) == (4 * p) * q;
    }
    DivUnique(c + 4 * x, 4 * p, q, 4 * r + c);
  }

  /** A two-bit value shifted left by k <= 62 stays below 2^64. */
  lemma TwoBitsFit(c: nat, k: nat)
    requires c < 4 && k <= 62
    ensures c * Pow2(k) < WORD
  {
    var p := Pow2(k);
    MulMonotone(c, 3, p);
    assert 3 * p < 4 * p;
    Pow2Add(k, 2);
    assert Pow2(2) == 4;
    assert Pow2(k + 2) == 4 * p;
    Pow2Monotone(k + 2, 64);
    Pow2Word();
  }

  /** A two-bit value shifted left by k <= 62 does not overflow and leaves the k low
      bits clear. */
  lemma ShlSmall(c: nat, k: nat)
    requires c < 4 && k <= 62
    ensures Shl(c, k) == c * Pow2(k)
    ensures (c * Pow2(k)) % Pow2(k) == 0
  {
    TwoBitsFit(c, k);
    ShlExact(c, k);
    DivUnique(c * Pow2(k), Pow2(k), c, 0);
  }

  /** A shift that does not overflow is a multiplication. */
  lemma ShlExact(x: nat, s: nat)
    requires s < 64 && x * Pow2(s) < WORD
    ensures Shl(x, s) == x * Pow2(s)
  {
    DivUnique(x * Pow2(s), WORD, 0, x * Pow2(s));
  }
}
