/** Unsigned machine integers as bounded naturals, with the bitwise operators of C
    defined digit by digit.  Keeping words as numbers lets carries, masks, shifts and
    little-endian layouts be reasoned about by ordinary arithmetic. */
module Bits {

  const U32: nat := 0x1_0000_0000
  const U64: nat := 0x1_0000_0000_0000_0000

  type byte = b: nat | b < 0x100
  type word = w: nat | w < 0x1_0000_0000

  function Pow2(k: nat): (p: nat)
    ensures p > 0
  {
    if k == 0 then 1 else 2 * Pow2(k - 1)
  }

  /* x & y */
  function And(x: nat, y: nat): nat
    decreases x + y
  {
    if x == 0 || y == 0 then 0
    else 2 * And(x / 2, y / 2) + (if x % 2 == 1 && y % 2 == 1 then 1 else 0)
  }

  /* x | y */
  function Or(x: nat, y: nat): nat
    decreases x + y
  {
    if x == 0 && y == 0 then 0
    else 2 * Or(x / 2, y / 2) + (if x % 2 == 1 || y % 2 == 1 then 1 else 0)
  }

  /* x ^ y */
  function Xor(x: nat, y: nat): nat
    decreases x + y
  {
    if x == 0 && y == 0 then 0
    else 2 * Xor(x / 2, y / 2) + (if x % 2 != y % 2 then 1 else 0)
  }

  /* x << n, before truncation to the width of the operand */
  function Shl(x: nat, n: nat): nat {
    x * Pow2(n)
  }

  /* x >> n */
  function Shr(x: nat, n: nat): nat {
    Quotient(x, Pow2(n))
  }

  function Quotient(x: nat, d: nat): nat
    requires d > 0
  {
    x / d
  }

  lemma Pow2Values()
    ensures Pow2(3) == 8 && Pow2(8) == 0x100 && Pow2(11) == 0x800 && Pow2(15) == 0x8000
    ensures Pow2(16) == 0x1_0000 && Pow2(18) == 0x4_0000 && Pow2(24) == 0x100_0000
    ensures Pow2(27) == 0x800_0000 && Pow2(29) == 0x2000_0000 && Pow2(32) == U32
  {
    Pow2Add(16, 16);
    Pow2Add(16, 2);
    Pow2Add(16, 8);
    Pow2Add(24, 3);
    Pow2Add(24, 5);
  }

  lemma {:induction false} Pow2Add(m: nat, n: nat)
    ensures Pow2(m + n) == Pow2(m) * Pow2(n)
  {
    if m == 0 {
    } else {
      Pow2Add(m - 1, n);
      assert Pow2(m + n) == 2 * Pow2(m - 1 + n);
    }
  }

  // ----- One binary digit at a time -----

  lemma AndDigit(x: nat, y: nat)
    ensures And(x, y) / 2 == And(x / 2, y / 2)
    ensures And(x, y) % 2 == 1 <==> x % 2 == 1 && y % 2 == 1
  {
    assert And(0, y / 2) == 0 && And(x / 2, 0) == 0;
  }

  lemma OrDigit(x: nat, y: nat)
    ensures Or(x, y) / 2 == Or(x / 2, y / 2)
    ensures Or(x, y) % 2 == 1 <==> x % 2 == 1 || y % 2 == 1
  {
    assert Or(0, 0) == 0;
  }

  lemma XorDigit(x: nat, y: nat)
    ensures Xor(x, y) / 2 == Xor(x / 2, y / 2)
    ensures Xor(x, y) % 2 == 1 <==> x % 2 != y % 2
  {
    assert Xor(0, 0) == 0;
  }

  /** Masking with k one bits keeps the low k bits. */
  lemma {:induction false} AndMask(x: nat, k: nat)
    ensures And(x, Pow2(k) - 1) == x % Pow2(k)
    ensures And(Pow2(k) - 1, x) == x % Pow2(k)
  {
    if k == 0 {
    } else if x == 0 {
      DivModUnique(0, Pow2(k), 0, 0);
    } else {
      var m := Pow2(k - 1);
      assert Pow2(k) == 2 * m;
      hide Pow2;
      AndMask(x / 2, k - 1);
      assert (2 * m - 1) / 2 == m - 1 && (2 * m - 1) % 2 == 1;
      HalveMod(x, m);
    }
  }

  /** Masking with a single one bit looks at that bit. */
  lemma {:induction false} AndBit(x: nat, k: nat)
    ensures And(x, Pow2(k)) == if x / Pow2(k) % 2 == 1 then Pow2(k) else 0
    decreases k
  {
    if k == 0 {
      AndMask(x, 1);
    } else {
      AndBit(x / 2, k - 1);
      OneBitUp(x, Pow2(k - 1));
      assert Pow2(k) == 2 * Pow2(k - 1);
    }
  }

  lemma OneBitUp(x: nat, m: nat)
    requires m > 0 && And(x / 2, m) == if x / 2 / m % 2 == 1 then m else 0
    ensures And(x, 2 * m) == if x / (2 * m) % 2 == 1 then 2 * m else 0
  {
    hide And;
    AndDigit(x, 2 * m);
    HalveTwice(x, m);
  }

  lemma HalveTwice(x: nat, m: nat)
    requires m > 0
    ensures x / 2 / m == x / (2 * m)
  {
    var q, r := x / 2 / m, (x / 2) % m;
    assert x == 2 * (m * q + r) + x % 2;
    assert 2 * (m * q) == (2 * m) * q;
    DivModUnique(x, 2 * m, q, 2 * r + x % 2);
  }

  lemma HalveMod(x: nat, m: nat)
    requires m > 0
    ensures x % (2 * m) == 2 * ((x / 2) % m) + x % 2
  {
    var q, r := (x / 2) / m, (x / 2) % m;
    assert x / 2 == m * q + r;
    assert x == 2 * (m * q + r) + x % 2;
    assert 2 * (m * q) == (2 * m) * q;
    DivModUnique(x, 2 * m, q, 2 * r + x % 2);
  }

  /** Division with remainder is unique. */
  lemma DivModUnique(x: int, m: int, q: int, r: int)
    requires m > 0 && 0 <= r < m && x == m * q + r
    ensures x / m == q && x % m == r
  {
    var d := x / m - q;
    assert m * d == r - x % m by {
      assert x == m * (x / m) + x % m;
      assert m * (x / m) - m * q == m * d;
    }
    SmallMultiple(m, d);
  }

  /** Exchanging the two digits of x in the mixed base (p, q) stays in range. */
  lemma SplitBound(x: nat, p: nat, q: nat)
    requires p > 0 && q > 0 && x < p * q
    ensures x / p < q
    ensures x % p * q + x / p < p * q
  {
    var hi, lo := x / p, x % p;
    assert hi < q by {
      SmallMultiple(p, hi - q);
      Expand(p, hi, q);
    }
    SmallMultiple(q, p - 1 - lo);
    Expand(q, p - 1, lo);
    Expand(q, p, 1);
  }

  lemma Expand(p: int, x: int, y: int)
    ensures p * (x - y) == p * x - p * y
  {
  }

  /** Truncating a left shift by a factor q to p * q values drops the high digit. */
  lemma ShiftTruncate(x: nat, p: nat, q: nat)
    requires p > 0 && q > 0
    ensures p * q > 0 && x * q % (p * q) == x % p * q
  {
    var hi, lo := x / p, x % p;
    SmallMultiple(p, q);
    ShiftSplit(x, p, q, hi, lo);
    DivModUnique(x * q, p * q, hi, lo * q);
  }

  lemma ShiftSplit(x: nat, p: nat, q: nat, hi: nat, lo: nat)
    requires q > 0 && lo < p && x == p * hi + lo
    ensures x * q == (p * q) * hi + lo * q
    ensures 0 <= lo * q < p * q
  {
    var neg: int := 0 - lo as int;
    Expand(q, p * hi, neg);
    Associate(p, q, hi);
    SmallMultiple(q, p - lo);
    SmallMultiple(q, lo);
    Expand(q, p, lo);
  }

  lemma Associate(p: int, q: int, x: int)
    ensures q * (p * x) == (p * q) * x
  {
  }

  lemma SmallMultiple(m: int, d: int)
    requires m > 0
    ensures d >= 1 ==> m * d >= m
    ensures d <= -1 ==> m * d <= -m
  {
    if d >= 1 {
      assert m * (d - 1) >= 0;
    } else if d <= -1 {
      assert m * (-1 - d) >= 0;
    }
  }

  /** `|` of two values with no bit in common is their sum. */
  lemma {:induction false} OrDisjoint(hi: nat, lo: nat, k: nat)
    requires lo < Pow2(k)
    ensures Or(hi * Pow2(k), lo) == hi * Pow2(k) + lo
    ensures Or(lo, hi * Pow2(k)) == hi * Pow2(k) + lo
  {
    if k == 0 {
      OrZero(hi);
    } else {
      var x := hi * Pow2(k);
      assert x == 2 * (hi * Pow2(k - 1));
      assert x / 2 == hi * Pow2(k - 1) && x % 2 == 0;
      OrDisjoint(hi, lo / 2, k - 1);
    }
  }

  lemma {:induction false} OrZero(x: nat)
    ensures Or(x, 0) == x && Or(0, x) == x
  {
    if x == 0 {
    } else {
      OrZero(x / 2);
    }
  }
}
