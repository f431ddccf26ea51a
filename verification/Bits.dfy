/**
 Bitwise arithmetic on unsigned machine words, represented by the natural number
 they denote. Every operator is defined one bit at a time.
 */
module Bits {

  function Pow2(k: nat): (p: nat)
    ensures p >= 1
  {
    if k == 0 then 1 else 2 * Pow2(k - 1)
  }

  /** Bitwise conjunction. */
  function And(x: nat, y: nat): nat {
    if x == 0 || y == 0 then 0
    else 2 * And(x / 2, y / 2) + if x % 2 == 1 && y % 2 == 1 then 1 else 0
  }

  /** Bitwise disjunction. */
  function Or(x: nat, y: nat): nat {
    if x == 0 && y == 0 then 0
    else 2 * Or(x / 2, y / 2) + if x % 2 == 1 || y % 2 == 1 then 1 else 0
  }

  /** Shift to the left, without a width limit. */
  function Shl(x: nat, k: nat): nat {
    if k == 0 then x else 2 * Shl(x, k - 1)
  }

  /** Logical shift to the right. */
  function Shr(x: nat, k: nat): nat {
    if k == 0 then x else Shr(x / 2, k - 1)
  }

  /** The low `k` bits. */
  function Low(x: nat, k: nat): (r: nat)
    ensures r < Pow2(k)
  {
    if k == 0 then 0 else 2 * Low(x / 2, k - 1) + x % 2
  }

  /** A word is its high bits and its low bits. */
  lemma {:induction false} HighAndLow(x: nat, k: nat)
    ensures x == Shl(Shr(x, k), k) + Low(x, k)
  {
    if k > 0 { HighAndLow(x / 2, k - 1); }
  }

  /** Low bits survive a wider truncation. */
  lemma {:induction false} LowOfLow(x: nat, k: nat, n: nat)
    requires k <= n
    ensures Low(Low(x, n), k) == Low(x, k)
  {
    if k > 0 { LowOfLow(x / 2, k - 1, n - 1); }
  }

  /** Numbers that fit are their own low bits. */
  lemma {:induction false} LowFits(x: nat, k: nat)
    requires x < Pow2(k)
    ensures Low(x, k) == x && Shr(x, k) == 0
  {
    if k > 0 { LowFits(x / 2, k - 1); }
  }

  lemma {:induction false} ShrOfShl(x: nat, k: nat)
    ensures Shr(Shl(x, k), k) == x && Low(Shl(x, k), k) == 0
  {
    if k > 0 { ShrOfShl(x, k - 1); }
  }

  lemma {:induction false} LowOfSum(a: nat, m: nat, k: nat)
    requires m < Pow2(k)
    ensures Low(Shl(a, k) + m, k) == m
  {
    if k > 0 {
      assert (Shl(a, k) + m) / 2 == Shl(a, k - 1) + m / 2;
      LowOfSum(a, m / 2, k - 1);
    }
  }

  lemma {:induction false} ShlSuccessor(a: nat, k: nat)
    ensures Shl(a + 1, k) == Shl(a, k) + Pow2(k)
  {
    if k > 0 { ShlSuccessor(a, k - 1); }
  }

  /** Counting on from `d`, the low bits run up to `2^k - 1` and start again at 0. */
  lemma LowAdvance(d: nat, j: nat, k: nat)
    requires j <= Pow2(k)
    ensures var r := Low(d, k) + j;
            Low(d + j, k) == if r < Pow2(k) then r else r - Pow2(k)
  {
    var a, r := Shr(d, k), Low(d, k) + j;
    HighAndLow(d, k);
    if r < Pow2(k) {
      LowOfSum(a, r, k);
    } else {
      ShlSuccessor(a, k);
      LowOfSum(a + 1, r - Pow2(k), k);
    }
  }

  /** A mask of `k` ones keeps the low bits. */
  lemma {:induction false} AndOnes(x: nat, k: nat)
    ensures And(x, Pow2(k) - 1) == Low(x, k)
  {
    if k == 0 {
    } else if x == 0 {
      LowFits(0, k);
    } else {
      AndOnes(x / 2, k - 1);
    }
  }

  /** A mask with `k` trailing zeros acts on the word shifted right by `k`. */
  lemma {:induction false} AndShifted(x: nat, m: nat, k: nat)
    ensures And(x, Shl(m, k)) == Shl(And(Shr(x, k), m), k)
  {
    if k == 0 {
    } else if x == 0 {
      AndShifted(0, m, k - 1);
    } else {
      AndShifted(x / 2, m, k - 1);
    }
  }

  /** Selecting a byte with a shifted mask and moving it down. */
  lemma ByteOf(x: nat, k: nat)
    ensures Shr(And(x, Shl(0xFF, k)), k) == Low(Shr(x, k), 8)
  {
    AndShifted(x, 0xFF, k);
    AndOnes(Shr(x, k), 8);
    ShrOfShl(Low(Shr(x, k), 8), k);
  }

  /** Disjunction works separately on the low `k` bits and on the rest. */
  lemma {:induction false} OrHigh(x: nat, y: nat, k: nat)
    ensures Shr(Or(x, y), k) == Or(Shr(x, k), Shr(y, k))
  {
    if k > 0 {
      assert Or(x, y) / 2 == Or(x / 2, y / 2);
      OrHigh(x / 2, y / 2, k - 1);
    }
  }

  lemma {:induction false} OrLow(x: nat, y: nat, k: nat)
    ensures Low(Or(x, y), k) == Or(Low(x, k), Low(y, k))
  {
    if k > 0 {
      assert Or(x, y) / 2 == Or(x / 2, y / 2);
      OrLow(x / 2, y / 2, k - 1);
      assert Low(x, k) / 2 == Low(x / 2, k - 1) && Low(y, k) / 2 == Low(y / 2, k - 1);
    }
  }

  /** Disjunction below the clear bits of a shifted word is addition. */
  lemma {:induction false} OrDisjoint(n: nat, m: nat, k: nat)
    requires m < Pow2(k)
    ensures Or(Shl(n, k), m) == Shl(n, k) + m
  {
    if k == 0 {
      OrZero(n);
    } else {
      OrDisjoint(n, m / 2, k - 1);
    }
  }

  lemma {:induction false} OrZero(x: nat)
    ensures Or(x, 0) == x
  {
    if x != 0 { OrZero(x / 2); }
  }

  /** A shift by two amounts is a shift by their sum. */
  lemma {:induction false} ShrShr(x: nat, j: nat, k: nat)
    ensures Shr(Shr(x, j), k) == Shr(x, j + k)
  {
    if j > 0 { ShrShr(x / 2, j - 1, k); }
  }

  /** Bits, division and remainder agree. */
  lemma {:induction false} LowIsRemainder(x: nat, k: nat)
    ensures x % Pow2(k) == Low(x, k)
  {
    HighAndLow(x, k);
    ShlIsProduct(Shr(x, k), k);
    RemainderUnique(x, Pow2(k), Shr(x, k), Low(x, k));
  }

  lemma {:induction false} ShlIsProduct(x: nat, k: nat)
    ensures Shl(x, k) == x * Pow2(k)
  {
    if k > 0 {
      ShlIsProduct(x, k - 1);
      Doubled(x, Pow2(k - 1));
    }
  }

  lemma Doubled(a: nat, p: nat)
    ensures a * (2 * p) == 2 * (a * p)
  {
  }

  lemma {:induction false} RemainderUnique(x: nat, p: nat, q: nat, r: nat)
    requires p > 0 && r < p && x == q * p + r
    ensures x % p == r
    decreases q
  {
    if q > 0 {
      assert q * p == (q - 1) * p + p;
      RemainderUnique(x - p, p, q - 1, r);
      PeelModulus(x, p);
    }
  }

  lemma PeelModulus(x: nat, p: nat)
    requires 0 < p <= x
    ensures x % p == (x - p) % p
  {
    var a, b := x / p, (x - p) / p;
    assert x == a * p + x % p && x - p == b * p + (x - p) % p;
    var d := a - b - 1;
    assert d * p == a * p - b * p - p;
    SmallMultiple(d, p);
  }

  lemma SmallMultiple(d: int, p: nat)
    requires 0 - p < d * p < p
    ensures d == 0
  {
    if d >= 1 { Distribute(1, d - 1, p); }
    if d <= -1 { Distribute(-1, d + 1, p); }
  }

  lemma Distribute(a: int, b: int, c: int)
    ensures (a + b) * c == a * c + b * c
  {
  }
}
