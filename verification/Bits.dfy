/** Bitwise operators on natural numbers, and the arithmetic they amount to. */
module Bits {
  function Pow2(k: nat): (r: nat)
    ensures r > 0
  {
    if k == 0 then 1 else 2 * Pow2(k - 1)
  }

  function Bit(b: bool): nat { if b then 1 else 0 }

  function BitAnd(a: nat, b: nat): nat {
    if a == 0 || b == 0 then 0
    else Bit(a % 2 == 1 && b % 2 == 1) + 2 * BitAnd(a / 2, b / 2)
  }

  function BitOr(a: nat, b: nat): nat {
    if a == 0 then b
    else if b == 0 then a
    else Bit(a % 2 == 1 || b % 2 == 1) + 2 * BitOr(a / 2, b / 2)
  }

  function BitXor(a: nat, b: nat): nat
    decreases a + b
  {
    if a == 0 && b == 0 then 0
    else Bit(a % 2 != b % 2) + 2 * BitXor(a / 2, b / 2)
  }

  function Shl(a: nat, k: nat): nat
    decreases k
  {
    if k == 0 then a else 2 * Shl(a, k - 1)
  }

  function Shr(a: nat, k: nat): nat
    decreases k
  {
    if k == 0 then a else Shr(a / 2, k - 1)
  }

  /** Quotient and remainder are determined by the division equation. */
  lemma DivModUnique(a: int, d: int, q: int, r: int)
    requires 0 <= r < d && a == q * d + r
    ensures a / d == q && a % d == r
  {
    var q', r' := a / d, a % d;
    assert (q' - q) * d == r - r' by {
      assert a == d * q' + r';
    }
    MulAtLeast(q' - q, d);
    MulAtLeast(q - q', d);
    assert (q - q') * d == -((q' - q) * d);
  }

  lemma MulAtLeast(x: int, d: int)
    requires d > 0
    ensures x > 0 ==> x * d >= d
  {
  }

  lemma HalveQuotient(a: nat, m: nat)
    requires m > 0
    ensures a % (2 * m) == a % 2 + 2 * ((a / 2) % m)
    ensures a / (2 * m) == (a / 2) / m
  {
    var q, r := (a / 2) / m, (a / 2) % m;
    assert a / 2 == q * m + r;
    assert a == 2 * (q * m + r) + a % 2 == q * (2 * m) + (2 * r + a % 2);
    DivModUnique(a, 2 * m, q, 2 * r + a % 2);
  }

  /** The low k bits of a number. */
  function Low(a: nat, k: nat): nat
    decreases k
  {
    if k == 0 then 0 else a % 2 + 2 * Low(a / 2, k - 1)
  }

  lemma {:induction false} LowIsMod(a: nat, k: nat)
    ensures Low(a, k) == a % Pow2(k)
    decreases k
  {
    if k > 0 {
      LowIsMod(a / 2, k - 1);
      HalveQuotient(a, Pow2(k - 1));
    }
  }

  lemma {:induction false} AndMaskIsLow(a: nat, k: nat)
    ensures BitAnd(a, Pow2(k) - 1) == Low(a, k)
    decreases k
  {
    if k > 0 {
      AndMaskIsLow(a / 2, k - 1);
      AndOddMask(a, Pow2(k - 1) - 1);
    }
  }

  /** Masking with the low k bits is the remainder modulo 2^k. */
  lemma AndLowMask(a: nat, k: nat)
    ensures BitAnd(a, Pow2(k) - 1) == a % Pow2(k)
  {
    AndMaskIsLow(a, k);
    LowIsMod(a, k);
  }

  lemma AndOddMask(a: nat, b: nat)
    ensures BitAnd(a, 2 * b + 1) == a % 2 + 2 * BitAnd(a / 2, b)
  {
  }

  lemma {:induction false} ShlIsMul(a: nat, k: nat)
    ensures Shl(a, k) == a * Pow2(k)
  {
    if k > 0 { ShlIsMul(a, k - 1); }
  }

  lemma {:induction false} ShrIsDiv(a: nat, k: nat)
    ensures Shr(a, k) == a / Pow2(k)
    decreases k
  {
    if k > 0 {
      ShrIsDiv(a / 2, k - 1);
      HalveQuotient(a, Pow2(k - 1));
    }
  }

  lemma {:induction false} ShrAdd(a: nat, j: nat, k: nat)
    ensures Shr(a, j + k) == Shr(Shr(a, j), k)
    decreases j
  {
    if j > 0 { ShrAdd(a / 2, j - 1, k); }
  }

  /** A mask shifted up by k selects from the number shifted down by k. */
  lemma {:induction false} AndShiftedMask(a: nat, b: nat, k: nat)
    ensures BitAnd(a, Shl(b, k)) == Shl(BitAnd(Shr(a, k), b), k)
    decreases k
  {
    if k > 0 {
      AndShiftedMask(a / 2, b, k - 1);
      var mask := Shl(b, k - 1);
      assert (2 * mask) / 2 == mask && (2 * mask) % 2 == 0;
      assert BitAnd(a, 2 * mask) == 2 * BitAnd(a / 2, mask);
    }
  }

  lemma {:induction false} OrCommutes(a: nat, b: nat)
    ensures BitOr(a, b) == BitOr(b, a)
  {
    if a != 0 && b != 0 { OrCommutes(a / 2, b / 2); }
  }

  /** Or-ing numbers with disjoint bits adds them. */
  lemma {:induction false} OrDisjoint(low: nat, high: nat, k: nat)
    requires low < Pow2(k)
    ensures BitOr(low, Shl(high, k)) == low + Shl(high, k)
    decreases k
  {
    if k > 0 {
      OrDisjoint(low / 2, high, k - 1);
      var above := Shl(high, k - 1);
      assert (2 * above) / 2 == above && (2 * above) % 2 == 0;
    }
  }

  /** The same with the high part on the left and the power p of two written out. */
  lemma OrField(high: nat, low: nat, k: nat, p: nat)
    requires p == Pow2(k) && low < p
    ensures BitOr(high * p, low) == high * p + low
  {
    ShlIsMul(high, k);
    OrDisjoint(low, high, k);
    OrCommutes(low, high * p);
  }

  /** A mask of `width` bits at position k selects that field of a word. */
  lemma AndField(word: nat, mask: nat, width: nat, k: nat, p: nat)
    requires p == Pow2(k) && mask == (Pow2(width) - 1) * p
    ensures BitAnd(word, mask) == (word / p % Pow2(width)) * p
  {
    ShlIsMul(Pow2(width) - 1, k);
    AndShiftedMask(word, Pow2(width) - 1, k);
    AndLowMask(Shr(word, k), width);
    ShrIsDiv(word, k);
    ShlIsMul(Shr(word, k) % Pow2(width), k);
  }

  lemma {:induction false} XorCommutes(a: nat, b: nat)
    ensures BitXor(a, b) == BitXor(b, a)
    decreases a + b
  {
    if a + b > 0 { XorCommutes(a / 2, b / 2); }
  }

  lemma XorUnfold(a: nat, b: nat)
    ensures BitXor(a, b) % 2 == Bit(a % 2 != b % 2) && BitXor(a, b) / 2 == BitXor(a / 2, b / 2)
  {
  }

  lemma {:induction false} XorAssociates(a: nat, b: nat, c: nat)
    ensures BitXor(BitXor(a, b), c) == BitXor(a, BitXor(b, c))
    decreases a + b + c
  {
    if a + b + c > 0 {
      hide BitXor;
      XorAssociates(a / 2, b / 2, c / 2);
      XorUnfold(a, b);
      XorUnfold(b, c);
      XorUnfold(BitXor(a, b), c);
      XorUnfold(a, BitXor(b, c));
    }
  }

  lemma {:induction false} XorSelf(a: nat)
    ensures BitXor(a, a) == 0
  {
    if a > 0 { XorSelf(a / 2); }
  }

  lemma {:induction false} XorZero(a: nat)
    ensures BitXor(0, a) == a
  {
    if a > 0 { XorZero(a / 2); }
  }

  lemma {:induction false} XorBound(a: nat, b: nat, k: nat)
    requires a < Pow2(k) && b < Pow2(k)
    ensures BitXor(a, b) < Pow2(k)
    decreases k
  {
    if a + b > 0 { XorBound(a / 2, b / 2, k - 1); }
  }

  /** The powers of two the protocols name. */
  lemma Powers()
    ensures Pow2(0) == 1 && Pow2(1) == 2 && Pow2(2) == 4 && Pow2(3) == 8
    ensures Pow2(4) == 16 && Pow2(5) == 32 && Pow2(6) == 64 && Pow2(7) == 128
    ensures Pow2(8) == 0x100 && Pow2(11) == 0x800 && Pow2(15) == 0x8000
  {
  }
}
