/** JavaScript's bitwise operators on unsigned 32-bit words, bit by bit. */
module Bits {
  import opened Powers

  type Word = x: int | 0 <= x < SPACE

  function BitAnd(x: nat, y: nat): (r: nat)
    ensures r <= x
  {
    if x == 0 || y == 0 then 0
    else 2 * BitAnd(x / 2, y / 2) + if x % 2 == 1 && y % 2 == 1 then 1 else 0
  }

  function BitOr(x: nat, y: nat): (r: nat)
    ensures x <= r <= x + y
  {
    if x == 0 && y == 0 then 0
    else 2 * BitOr(x / 2, y / 2) + if x % 2 == 1 || y % 2 == 1 then 1 else 0
  }

  function Not32(x: Word): (r: Word) {
    SPACE - 1 - x
  }

  /** Shift left by a count below 32: bits beyond the word are lost. */
  function Shl32(x: Word, n: nat): (r: Word)
    requires n < 32
  {
    if n == 0 then x else (2 * Shl32(x, n - 1)) % SPACE
  }

  /** Unsigned shift right by a count below 32. */
  function Shr32(x: Word, n: nat): (r: Word)
    requires n < 32
  {
    if n == 0 then x else Shr32(x, n - 1) / 2
  }

  lemma {:induction false} ShlSmall(x: Word, n: nat)
    requires n < 32 && x * Pow2(n) < SPACE
    ensures Shl32(x, n) == x * Pow2(n)
  {
    if n > 0 {
      assert x * Pow2(n) == 2 * (x * Pow2(n - 1));
      ShlSmall(x, n - 1);
    }
  }

  /** All ones shifted left by k: the word with k zeros at the bottom. */
  lemma {:induction false} ShlOnes(k: nat)
    requires k < 32
    ensures Pow2(k) < SPACE && Shl32(SPACE - 1, k) == SPACE - Pow2(k)
  {
    Pow2Of32();
    Pow2Monotone(k, 32);
    if k > 0 {
      ShlOnes(k - 1);
    }
  }

  lemma {:induction false} ShrIsDiv(x: Word, n: nat)
    requires n < 32
    ensures Shr32(x, n) == x / Pow2(n)
  {
    if n > 0 {
      ShrIsDiv(x, n - 1);
      HalfQuotient(x, Pow2(n - 1));
    }
  }

  lemma HalfQuotient(x: nat, p: nat)
    requires p > 0
    ensures x / p / 2 == x / (2 * p)
  {
    var q, r := x / p, x % p;
    HalfProduct(x, p, q, q / 2, q % 2, r);
  }

  lemma HalfProduct(x: nat, p: nat, q: nat, h: nat, b: nat, r: nat)
    requires x == q * p + r && q == 2 * h + b && b <= 1 && r < p
    ensures x / (2 * p) == h
  {
    assert q * p == h * (2 * p) + b * p;
    assert b * p <= p;
    DivModUnique(x, 2 * p, h, b * p + r);
  }

  /** Or-ing a multiple of 2^k with a number below 2^k adds them. */
  lemma {:induction false} OrDisjoint(x: nat, y: nat, k: nat)
    requires x % Pow2(k) == 0 && y < Pow2(k)
    ensures BitOr(x, y) == x + y
  {
    if k == 0 {
      OrZero(x);
    } else if x != 0 || y != 0 {
      Halve(x, k);
      OrDisjoint(x / 2, y / 2, k - 1);
    }
  }

  lemma {:induction false} OrZero(x: nat)
    ensures BitOr(x, 0) == x
  {
    if x > 0 { OrZero(x / 2); }
  }

  /** The low k bits of x are twice the low k-1 bits of x/2, plus the last bit. */
  lemma Halve(x: nat, k: nat)
    requires k > 0
    ensures x % Pow2(k) == 2 * (x / 2 % Pow2(k - 1)) + x % 2
  {
    var p := Pow2(k - 1);
    var q, r := x / 2 / p, x / 2 % p;
    assert x / 2 == q * p + r;
    assert x == q * (2 * p) + (2 * r + x % 2);
    DivModUnique(x, 2 * p, q, 2 * r + x % 2);
  }

  lemma AndOdd(x: nat, half: nat)
    ensures BitAnd(x, 2 * half + 1) == 2 * BitAnd(x / 2, half) + x % 2
  {
    assert (2 * half + 1) / 2 == half && (2 * half + 1) % 2 == 1;
  }

  lemma AndZero(x: nat)
    ensures BitAnd(x, 0) == 0
  {
  }

  /** And-ing with k ones keeps the low k bits. */
  lemma {:induction false} AndLow(x: nat, k: nat)
    ensures BitAnd(x, Pow2(k) - 1) == x % Pow2(k)
  {
    hide BitAnd;
    if k == 0 {
      AndZero(x);
    } else {
      Halve(x, k);
      AndLow(x / 2, k - 1);
      AndOdd(x, Pow2(k - 1) - 1);
    }
  }

  /** And-ing an n-bit number with n-k ones above k zeros clears the low k bits. */
  lemma {:induction false} AndHigh(x: nat, k: nat, n: nat)
    requires k <= n && x < Pow2(n)
    ensures Pow2(k) <= Pow2(n)
    ensures BitAnd(x, Pow2(n) - Pow2(k)) == x - x % Pow2(k)
  {
    if k == 0 {
      AndLow(x, n);
      DivModUnique(x, Pow2(n), 0, x);
    } else {
      Halve(x, k);
      AndHigh(x / 2, k - 1, n - 1);
      var mask := Pow2(n) - Pow2(k);
      assert mask == 2 * (Pow2(n - 1) - Pow2(k - 1));
      assert mask / 2 == Pow2(n - 1) - Pow2(k - 1) && mask % 2 == 0;
    }
  }
}
