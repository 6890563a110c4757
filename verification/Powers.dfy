/** Powers of two and alignment: the arithmetic under CIDR blocks. */
module Powers {

  function Pow2(n: nat): (p: nat)
    ensures p >= 1
  {
    if n == 0 then 1 else 2 * Pow2(n - 1)
  }

  /** 2^32, the size of the IPv4 address space. */
  const SPACE := 0x1_0000_0000

  lemma Pow2Of32()
    ensures Pow2(8) == 256 && Pow2(16) == 65536 && Pow2(24) == 16777216 && Pow2(32) == SPACE
  {
    assert Pow2(8) == 256;
    assert Pow2(12) == 4096;
    assert Pow2(16) == 65536;
    assert Pow2(20) == 1048576;
    assert Pow2(24) == 16777216;
    assert Pow2(28) == 268435456;
  }

  lemma {:induction false} Pow2Monotone(k: nat, j: nat)
    requires k < j
    ensures 2 * Pow2(k) <= Pow2(j)
  {
    if k + 1 < j {
      Pow2Monotone(k, j - 1);
    }
  }

  lemma MulBounds(d: int, p: int)
    requires p > 0
    ensures d >= 1 ==> d * p >= p
    ensures d <= -1 ==> d * p <= -p
  {
  }

  lemma DivModUnique(x: int, p: int, q: int, r: int)
    requires p > 0 && 0 <= r < p && x == q * p + r
    ensures x / p == q && x % p == r
  {
    var d := x / p - q;
    assert d * p == r - x % p;
    MulBounds(d, p);
  }

  /** Multiples of p are at least p apart. */
  lemma AlignedGap(x: int, y: int, p: int)
    requires p > 0 && x % p == 0 && y % p == 0 && x < y
    ensures x + p <= y
  {
    assert x == (x / p) * p && y == (y / p) * p;
    MulBounds(y / p - x / p, p);
    assert (y / p - x / p) * p == y - x;
  }

  /** Sums and differences of multiples of p are multiples of p. */
  lemma AlignedSum(x: int, y: int, p: int)
    requires p > 0 && x % p == 0 && y % p == 0
    ensures (x + y) % p == 0 && (x - y) % p == 0
  {
    var q, r := x / p, y / p;
    assert x == q * p && y == r * p;
    assert x + y == (q + r) * p && x - y == (q - r) * p;
    DivModUnique(x + y, p, q + r, 0);
    DivModUnique(x - y, p, q - r, 0);
  }

  /** Rounding down to a multiple of p. */
  lemma RoundDown(x: int, p: int)
    requires p > 0
    ensures (x - x % p) % p == 0
    ensures x - x % p <= x < x - x % p + p
    ensures x >= 0 ==> x - x % p >= 0
  {
    DivModUnique(x - x % p, p, x / p, 0);
    MulBounds(x / p, p);
  }

  /** A multiple of 2^j is a multiple of every smaller power of two. */
  lemma {:induction false} AlignedDown(x: int, k: nat, j: nat)
    requires k <= j && x % Pow2(j) == 0
    ensures x % Pow2(k) == 0
  {
    if k < j {
      var q := x / Pow2(j);
      assert x == (2 * q) * Pow2(j - 1);
      DivModUnique(x, Pow2(j - 1), 2 * q, 0);
      AlignedDown(x, k, j - 1);
    }
  }

  lemma SpaceAligned(k: nat)
    requires k <= 32
    ensures SPACE % Pow2(k) == 0
  {
    Pow2Of32();
    DivModUnique(SPACE, SPACE, 1, 0);
    AlignedDown(SPACE, k, 32);
  }
}
