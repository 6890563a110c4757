/**
 * The algebra of aligned IPv4 blocks: what a list of CIDRs means (a set of addresses), and the
 * one list of blocks that represents a given set of addresses best.
 */
module Blocks {
  import opened Powers

  /** A parsed CIDR: the network address and the prefix length. */
  datatype ParsedCidr = ParsedCidr(base: int, prefix: int) {
    function Size(): (n: nat)
      requires 0 <= prefix <= 32
      ensures n >= 1
    {
      Pow2(32 - prefix)
    }

    predicate Valid() {
      && 0 <= prefix <= 32
      && 0 <= base
      && base % Size() == 0
      && base + Size() <= SPACE
    }

    predicate Has(a: int)
      requires 0 <= prefix <= 32
    {
      base <= a < base + Size()
    }
  }

  /** A block: host bits clear and wholly inside the address space. */
  type Cidr = c: ParsedCidr | c.Valid() witness ParsedCidr(0, 32)

  predicate Contains(c: Cidr, d: Cidr) {
    c.base <= d.base && d.base + d.Size() <= c.base + c.Size()
  }

  predicate Disjoint(c: Cidr, d: Cidr) {
    c.base + c.Size() <= d.base || d.base + d.Size() <= c.base
  }

  /** The addresses covered by a list of blocks. */
  ghost function Covered(bs: seq<Cidr>): iset<int> {
    iset a | SomeHas(bs, a)
  }

  ghost predicate SomeHas(bs: seq<Cidr>, a: int) {
    exists i :: 0 <= i < |bs| && bs[i].Has(a)
  }

  ghost function Span(first: int, last: int): iset<int> {
    iset a | Between(first, a, last)
  }

  predicate Between(first: int, a: int, last: int) {
    first <= a <= last
  }

  ghost predicate Inside(c: Cidr, s: iset<int>) {
    forall a :: c.Has(a) ==> a in s
  }

  /** No other block inside s contains c. */
  ghost predicate NothingLarger(c: Cidr, s: iset<int>) {
    forall d: Cidr :: Inside(d, s) && Contains(d, c) ==> d == c
  }

  /** c is inside s and no other block inside s contains it. */
  ghost predicate Maximal(c: Cidr, s: iset<int>) {
    Inside(c, s) && NothingLarger(c, s)
  }

  /** bs lists, in address order, blocks that are maximal in s and between them cover s. */
  ghost predicate Canonical(bs: seq<Cidr>, s: iset<int>) {
    && (forall i :: 0 <= i < |bs| ==> Maximal(bs[i], s))
    && (forall i, j :: 0 <= i < j < |bs| ==> bs[i].base < bs[j].base)
    && s <= Covered(bs)
  }

  /** A block is inside a range exactly when both its ends are. */
  lemma InsideSpan(d: Cidr, first: int, last: int)
    ensures Inside(d, Span(first, last)) <==> first <= d.base && d.base + d.Size() - 1 <= last
  {
    assert d.Has(d.base) && d.Has(d.base + d.Size() - 1);
    if Inside(d, Span(first, last)) {
      assert d.base in Span(first, last) && d.base + d.Size() - 1 in Span(first, last);
    }
  }

  // ---------------------------------------------------------------- block arithmetic

  /** The laminar law: of two blocks, the longer prefix is nested in the other or disjoint from it. */
  lemma Laminar(c: Cidr, d: Cidr)
    requires c.prefix <= d.prefix
    ensures Contains(c, d) || Disjoint(c, d)
  {
    AlignedDown(c.base, 32 - d.prefix, 32 - c.prefix);
    AlignedSelf(c);
    AlignedDown(c.Size(), 32 - d.prefix, 32 - c.prefix);
    AlignedSum(c.base, c.Size(), d.Size());
    if d.base < c.base {
      AlignedGap(d.base, c.base, d.Size());
    } else if d.base < c.base + c.Size() {
      AlignedGap(d.base, c.base + c.Size(), d.Size());
    }
  }

  lemma AlignedSelf(c: Cidr)
    ensures c.Size() % c.Size() == 0
  {
    DivModUnique(c.Size(), c.Size(), 1, 0);
  }

  /** A containing block has the shorter prefix, and an equal prefix makes it the same block. */
  lemma ContainsPrefix(c: Cidr, d: Cidr)
    requires Contains(c, d)
    ensures c.prefix <= d.prefix
    ensures c.prefix == d.prefix ==> c == d
  {
    if d.prefix < c.prefix {
      Pow2Monotone(32 - c.prefix, 32 - d.prefix);
    }
  }

  /** Two blocks of one size that share an address are the same block. */
  lemma AlignedUnique(c: Cidr, d: Cidr, a: int)
    requires c.prefix == d.prefix && c.Has(a) && d.Has(a)
    ensures c == d
  {
    Laminar(c, d);
  }

  /** Two blocks that share an address and are both maximal in s are the same block. */
  lemma MaximalUnique(c: Cidr, d: Cidr, s: iset<int>, a: int)
    requires Maximal(c, s) && Maximal(d, s) && c.Has(a) && d.Has(a)
    ensures c == d
  {
    if c.prefix <= d.prefix { Laminar(c, d); } else { Laminar(d, c); }
  }

  // ---------------------------------------------------------------- uniqueness

  /** A canonical list holds exactly the maximal blocks. */
  lemma CanonicalHolds(bs: seq<Cidr>, s: iset<int>, c: Cidr)
    requires Canonical(bs, s)
    ensures c in bs <==> Maximal(c, s)
  {
    if Maximal(c, s) {
      assert c.Has(c.base);
      assert c.base in Covered(bs);
      var i :| 0 <= i < |bs| && bs[i].Has(c.base);
      MaximalUnique(bs[i], c, s, c.base);
    }
  }

  /** There is at most one canonical list for a set of addresses. */
  lemma CanonicalUnique(bs: seq<Cidr>, cs: seq<Cidr>, s: iset<int>)
    requires Canonical(bs, s) && Canonical(cs, s)
    ensures bs == cs
  {
    forall c: Cidr
      ensures c in bs <==> c in cs
    {
      CanonicalHolds(bs, s, c);
      CanonicalHolds(cs, s, c);
    }
    SortedUnique(bs, cs);
  }

  lemma {:induction false} SortedUnique(bs: seq<Cidr>, cs: seq<Cidr>)
    requires forall i, j :: 0 <= i < j < |bs| ==> bs[i].base < bs[j].base
    requires forall i, j :: 0 <= i < j < |cs| ==> cs[i].base < cs[j].base
    requires forall c: Cidr :: c in bs <==> c in cs
    ensures bs == cs
  {
    assert |bs| > 0 ==> bs[0] in cs;
    assert |cs| > 0 ==> cs[0] in bs;
    if |bs| > 0 {
      assert bs[0] == cs[0];
      forall c: Cidr
        ensures c in bs[1..] <==> c in cs[1..]
      {
        assert c in bs <==> c == bs[0] || c in bs[1..];
        assert c in cs <==> c == cs[0] || c in cs[1..];
        assert bs[0] !in bs[1..];
        assert cs[0] !in cs[1..];
      }
      SortedUnique(bs[1..], cs[1..]);
    }
  }

  /** A canonical list covers exactly its set. */
  lemma CanonicalExact(bs: seq<Cidr>, s: iset<int>)
    requires Canonical(bs, s)
    ensures Covered(bs) == s
  {
    forall a | a in Covered(bs)
      ensures a in s
    {
      var i :| 0 <= i < |bs| && bs[i].Has(a);
      assert Maximal(bs[i], s);
    }
  }

  // ---------------------------------------------------------------- minimality

  /** Every maximal block contains a block of any list that covers the same addresses. */
  lemma MaximalContainsOne(c: Cidr, cs: seq<Cidr>) returns (k: nat)
    requires Maximal(c, Covered(cs))
    ensures k < |cs| && Contains(c, cs[k])
  {
    assert c.Has(c.base);
    var i :| 0 <= i < |cs| && cs[i].Has(c.base);
    k := i;
    assert Inside(cs[k], Covered(cs));
    if c.prefix <= cs[k].prefix {
      Laminar(c, cs[k]);
    } else {
      Laminar(cs[k], c);
    }
  }

  /** No list of blocks covering the same addresses is shorter than the canonical one. */
  lemma CanonicalMinimal(bs: seq<Cidr>, cs: seq<Cidr>)
    requires Canonical(bs, Covered(cs))
    ensures |bs| <= |cs|
  {
    var picks: seq<nat> := [];
    while |picks| < |bs|
      invariant |picks| <= |bs|
      invariant forall i :: 0 <= i < |picks| ==> picks[i] < |cs| && Contains(bs[i], cs[picks[i]])
    {
      var k := MaximalContainsOne(bs[|picks|], cs);
      picks := picks + [k];
    }
    forall i, j | 0 <= i < j < |picks|
      ensures picks[i] != picks[j]
    {
      if picks[i] == picks[j] {
        var d := cs[picks[i]];
        assert bs[i].Has(d.base) && bs[j].Has(d.base);
        MaximalUnique(bs[i], bs[j], Covered(cs), d.base);
      }
    }
    DistinctBelow(picks, |cs|);
  }

  /** Distinct naturals below n: at most n of them. */
  lemma {:induction false} DistinctBelow(xs: seq<nat>, n: nat)
    requires forall i :: 0 <= i < |xs| ==> xs[i] < n
    requires forall i, j :: 0 <= i < j < |xs| ==> xs[i] != xs[j]
    ensures |xs| <= n
  {
    if |xs| > 0 {
      assert 0 <= xs[0] < n;
      if n - 1 in xs {
        var k :| 0 <= k < |xs| && xs[k] == n - 1;
        var rest := xs[..k] + xs[k + 1..];
        DistinctBelow(rest, n - 1);
      } else {
        DistinctBelow(xs, n - 1);
      }
    }
  }

  // ---------------------------------------------------------------- the reference list

  function Left(c: Cidr): (l: Cidr)
    requires c.prefix < 32
    ensures Contains(c, l)
  {
    HalvesValid(c);
    ParsedCidr(c.base, c.prefix + 1)
  }

  function Right(c: Cidr): (r: Cidr)
    requires c.prefix < 32
    ensures Contains(c, r)
  {
    HalvesValid(c);
    ParsedCidr(c.base + Pow2(31 - c.prefix), c.prefix + 1)
  }

  lemma HalvesValid(c: Cidr)
    requires c.prefix < 32
    ensures ParsedCidr(c.base, c.prefix + 1).Valid()
    ensures ParsedCidr(c.base + Pow2(31 - c.prefix), c.prefix + 1).Valid()
    ensures c.Size() == 2 * Pow2(31 - c.prefix)
  {
    var half := Pow2(31 - c.prefix);
    AlignedDown(c.base, 31 - c.prefix, 32 - c.prefix);
    DivModUnique(half, half, 1, 0);
    AlignedSum(c.base, half, half);
  }

  /**
   * The canonical list by definition: walk the binary tree of blocks from c downwards and keep
   * each block that lies wholly in s, without descending into it.
   */
  ghost function Decompose(c: Cidr, s: iset<int>): seq<Cidr>
    decreases 32 - c.prefix
  {
    if Inside(c, s) then [c]
    else if c.prefix == 32 then []
    else Decompose(Left(c), s) + Decompose(Right(c), s)
  }

  ghost function Canon(s: iset<int>): seq<Cidr> {
    Pow2Of32();
    Decompose(ParsedCidr(0, 0), s)
  }

  /** bs decomposes the part of s in c: blocks of c maximal in s, in order, covering that part. */
  ghost predicate Decomposes(bs: seq<Cidr>, c: Cidr, s: iset<int>) {
    && (forall i :: 0 <= i < |bs| ==> Maximal(bs[i], s) && Contains(c, bs[i]))
    && (forall i, j :: 0 <= i < j < |bs| ==> bs[i].base < bs[j].base)
    && (forall a :: a in s && c.Has(a) ==> a in Covered(bs))
  }

  lemma {:induction false} DecomposeCanonical(c: Cidr, s: iset<int>)
    requires NothingLarger(c, s)
    ensures Decomposes(Decompose(c, s), c, s)
    decreases 32 - c.prefix
  {
    if Inside(c, s) {
      assert forall a :: c.Has(a) ==> [c][0].Has(a);
    } else if c.prefix < 32 {
      HalfMaximal(c, Left(c), s);
      HalfMaximal(c, Right(c), s);
      DecomposeCanonical(Left(c), s);
      DecomposeCanonical(Right(c), s);
      JoinHalves(Decompose(Left(c), s), Decompose(Right(c), s), c, s);
    } else {
      assert c.Has(c.base) && c.Size() == 1;
    }
  }

  /** When c itself is not inside s, nothing larger than a half of c is inside s either. */
  lemma HalfMaximal(c: Cidr, half: Cidr, s: iset<int>)
    requires c.prefix < 32 && (half == Left(c) || half == Right(c))
    requires !Inside(c, s)
    ensures NothingLarger(half, s)
  {
    forall d: Cidr | Inside(d, s) && Contains(d, half)
      ensures d == half
    {
      ContainsPrefix(d, half);
      assert c.Has(half.base) && d.Has(half.base);
      if d.prefix <= c.prefix {
        Laminar(d, c);
      }
    }
  }

  lemma JoinHalves(ls: seq<Cidr>, rs: seq<Cidr>, c: Cidr, s: iset<int>)
    requires c.prefix < 32
    requires Decomposes(ls, Left(c), s) && Decomposes(rs, Right(c), s)
    ensures Decomposes(ls + rs, c, s)
  {
    HalvesValid(c);
    CoveredConcat(ls, rs);
    forall a | a in s && c.Has(a)
      ensures a in Covered(ls + rs)
    {
      assert Left(c).Has(a) || Right(c).Has(a);
    }
    forall i | 0 <= i < |ls|
      ensures ls[i].base < c.base + Pow2(31 - c.prefix)
    {
      assert Contains(Left(c), ls[i]);
    }
    forall i | 0 <= i < |rs|
      ensures c.base + Pow2(31 - c.prefix) <= rs[i].base
    {
      assert Contains(Right(c), rs[i]);
    }
  }

  lemma CoveredConcat(bs: seq<Cidr>, cs: seq<Cidr>)
    ensures Covered(bs + cs) == Covered(bs) + Covered(cs)
  {
    forall a
      ensures a in Covered(bs + cs) <==> a in Covered(bs) || a in Covered(cs)
    {
      if a in Covered(bs) {
        var i :| 0 <= i < |bs| && bs[i].Has(a);
        assert (bs + cs)[i].Has(a);
      }
      if a in Covered(cs) {
        var i :| 0 <= i < |cs| && cs[i].Has(a);
        assert (bs + cs)[|bs| + i].Has(a);
      }
    }
  }

  /** Every set of addresses has exactly one canonical list, and it is the reference list. */
  lemma CanonIsCanonical(s: iset<int>)
    requires s <= Span(0, SPACE - 1)
    ensures Canonical(Canon(s), s)
    ensures forall bs: seq<Cidr> :: Canonical(bs, s) <==> bs == Canon(s)
  {
    Pow2Of32();
    var root: Cidr := ParsedCidr(0, 0);
    forall d: Cidr | Contains(d, root)
      ensures d == root
    {
      ContainsPrefix(d, root);
    }
    assert NothingLarger(root, s);
    DecomposeCanonical(root, s);
    forall bs: seq<Cidr> | Canonical(bs, s)
      ensures bs == Canon(s)
    {
      CanonicalUnique(bs, Canon(s), s);
    }
  }
}
