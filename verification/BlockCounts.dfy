/** How many blocks a canonical list can have: for a range, and for a block with one host removed. */
module BlockCounts {
  import opened Powers
  import opened Blocks

  /** The block one bit shorter that contains c. */
  function Parent(c: Cidr): (p: Cidr)
    requires c.prefix > 0
    ensures Contains(p, c) && p.prefix == c.prefix - 1
    ensures p.base == c.base || p.base == c.base - c.Size()
    ensures p.Size() == 2 * c.Size()
  {
    ParentValid(c);
    if c.base % (2 * c.Size()) == 0
    then ParsedCidr(c.base, c.prefix - 1)
    else ParsedCidr(c.base - c.Size(), c.prefix - 1)
  }

  lemma ParentValid(c: Cidr)
    requires c.prefix > 0
    ensures var base := if c.base % (2 * c.Size()) == 0 then c.base else c.base - c.Size();
            ParsedCidr(base, c.prefix - 1).Valid()
  {
    var size := c.Size();
    HalfMultiple(c.base, size);
    var base := if c.base % (2 * size) == 0 then c.base else c.base - size;
    SpaceAligned(33 - c.prefix);
    AlignedGap(base, SPACE, Pow2(33 - c.prefix));
  }

  lemma HalfMultiple(x: int, p: int)
    requires p > 0 && x >= 0 && x % p == 0
    ensures x % (2 * p) == 0 || (x >= p && (x - p) % (2 * p) == 0)
  {
    var h := x / p / 2;
    if x / p % 2 == 0 {
      EvenMultiple(x, h, p);
    } else {
      assert x - p == (x / p - 1) * p;
      EvenMultiple(x - p, h, p);
      MulBounds(x / p, p);
    }
  }

  lemma EvenMultiple(x: int, h: int, p: int)
    requires p > 0 && x == (2 * h) * p
    ensures x % (2 * p) == 0
  {
    assert x == h * (2 * p);
    DivModUnique(x, 2 * p, h, 0);
  }

  /** A block with room of its own size on both sides in the range is not maximal there. */
  lemma CrowdedNotMaximal(c: Cidr, first: int, last: int)
    requires c.prefix > 0 && Maximal(c, Span(first, last))
    ensures first > c.base - c.Size() || c.base + 2 * c.Size() - 1 > last
  {
    if first <= c.base - c.Size() && c.base + 2 * c.Size() - 1 <= last {
      InsideSpan(Parent(c), first, last);
    }
  }

  // ---------------------------------------------------------------- a range

  /** bs[i] repeats the prefix of an earlier block. */
  predicate Repeats(bs: seq<Cidr>, i: nat)
    requires i < |bs|
  {
    exists j :: 0 <= j < i && bs[j].prefix == bs[i].prefix
  }

  /** Blocks in order inside a range keep their distance. */
  lemma Distances(bs: seq<Cidr>, first: int, last: int, i: nat, j: nat)
    requires Canonical(bs, Span(first, last)) && i < j < |bs|
    ensures first <= bs[i].base && bs[i].base + bs[i].Size() <= bs[j].base && bs[j].base + bs[j].Size() - 1 <= last
  {
    assert Maximal(bs[i], Span(first, last)) && Maximal(bs[j], Span(first, last));
    InsideSpan(bs[i], first, last);
    InsideSpan(bs[j], first, last);
    if bs[i].base + bs[i].Size() > bs[j].base {
      assert bs[i].Has(bs[j].base) && bs[j].Has(bs[j].base);
      MaximalUnique(bs[i], bs[j], Span(first, last), bs[j].base);
    }
  }

  /** At most two blocks of each size. */
  lemma NoThreeAlike(bs: seq<Cidr>, first: int, last: int, i: nat, j: nat, k: nat)
    requires Canonical(bs, Span(first, last)) && i < j < k < |bs|
    ensures !(bs[i].prefix == bs[j].prefix == bs[k].prefix)
  {
    if bs[i].prefix == bs[j].prefix == bs[k].prefix {
      Distances(bs, first, last, i, j);
      Distances(bs, first, last, j, k);
      assert Maximal(bs[j], Span(first, last));
      if bs[j].prefix > 0 {
        CrowdedNotMaximal(bs[j], first, last);
      } else {
        SmallerThanBig(bs[j]);
      }
    }
  }

  /** Next to a block of half the space or more, no size occurs twice. */
  lemma NoTwoAlikeBesideBig(bs: seq<Cidr>, first: int, last: int, m: nat, i: nat, j: nat)
    requires Canonical(bs, Span(first, last)) && m < |bs| && i < j < |bs|
    requires bs[m].prefix <= 1
    ensures bs[i].prefix != bs[j].prefix
  {
    if bs[i].prefix == bs[j].prefix {
      BigBlock(bs[m]);
      Distances(bs, first, last, i, j);
      assert Maximal(bs[i], Span(first, last)) && Maximal(bs[j], Span(first, last));
      if m < i {
        Distances(bs, first, last, m, i);
        SmallerThanBig(bs[i]);
        CrowdedNotMaximal(bs[i], first, last);
      } else if j < m {
        Distances(bs, first, last, j, m);
        SmallerThanBig(bs[j]);
        CrowdedNotMaximal(bs[j], first, last);
      } else if m == i {
        BigBlock(bs[j]);
        InsideSpan(Parent(bs[i]), first, last);
      } else if m == j {
        BigBlock(bs[i]);
        InsideSpan(Parent(bs[j]), first, last);
      } else {
        Distances(bs, first, last, i, m);
        Distances(bs, first, last, m, j);
      }
    }
  }

  lemma BigBlock(c: Cidr)
    requires c.prefix <= 1
    ensures c.Size() >= 0x8000_0000
    ensures c.base == 0 || (c.base == 0x8000_0000 && c.prefix == 1)
    ensures c.prefix == 1 ==> c.Size() == 0x8000_0000
  {
    Pow2Of32();
    assert Pow2(32) == 2 * Pow2(31);
    AlignedDown(c.base, 31, 32 - c.prefix);
  }

  lemma SmallerThanBig(c: Cidr)
    ensures c.prefix >= 1 ==> c.Size() <= 0x8000_0000
    ensures c.prefix == 0 ==> c.Size() == SPACE
  {
    Pow2Of32();
    assert Pow2(32) == 2 * Pow2(31);
    if c.prefix > 1 {
      Pow2Monotone(32 - c.prefix, 31);
    }
  }

  /** A range is never split into more than 62 blocks. */
  lemma RangeBlockBound(bs: seq<Cidr>, first: int, last: int)
    requires Canonical(bs, Span(first, last))
    ensures |bs| <= 62
  {
    if m: nat :| m < |bs| && bs[m].prefix <= 1 {
      var ranks := seq(|bs|, i requires 0 <= i < |bs| => bs[i].prefix as nat);
      forall i, j | 0 <= i < j < |bs|
        ensures ranks[i] != ranks[j]
      {
        NoTwoAlikeBesideBig(bs, first, last, m, i, j);
      }
      DistinctBelow(ranks, 33);
    } else {
      var ranks := seq(|bs|, i requires 0 <= i < |bs| => Rank(bs, i));
      forall i, j | 0 <= i < j < |bs|
        ensures ranks[i] != ranks[j]
      {
        RanksDiffer(bs, first, last, i, j);
      }
      DistinctBelow(ranks, 62);
    }
  }

  /** Two slots for each prefix from 2 to 32: one for its first block, one for its second. */
  ghost function Rank(bs: seq<Cidr>, i: nat): (r: nat)
    requires i < |bs| && bs[i].prefix >= 2
    ensures r < 62
  {
    2 * (bs[i].prefix - 2) + if Repeats(bs, i) then 1 else 0
  }

  lemma RanksDiffer(bs: seq<Cidr>, first: int, last: int, i: nat, j: nat)
    requires Canonical(bs, Span(first, last)) && i < j < |bs|
    requires bs[i].prefix >= 2 && bs[j].prefix >= 2
    ensures Rank(bs, i) != Rank(bs, j)
  {
    if bs[i].prefix == bs[j].prefix && Repeats(bs, i) {
      var h :| 0 <= h < i && bs[h].prefix == bs[i].prefix;
      NoThreeAlike(bs, first, last, h, i, j);
    }
  }

  // ---------------------------------------------------------------- a block without one host

  /** The addresses of c other than target. */
  ghost function Carved(c: Cidr, target: int): iset<int> {
    Span(c.base, c.base + c.Size() - 1) - iset{target}
  }

  /** The blocks left by the carve-out are the siblings on the way down to the host. */
  lemma CarvedSibling(c: Cidr, target: int, b: Cidr)
    requires c.Has(target) && Maximal(b, Carved(c, target))
    ensures c.prefix < b.prefix && Parent(b).Has(target) && !b.Has(target)
  {
    assert b.Has(b.base) && b.Has(b.base + b.Size() - 1);
    assert b.base in Carved(c, target) && b.base + b.Size() - 1 in Carved(c, target);
    assert Contains(c, b);
    ContainsPrefix(c, b);
    assert target !in Carved(c, target);
    var p := Parent(b);
    Laminar(c, p);
    assert Inside(p, Carved(c, target)) || p.Has(target);
  }

  /** Each size smaller than c occurs at most once. */
  lemma CarvedDistinct(c: Cidr, target: int, a: Cidr, b: Cidr)
    requires c.Has(target) && a.prefix == b.prefix
    requires Maximal(a, Carved(c, target)) && Maximal(b, Carved(c, target))
    ensures a == b
  {
    CarvedSibling(c, target, a);
    CarvedSibling(c, target, b);
    AlignedUnique(Parent(a), Parent(b), target);
  }

  /** Each size smaller than c occurs: the half without the host of the block that has it. */
  lemma CarvedOccurs(c: Cidr, target: int, anc: Cidr) returns (b: Cidr)
    requires c.Has(target) && anc.Has(target) && c.prefix <= anc.prefix < 32
    ensures b.prefix == anc.prefix + 1 && Maximal(b, Carved(c, target))
  {
    Laminar(c, anc);
    HalvesValid(anc);
    b := if Left(anc).Has(target) then Right(anc) else Left(anc);
    assert Inside(b, Carved(c, target));
    forall d: Cidr | Inside(d, Carved(c, target)) && Contains(d, b)
      ensures d == b
    {
      ContainsPrefix(d, b);
      assert d.Has(b.base) && anc.Has(b.base);
      assert target !in Carved(c, target);
      assert !d.Has(target);
      if d.prefix <= anc.prefix {
        Laminar(d, anc);
      }
    }
  }

  /** Carving one host out of a /p leaves exactly 32 - p blocks. */
  lemma CarvedCount(bs: seq<Cidr>, c: Cidr, target: int)
    requires c.Has(target) && Canonical(bs, Carved(c, target))
    ensures |bs| == 32 - c.prefix
  {
    CarvedAtMost(bs, c, target);
    CarvedAtLeast(bs, c, target);
  }

  lemma CarvedAtMost(bs: seq<Cidr>, c: Cidr, target: int)
    requires c.Has(target) && Canonical(bs, Carved(c, target))
    ensures |bs| <= 32 - c.prefix
  {
    forall i | 0 <= i < |bs|
      ensures c.prefix < bs[i].prefix
    {
      CarvedSibling(c, target, bs[i]);
    }
    var ranks := seq(|bs|, i requires 0 <= i < |bs| => (bs[i].prefix - c.prefix - 1) as nat);
    forall i, j | 0 <= i < j < |bs|
      ensures ranks[i] != ranks[j]
    {
      if ranks[i] == ranks[j] {
        CarvedDistinct(c, target, bs[i], bs[j]);
      }
    }
    DistinctBelow(ranks, 32 - c.prefix);
  }

  lemma CarvedAtLeast(bs: seq<Cidr>, c: Cidr, target: int)
    requires c.Has(target) && Canonical(bs, Carved(c, target))
    ensures |bs| >= 32 - c.prefix
  {
    var picks: seq<nat> := [];
    var anc: Cidr := c;
    while anc.prefix < 32
      invariant anc.Has(target) && c.prefix <= anc.prefix && |picks| == anc.prefix - c.prefix
      invariant forall n :: 0 <= n < |picks| ==> picks[n] < |bs| && bs[picks[n]].prefix == c.prefix + 1 + n
      decreases 32 - anc.prefix
    {
      var b := CarvedOccurs(c, target, anc);
      CanonicalHolds(bs, Carved(c, target), b);
      var k :| 0 <= k < |bs| && bs[k] == b;
      picks := picks + [k];
      HalvesValid(anc);
      anc := if Left(anc).Has(target) then Left(anc) else Right(anc);
    }
    forall i, j | 0 <= i < j < |picks|
      ensures picks[i] != picks[j]
    {
      assert bs[picks[i]].prefix < bs[picks[j]].prefix;
    }
    DistinctBelow(picks, |bs|);
  }
}
