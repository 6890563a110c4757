/**
 * The list half of apps/api/src/common/cidr.util.ts: merging ranges, splitting ranges into blocks,
 * aggregation, sanitising and carving a host out. The methods are the source's loops; each is
 * proved against the reference list Blocks.Canon of the set of addresses involved.
 */
module CidrUtil {
  import opened Results
  import opened Powers
  import opened Blocks
  import BlockCounts
  import ReservedRanges
  import opened CidrText

  // ---------------------------------------------------------------- ranges

  datatype Range = Range(first: int, last: int)

  predicate ValidRange(r: Range) {
    0 <= r.first <= r.last < SPACE
  }

  function CidrToRange(c: Cidr): (r: Range)
    ensures ValidRange(r)
    ensures forall a :: c.Has(a) <==> Between(r.first, a, r.last)
  {
    Range(c.base, c.base + c.Size() - 1)
  }

  ghost function RangesCover(rs: seq<Range>): iset<int> {
    iset a | SomeRangeHas(rs, a)
  }

  ghost predicate SomeRangeHas(rs: seq<Range>, a: int) {
    exists i :: 0 <= i < |rs| && rs[i].first <= a <= rs[i].last
  }

  /** Ranges in address order with at least one address free between neighbours. */
  predicate Separated(rs: seq<Range>) {
    && (forall i :: 0 <= i < |rs| ==> ValidRange(rs[i]))
    && (forall i, j :: 0 <= i < j < |rs| ==> rs[i].last + 1 < rs[j].first)
  }

  lemma RangesCoverConcat(rs: seq<Range>, qs: seq<Range>)
    ensures RangesCover(rs + qs) == RangesCover(rs) + RangesCover(qs)
  {
    forall a
      ensures a in RangesCover(rs + qs) <==> a in RangesCover(rs) || a in RangesCover(qs)
    {
      if a in RangesCover(rs) {
        var i :| 0 <= i < |rs| && rs[i].first <= a <= rs[i].last;
        assert (rs + qs)[i] == rs[i];
      }
      if a in RangesCover(qs) {
        var i :| 0 <= i < |qs| && qs[i].first <= a <= qs[i].last;
        assert (rs + qs)[|rs| + i] == qs[i];
      }
    }
  }

  lemma RangesCoverOne(r: Range)
    ensures RangesCover([r]) == Span(r.first, r.last)
  {
    assert forall a :: Between(r.first, a, r.last) ==> [r][0].first <= a <= [r][0].last;
  }

  lemma RangesCoverSnoc(rs: seq<Range>, r: Range)
    ensures RangesCover(rs + [r]) == RangesCover(rs) + Span(r.first, r.last)
  {
    RangesCoverConcat(rs, [r]);
    RangesCoverOne(r);
  }

  lemma RangesCoverPermuted(rs: seq<Range>, qs: seq<Range>)
    requires multiset(rs) == multiset(qs)
    ensures RangesCover(rs) == RangesCover(qs)
  {
    forall a
      ensures a in RangesCover(rs) <==> a in RangesCover(qs)
    {
      assert forall r :: r in multiset(rs) <==> r in multiset(qs);
      if a in RangesCover(rs) {
        var i :| 0 <= i < |rs| && rs[i].first <= a <= rs[i].last;
        assert rs[i] in multiset(rs);
        assert rs[i] in qs;
      }
      if a in RangesCover(qs) {
        var i :| 0 <= i < |qs| && qs[i].first <= a <= qs[i].last;
        assert qs[i] in multiset(qs);
        assert qs[i] in rs;
      }
    }
  }

  predicate SortedByFirst(rs: seq<Range>) {
    forall i, j :: 0 <= i < j < |rs| ==> rs[i].first <= rs[j].first
  }

  /** Array.prototype.sort with the comparator a[0] - b[0]. */
  function SortByFirst(rs: seq<Range>): (sorted: seq<Range>) {
    if rs == [] then [] else InsertByFirst(SortByFirst(rs[..|rs| - 1]), rs[|rs| - 1])
  }

  function InsertByFirst(rs: seq<Range>, r: Range): (sorted: seq<Range>) {
    if rs == [] || rs[|rs| - 1].first <= r.first then rs + [r]
    else InsertByFirst(rs[..|rs| - 1], r) + [rs[|rs| - 1]]
  }

  /** Sorting orders the ranges and permutes them. */
  lemma {:induction false} SortSorts(rs: seq<Range>)
    ensures multiset(SortByFirst(rs)) == multiset(rs) && SortedByFirst(SortByFirst(rs))
  {
    hide SortedByFirst, InsertByFirst;
    if rs == [] {
      SortedNone();
    } else {
      var n := |rs| - 1;
      SortSorts(rs[..n]);
      InsertSorts(SortByFirst(rs[..n]), rs[n]);
      InsertPermutes(SortByFirst(rs[..n]), rs[n]);
      assert rs == rs[..n] + [rs[n]];
    }
  }

  lemma SortedNone()
    ensures SortedByFirst([])
  {
  }

  lemma {:induction false} InsertPermutes(rs: seq<Range>, r: Range)
    ensures multiset(InsertByFirst(rs, r)) == multiset(rs) + multiset{r}
  {
    if !(rs == [] || rs[|rs| - 1].first <= r.first) {
      var n := |rs| - 1;
      InsertPermutes(rs[..n], r);
      assert rs == rs[..n] + [rs[n]];
    }
  }

  lemma {:induction false} InsertSorts(rs: seq<Range>, r: Range)
    requires SortedByFirst(rs)
    ensures SortedByFirst(InsertByFirst(rs, r)) && |InsertByFirst(rs, r)| == |rs| + 1
    ensures var last := InsertByFirst(rs, r)[|rs|];
            last == if rs == [] || rs[|rs| - 1].first <= r.first then r else rs[|rs| - 1]
  {
    if !(rs == [] || rs[|rs| - 1].first <= r.first) {
      InsertSorts(rs[..|rs| - 1], r);
    }
  }

  /** The ranges of the entries that parse, merged where they overlap or touch. */
  method ToMergedRanges(cidrs: seq<string>) returns (merged: seq<Range>)
    ensures Separated(merged)
    ensures RangesCover(merged) == Coverage(cidrs)
  {
    var ranges: seq<Range> := [];
    for i := 0 to |cidrs|
      invariant forall k :: 0 <= k < |ranges| ==> ValidRange(ranges[k])
      invariant RangesCover(ranges) == Coverage(cidrs[..i])
    {
      assert cidrs[..i + 1][..i] == cidrs[..i];
      var parsed := ParseCidr(cidrs[i]);
      if parsed.Some? {
        CoverageSnoc(ParseAll(cidrs[..i]), parsed.value);
        RangesCoverSnoc(ranges, CidrToRange(parsed.value));
        ranges := ranges + [CidrToRange(parsed.value)];
      }
    }
    assert cidrs[..|cidrs|] == cidrs;
    var sorted := SortByFirst(ranges);
    SortSorts(ranges);
    RangesCoverPermuted(sorted, ranges);
    forall k | 0 <= k < |sorted|
      ensures ValidRange(sorted[k])
    {
      assert sorted[k] in multiset(ranges);
    }
    merged := MergeSorted(sorted);
  }

  lemma CoverageSnoc(bs: seq<Cidr>, c: Cidr)
    ensures Covered(bs + [c]) == Covered(bs) + Span(CidrToRange(c).first, CidrToRange(c).last)
  {
    CoveredConcat(bs, [c]);
    assert forall a :: c.Has(a) ==> [c][0].Has(a);
  }

  /** The second loop of toMergedRanges: extend the last range or open a new one. */
  method MergeSorted(ranges: seq<Range>) returns (merged: seq<Range>)
    requires forall k :: 0 <= k < |ranges| ==> ValidRange(ranges[k])
    requires SortedByFirst(ranges)
    ensures Separated(merged)
    ensures RangesCover(merged) == RangesCover(ranges)
  {
    merged := [];
    for i := 0 to |ranges|
      invariant MergedSoFar(merged, ranges[..i])
    {
      var r := ranges[i];
      var n := |merged|;
      assert ranges[..i + 1] == ranges[..i] + [r];
      if n > 0 && r.first <= merged[n - 1].last + 1 {
        MergeTouching(merged, ranges[..i], r);
        if r.last > merged[n - 1].last {
          merged := merged[n - 1 := Range(merged[n - 1].first, r.last)];
        }
      } else {
        MergeApart(merged, ranges[..i], r);
        merged := merged + [r];
      }
    }
    assert ranges[..|ranges|] == ranges;
  }

  ghost predicate MergedSoFar(merged: seq<Range>, done: seq<Range>) {
    && Separated(merged)
    && RangesCover(merged) == RangesCover(done)
    && (merged != [] ==> done != [] && merged[|merged| - 1].first <= done[|done| - 1].first)
  }

  lemma MergeApart(merged: seq<Range>, done: seq<Range>, r: Range)
    requires MergedSoFar(merged, done) && ValidRange(r)
    requires merged != [] ==> merged[|merged| - 1].last + 1 < r.first
    ensures MergedSoFar(merged + [r], done + [r])
  {
    RangesCoverSnoc(done, r);
    RangesCoverSnoc(merged, r);
  }

  /** The last range after r has been merged into it. */
  function Joined(last: Range, r: Range): (joined: Range) {
    if r.last > last.last then Range(last.first, r.last) else last
  }

  lemma MergeTouching(merged: seq<Range>, done: seq<Range>, r: Range)
    requires MergedSoFar(merged, done) && ValidRange(r) && SortedByFirst(done + [r])
    requires merged != [] && r.first <= merged[|merged| - 1].last + 1
    ensures MergedSoFar(merged[|merged| - 1 := Joined(merged[|merged| - 1], r)], done + [r])
  {
    hide RangesCover;
    var n := |merged| - 1;
    assert (done + [r])[|done| - 1].first <= (done + [r])[|done|].first;
    RangesCoverSnoc(done, r);
    JoinedCover(merged, r);
  }

  lemma JoinedCover(merged: seq<Range>, r: Range)
    requires merged != [] && merged[|merged| - 1].first <= r.first <= merged[|merged| - 1].last + 1
    ensures var n := |merged| - 1;
            RangesCover(merged[n := Joined(merged[n], r)]) == RangesCover(merged) + Span(r.first, r.last)
  {
    var n := |merged| - 1;
    var last := merged[n];
    var joined := Joined(last, r);
    assert merged == merged[..n] + [last] && merged[n := joined] == merged[..n] + [joined];
    RangesCoverSnoc(merged[..n], last);
    RangesCoverSnoc(merged[..n], joined);
    assert Span(last.first, last.last) + Span(r.first, r.last) == Span(joined.first, joined.last);
  }

  // ---------------------------------------------------------------- splitting a range

  /** The number of trailing zero bits of a positive address. */
  method TrailingZeros(n: int) returns (count: nat)
    requires 0 < n < SPACE
    ensures count < 32
    ensures n % Pow2(count) == 0 && n % Pow2(count + 1) != 0
  {
    count := 0;
    var value := n;
    while value % 2 == 0
      invariant value > 0 && n == value * Pow2(count)
      decreases value
    {
      value := value / 2;
      count := count + 1;
    }
    OddMultiple(n, value, count);
    ZerosBelow32(n, count);
  }

  lemma ZerosBelow32(n: int, count: nat)
    requires 0 < n < SPACE && n % Pow2(count) == 0
    ensures count < 32
  {
    if count >= 32 {
      AlignedDown(n, 32, count);
      Pow2Of32();
      DivModUnique(n, SPACE, 0, n);
    }
  }

  lemma OddMultiple(n: int, value: int, count: nat)
    requires n == value * Pow2(count) && value % 2 == 1
    ensures n % Pow2(count) == 0 && n % Pow2(count + 1) != 0
  {
    DivModUnique(n, Pow2(count), value, 0);
    assert n == (value / 2) * Pow2(count + 1) + Pow2(count);
    DivModUnique(n, Pow2(count + 1), value / 2, Pow2(count));
  }

  /** No block inside first..last reaches across the boundary before cur. */
  ghost predicate NoStraddle(first: int, last: int, cur: int) {
    forall d: Cidr :: Inside(d, Span(first, last)) ==> d.base + d.Size() <= cur || cur <= d.base
  }

  /** bs lists in order the maximal blocks of first..last that lie before cur, and cur is a boundary. */
  ghost predicate GreedyPrefix(bs: seq<Cidr>, first: int, last: int, cur: int) {
    && (forall i :: 0 <= i < |bs| ==> Maximal(bs[i], Span(first, last)) && bs[i].base < cur)
    && (forall i, j :: 0 <= i < j < |bs| ==> bs[i].base < bs[j].base)
    && (forall a :: first <= a < cur ==> a in Covered(bs))
    && NoStraddle(first, last, cur)
  }

  /** The largest aligned block at a boundary that fits is a maximal block. */
  lemma GreedyMaximal(c: Cidr, first: int, last: int)
    requires first <= c.base && c.base + c.Size() - 1 <= last
    requires NoStraddle(first, last, c.base)
    requires forall k: nat :: 32 - c.prefix < k <= 32 && c.base % Pow2(k) == 0 ==> c.base + Pow2(k) - 1 > last
    ensures Maximal(c, Span(first, last))
  {
    InsideSpan(c, first, last);
    forall d: Cidr | Inside(d, Span(first, last)) && Contains(d, c)
      ensures d == c
    {
      InsideSpan(d, first, last);
      ContainsPrefix(d, c);
      assert d.base == c.base;
    }
  }

  lemma GreedyStep(bs: seq<Cidr>, c: Cidr, first: int, last: int)
    requires GreedyPrefix(bs, first, last, c.base)
    requires Maximal(c, Span(first, last))
    ensures GreedyPrefix(bs + [c], first, last, c.base + c.Size())
  {
    var s := Span(first, last);
    CoverageSnoc(bs, c);
    forall d: Cidr | Inside(d, s)
      ensures d.base + d.Size() <= c.base + c.Size() || c.base + c.Size() <= d.base
    {
      if c.prefix <= d.prefix { Laminar(c, d); } else { Laminar(d, c); }
    }
  }

  /** The blocks of a range, taken greedily from the left: the canonical list of the range. */
  method RangeToCidrs(first: int, last: int) returns (out: seq<string>)
    requires 0 <= first && last < SPACE
    ensures out == Texts(Canon(Span(first, last)))
  {
    out := [];
    ghost var bs: seq<Cidr> := [];
    var cur := first;
    GreedyStart(first, last);
    while cur <= last
      invariant first <= cur
      invariant out == Texts(bs)
      invariant GreedyPrefix(bs, first, last, cur)
      decreases last - cur
    {
      var size := LargestBlockAt(cur, last);
      GreedyRound(bs, first, last, cur, size);
      var c: Cidr := ParsedCidr(cur, 32 - size);
      TextsSnoc(bs, c);
      out := out + [PrintCidr(c)];
      bs := bs + [c];
      cur := cur + Pow2(size);
      if cur >= SPACE {
        break;
      }
    }
    GreedyDone(bs, first, last, cur);
  }

  lemma GreedyRound(bs: seq<Cidr>, first: int, last: int, cur: int, size: nat)
    requires 0 <= first <= cur <= last < SPACE && GreedyPrefix(bs, first, last, cur)
    requires size <= 32 && cur % Pow2(size) == 0 && cur + Pow2(size) - 1 <= last
    requires forall k: nat :: size < k <= 32 && cur % Pow2(k) == 0 ==> cur + Pow2(k) - 1 > last
    ensures ParsedCidr(cur, 32 - size).Valid()
    ensures GreedyPrefix(bs + [ParsedCidr(cur, 32 - size)], first, last, cur + Pow2(size))
  {
    var c := ParsedCidr(cur, 32 - size);
    GreedyMaximal(c, first, last);
    GreedyStep(bs, c, first, last);
  }

  lemma GreedyStart(first: int, last: int)
    ensures GreedyPrefix([], first, last, first)
  {
    forall d: Cidr | Inside(d, Span(first, last))
      ensures first <= d.base
    {
      InsideSpan(d, first, last);
    }
  }

  lemma GreedyDone(bs: seq<Cidr>, first: int, last: int, cur: int)
    requires 0 <= first && last < SPACE && last < cur
    requires GreedyPrefix(bs, first, last, cur)
    ensures bs == Canon(Span(first, last))
  {
    assert Canonical(bs, Span(first, last));
    CanonIsCanonical(Span(first, last));
  }

  /** The body of the outer loop: alignment bounds the block, then the end of the range does. */
  method LargestBlockAt(cur: int, last: int) returns (size: nat)
    requires 0 <= cur <= last < SPACE
    ensures size <= 32 && cur % Pow2(size) == 0 && cur + Pow2(size) - 1 <= last
    ensures forall k: nat :: size < k <= 32 && cur % Pow2(k) == 0 ==> cur + Pow2(k) - 1 > last
  {
    if cur == 0 {
      size := 32;
    } else {
      size := TrailingZeros(cur);
      forall k: nat | size < k <= 32
        ensures cur % Pow2(k) != 0
      {
        if cur % Pow2(k) == 0 { AlignedDown(cur, size + 1, k); }
      }
    }
    while size > 0 && cur + Pow2(size) - 1 > last
      invariant size <= 32 && cur % Pow2(size) == 0
      invariant forall k: nat :: size < k <= 32 && cur % Pow2(k) == 0 ==> cur + Pow2(k) - 1 > last
    {
      AlignedDown(cur, size - 1, size);
      size := size - 1;
    }
  }

  // ---------------------------------------------------------------- joining ranges

  /** Canonical lists on the two sides of a free address join to a canonical list. */
  lemma CanonicalConcat(bs: seq<Cidr>, s: iset<int>, cs: seq<Cidr>, t: iset<int>, gap: int)
    requires Canonical(bs, s) && Canonical(cs, t)
    requires AllBelow(s, gap) && forall a :: a in t ==> gap < a
    ensures Canonical(bs + cs, s + t)
  {
    CoveredConcat(bs, cs);
    forall d: Cidr | Inside(d, s + t)
      ensures Inside(d, s) || Inside(d, t)
    {
      assert d.Has(d.base);
      assert gap !in s + t;
      assert !d.Has(gap);
    }
    forall i | 0 <= i < |bs|
      ensures Maximal(bs[i], s + t) && bs[i].base < gap
    {
      MaximalInUnion(bs[i], s, t);
    }
    forall i | 0 <= i < |cs|
      ensures Maximal(cs[i], s + t) && gap < cs[i].base
    {
      MaximalInUnion(cs[i], t, s);
      assert s + t == t + s;
    }
  }

  lemma MaximalInUnion(c: Cidr, s: iset<int>, t: iset<int>)
    requires Maximal(c, s) && s !! t
    requires forall d: Cidr :: Inside(d, s + t) ==> Inside(d, s) || Inside(d, t)
    ensures Maximal(c, s + t)
    ensures c.base in s
  {
    assert c.Has(c.base);
    forall d: Cidr | Inside(d, s + t) && Contains(d, c)
      ensures d == c
    {
      assert d.Has(c.base);
    }
  }

  ghost predicate AllBelow(s: iset<int>, bound: int) {
    forall a :: a in s ==> a < bound
  }

  /** Appending the blocks of a range that lies beyond a free address keeps the list canonical. */
  lemma AppendRange(bs: seq<Cidr>, s: iset<int>, gap: int, first: int, last: int)
    requires 0 <= first && last < SPACE && gap < first
    requires Canonical(bs, s) && AllBelow(s, gap)
    ensures Canonical(bs + Canon(Span(first, last)), s + Span(first, last))
    ensures Texts(bs + Canon(Span(first, last))) == Texts(bs) + Texts(Canon(Span(first, last)))
    ensures last < first ==> Canon(Span(first, last)) == []
  {
    var cs := Canon(Span(first, last));
    CanonIsCanonical(Span(first, last));
    CanonicalConcat(bs, s, cs, Span(first, last), gap);
    TextsConcat(bs, cs);
    EmptySpan(first, last);
  }

  lemma RangesBefore(rs: seq<Range>, i: nat)
    requires Separated(rs) && i < |rs|
    ensures rs[..i + 1] == rs[..i] + [rs[i]]
    ensures RangesCover(rs[..i + 1]) == RangesCover(rs[..i]) + Span(rs[i].first, rs[i].last)
    ensures AllBelow(RangesCover(rs[..i]), rs[i].first - 1)
  {
    RangesCoverSnoc(rs[..i], rs[i]);
  }

  // ---------------------------------------------------------------- aggregation and carve-out

  /** What aggregateCidrs returns: the reference list of the addresses covered. */
  ghost function Aggregated(cidrs: seq<string>): seq<string> {
    Texts(Canon(Coverage(cidrs)))
  }

  /** What excludeIpFromCidrs returns; an address that does not parse excludes nothing. */
  ghost function Excluded(cidrs: seq<string>, ip: string): seq<string> {
    Texts(Canon(Without(Coverage(cidrs), IpValue(ip))))
  }

  ghost function Without(s: iset<int>, target: Option<int>): iset<int> {
    match target
    case None => s
    case Some(t) => s - iset{t}
  }

  /** Collapse a list into the fewest blocks that cover the same addresses. */
  method AggregateCidrs(cidrs: seq<string>) returns (out: seq<string>)
    ensures out == Aggregated(cidrs)
  {
    var ranges := ToMergedRanges(cidrs);
    out := FlattenRanges(ranges);
    CoverageInSpace(cidrs);
  }

  /** The blocks of each range in turn. */
  method FlattenRanges(ranges: seq<Range>) returns (out: seq<string>)
    requires Separated(ranges)
    ensures out == Texts(Canon(RangesCover(ranges)))
  {
    out := [];
    ghost var bs: seq<Cidr> := [];
    for i := 0 to |ranges|
      invariant out == Texts(bs)
      invariant Canonical(bs, RangesCover(ranges[..i]))
    {
      var r := ranges[i];
      RangesBefore(ranges, i);
      AppendRange(bs, RangesCover(ranges[..i]), r.first - 1, r.first, r.last);
      var blocks := RangeToCidrs(r.first, r.last);
      out := out + blocks;
      bs := bs + Canon(Span(r.first, r.last));
    }
    assert ranges[..|ranges|] == ranges;
    RangesInSpace(ranges);
    CanonIsCanonical(RangesCover(ranges));
  }

  lemma RangesInSpace(ranges: seq<Range>)
    requires Separated(ranges)
    ensures RangesCover(ranges) <= Span(0, SPACE - 1)
  {
  }

  /** Remove one host from a list, splitting the block around it. */
  method ExcludeIpFromCidrs(cidrs: seq<string>, ip: string) returns (out: seq<string>)
    ensures out == Excluded(cidrs, ip)
  {
    var parsed := IpToInt(ip);
    var ranges := ToMergedRanges(cidrs);
    if parsed.None? {
      out := FlattenRanges(ranges);
      return;
    }
    var target := parsed.value;
    out := [];
    ghost var bs: seq<Cidr> := [];
    for i := 0 to |ranges|
      invariant out == Texts(bs)
      invariant Canonical(bs, RangesCover(ranges[..i]) - iset{target})
    {
      RangesBefore(ranges, i);
      out, bs := PushAround(out, bs, RangesCover(ranges[..i]), ranges[i], target);
    }
    assert ranges[..|ranges|] == ranges;
    RangesInSpace(ranges);
    CanonIsCanonical(RangesCover(ranges) - iset{target});
  }

  /** One round of the loop: push the blocks of r, leaving the host out. */
  method PushAround(done: seq<string>, ghost bs: seq<Cidr>, ghost covered: iset<int>, r: Range, target: int)
    returns (out: seq<string>, ghost cs: seq<Cidr>)
    requires ValidRange(r) && AllBelow(covered, r.first - 1)
    requires done == Texts(bs) && Canonical(bs, covered - iset{target})
    ensures out == Texts(cs) && Canonical(cs, covered + Span(r.first, r.last) - iset{target})
  {
    hide Canonical, Texts, Span;
    ghost var s := covered - iset{target};
    if target < r.first || target > r.last {
      out, cs := PushRange(done, bs, s, r.first - 1, r.first, r.last);
      NothingCarved(covered, r, target);
    } else {
      BeforeTarget(s, r, target);
      out, cs := PushRange(done, bs, s, r.first - 1, r.first, target - 1);
      out, cs := PushRange(out, cs, s + Span(r.first, target - 1), target, target + 1, r.last);
      CarvedRange(covered, r, target);
    }
  }

  /** Push the blocks of first..last, if that range has any address. */
  method PushRange(done: seq<string>, ghost bs: seq<Cidr>, ghost s: iset<int>, ghost gap: int, first: int, last: int)
    returns (out: seq<string>, ghost cs: seq<Cidr>)
    requires done == Texts(bs) && Canonical(bs, s) && AllBelow(s, gap)
    requires 0 <= first && last < SPACE && gap < first
    ensures out == Texts(cs) && Canonical(cs, s + Span(first, last))
  {
    AppendRange(bs, s, gap, first, last);
    out, cs := done, bs + Canon(Span(first, last));
    if first <= last {
      var blocks := RangeToCidrs(first, last);
      out := out + blocks;
    }
  }

  lemma NothingCarved(s: iset<int>, r: Range, target: int)
    requires target < r.first || target > r.last
    ensures s + Span(r.first, r.last) - iset{target} == s - iset{target} + Span(r.first, r.last)
  {
  }

  lemma BeforeTarget(s: iset<int>, r: Range, target: int)
    requires r.first <= target && AllBelow(s, r.first)
    ensures AllBelow(s + Span(r.first, target - 1), target)
  {
  }

  lemma CarvedRange(s: iset<int>, r: Range, target: int)
    requires r.first <= target <= r.last && AllBelow(s, r.first)
    ensures s + Span(r.first, r.last) - iset{target}
         == s - iset{target} + Span(r.first, target - 1) + Span(target + 1, r.last)
  {
  }

  lemma EmptySpan(first: int, last: int)
    ensures last < first ==> Canon(Span(first, last)) == []
  {
    if last < first {
      assert Canonical([], Span(first, last));
      CanonIsCanonical(Span(first, last));
    }
  }

  // ---------------------------------------------------------------- what aggregation achieves

  lemma AggregatedBlocks(s: iset<int>)
    requires s <= Span(0, SPACE - 1)
    ensures ParseAll(Texts(Canon(s))) == Canon(s) && Coverage(Texts(Canon(s))) == s
  {
    ParseTexts(Canon(s));
    CanonIsCanonical(s);
    CanonicalExact(Canon(s), s);
  }

  /** Aggregation neither adds nor loses an address. */
  lemma AggregateExact(cidrs: seq<string>)
    ensures Coverage(Aggregated(cidrs)) == Coverage(cidrs)
  {
    CoverageInSpace(cidrs);
    AggregatedBlocks(Coverage(cidrs));
  }

  /** Two lists aggregate to the same strings exactly when they cover the same addresses. */
  lemma AggregateCanonical(cidrs: seq<string>, others: seq<string>)
    ensures Aggregated(cidrs) == Aggregated(others) <==> Coverage(cidrs) == Coverage(others)
  {
    AggregateExact(cidrs);
    AggregateExact(others);
  }

  /** Aggregating the printed result again changes nothing. */
  lemma AggregateIdempotent(cidrs: seq<string>)
    ensures Aggregated(Aggregated(cidrs)) == Aggregated(cidrs)
  {
    AggregateExact(cidrs);
  }

  /** No list of CIDRs that covers the same addresses is shorter than the aggregate. */
  lemma AggregateMinimal(cidrs: seq<string>, others: seq<string>)
    requires Coverage(others) == Coverage(cidrs)
    ensures |Aggregated(cidrs)| <= |ParseAll(others)| <= |others|
  {
    CoverageInSpace(cidrs);
    CanonIsCanonical(Coverage(cidrs));
    CanonicalMinimal(Canon(Coverage(cidrs)), ParseAll(others));
  }

  /** Carving out a valid address removes that address and nothing else. */
  lemma ExcludeExact(cidrs: seq<string>, ip: string)
    ensures Coverage(Excluded(cidrs, ip)) == Without(Coverage(cidrs), IpValue(ip))
    ensures IpValue(ip).None? ==> Excluded(cidrs, ip) == Aggregated(cidrs)
  {
    CoverageInSpace(cidrs);
    AggregatedBlocks(Without(Coverage(cidrs), IpValue(ip)));
  }

  /** The order in which two hosts are carved out does not show in the result. */
  lemma ExcludeCommutes(cidrs: seq<string>, ip: string, other: string)
    ensures Excluded(Excluded(cidrs, ip), other) == Excluded(Excluded(cidrs, other), ip)
  {
    ExcludeExact(cidrs, ip);
    ExcludeExact(cidrs, other);
    var s, v, w := Coverage(cidrs), IpValue(ip), IpValue(other);
    assert Without(Without(s, v), w) == Without(Without(s, w), v);
  }

  /** The carved list is also the shortest for its addresses. */
  lemma ExcludeMinimal(cidrs: seq<string>, ip: string, others: seq<string>)
    requires Coverage(others) == Without(Coverage(cidrs), IpValue(ip))
    ensures |Excluded(cidrs, ip)| <= |others|
  {
    CoverageInSpace(others);
    CanonIsCanonical(Coverage(others));
    CanonicalMinimal(Canon(Coverage(others)), ParseAll(others));
  }

  /** Splitting a range never yields more than 62 blocks. */
  lemma RangeSizeBound(first: int, last: int)
    requires 0 <= first && last < SPACE
    ensures |Canon(Span(first, last))| <= 62
  {
    CanonIsCanonical(Span(first, last));
    BlockCounts.RangeBlockBound(Canon(Span(first, last)), first, last);
  }

  /** Carving a host out of the single block that contains it yields 32 - p blocks. */
  lemma ExcludeSize(c: Cidr, ip: string)
    requires IpValue(ip).Some? && c.Has(IpValue(ip).value)
    ensures |Excluded([PrintCidr(c)], ip)| == 32 - c.prefix
  {
    var target := IpValue(ip).value;
    assert Texts([c]) == [PrintCidr(c)];
    ParseTexts([c]);
    CoverageSnoc([], c);
    assert Covered([]) == iset{};
    CanonIsCanonical(BlockCounts.Carved(c, target));
    BlockCounts.CarvedCount(Canon(BlockCounts.Carved(c, target)), c, target);
    assert Without(Coverage([PrintCidr(c)]), Some(target)) == BlockCounts.Carved(c, target);
  }

  // ---------------------------------------------------------------- sanitising

  /** The reserved ranges, computed once from their texts. */
  function ReservedRangeList(): (rs: seq<Range>) {
    var bs := ParseAll(ReservedRanges.RESERVED_CIDRS);
    seq(|bs|, i requires 0 <= i < |bs| => CidrToRange(bs[i]))
  }

  predicate OverlapsReserved(range: Range) {
    exists k :: 0 <= k < |ReservedRangeList()| &&
      range.first <= ReservedRangeList()[k].last && ReservedRangeList()[k].first <= range.last
  }

  /** The block of an entry that sanitising keeps. */
  function Accepted(raw: string): (r: Option<Cidr>) {
    match ParseCidr(raw)
    case None => None
    case Some(c) => if c.prefix < 8 || OverlapsReserved(CidrToRange(c)) then None else Some(c)
  }

  function Verdicts(cidrs: seq<string>): (vs: seq<Option<Cidr>>)
    ensures |vs| == |cidrs|
    ensures forall i :: 0 <= i < |cidrs| ==> vs[i] == Accepted(cidrs[i])
  {
    seq(|cidrs|, i requires 0 <= i < |cidrs| => Accepted(cidrs[i]))
  }

  /** The accepted blocks, each at its first occurrence. */
  function Survivors(verdicts: seq<Option<Cidr>>): (bs: seq<Cidr>) {
    if verdicts == [] then []
    else
      var n := |verdicts| - 1;
      var before := Survivors(verdicts[..n]);
      match verdicts[n]
      case None => before
      case Some(c) => if c in before then before else before + [c]
  }

  /** What sanitizeCidrs returns. */
  function Sanitized(cidrs: seq<string>): (out: seq<string>) {
    Texts(Survivors(Verdicts(cidrs)))
  }

  /** Blocks have different texts. */
  lemma PrintInjective(bs: seq<Cidr>, c: Cidr)
    ensures PrintCidr(c) in Texts(bs) <==> c in bs
  {
    CidrRoundTrip(c);
    forall i | 0 <= i < |bs|
      ensures PrintCidr(bs[i]) == PrintCidr(c) <==> bs[i] == c
    {
      CidrRoundTrip(bs[i]);
    }
    if c in bs {
      var i :| 0 <= i < |bs| && bs[i] == c;
      assert Texts(bs)[i] == PrintCidr(c);
    }
  }

  /** Drop malformed, over-broad and reserved entries, and repetitions of a canonical text. */
  method SanitizeCidrs(cidrs: seq<string>) returns (out: seq<string>)
    ensures out == Sanitized(cidrs)
  {
    hide ParseCidr, PrintCidr, Sanitized, OverlapsReserved, CidrToRange;
    out := [];
    var seen: set<string> := {};
    SanitizedNone();
    for i := 0 to |cidrs|
      invariant out == Sanitized(cidrs[..i])
      invariant forall text :: text in seen <==> text in out
    {
      var parsed := ParseCidr(cidrs[i]);
      SanitizedSnoc(cidrs[..i], cidrs[i]);
      assert cidrs[..i + 1] == cidrs[..i] + [cidrs[i]];
      if parsed.None? {
        continue;
      }
      if parsed.value.prefix < 8 {
        continue;
      }
      if OverlapsReserved(CidrToRange(parsed.value)) {
        continue;
      }
      var canonical := PrintCidr(parsed.value);
      if canonical in seen {
        continue;
      }
      seen := seen + {canonical};
      out := out + [canonical];
    }
    assert cidrs[..|cidrs|] == cidrs;
  }

  lemma SanitizedNone()
    ensures Sanitized([]) == []
  {
  }

  lemma SanitizedSnoc(cidrs: seq<string>, raw: string)
    ensures Sanitized(cidrs + [raw]) ==
            match Accepted(raw)
            case None => Sanitized(cidrs)
            case Some(c) => if PrintCidr(c) in Sanitized(cidrs) then Sanitized(cidrs) else Sanitized(cidrs) + [PrintCidr(c)]
  {
    var v := Accepted(raw);
    assert Verdicts(cidrs + [raw]) == Verdicts(cidrs) + [v];
    SurvivorsSnoc(Verdicts(cidrs), v);
    if v.Some? {
      PrintInjective(Survivors(Verdicts(cidrs)), v.value);
      TextsSnoc(Survivors(Verdicts(cidrs)), v.value);
    }
  }

  lemma SurvivorsSnoc(verdicts: seq<Option<Cidr>>, v: Option<Cidr>)
    ensures Survivors(verdicts + [v]) ==
            if v.None? || v.value in Survivors(verdicts) then Survivors(verdicts) else Survivors(verdicts) + [v.value]
  {
    assert (verdicts + [v])[..|verdicts|] == verdicts;
  }

  /** A block survives exactly when some entry is accepted as it, and no block is listed twice. */
  lemma {:induction false} SurvivorsHold(verdicts: seq<Option<Cidr>>)
    ensures forall c: Cidr :: c in Survivors(verdicts) <==> Some(c) in verdicts
    ensures forall i, j :: 0 <= i < j < |Survivors(verdicts)| ==> Survivors(verdicts)[i] != Survivors(verdicts)[j]
  {
    if verdicts != [] {
      var n := |verdicts| - 1;
      SurvivorsHold(verdicts[..n]);
      assert verdicts == verdicts[..n] + [verdicts[n]];
    }
  }

  /** c occurs among the verdicts before any occurrence of d. */
  ghost predicate OccursBefore(verdicts: seq<Option<Cidr>>, c: Cidr, d: Cidr) {
    exists p :: 0 <= p < |verdicts| && verdicts[p] == Some(c) && forall q :: 0 <= q <= p ==> verdicts[q] != Some(d)
  }

  /** Survivors come in the order of their first occurrences. */
  lemma {:induction false} SurvivorsInOrder(verdicts: seq<Option<Cidr>>, i: nat, j: nat)
    requires i < j < |Survivors(verdicts)|
    ensures OccursBefore(verdicts, Survivors(verdicts)[i], Survivors(verdicts)[j])
  {
    var n := |verdicts| - 1;
    var before := Survivors(verdicts[..n]);
    var c, d := Survivors(verdicts)[i], Survivors(verdicts)[j];
    assert verdicts == verdicts[..n] + [verdicts[n]];
    if j < |before| {
      SurvivorsInOrder(verdicts[..n], i, j);
      var p :| 0 <= p < n && verdicts[..n][p] == Some(c) && forall q :: 0 <= q <= p ==> verdicts[..n][q] != Some(d);
      assert verdicts[p] == Some(c) && forall q :: 0 <= q <= p ==> verdicts[q] == verdicts[..n][q];
    } else {
      SurvivorsHold(verdicts[..n]);
      assert c in before && d !in before;
      var p :| 0 <= p < n && verdicts[..n][p] == Some(c);
      assert verdicts[p] == Some(c);
      forall q | 0 <= q <= p
        ensures verdicts[q] != Some(d)
      {
        assert verdicts[..n][q] == verdicts[q];
        assert verdicts[..n][q] in verdicts[..n];
      }
    }
  }

  /** No address of the block is reserved. */
  ghost predicate Clear(c: Cidr) {
    forall a :: c.Has(a) ==> a !in Coverage(ReservedRanges.RESERVED_CIDRS)
  }

  /** The entry is a block no broader than a /8, with no reserved address, that has a. */
  ghost predicate Contributes(raw: string, a: int) {
    && ParseCidr(raw).Some?
    && ParseCidr(raw).value.prefix >= 8
    && Clear(ParseCidr(raw).value)
    && ParseCidr(raw).value.Has(a)
  }

  /** The addresses of the entries that are well-formed, narrow enough and clear of reserved ones. */
  ghost function AcceptedAddresses(cidrs: seq<string>): iset<int> {
    iset a | SomeContributes(cidrs, a)
  }

  ghost predicate SomeContributes(cidrs: seq<string>, a: int) {
    exists i :: 0 <= i < |cidrs| && Contributes(cidrs[i], a)
  }

  ghost predicate SomeAcceptedHas(verdicts: seq<Option<Cidr>>, a: int) {
    exists c: Cidr :: Some(c) in verdicts && c.Has(a)
  }

  /** Comparing the ends of ranges finds an overlap exactly when an address is shared. */
  lemma OverlapMeans(c: Cidr)
    ensures OverlapsReserved(CidrToRange(c)) <==> !Clear(c)
  {
    hide ParseCidr, ReservedRanges.RESERVED_CIDRS, ParseAll;
    var bs := ParseAll(ReservedRanges.RESERVED_CIDRS);
    var range := CidrToRange(c);
    if OverlapsReserved(range) {
      var k :| 0 <= k < |ReservedRangeList()| &&
        range.first <= ReservedRangeList()[k].last && ReservedRangeList()[k].first <= range.last;
      assert ReservedRangeList()[k] == CidrToRange(bs[k]);
      var a := if c.base < bs[k].base then bs[k].base else c.base;
      assert c.Has(a) && bs[k].Has(a);
    }
    if !Clear(c) {
      var a :| c.Has(a) && a in Coverage(ReservedRanges.RESERVED_CIDRS);
      var k :| 0 <= k < |bs| && bs[k].Has(a);
      assert ReservedRangeList()[k] == CidrToRange(bs[k]);
    }
  }

  lemma AcceptedContributes(raw: string, a: int)
    ensures Contributes(raw, a) <==> Accepted(raw).Some? && Accepted(raw).value.Has(a)
  {
    hide ParseCidr, OverlapsReserved, Clear;
    if ParseCidr(raw).Some? {
      OverlapMeans(ParseCidr(raw).value);
    }
  }

  lemma VerdictsContribute(cidrs: seq<string>, a: int)
    ensures SomeContributes(cidrs, a) <==> SomeAcceptedHas(Verdicts(cidrs), a)
  {
    hide Contributes, Accepted;
    if SomeContributes(cidrs, a) {
      var i :| 0 <= i < |cidrs| && Contributes(cidrs[i], a);
      AcceptedContributes(cidrs[i], a);
      assert Verdicts(cidrs)[i] == Accepted(cidrs[i]);
    }
    if SomeAcceptedHas(Verdicts(cidrs), a) {
      var c: Cidr :| Some(c) in Verdicts(cidrs) && c.Has(a);
      var i :| 0 <= i < |cidrs| && Verdicts(cidrs)[i] == Some(c);
      AcceptedContributes(cidrs[i], a);
    }
  }

  /** Sanitising, and aggregating after it, covers exactly the addresses of the acceptable entries. */
  lemma SanitizeExact(cidrs: seq<string>)
    ensures Coverage(Sanitized(cidrs)) == AcceptedAddresses(cidrs)
    ensures Coverage(Aggregated(Sanitized(cidrs))) == AcceptedAddresses(cidrs)
  {
    hide Survivors, Verdicts, SomeAcceptedHas, SomeContributes, ParseAll;
    ParseTexts(Survivors(Verdicts(cidrs)));
    SurvivorsCover(Verdicts(cidrs));
    forall a
      ensures SomeContributes(cidrs, a) <==> SomeAcceptedHas(Verdicts(cidrs), a)
    {
      VerdictsContribute(cidrs, a);
    }
    AggregateExact(Sanitized(cidrs));
  }

  lemma SurvivorsCover(verdicts: seq<Option<Cidr>>)
    ensures forall a :: a in Covered(Survivors(verdicts)) <==> SomeAcceptedHas(verdicts, a)
  {
    var bs := Survivors(verdicts);
    SurvivorsHold(verdicts);
    forall a
      ensures SomeHas(bs, a) <==> SomeAcceptedHas(verdicts, a)
    {
      if SomeHas(bs, a) {
        var i :| 0 <= i < |bs| && bs[i].Has(a);
        assert Some(bs[i]) in verdicts;
      }
      if SomeAcceptedHas(verdicts, a) {
        var c: Cidr :| Some(c) in verdicts && c.Has(a);
        var i :| 0 <= i < |bs| && bs[i] == c;
      }
    }
  }

  /** No address of a reserved range gets through. */
  lemma SanitizeSafe(cidrs: seq<string>)
    ensures Coverage(Sanitized(cidrs)) !! Coverage(ReservedRanges.RESERVED_CIDRS)
    ensures Coverage(Aggregated(Sanitized(cidrs))) !! Coverage(ReservedRanges.RESERVED_CIDRS)
  {
    hide Coverage, ParseCidr, Aggregated, Sanitized;
    SanitizeExact(cidrs);
    forall a | a in AcceptedAddresses(cidrs)
      ensures a !in Coverage(ReservedRanges.RESERVED_CIDRS)
    {
      var i :| 0 <= i < |cidrs| && Contributes(cidrs[i], a);
    }
  }
}
