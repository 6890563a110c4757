/**
 * Route lists of apps/api/src/routes/routes.service.ts: entries of a group and a CIDR, the text keys
 * by which lists are compared, and the addresses each group covers.
 */
module RouteLists {
  import opened Results
  import opened Powers
  import opened Text
  import opened Blocks
  import opened CidrText
  import opened CidrUtil
  import ReservedRanges

  type GroupId = string

  datatype Entry = Entry(group: GroupId, cidr: string)

  function EntryKey(e: Entry): (key: string) {
    e.group + "|" + e.cidr
  }

  function Keys(es: seq<Entry>): (keys: set<string>) {
    set e | e in es :: EntryKey(e)
  }

  /** The CIDRs of one group, in list order. */
  function CidrsOf(es: seq<Entry>, id: GroupId): (cidrs: seq<string>) {
    if es == [] then []
    else
      var n := |es| - 1;
      CidrsOf(es[..n], id) + if es[n].group == id then [es[n].cidr] else []
  }

  function Tagged(id: GroupId, cidrs: seq<string>): (es: seq<Entry>)
    ensures |es| == |cidrs| && forall i :: 0 <= i < |cidrs| ==> es[i] == Entry(id, cidrs[i])
  {
    seq(|cidrs|, i requires 0 <= i < |cidrs| => Entry(id, cidrs[i]))
  }

  /** Each entry at the first occurrence of its key. */
  function Deduped(es: seq<Entry>): (unique: seq<Entry>) {
    if es == [] then []
    else
      var n := |es| - 1;
      Deduped(es[..n]) + if EntryKey(es[n]) in Keys(es[..n]) then [] else [es[n]]
  }

  /** The addresses a list routes for a group. */
  ghost function RoutedFor(es: seq<Entry>, id: GroupId): (s: iset<int>) {
    Coverage(CidrsOf(es, id))
  }

  /** The list is, in some order, the canonical list of its own addresses, none of them reserved. */
  ghost predicate Clean(cidrs: seq<string>) {
    && multiset(Aggregated(cidrs)) == multiset(cidrs)
    && Coverage(cidrs) !! Coverage(ReservedRanges.RESERVED_CIDRS)
  }

  ghost predicate AllClean(es: seq<Entry>) {
    forall id :: Clean(CidrsOf(es, id))
  }

  // ---------------------------------------------------------------- lists by group

  lemma {:induction false} CidrsOfConcat(es: seq<Entry>, fs: seq<Entry>, id: GroupId)
    ensures CidrsOf(es + fs, id) == CidrsOf(es, id) + CidrsOf(fs, id)
  {
    if fs == [] {
      assert es + fs == es;
    } else {
      var n := |fs| - 1;
      assert (es + fs)[..|es + fs| - 1] == es + fs[..n];
      CidrsOfConcat(es, fs[..n], id);
    }
  }

  lemma {:induction false} CidrsOfTagged(group: GroupId, cidrs: seq<string>, id: GroupId)
    ensures CidrsOf(Tagged(group, cidrs), id) == if group == id then cidrs else []
  {
    if cidrs != [] {
      var n := |cidrs| - 1;
      assert Tagged(group, cidrs)[..n] == Tagged(group, cidrs[..n]);
      CidrsOfTagged(group, cidrs[..n], id);
      assert cidrs == cidrs[..n] + [cidrs[n]];
    }
  }

  lemma {:induction false} CidrsOfHolds(es: seq<Entry>, id: GroupId, cidr: string)
    ensures cidr in CidrsOf(es, id) <==> Entry(id, cidr) in es
  {
    if es != [] {
      var n := |es| - 1;
      CidrsOfHolds(es[..n], id, cidr);
      assert es == es[..n] + [es[n]];
    }
  }

  /** Lists that agree group by group hold the same entries. */
  lemma SameGroupsSameEntries(es: seq<Entry>, fs: seq<Entry>)
    requires forall id :: multiset(CidrsOf(es, id)) == multiset(CidrsOf(fs, id))
    ensures Keys(es) == Keys(fs)
  {
    forall e: Entry
      ensures e in es <==> e in fs
    {
      PermutedTexts(CidrsOf(es, e.group), CidrsOf(fs, e.group));
      CidrsOfHolds(es, e.group, e.cidr);
      CidrsOfHolds(fs, e.group, e.cidr);
    }
  }

  // ---------------------------------------------------------------- keys

  /** The last bar of a key ends the group id, so a key determines its entry. */
  lemma KeyInjective(e: Entry, f: Entry)
    requires '|' !in e.cidr && '|' !in f.cidr
    ensures EntryKey(e) == EntryKey(f) ==> e == f
  {
    if EntryKey(e) == EntryKey(f) {
      KeyLengths(e, f);
      KeyLengths(f, e);
      assert EntryKey(e)[..|e.group|] == e.group && EntryKey(e)[|e.group| + 1..] == e.cidr;
      assert EntryKey(f)[..|f.group|] == f.group && EntryKey(f)[|f.group| + 1..] == f.cidr;
    }
  }

  lemma KeyLengths(e: Entry, f: Entry)
    requires EntryKey(e) == EntryKey(f)
    ensures |e.group| > |f.group| ==> '|' in f.cidr
  {
    if |e.group| > |f.group| {
      assert EntryKey(f)[|e.group|] == f.cidr[|e.group| - |f.group| - 1];
      assert EntryKey(e)[|e.group|] == '|';
    }
  }

  lemma CidrHasNoBar(c: Cidr)
    ensures '|' !in PrintCidr(c)
  {
    JoinChars(Octets(c.base));
    assert AllDigits(Decimal(c.prefix));
    forall i | 0 <= i < |PrintCidr(c)|
      ensures PrintCidr(c)[i] != '|'
    {
      var ip := IntToIp(c.base);
      if i < |ip| {
        assert PrintCidr(c)[i] == ip[i];
      } else if i > |ip| {
        assert PrintCidr(c)[i] == Decimal(c.prefix)[i - |ip| - 1];
      }
    }
  }

  predicate NoBars(es: seq<Entry>) {
    forall e :: e in es ==> '|' !in e.cidr
  }

  predicate NoRepeats(cidrs: seq<string>) {
    forall i, j :: 0 <= i < j < |cidrs| ==> cidrs[i] != cidrs[j]
  }

  /** A permutation has the same elements and repeats none if the other does not. */
  lemma PermutedTexts(cidrs: seq<string>, others: seq<string>)
    requires multiset(cidrs) == multiset(others)
    ensures |cidrs| == |others|
    ensures forall text :: text in cidrs <==> text in others
    ensures NoRepeats(cidrs) ==> NoRepeats(others)
  {
    assert |multiset(cidrs)| == |multiset(others)|;
    forall text
      ensures text in cidrs <==> text in others
    {
      assert text in multiset(cidrs) <==> text in multiset(others);
    }
    if NoRepeats(cidrs) {
      forall i, j | 0 <= i < j < |others|
        ensures others[i] != others[j]
      {
        Twice(others, i, j);
        if others[i] == others[j] {
          OnceEach(cidrs, others[i]);
          assert false;
        }
      }
    }
  }

  lemma Twice(cidrs: seq<string>, i: nat, j: nat)
    requires i < j < |cidrs|
    ensures cidrs[i] == cidrs[j] ==> multiset(cidrs)[cidrs[i]] >= 2
  {
    assert cidrs == cidrs[..j] + cidrs[j..];
    assert cidrs[..j][i] == cidrs[i] && cidrs[j..][0] == cidrs[j];
    assert multiset(cidrs) == multiset(cidrs[..j]) + multiset(cidrs[j..]);
  }

  lemma {:induction false} OnceEach(cidrs: seq<string>, text: string)
    requires NoRepeats(cidrs)
    ensures multiset(cidrs)[text] <= 1
  {
    if cidrs != [] {
      var n := |cidrs| - 1;
      assert cidrs == cidrs[..n] + [cidrs[n]];
      OnceEach(cidrs[..n], text);
      if cidrs[n] == text {
        assert text !in cidrs[..n];
      }
    }
  }

  lemma CanonTexts(s: iset<int>)
    requires s <= Span(0, SPACE - 1)
    ensures forall i :: 0 <= i < |Texts(Canon(s))| ==> '|' !in Texts(Canon(s))[i]
    ensures NoRepeats(Texts(Canon(s)))
    ensures Canon(s) == [] <==> s == iset{}
  {
    var bs := Canon(s);
    CanonIsCanonical(s);
    CanonicalExact(bs, s);
    forall i | 0 <= i < |bs|
      ensures '|' !in PrintCidr(bs[i]) && bs[i].base in s
    {
      CidrHasNoBar(bs[i]);
    }
    forall i, j | 0 <= i < j < |bs|
      ensures PrintCidr(bs[i]) != PrintCidr(bs[j])
    {
      CidrRoundTrip(bs[i]);
      CidrRoundTrip(bs[j]);
      assert bs[i].base < bs[j].base;
    }
    assert bs != [] ==> bs[0].base in s;
    assert bs == [] ==> Covered(bs) == iset{};
  }

  lemma CleanTexts(cidrs: seq<string>)
    requires Clean(cidrs)
    ensures forall i :: 0 <= i < |cidrs| ==> '|' !in cidrs[i]
    ensures NoRepeats(cidrs)
    ensures cidrs == [] <==> Coverage(cidrs) == iset{}
  {
    hide Coverage, Canon, NoRepeats;
    CoverageInSpace(cidrs);
    CanonTexts(Coverage(cidrs));
    PermutedTexts(Aggregated(cidrs), cidrs);
    forall i | 0 <= i < |cidrs|
      ensures '|' !in cidrs[i]
    {
      assert cidrs[i] in Aggregated(cidrs);
    }
  }

  lemma CleanEntries(es: seq<Entry>)
    requires AllClean(es)
    ensures NoBars(es) && forall id :: NoRepeats(CidrsOf(es, id))
  {
    hide Clean;
    forall id: GroupId
      ensures Clean(CidrsOf(es, id)) && NoRepeats(CidrsOf(es, id))
    {
      CleanTexts(CidrsOf(es, id));
    }
    forall e | e in es
      ensures '|' !in e.cidr
    {
      CidrsOfHolds(es, e.group, e.cidr);
      CleanTexts(CidrsOf(es, e.group));
    }
  }

  /** Without repetitions inside a group there is nothing to drop. */
  lemma {:induction false} DedupDropsNothing(es: seq<Entry>)
    requires NoBars(es) && forall id :: NoRepeats(CidrsOf(es, id))
    ensures Deduped(es) == es
  {
    if es != [] {
      var n := |es| - 1;
      var init, last := es[..n], es[n];
      assert es == init + [last];
      forall id
        ensures NoRepeats(CidrsOf(init, id))
      {
        assert CidrsOf(init, id) <= CidrsOf(es, id);
      }
      DedupDropsNothing(init);
      if EntryKey(last) in Keys(init) {
        var e :| e in init && EntryKey(e) == EntryKey(last);
        KeyInjective(e, last);
        LastIsNew(es);
        assert false;
      }
    }
  }

  /** What is kept are exactly the first entries of their keys. */
  lemma {:induction false} DedupKeepsFirst(es: seq<Entry>)
    ensures forall i :: 0 <= i < |es| && EntryKey(es[i]) !in Keys(es[..i]) ==> es[i] in Deduped(es)
    ensures forall e :: e in Deduped(es) ==> exists i :: 0 <= i < |es| && es[i] == e && EntryKey(e) !in Keys(es[..i])
  {
    hide EntryKey, Keys;
    if es != [] {
      var n := |es| - 1;
      var before := es[..n];
      DedupKeepsFirst(before);
      assert forall i :: 0 <= i < n ==> before[i] == es[i] && before[..i] == es[..i];
      forall e | e in Deduped(es)
        ensures exists i :: 0 <= i < |es| && es[i] == e && EntryKey(e) !in Keys(es[..i])
      {
        if e in Deduped(before) {
          var i :| 0 <= i < n && before[i] == e && EntryKey(e) !in Keys(before[..i]);
          assert es[i] == e && EntryKey(e) !in Keys(es[..i]);
        } else {
          assert es[n] == e;
        }
      }
    }
  }

  /** One entry is kept for each key. */
  lemma {:induction false} DedupSize(es: seq<Entry>)
    ensures |Deduped(es)| == |Keys(es)|
  {
    hide Keys, EntryKey;
    if es == [] {
      NoKeys();
    } else {
      var n := |es| - 1;
      DedupSize(es[..n]);
      KeysNext(es[..n], es[n]);
      assert es == es[..n] + [es[n]];
      OneMore(Keys(es[..n]), EntryKey(es[n]));
    }
  }

  lemma OneMore(s: set<string>, x: string)
    ensures |s + {x}| == |s| + if x in s then 0 else 1
  {
    if x in s { assert s + {x} == s; }
  }

  lemma NoKeys()
    ensures Keys([]) == {}
  {
  }

  lemma KeysNext(es: seq<Entry>, e: Entry)
    ensures Keys(es + [e]) == Keys(es) + {EntryKey(e)}
  {
    hide EntryKey;
    forall key
      ensures key in Keys(es + [e]) <==> key in Keys(es) || key == EntryKey(e)
    {
      if key in Keys(es) {
        var f :| f in es && EntryKey(f) == key;
        assert f in es + [e];
      }
      assert e in es + [e];
    }
  }

  lemma LastIsNew(es: seq<Entry>)
    requires es != [] && NoRepeats(CidrsOf(es, es[|es| - 1].group))
    ensures es[|es| - 1] !in es[..|es| - 1]
  {
    hide NoRepeats;
    var n := |es| - 1;
    var before := CidrsOf(es[..n], es[n].group);
    assert CidrsOf(es, es[n].group) == before + [es[n].cidr];
    AppendedIsNew(before, es[n].cidr);
    CidrsOfHolds(es[..n], es[n].group, es[n].cidr);
  }

  lemma AppendedIsNew(cidrs: seq<string>, cidr: string)
    requires NoRepeats(cidrs + [cidr])
    ensures cidr !in cidrs
  {
    var all := cidrs + [cidr];
    assert all[|cidrs|] == cidr;
    assert forall i :: 0 <= i < |cidrs| ==> all[i] == cidrs[i];
  }

  // ---------------------------------------------------------------- comparing lists

  lemma {:induction false} ParseAllHolds(cidrs: seq<string>, c: Cidr)
    ensures c in ParseAll(cidrs) <==> exists i :: 0 <= i < |cidrs| && ParseCidr(cidrs[i]) == Some(c)
  {
    hide ParseCidr;
    if cidrs != [] {
      ParseAllHolds(cidrs[..|cidrs| - 1], c);
    }
  }

  /** Lists of the same texts cover the same addresses. */
  lemma SameTextsCover(cidrs: seq<string>, others: seq<string>)
    requires forall text :: text in cidrs ==> text in others
    ensures Coverage(cidrs) <= Coverage(others)
  {
    hide ParseCidr, ParseAll;
    forall a | a in Coverage(cidrs)
      ensures a in Coverage(others)
    {
      var bs := ParseAll(cidrs);
      var k :| 0 <= k < |bs| && bs[k].Has(a);
      ParseAllHolds(cidrs, bs[k]);
      var i :| 0 <= i < |cidrs| && ParseCidr(cidrs[i]) == Some(bs[k]);
      assert cidrs[i] in others;
      var j :| 0 <= j < |others| && others[j] == cidrs[i];
      ParseAllHolds(others, bs[k]);
    }
  }

  lemma SameKeysRoute(es: seq<Entry>, fs: seq<Entry>, id: GroupId)
    requires NoBars(es) && NoBars(fs) && Keys(es) <= Keys(fs)
    ensures RoutedFor(es, id) <= RoutedFor(fs, id)
  {
    hide Coverage, CidrsOf, EntryKey;
    forall text | text in CidrsOf(es, id)
      ensures text in CidrsOf(fs, id)
    {
      var e := Entry(id, text);
      CidrsOfHolds(es, id, text);
      assert EntryKey(e) in Keys(fs);
      var f :| f in fs && EntryKey(f) == EntryKey(e);
      KeyInjective(e, f);
      CidrsOfHolds(fs, id, text);
    }
    SameTextsCover(CidrsOf(es, id), CidrsOf(fs, id));
  }

  /** Comparing clean lists by the texts of their keys compares the addresses of every group. */
  lemma KeysMeaning(es: seq<Entry>, fs: seq<Entry>)
    requires AllClean(es) && AllClean(fs)
    ensures Keys(es) == Keys(fs) <==> forall id :: RoutedFor(es, id) == RoutedFor(fs, id)
  {
    hide Keys, NoBars, Coverage, CidrsOf, NoRepeats;
    CleanEntries(es);
    CleanEntries(fs);
    if Keys(es) == Keys(fs) {
      forall id
        ensures RoutedFor(es, id) == RoutedFor(fs, id)
      {
        SameKeysRoute(es, fs, id);
        SameKeysRoute(fs, es, id);
      }
    }
    if forall id :: RoutedFor(es, id) == RoutedFor(fs, id) {
      forall id: GroupId
        ensures multiset(CidrsOf(es, id)) == multiset(CidrsOf(fs, id))
      {
        assert RoutedFor(es, id) == RoutedFor(fs, id);
        assert Clean(CidrsOf(es, id)) && Clean(CidrsOf(fs, id));
      }
      SameGroupsSameEntries(es, fs);
    }
  }

  /** A clean list is empty exactly when it routes no address. */
  lemma EmptyMeaning(es: seq<Entry>)
    requires AllClean(es)
    ensures es == [] <==> forall id :: RoutedFor(es, id) == iset{}
  {
    hide Clean, Coverage;
    if es == [] {
      forall id: GroupId
        ensures RoutedFor(es, id) == iset{}
      {
        assert Clean(CidrsOf(es, id));
        CleanTexts(CidrsOf(es, id));
      }
    } else {
      var id := es[0].group;
      CidrsOfHolds(es, id, es[0].cidr);
      assert Clean(CidrsOf(es, id));
      CleanTexts(CidrsOf(es, id));
      assert RoutedFor(es, id) != iset{};
    }
  }

  // ---------------------------------------------------------------- reading in any order

  /** The same entries, in any order. */
  predicate Permuted(es: seq<Entry>, fs: seq<Entry>) {
    multiset(es) == multiset(fs)
  }

  lemma {:induction false} CidrsOfCounts(es: seq<Entry>, id: GroupId, cidr: string)
    ensures multiset(CidrsOf(es, id))[cidr] == multiset(es)[Entry(id, cidr)]
  {
    if es != [] {
      var n := |es| - 1;
      assert es == es[..n] + [es[n]];
      CidrsOfCounts(es[..n], id, cidr);
    }
  }

  /** Reading a list in another order reads every group in another order, and nothing else changes. */
  lemma PermutedAlike(es: seq<Entry>, fs: seq<Entry>)
    requires Permuted(es, fs)
    ensures |es| == |fs|
    ensures Keys(es) == Keys(fs)
    ensures forall id :: multiset(CidrsOf(es, id)) == multiset(CidrsOf(fs, id))
    ensures forall id :: RoutedFor(es, id) == RoutedFor(fs, id)
    ensures AllClean(es) ==> AllClean(fs)
  {
    hide Keys, CidrsOf, Coverage, Canon;
    assert |multiset(es)| == |multiset(fs)|;
    forall id: GroupId
      ensures multiset(CidrsOf(es, id)) == multiset(CidrsOf(fs, id))
      ensures RoutedFor(es, id) == RoutedFor(fs, id)
      ensures Clean(CidrsOf(es, id)) ==> Clean(CidrsOf(fs, id))
    {
      forall cidr
        ensures multiset(CidrsOf(es, id))[cidr] == multiset(CidrsOf(fs, id))[cidr]
      {
        CidrsOfCounts(es, id, cidr);
        CidrsOfCounts(fs, id, cidr);
      }
      PermutedTexts(CidrsOf(es, id), CidrsOf(fs, id));
      SameTextsCover(CidrsOf(es, id), CidrsOf(fs, id));
      SameTextsCover(CidrsOf(fs, id), CidrsOf(es, id));
    }
    SameGroupsSameEntries(es, fs);
  }
}
