/**
 * apps/api/src/routes/routes.service.ts: route groups are resolved to CIDRs and published as
 * numbered route list versions.
 *
 * The operations are functions on a RouteState; RoutesService is the stateful service and each of
 * its methods is proved against its function.
 */
module Routes {
  import opened Results
  import opened Blocks
  import opened CidrText
  import opened CidrUtil
  import opened RouteLists
  import opened Text
  import Notation
  import Powers
  import ReservedRanges

  datatype RouteGroup = RouteGroup(id: GroupId, name: string, domains: seq<string>, isEnabled: bool)

  datatype Version = Version(number: int, entries: seq<Entry>)

  /** Groups by their unique key; the rows of the version table. */
  datatype RouteState = RouteState(groups: map<string, RouteGroup>, versions: seq<Version>)

  datatype Outcome = Outcome(version: int, entryCount: nat, changed: bool)

  datatype RouteError = GroupNotFound

  /** The texts a resolver answers to the k-th lookup for a group, of a domain; none on failure. */
  type Dns = (GroupId, nat, string) -> seq<string>

  // ---------------------------------------------------------------- operations

  function UpsertGroup(
    st: RouteState, key: string, name: string, domains: seq<string>, isEnabled: bool, newId: GroupId): (after: RouteState)
  {
    var id := if key in st.groups then st.groups[key].id else newId;
    st.(groups := st.groups[key := RouteGroup(id, name, domains, isEnabled)])
  }

  function SetEnabled(st: RouteState, key: string, isEnabled: bool): (r: (RouteState, Result<(), RouteError>)) {
    if key !in st.groups then (st, Err(GroupNotFound))
    else (st.(groups := st.groups[key := st.groups[key].(isEnabled := isEnabled)]), Ok(()))
  }

  /** The row with the greatest version number. */
  function Latest(versions: seq<Version>): (v: Option<Version>) {
    if versions == [] then None
    else
      var last := versions[|versions| - 1];
      match Latest(versions[..|versions| - 1])
      case None => Some(last)
      case Some(v) => if v.number > last.number then Some(v) else Some(last)
  }

  function EntriesOf(v: Option<Version>): (es: seq<Entry>) {
    if v.Some? then v.value.entries else []
  }

  function HostCidrs(addresses: seq<string>): (cidrs: seq<string>)
    ensures |cidrs| == |addresses| && forall i :: 0 <= i < |cidrs| ==> cidrs[i] == addresses[i] + "/32"
  {
    seq(|addresses|, i requires 0 <= i < |addresses| => addresses[i] + "/32")
  }

  /** The answers to a group's first k lookups. */
  function Answers(dns: Dns, g: RouteGroup, k: nat): (raw: seq<string>)
    requires k <= |g.domains|
  {
    if k == 0 then [] else Answers(dns, g, k - 1) + HostCidrs(dns(g.id, k - 1, g.domains[k - 1]))
  }

  function Raw(dns: Dns, g: RouteGroup): (raw: seq<string>) {
    Answers(dns, g, |g.domains|)
  }

  /** What a group resolves to; a group that resolves to nothing keeps its previous CIDRs. */
  ghost function GroupCidrs(dns: Dns, g: RouteGroup, previous: seq<Entry>): (cidrs: seq<string>) {
    var resolved := Aggregated(Sanitized(Raw(dns, g)));
    if resolved == [] then CidrsOf(previous, g.id) else resolved
  }

  ghost function Resolved(gs: seq<RouteGroup>, dns: Dns, previous: seq<Entry>): (es: seq<Entry>) {
    if gs == [] then []
    else
      var n := |gs| - 1;
      Resolved(gs[..n], dns, previous) + Tagged(gs[n].id, GroupCidrs(dns, gs[n], previous))
  }

  /** previous lists the entries of the current version, in any order. */
  predicate Reads(previous: seq<Entry>, st: RouteState) {
    Permuted(EntriesOf(Latest(st.versions)), previous)
  }

  /**
   * One resolve over the enabled groups gs and the current version's entries previous, each in the
   * order in which the database returned them.
   */
  ghost function Publish(st: RouteState, gs: seq<RouteGroup>, previous: seq<Entry>, dns: Dns)
    : (r: (RouteState, Outcome))
  {
    var current := Latest(st.versions);
    var unique := Deduped(Resolved(gs, dns, previous));
    if current.Some? && unique == [] && previous != [] then
      (st, Outcome(current.value.number, |previous|, false))
    else if current.Some? && Keys(unique) == Keys(previous) then
      (st, Outcome(current.value.number, |unique|, false))
    else
      var next := (if current.Some? then current.value.number else 0) + 1;
      (st.(versions := st.versions + [Version(next, unique)]), Outcome(next, |unique|, true))
  }

  predicate IsEnabledRow(groups: map<string, RouteGroup>, g: RouteGroup) {
    g.isEnabled && exists key :: key in groups && groups[key] == g
  }

  /** gs lists the enabled groups, each once, in any order. */
  ghost predicate Enumerates(gs: seq<RouteGroup>, groups: map<string, RouteGroup>) {
    && (forall g :: g in gs <==> IsEnabledRow(groups, g))
    && (forall i, j :: 0 <= i < j < |gs| ==> gs[i] != gs[j])
  }

  predicate DistinctIds(gs: seq<RouteGroup>) {
    forall i, j :: 0 <= i < j < |gs| ==> gs[i].id != gs[j].id
  }

  // ---------------------------------------------------------------- groups and versions

  /** Only the group of that key changes; it keeps its id, or is created with the new one. */
  lemma UpsertMeans(
    st: RouteState, key: string, name: string, domains: seq<string>, isEnabled: bool, newId: GroupId)
    ensures var after := UpsertGroup(st, key, name, domains, isEnabled, newId);
            && after.versions == st.versions
            && after.groups.Keys == st.groups.Keys + {key}
            && after.groups[key].id == (if key in st.groups then st.groups[key].id else newId)
            && after.groups[key].name == name && after.groups[key].domains == domains
            && after.groups[key].isEnabled == isEnabled
            && forall other :: other in st.groups && other != key ==> after.groups[other] == st.groups[other]
  {
  }

  /** Only the flag of the group changes; an unknown key is an error. */
  lemma SetEnabledMeans(st: RouteState, key: string, isEnabled: bool)
    ensures var (after, r) := SetEnabled(st, key, isEnabled);
            && (key !in st.groups ==> r == Err(GroupNotFound) && after == st)
            && (key in st.groups ==>
                  && r == Ok(())
                  && after.versions == st.versions
                  && after.groups.Keys == st.groups.Keys
                  && after.groups[key].isEnabled == isEnabled
                  && after.groups[key].(isEnabled := st.groups[key].isEnabled) == st.groups[key]
                  && forall other :: other in st.groups && other != key ==> after.groups[other] == st.groups[other])
  {
  }

  /** No version has a greater number than the current one. */
  lemma {:induction false} LatestIsGreatest(versions: seq<Version>)
    ensures Latest(versions).None? <==> versions == []
    ensures Latest(versions).Some? ==>
              && Latest(versions).value in versions
              && forall v :: v in versions ==> v.number <= Latest(versions).value.number
  {
    if versions != [] {
      var n := |versions| - 1;
      LatestIsGreatest(versions[..n]);
      assert versions == versions[..n] + [versions[n]];
    }
  }

  // ---------------------------------------------------------------- what the resolver's answers mean

  /** The i-th answer to the k-th lookup, of the k-th domain, is the address a, perhaps after white space. */
  predicate Answered(dns: Dns, g: RouteGroup, k: nat, i: nat, a: int) {
    && k < |g.domains|
    && i < |dns(g.id, k, g.domains[k])|
    && IpValue(TrimStart(dns(g.id, k, g.domains[k])[i])) == Some(a)
  }

  /** The addresses accepted for a group are those answered for its domains that are not reserved. */
  lemma AcceptedAnswers(dns: Dns, g: RouteGroup, a: int)
    ensures a in AcceptedAddresses(Raw(dns, g)) <==>
            !ReservedRanges.IsReserved(a) && exists k: nat, i: nat :: Answered(dns, g, k, i, a)
  {
    hide IpValue, TrimStart, ParseCidr, Answers, Contributes, ReservedRanges.IsReserved;
    var raw := Raw(dns, g);
    if a in AcceptedAddresses(raw) {
      var j :| 0 <= j < |raw| && Contributes(raw[j], a);
      var k, i := AnswerAt(dns, g, |g.domains|, j);
      HostContributes(dns(g.id, k, g.domains[k])[i], a);
      assert Answered(dns, g, k, i, a);
    }
    if !ReservedRanges.IsReserved(a) && exists k: nat, i: nat :: Answered(dns, g, k, i, a) {
      var k: nat, i: nat :| Answered(dns, g, k, i, a);
      HostContributes(dns(g.id, k, g.domains[k])[i], a);
      var j := AnswerOf(dns, g, |g.domains|, k, i);
      assert Contributes(raw[j], a);
    }
  }

  lemma {:induction false} AnswerAt(dns: Dns, g: RouteGroup, n: nat, j: nat) returns (k: nat, i: nat)
    requires n <= |g.domains| && j < |Answers(dns, g, n)|
    ensures k < n && i < |dns(g.id, k, g.domains[k])|
    ensures Answers(dns, g, n)[j] == dns(g.id, k, g.domains[k])[i] + "/32"
  {
    var before := Answers(dns, g, n - 1);
    if j < |before| {
      k, i := AnswerAt(dns, g, n - 1, j);
    } else {
      k, i := n - 1, j - |before|;
    }
  }

  lemma {:induction false} AnswerOf(dns: Dns, g: RouteGroup, n: nat, k: nat, i: nat) returns (j: nat)
    requires n <= |g.domains| && k < n && i < |dns(g.id, k, g.domains[k])|
    ensures j < |Answers(dns, g, n)| && Answers(dns, g, n)[j] == dns(g.id, k, g.domains[k])[i] + "/32"
  {
    if k < n - 1 {
      j := AnswerOf(dns, g, n - 1, k, i);
    } else {
      j := |Answers(dns, g, n - 1)| + i;
    }
  }

  lemma {:induction false} TrimStartBefore(s: string, rest: string)
    requires rest != [] && !IsSpace(rest[0])
    ensures TrimStart(s + rest) == TrimStart(s) + rest
  {
    if s == [] {
      assert s + rest == rest;
    } else if IsSpace(s[0]) {
      assert (s + rest)[1..] == s[1..] + rest;
      TrimStartBefore(s[1..], rest);
    }
  }

  /** An answer with "/32" behind it is read as that one address, or not at all. */
  lemma HostParses(answer: string)
    ensures var ip := IpValue(TrimStart(answer));
            ParseCidr(answer + "/32") == if ip.Some? then Some(Network(ip.value, 32)) else None
  {
    hide IpValue, IndexOf, DecimalValue, Network, TrimStart, ParseParts;
    var x := TrimStart(answer);
    TrimStartBefore(answer, "/32");
    assert Trim(answer + "/32") == x + "/32";
    if '/' in x {
      NoSlashInQuad(x);
      SlashInside(x, IndexOf(x + "/32", '/'));
      NotDigits((x + "/32")[..IndexOf(x + "/32", '/')], (x + "/32")[IndexOf(x + "/32", '/') + 1..]);
    } else {
      var trimmed := x + "/32";
      assert trimmed == x + ['/'] + "32";
      IndexOfPrefix(x, '/', "32");
      assert trimmed[..|x|] == x && trimmed[|x| + 1..] == "32";
      HostParts(x);
    }
  }

  lemma NotDigits(ip: string, prefix: string)
    requires !AllDigits(prefix)
    ensures ParseParts(ip, prefix).None?
  {
    hide IpValue;
  }

  lemma HostParts(ip: string)
    ensures ParseParts(ip, "32") == if IpValue(ip).Some? then Some(Network(IpValue(ip).value, 32)) else None
  {
    hide IpValue, Network, DecimalValue;
    Notation.ThirtyTwo();
  }

  lemma NoSlashInQuad(x: string)
    requires '/' in x
    ensures IpValue(x).None?
  {
    hide IpValue;
    if IpValue(x).Some? { Notation.DenotesChars(x, IpValue(x).value); }
  }

  /** With a slash before the last, what follows the first slash is no prefix length. */
  lemma SlashInside(x: string, i: int)
    requires '/' in x && i == IndexOf(x + "/32", '/')
    ensures 0 <= i < |x| + 3 && !AllDigits((x + "/32")[i + 1..])
  {
    var t := x + "/32";
    var k :| 0 <= k < |x| && x[k] == '/';
    IndexLeast(t, '/', k);
    assert t[i + 1..][|x| - i - 1] == '/';
  }

  lemma HostContributes(answer: string, a: int)
    ensures Contributes(answer + "/32", a) <==>
            IpValue(TrimStart(answer)) == Some(a) && !ReservedRanges.IsReserved(a)
  {
    hide IpValue, TrimStart, ParseCidr, ReservedRanges.IsReserved, Coverage, Network;
    HostParses(answer);
    var ip := IpValue(TrimStart(answer));
    if ip.Some? {
      OnlyAddress(ip.value, a);
      ReservedRanges.ReservedMeans(ip.value);
    }
  }

  lemma OnlyAddress(v: int, a: int)
    requires 0 <= v < Powers.SPACE
    ensures Network(v, 32).prefix == 32 && (Network(v, 32).Has(a) <==> a == v)
    ensures Clear(Network(v, 32)) <==> v !in Coverage(ReservedRanges.RESERVED_CIDRS)
  {
    hide Coverage;
    assert Powers.Pow2(0) == 1;
  }

  // ---------------------------------------------------------------- what a resolve means

  function GroupOf(gs: seq<RouteGroup>, id: GroupId): (g: Option<RouteGroup>)
    ensures g.Some? ==> g.value in gs && g.value.id == id
    ensures g.None? ==> forall h :: h in gs ==> h.id != id
  {
    if gs == [] then None
    else if gs[|gs| - 1].id == id then Some(gs[|gs| - 1])
    else GroupOf(gs[..|gs| - 1], id)
  }

  /**
   * The addresses a resolve should route for a group: those of its acceptable answers, or the
   * previous ones when there are none; nothing for a group that is not enabled.
   */
  ghost function Target(gs: seq<RouteGroup>, dns: Dns, previous: seq<Entry>, id: GroupId): (s: iset<int>) {
    match GroupOf(gs, id)
    case None => iset{}
    case Some(g) =>
      var accepted := AcceptedAddresses(Raw(dns, g));
      if accepted == iset{} then RoutedFor(previous, id) else accepted
  }

  lemma FreshClean(dns: Dns, g: RouteGroup)
    ensures var resolved := Aggregated(Sanitized(Raw(dns, g)));
            && Clean(resolved)
            && Coverage(resolved) == AcceptedAddresses(Raw(dns, g))
            && (resolved == [] <==> AcceptedAddresses(Raw(dns, g)) == iset{})
  {
    hide Aggregated, Sanitized, Coverage, AcceptedAddresses, Raw;
    var raw := Raw(dns, g);
    AggregateIdempotent(Sanitized(raw));
    SanitizeExact(raw);
    SanitizeSafe(raw);
    CleanTexts(Aggregated(Sanitized(raw)));
  }

  lemma NothingClean()
    ensures Clean([])
  {
    hide ReservedRanges.RESERVED_CIDRS, Canon;
    var s := Coverage([]);
    assert s == iset{};
    CoverageInSpace([]);
    assert Canonical([], s);
    CanonIsCanonical(s);
  }

  lemma GroupClean(dns: Dns, g: RouteGroup, previous: seq<Entry>)
    requires AllClean(previous)
    ensures Clean(GroupCidrs(dns, g, previous))
    ensures Coverage(GroupCidrs(dns, g, previous)) ==
            if AcceptedAddresses(Raw(dns, g)) == iset{} then RoutedFor(previous, g.id) else AcceptedAddresses(Raw(dns, g))
  {
    hide Aggregated, Sanitized, Coverage, AcceptedAddresses, Raw, Clean, CidrsOf;
    FreshClean(dns, g);
  }

  /** Each group of a resolve has its own CIDRs and no others. */
  lemma {:induction false} ResolvedByGroup(gs: seq<RouteGroup>, dns: Dns, previous: seq<Entry>, id: GroupId)
    requires DistinctIds(gs)
    ensures CidrsOf(Resolved(gs, dns, previous), id) ==
            if GroupOf(gs, id).Some? then GroupCidrs(dns, GroupOf(gs, id).value, previous) else []
  {
    hide GroupCidrs;
    if gs != [] {
      var n := |gs| - 1;
      ResolvedByGroup(gs[..n], dns, previous, id);
      var cidrs := GroupCidrs(dns, gs[n], previous);
      CidrsOfConcat(Resolved(gs[..n], dns, previous), Tagged(gs[n].id, cidrs), id);
      CidrsOfTagged(gs[n].id, cidrs, id);
    }
  }

  /** A resolve yields clean lists covering exactly the targets, and deduplication drops nothing. */
  lemma ResolvedExact(gs: seq<RouteGroup>, dns: Dns, previous: seq<Entry>)
    requires DistinctIds(gs) && AllClean(previous)
    ensures AllClean(Resolved(gs, dns, previous))
    ensures forall id :: RoutedFor(Resolved(gs, dns, previous), id) == Target(gs, dns, previous, id)
    ensures Deduped(Resolved(gs, dns, previous)) == Resolved(gs, dns, previous)
  {
    hide Resolved, Clean, Coverage, AcceptedAddresses, GroupCidrs, CidrsOf, Deduped, NoBars, NoRepeats;
    var es := Resolved(gs, dns, previous);
    forall id: GroupId
      ensures Clean(CidrsOf(es, id)) && RoutedFor(es, id) == Target(gs, dns, previous, id)
    {
      ResolvedByGroup(gs, dns, previous, id);
      match GroupOf(gs, id)
      case None => NothingClean(); NothingCovered();
      case Some(g) => GroupClean(dns, g, previous);
    }
    CleanEntries(es);
    DedupDropsNothing(es);
  }

  lemma NothingCovered()
    ensures Coverage([]) == iset{}
  {
  }

  /** A resolve considers exactly the enabled groups: a disabled one is to route nothing. */
  lemma TargetsByGroup(
    groups: map<string, RouteGroup>, gs: seq<RouteGroup>, dns: Dns, previous: seq<Entry>, key: string)
    requires GroupsOk(groups) && Enumerates(gs, groups) && key in groups
    ensures var g := groups[key];
            && (!g.isEnabled ==> g !in gs && Target(gs, dns, previous, g.id) == iset{})
            && (g.isEnabled ==>
                  && g in gs
                  && forall a :: a in Target(gs, dns, previous, g.id) <==>
                       if AcceptedAddresses(Raw(dns, g)) == iset{} then a in RoutedFor(previous, g.id)
                       else a in AcceptedAddresses(Raw(dns, g)))
  {
    hide AcceptedAddresses, Raw, RoutedFor;
    var g := groups[key];
    EnumeratedIds(gs, groups);
    if g.isEnabled {
      assert IsEnabledRow(groups, g);
      DistinctLookup(gs, g);
    } else {
      forall h | h in gs
        ensures h.id != g.id
      {
        assert IsEnabledRow(groups, h);
        var k :| k in groups && groups[k] == h;
      }
    }
  }

  // ---------------------------------------------------------------- invariants

  /** Ids of different groups differ. */
  predicate GroupsOk(groups: map<string, RouteGroup>) {
    forall k, l :: k in groups && l in groups && k != l ==> groups[k].id != groups[l].id
  }

  /** Some group's addresses differ between the two lists. */
  ghost predicate Differ(es: seq<Entry>, fs: seq<Entry>) {
    exists id :: RoutedFor(es, id) != RoutedFor(fs, id)
  }

  ghost predicate History(versions: seq<Version>) {
    && (forall i :: 0 <= i < |versions| ==> versions[i].number == i + 1 && AllClean(versions[i].entries))
    && (forall i :: 1 <= i < |versions| ==>
          versions[i].entries != [] && Differ(versions[i - 1].entries, versions[i].entries))
  }

  ghost predicate Sound(st: RouteState) {
    GroupsOk(st.groups) && History(st.versions)
  }

  lemma {:induction false} LatestIsLast(versions: seq<Version>)
    requires forall i :: 0 <= i < |versions| ==> versions[i].number == i + 1
    ensures Latest(versions) == if versions == [] then None else Some(versions[|versions| - 1])
  {
    if versions != [] {
      LatestIsLast(versions[..|versions| - 1]);
    }
  }

  lemma EnumeratedIds(gs: seq<RouteGroup>, groups: map<string, RouteGroup>)
    requires Enumerates(gs, groups) && GroupsOk(groups)
    ensures DistinctIds(gs)
  {
    forall i, j | 0 <= i < j < |gs|
      ensures gs[i].id != gs[j].id
    {
      assert IsEnabledRow(groups, gs[i]) && IsEnabledRow(groups, gs[j]);
      var k :| k in groups && groups[k] == gs[i];
      var l :| l in groups && groups[l] == gs[j];
    }
  }

  lemma NothingAllClean()
    ensures AllClean([])
  {
    NothingClean();
  }

  lemma CurrentClean(st: RouteState)
    requires Sound(st)
    ensures Latest(st.versions) == if st.versions == [] then None else Some(st.versions[|st.versions| - 1])
    ensures AllClean(EntriesOf(Latest(st.versions)))
  {
    hide AllClean;
    LatestIsLast(st.versions);
    NothingAllClean();
  }

  ghost predicate SomeTarget(gs: seq<RouteGroup>, dns: Dns, previous: seq<Entry>) {
    exists id :: Target(gs, dns, previous, id) != iset{}
  }

  ghost predicate TargetsDiffer(gs: seq<RouteGroup>, dns: Dns, previous: seq<Entry>) {
    exists id :: Target(gs, dns, previous, id) != RoutedFor(previous, id)
  }

  /** Comparing the resolved list with the current one as sets of texts compares addresses. */
  lemma ResolvedMeaning(gs: seq<RouteGroup>, dns: Dns, previous: seq<Entry>)
    requires DistinctIds(gs) && AllClean(previous)
    ensures Deduped(Resolved(gs, dns, previous)) == [] <==> !SomeTarget(gs, dns, previous)
    ensures Keys(Deduped(Resolved(gs, dns, previous))) == Keys(previous) <==> !TargetsDiffer(gs, dns, previous)
    ensures Keys(Deduped(Resolved(gs, dns, previous))) == Keys(previous)
            <==> !Differ(previous, Deduped(Resolved(gs, dns, previous)))
    ensures AllClean(Deduped(Resolved(gs, dns, previous)))
    ensures forall id :: RoutedFor(Deduped(Resolved(gs, dns, previous)), id) == Target(gs, dns, previous, id)
  {
    hide Resolved, Deduped, AllClean, RoutedFor, Target, Keys;
    ResolvedExact(gs, dns, previous);
    var es := Resolved(gs, dns, previous);
    EmptyMeaning(es);
    KeysMeaning(es, previous);
  }

  /**
   * Although the code compares texts, a resolve publishes exactly when some group's addresses are to
   * change and not every group's addresses are to vanish; a new version routes exactly the targets.
   * The orders in which groups and entries were read do not matter.
   */
  lemma ChangeIsSemantic(st: RouteState, gs: seq<RouteGroup>, previous: seq<Entry>, dns: Dns)
    requires Sound(st) && Enumerates(gs, st.groups) && Reads(previous, st)
    ensures var (after, outcome) := Publish(st, gs, previous, dns);
            var stored := EntriesOf(Latest(st.versions));
            && (outcome.changed
                <==> st.versions == [] || (TargetsDiffer(gs, dns, stored) && SomeTarget(gs, dns, stored)))
            && (!outcome.changed ==> after == st)
            && (outcome.changed ==>
                  && |after.versions| == |st.versions| + 1
                  && after == st.(versions := st.versions + [after.versions[|st.versions|]])
                  && after.versions[|st.versions|].number == |st.versions| + 1
                  && forall id :: RoutedFor(after.versions[|st.versions|].entries, id) == Target(gs, dns, stored, id))
  {
    hide Sound, Enumerates, AllClean, Deduped, Resolved, RoutedFor, Target, Keys, Latest, TargetsDiffer, SomeTarget,
         DistinctIds, Permuted;
    ReadSound(st, gs, previous);
    ResolvedMeaning(gs, dns, previous);
    TargetsAlike(gs, dns, EntriesOf(Latest(st.versions)), previous);
    NoTargetsNoChange(gs, dns, previous);
  }

  /** The targets do not depend on the order of the previous entries. */
  lemma TargetsAlike(gs: seq<RouteGroup>, dns: Dns, stored: seq<Entry>, previous: seq<Entry>)
    requires Permuted(stored, previous)
    ensures forall id :: Target(gs, dns, stored, id) == Target(gs, dns, previous, id)
    ensures TargetsDiffer(gs, dns, stored) <==> TargetsDiffer(gs, dns, previous)
    ensures SomeTarget(gs, dns, stored) <==> SomeTarget(gs, dns, previous)
  {
    hide RoutedFor, Permuted, AllClean, Raw, AcceptedAddresses, Keys, CidrsOf;
    PermutedAlike(stored, previous);
  }

  /** What was read is clean, and holds entries exactly if the current version does. */
  lemma ReadSound(st: RouteState, gs: seq<RouteGroup>, previous: seq<Entry>)
    requires Sound(st) && Enumerates(gs, st.groups) && Reads(previous, st)
    ensures DistinctIds(gs) && AllClean(previous)
    ensures Latest(st.versions).Some? ==> Latest(st.versions).value.number == |st.versions|
    ensures Latest(st.versions).None? <==> st.versions == []
    ensures st.versions == [] ==> previous == []
    ensures |previous| == |EntriesOf(Latest(st.versions))|
  {
    hide AllClean, Enumerates, DistinctIds, Latest, Permuted, Keys, CidrsOf, RoutedFor;
    EnumeratedSound(st, gs);
    CurrentClean(st);
    PermutedAlike(EntriesOf(Latest(st.versions)), previous);
  }

  lemma EnumeratedSound(st: RouteState, gs: seq<RouteGroup>)
    requires Sound(st) && Enumerates(gs, st.groups)
    ensures DistinctIds(gs) && AllClean(EntriesOf(Latest(st.versions)))
    ensures Latest(st.versions).Some? ==> Latest(st.versions).value.number == |st.versions|
    ensures Latest(st.versions).None? ==> st.versions == []
  {
    hide AllClean, Enumerates, DistinctIds, Latest;
    EnumeratedIds(gs, st.groups);
    CurrentClean(st);
  }

  lemma NoTargetsNoChange(gs: seq<RouteGroup>, dns: Dns, previous: seq<Entry>)
    requires AllClean(previous)
    ensures previous == [] && !SomeTarget(gs, dns, previous) ==> !TargetsDiffer(gs, dns, previous)
  {
    hide Target, RoutedFor, AllClean;
    EmptyMeaning(previous);
  }

  /**
   * The texts a new version lists for an enabled group, in order: the canonical list of the addresses
   * accepted or, if there are none, what was read as its previous list.
   */
  lemma PublishedTexts(st: RouteState, gs: seq<RouteGroup>, previous: seq<Entry>, dns: Dns, g: RouteGroup)
    requires Sound(st) && Enumerates(gs, st.groups) && Reads(previous, st) && g in gs
    requires Publish(st, gs, previous, dns).1.changed
    ensures var accepted := AcceptedAddresses(Raw(dns, g));
            var latest := Latest(Publish(st, gs, previous, dns).0.versions);
            && latest.Some?
            && CidrsOf(latest.value.entries, g.id) ==
               if accepted == iset{} then CidrsOf(previous, g.id) else Texts(Canon(accepted))
  {
    hide Sound, Enumerates, AllClean, Deduped, Resolved, Keys, Latest, DistinctIds, CidrsOf, AcceptedAddresses, Raw,
         Permuted, RoutedFor, GroupCidrs, Canon, Texts;
    ReadSound(st, gs, previous);
    PublishSound(st, gs, previous, dns);
    LatestPublished(st, gs, previous, dns);
    VersionsCurrent(Publish(st, gs, previous, dns).0);
    ResolvedExact(gs, dns, previous);
    ResolvedByGroup(gs, dns, previous, g.id);
    DistinctLookup(gs, g);
    GroupTexts(dns, g, previous);
  }

  lemma GroupTexts(dns: Dns, g: RouteGroup, previous: seq<Entry>)
    ensures var accepted := AcceptedAddresses(Raw(dns, g));
            GroupCidrs(dns, g, previous) ==
            if accepted == iset{} then CidrsOf(previous, g.id) else Texts(Canon(accepted))
  {
    hide Sanitized, AcceptedAddresses, Raw, CidrsOf, Canon, Texts, Clean, Coverage;
    FreshClean(dns, g);
    SanitizeExact(Raw(dns, g));
  }

  /** The outcome names the version that is current afterwards and counts its entries. */
  lemma OutcomeMeans(st: RouteState, gs: seq<RouteGroup>, previous: seq<Entry>, dns: Dns)
    requires Sound(st) && Enumerates(gs, st.groups) && Reads(previous, st)
    ensures var (after, outcome) := Publish(st, gs, previous, dns);
            && Latest(after.versions).Some?
            && outcome.version == Latest(after.versions).value.number
            && outcome.entryCount == |Latest(after.versions).value.entries|
            && outcome.changed == (after.versions != st.versions)
  {
    hide Sound, AllClean, Deduped, Resolved, Keys, Latest, DistinctIds, Enumerates, Permuted, NoBars, NoRepeats;
    ReadSound(st, gs, previous);
    PublishSound(st, gs, previous, dns);
    LatestPublished(st, gs, previous, dns);
    VersionsCurrent(st);
    VersionsCurrent(Publish(st, gs, previous, dns).0);
    DedupSize(Resolved(gs, dns, previous));
    DedupSize(previous);
    ResolvedExact(gs, dns, previous);
    CleanEntries(previous);
    DedupDropsNothing(previous);
  }

  lemma VersionsCurrent(st: RouteState)
    requires Sound(st)
    ensures Latest(st.versions) == if st.versions == [] then None else Some(st.versions[|st.versions| - 1])
    ensures st.versions != [] ==> st.versions[|st.versions| - 1].number == |st.versions|
  {
    hide AllClean, Latest;
    CurrentClean(st);
  }

  // ---------------------------------------------------------------- history

  /** A resolve keeps the numbering, the cleanness and the distinctness of versions. */
  lemma PublishSound(st: RouteState, gs: seq<RouteGroup>, previous: seq<Entry>, dns: Dns)
    requires Sound(st) && Enumerates(gs, st.groups) && Reads(previous, st)
    ensures Sound(Publish(st, gs, previous, dns).0)
  {
    hide GroupsOk, AllClean, Deduped, Resolved, RoutedFor, Target, Keys, Latest, TargetsDiffer, SomeTarget, DistinctIds,
         Enumerates, Differ, Permuted;
    ReadSound(st, gs, previous);
    CurrentClean(st);
    ResolvedMeaning(gs, dns, previous);
    DifferAlike(EntriesOf(Latest(st.versions)), previous, Deduped(Resolved(gs, dns, previous)));
  }

  lemma DifferAlike(stored: seq<Entry>, previous: seq<Entry>, es: seq<Entry>)
    requires Permuted(stored, previous)
    ensures Differ(stored, es) <==> Differ(previous, es)
  {
    hide RoutedFor, Permuted, AllClean, Keys, CidrsOf;
    PermutedAlike(stored, previous);
  }

  lemma UpsertSound(st: RouteState, key: string, name: string, domains: seq<string>, isEnabled: bool, newId: GroupId)
    requires Sound(st) && (forall k :: k in st.groups ==> st.groups[k].id != newId)
    ensures Sound(UpsertGroup(st, key, name, domains, isEnabled, newId))
  {
    hide History;
  }

  /**
   * An enabled group that routes something still does after a resolve, whatever the resolver answers;
   * if no answer is acceptable it keeps exactly its CIDRs.
   */
  lemma NoGroupLoss(st: RouteState, gs: seq<RouteGroup>, previous: seq<Entry>, dns: Dns, g: RouteGroup)
    requires Sound(st) && Enumerates(gs, st.groups) && Reads(previous, st) && g in gs
    requires CidrsOf(EntriesOf(Latest(st.versions)), g.id) != []
    ensures var stored := EntriesOf(Latest(st.versions));
            var after := EntriesOf(Latest(Publish(st, gs, previous, dns).0.versions));
            && CidrsOf(after, g.id) != []
            && (AcceptedAddresses(Raw(dns, g)) == iset{}
                ==> multiset(CidrsOf(after, g.id)) == multiset(CidrsOf(stored, g.id)))
  {
    hide Sound, Enumerates, AllClean, Deduped, Resolved, Keys, Latest, DistinctIds, CidrsOf, GroupCidrs,
         AcceptedAddresses, Raw, Permuted, RoutedFor;
    ReadSound(st, gs, previous);
    PublishSound(st, gs, previous, dns);
    LatestPublished(st, gs, previous, dns);
    ResolvedExact(gs, dns, previous);
    ResolvedByGroup(gs, dns, previous, g.id);
    DistinctLookup(gs, g);
    KeptOrFresh(dns, g, previous);
    NothingListed(g.id);
    SomeListed(EntriesOf(Latest(st.versions)), previous, g.id);
  }

  lemma SomeListed(stored: seq<Entry>, previous: seq<Entry>, id: GroupId)
    requires Permuted(stored, previous)
    ensures multiset(CidrsOf(stored, id)) == multiset(CidrsOf(previous, id))
    ensures CidrsOf(stored, id) == [] <==> CidrsOf(previous, id) == []
  {
    hide CidrsOf, Permuted, Keys, RoutedFor, AllClean, NoRepeats;
    PermutedAlike(stored, previous);
    PermutedTexts(CidrsOf(stored, id), CidrsOf(previous, id));
  }

  lemma NothingListed(id: GroupId)
    ensures CidrsOf([], id) == []
  {
  }

  lemma DistinctLookup(gs: seq<RouteGroup>, g: RouteGroup)
    requires DistinctIds(gs) && g in gs
    ensures GroupOf(gs, g.id) == Some(g)
  {
  }

  lemma KeptOrFresh(dns: Dns, g: RouteGroup, previous: seq<Entry>)
    ensures CidrsOf(previous, g.id) != [] ==> GroupCidrs(dns, g, previous) != []
    ensures AcceptedAddresses(Raw(dns, g)) == iset{} ==> GroupCidrs(dns, g, previous) == CidrsOf(previous, g.id)
  {
    hide Aggregated, Sanitized, AcceptedAddresses, Raw, CidrsOf, Clean, Coverage;
    FreshClean(dns, g);
  }

  lemma LatestPublished(st: RouteState, gs: seq<RouteGroup>, previous: seq<Entry>, dns: Dns)
    requires Sound(st) && Sound(Publish(st, gs, previous, dns).0)
    ensures var (after, outcome) := Publish(st, gs, previous, dns);
            EntriesOf(Latest(after.versions)) ==
            if outcome.changed then Deduped(Resolved(gs, dns, previous)) else EntriesOf(Latest(st.versions))
  {
    hide Latest, Resolved, Deduped, Keys, AllClean, Differ;
    CurrentClean(st);
    CurrentClean(Publish(st, gs, previous, dns).0);
  }

  // ---------------------------------------------------------------- runs

  datatype Op =
    | UpsertOp(key: string, name: string, domains: seq<string>, isEnabled: bool, newId: GroupId)
    | SetEnabledOp(key: string, isEnabled: bool)
    | ResolveOp(gs: seq<RouteGroup>, previous: seq<Entry>, dns: Dns)

  ghost function Step(st: RouteState, op: Op): (after: RouteState) {
    match op
    case UpsertOp(key, name, domains, isEnabled, newId) => UpsertGroup(st, key, name, domains, isEnabled, newId)
    case SetEnabledOp(key, isEnabled) => SetEnabled(st, key, isEnabled).0
    case ResolveOp(gs, previous, dns) => Publish(st, gs, previous, dns).0
  }

  ghost function Run(st: RouteState, ops: seq<Op>): (after: RouteState) {
    if ops == [] then st else Step(Run(st, ops[..|ops| - 1]), ops[|ops| - 1])
  }

  /** Generated ids are new, and a resolve reads the enabled groups and the current entries, in any order. */
  ghost predicate Allowed(st: RouteState, op: Op) {
    match op
    case UpsertOp(_, _, _, _, newId) => forall k :: k in st.groups ==> st.groups[k].id != newId
    case SetEnabledOp(_, _) => true
    case ResolveOp(gs, previous, _) => Enumerates(gs, st.groups) && Reads(previous, st)
  }

  ghost predicate AllowedRun(st: RouteState, ops: seq<Op>) {
    forall i :: 0 <= i < |ops| ==> Allowed(Run(st, ops[..i]), ops[i])
  }

  lemma StepSound(st: RouteState, op: Op)
    requires Sound(st) && Allowed(st, op)
    ensures Sound(Step(st, op)) && st.versions <= Step(st, op).versions
  {
    hide History, Latest, Resolved, Deduped, Keys, Enumerates;
    match op
    case UpsertOp(key, name, domains, isEnabled, newId) => UpsertSound(st, key, name, domains, isEnabled, newId);
    case SetEnabledOp(key, isEnabled) =>
    case ResolveOp(gs, previous, dns) => PublishSound(st, gs, previous, dns);
  }

  lemma AllowedPrefix(st: RouteState, ops: seq<Op>, n: nat)
    requires AllowedRun(st, ops) && n <= |ops|
    ensures AllowedRun(st, ops[..n])
  {
    hide Allowed, Step;
    forall i | 0 <= i < n
      ensures Allowed(Run(st, ops[..n][..i]), ops[..n][i])
    {
      assert ops[..n][..i] == ops[..i];
    }
  }

  /**
   * In every run versions are only ever appended and are numbered 1, 2, 3, ...; only the first can be
   * empty; neighbours route different addresses for some group; and every group's list is the
   * canonical list of its addresses, none of them reserved.
   */
  lemma {:induction false} RunSound(st: RouteState, ops: seq<Op>)
    requires Sound(st) && AllowedRun(st, ops)
    ensures Sound(Run(st, ops)) && st.versions <= Run(st, ops).versions
  {
    hide Sound, Allowed, Step, AllowedRun;
    if ops != [] {
      var n := |ops| - 1;
      AllowedPrefix(st, ops, n);
      RunSound(st, ops[..n]);
      LastAllowed(st, ops);
      StepSound(Run(st, ops[..n]), ops[n]);
    }
  }

  lemma LastAllowed(st: RouteState, ops: seq<Op>)
    requires AllowedRun(st, ops) && ops != []
    ensures Allowed(Run(st, ops[..|ops| - 1]), ops[|ops| - 1])
  {
    hide Allowed;
  }

  /** So it is for every run of a new installation. */
  lemma RunFromNothing(ops: seq<Op>)
    requires AllowedRun(RouteState(map[], []), ops)
    ensures Sound(Run(RouteState(map[], []), ops))
  {
    hide AllowedRun, Run;
    NothingSound();
    RunSound(RouteState(map[], []), ops);
  }

  lemma NothingSound()
    ensures Sound(RouteState(map[], []))
  {
  }

  /** Every resolve of the run finds the group enabled. */
  ghost predicate AlwaysEnabled(ops: seq<Op>, id: GroupId) {
    forall op :: op in ops && op.ResolveOp? ==> exists g :: g in op.gs && g.id == id
  }

  ghost predicate Keeps(versions: seq<Version>, from: nat, id: GroupId) {
    forall i :: from <= i < |versions| ==> CidrsOf(versions[i].entries, id) != []
  }

  /** A group enabled at every resolve, once it has entries, has entries in every later version. */
  lemma {:induction false} GroupNeverLost(st: RouteState, ops: seq<Op>, id: GroupId)
    requires Sound(st) && AllowedRun(st, ops) && AlwaysEnabled(ops, id)
    requires CidrsOf(EntriesOf(Latest(st.versions)), id) != []
    ensures Keeps(Run(st, ops).versions, |st.versions|, id)
    ensures CidrsOf(EntriesOf(Latest(Run(st, ops).versions)), id) != []
  {
    hide Sound, Allowed, AllowedRun, Latest, CidrsOf, Step, EntriesOf;
    if ops != [] {
      var n := |ops| - 1;
      var before := Run(st, ops[..n]);
      AllowedPrefix(st, ops, n);
      assert forall op :: op in ops[..n] ==> op in ops;
      GroupNeverLost(st, ops[..n], id);
      RunSound(st, ops[..n]);
      LastAllowed(st, ops);
      assert ops[n] in ops;
      StepKeeps(before, ops[n], |st.versions|, id);
    }
  }

  lemma StepKeeps(st: RouteState, op: Op, from: nat, id: GroupId)
    requires Sound(st) && Allowed(st, op) && Keeps(st.versions, from, id)
    requires op.ResolveOp? ==> exists g :: g in op.gs && g.id == id
    requires CidrsOf(EntriesOf(Latest(st.versions)), id) != []
    ensures Keeps(Step(st, op).versions, from, id)
    ensures CidrsOf(EntriesOf(Latest(Step(st, op).versions)), id) != []
  {
    hide Sound, CidrsOf, Latest, EntriesOf, Publish, Enumerates, AcceptedAddresses, Raw;
    if op.ResolveOp? {
      var g :| g in op.gs && g.id == id;
      NoGroupLoss(st, op.gs, op.previous, op.dns, g);
      StepSound(st, op);
      LatestKeeps(st, op, from, id);
    }
  }

  lemma LatestKeeps(st: RouteState, op: Op, from: nat, id: GroupId)
    requires Keeps(st.versions, from, id) && Sound(st) && op.ResolveOp? && Sound(Step(st, op))
    requires CidrsOf(EntriesOf(Latest(Step(st, op).versions)), id) != []
    ensures Keeps(Step(st, op).versions, from, id)
  {
    hide CidrsOf, Latest, Resolved, Deduped, Keys, AllClean, Differ;
    CurrentClean(Step(st, op));
  }
}
