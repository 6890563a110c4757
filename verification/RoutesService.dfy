/** The stateful route service; each method is proved against its function in Routes. */
module RoutesService {
  import opened Results
  import opened CidrUtil
  import opened RouteLists
  import opened Routes

  class Service {
    var groups: map<string, RouteGroup>
    var versions: seq<Version>

    constructor ()
      ensures State() == RouteState(map[], [])
    {
      groups, versions := map[], [];
    }

    ghost function State(): (st: RouteState)
      reads this
    {
      RouteState(groups, versions)
    }

    method UpsertGroup(key: string, name: string, domains: seq<string>, isEnabled: bool, newId: GroupId)
      modifies this
      ensures State() == Routes.UpsertGroup(old(State()), key, name, domains, isEnabled, newId)
    {
      if key in groups {
        groups := groups[key := groups[key].(name := name, domains := domains, isEnabled := isEnabled)];
      } else {
        groups := groups[key := RouteGroup(newId, name, domains, isEnabled)];
      }
    }

    method SetEnabled(key: string, isEnabled: bool) returns (r: Result<(), RouteError>)
      modifies this
      ensures (State(), r) == Routes.SetEnabled(old(State()), key, isEnabled)
    {
      if key !in groups {
        return Err(GroupNotFound);
      }
      groups := groups[key := groups[key].(isEnabled := isEnabled)];
      return Ok(());
    }

    /** findMany of the enabled groups, in whatever order. */
    method FindEnabled() returns (gs: seq<RouteGroup>)
      requires GroupsOk(groups)
      ensures Enumerates(gs, groups)
      ensures forall g :: g in gs <==> g.isEnabled && exists key :: key in groups && groups[key] == g
    {
      hide Lists, Enumerates, GroupsOk;
      var keys := groups.Keys;
      ghost var seen: set<string> := {};
      gs := [];
      ListsNone(groups);
      while keys != {}
        invariant keys + seen == groups.Keys && keys !! seen
        invariant Lists(gs, groups, seen)
        decreases |keys|
      {
        var key :| key in keys;
        ListsOneMore(gs, groups, seen, key);
        keys := keys - {key};
        if groups[key].isEnabled {
          gs := gs + [groups[key]];
        }
        seen := seen + {key};
      }
      assert seen == groups.Keys;
      ListsAll(gs, groups);
    }

    /** findFirst of the greatest version, its entries in whatever order. */
    method GetCurrentVersion() returns (current: Option<Version>, entries: seq<Entry>)
      ensures current == Latest(versions)
      ensures Reads(entries, State())
    {
      hide Latest;
      current := Latest(versions);
      var left := multiset(EntriesOf(current));
      entries := [];
      while left != multiset{}
        invariant left + multiset(entries) == multiset(EntriesOf(current))
        decreases |left|
      {
        var e :| e in left;
        left := left - multiset{e};
        entries := entries + [e];
      }
    }

    /** One resolve; gs and previous are the orders in which groups and entries were read. */
    method ResolveAndPublish(dns: Dns)
      returns (outcome: Outcome, ghost gs: seq<RouteGroup>, ghost previous: seq<Entry>)
      requires GroupsOk(groups)
      modifies this`versions
      ensures Enumerates(gs, groups) && Reads(previous, old(State()))
      ensures (State(), outcome) == Publish(old(State()), gs, previous, dns)
    {
      hide Latest, Keys, Deduped, Resolved, Enumerates, Permuted;
      var enabled := FindEnabled();
      gs := enabled;
      var current, entries := GetCurrentVersion();
      previous := entries;
      NoneRead(old(State()), entries);
      var prevByGroup := PreviousByGroup(entries);
      var resolved := ResolveGroups(enabled, dns, prevByGroup, entries);
      var unique := Dedup(resolved);
      if |unique| == 0 && |entries| > 0 {
        return Outcome(current.value.number, |entries|, false), gs, previous;
      }
      var currentSet := Keys(entries);
      var newSet := Keys(unique);
      var changed := |currentSet| != |newSet| || !(newSet <= currentSet);
      SameSize(newSet, currentSet);
      if !changed && current.Some? {
        return Outcome(current.value.number, |unique|, false), gs, previous;
      }
      var nextVersion := (if current.Some? then current.value.number else 0) + 1;
      versions := versions + [Version(nextVersion, unique)];
      return Outcome(nextVersion, |unique|, true), gs, previous;
    }
  }

  /** gs lists the enabled groups among the keys already seen. */
  ghost predicate Lists(gs: seq<RouteGroup>, groups: map<string, RouteGroup>, seen: set<string>) {
    && (forall g :: g in gs ==> g.isEnabled && exists key :: key in seen && key in groups && groups[key] == g)
    && (forall key :: key in seen && key in groups && groups[key].isEnabled ==> groups[key] in gs)
    && (forall i, j :: 0 <= i < j < |gs| ==> gs[i] != gs[j])
  }

  lemma ListsNone(groups: map<string, RouteGroup>)
    ensures Lists([], groups, {})
  {
  }

  lemma ListsOneMore(gs: seq<RouteGroup>, groups: map<string, RouteGroup>, seen: set<string>, key: string)
    requires Lists(gs, groups, seen) && GroupsOk(groups) && key in groups && key !in seen
    ensures groups[key].isEnabled ==> Lists(gs + [groups[key]], groups, seen + {key})
    ensures !groups[key].isEnabled ==> Lists(gs, groups, seen + {key})
  {
    assert groups[key] !in gs;
  }

  lemma ListsAll(gs: seq<RouteGroup>, groups: map<string, RouteGroup>)
    requires Lists(gs, groups, groups.Keys)
    ensures Enumerates(gs, groups)
    ensures forall g :: g in gs <==> g.isEnabled && exists key :: key in groups && groups[key] == g
  {
  }

  lemma NoneRead(st: RouteState, entries: seq<Entry>)
    requires Reads(entries, st)
    ensures entries != [] ==> Latest(st.versions).Some?
  {
    assert entries != [] ==> entries[0] in multiset(entries);
  }

  lemma SameSize(s: set<string>, t: set<string>)
    ensures |t| != |s| || !(s <= t) <==> s != t
  {
    if s <= t && |t| == |s| {
      assert |t - s| == 0;
    }
  }

  ghost predicate Indexes(prevByGroup: map<GroupId, seq<string>>, entries: seq<Entry>) {
    forall id :: CidrsOf(entries, id) == if id in prevByGroup then prevByGroup[id] else []
  }

  /** The CIDRs of the current version, indexed by group. */
  method PreviousByGroup(entries: seq<Entry>) returns (prevByGroup: map<GroupId, seq<string>>)
    ensures Indexes(prevByGroup, entries)
  {
    prevByGroup := map[];
    for i := 0 to |entries|
      invariant Indexes(prevByGroup, entries[..i])
    {
      var e := entries[i];
      assert entries[..i + 1][..i] == entries[..i];
      var list := if e.group in prevByGroup then prevByGroup[e.group] else [];
      prevByGroup := prevByGroup[e.group := list + [e.cidr]];
    }
    assert entries[..|entries|] == entries;
  }

  method RawCidrs(g: RouteGroup, dns: Dns) returns (rawCidrs: seq<string>)
    ensures rawCidrs == Raw(dns, g)
  {
    rawCidrs := [];
    for i := 0 to |g.domains|
      invariant rawCidrs == Answers(dns, g, i)
    {
      rawCidrs := rawCidrs + HostCidrs(dns(g.id, i, g.domains[i]));
    }
  }

  /** Each group resolved on its own, with the fallback to its previous CIDRs. */
  method ResolveGroups(
    gs: seq<RouteGroup>, dns: Dns, prevByGroup: map<GroupId, seq<string>>, ghost previous: seq<Entry>)
    returns (resolved: seq<Entry>)
    requires Indexes(prevByGroup, previous)
    ensures resolved == Resolved(gs, dns, previous)
  {
    hide Aggregated, Sanitized, Raw, CidrsOf, Tagged;
    resolved := [];
    for i := 0 to |gs|
      invariant resolved == Resolved(gs[..i], dns, previous)
    {
      var group := gs[i];
      var rawCidrs := RawCidrs(group, dns);
      var sanitized := SanitizeCidrs(rawCidrs);
      var groupCidrs := AggregateCidrs(sanitized);
      if |groupCidrs| == 0 {
        if group.id in prevByGroup && |prevByGroup[group.id]| > 0 {
          groupCidrs := prevByGroup[group.id];
        }
      }
      assert gs[..i + 1][..i] == gs[..i];
      resolved := resolved + Tagged(group.id, groupCidrs);
    }
    assert gs[..|gs|] == gs;
  }

  /** resolved.filter(...) with a set of the keys seen so far. */
  method Dedup(resolved: seq<Entry>) returns (unique: seq<Entry>)
    ensures unique == Deduped(resolved)
  {
    hide EntryKey;
    var seen: set<string> := {};
    unique := [];
    for i := 0 to |resolved|
      invariant seen == Keys(resolved[..i])
      invariant unique == Deduped(resolved[..i])
    {
      var k := EntryKey(resolved[i]);
      assert resolved[..i + 1][..i] == resolved[..i];
      assert resolved[..i + 1] == resolved[..i] + [resolved[i]];
      if k !in seen {
        unique := unique + [resolved[i]];
        seen := seen + {k};
      }
    }
    assert resolved[..|resolved|] == resolved;
  }
}
