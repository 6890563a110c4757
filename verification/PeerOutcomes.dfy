/**
 * What each call of the peer service does, stated on the rows, the agents' tables and the result: for
 * every outcome, on any rows, whether or not the invariant holds.
 */
module PeerOutcomes {
  import opened Results
  import opened IpAlloc
  import opened Peers
  import Bits
  import CidrText

  // ---------------------------------------------------------------- agents' tables

  /** What a table holds for an address. */
  function At(agents: map<ServerId, PeerTable>, serverId: ServerId, address: string): (key: Option<Key>) {
    if serverId in agents && address in agents[serverId] then Some(agents[serverId][address]) else None
  }

  /** The key holds exactly the address; other keys keep all their other addresses; other servers are untouched. */
  ghost predicate KeySet(
    agents: map<ServerId, PeerTable>, after: map<ServerId, PeerTable>, serverId: ServerId, address: string, key: Key)
  {
    && (forall a :: At(after, serverId, a) ==
          if a == address then Some(key)
          else if At(agents, serverId, a) == Some(key) then None
          else At(agents, serverId, a))
    && (forall s, a :: s != serverId ==> At(after, s, a) == At(agents, s, a))
  }

  /** The key holds nothing; other keys keep all their addresses; other servers are untouched. */
  ghost predicate KeyDropped(
    agents: map<ServerId, PeerTable>, after: map<ServerId, PeerTable>, serverId: ServerId, key: Key)
  {
    && (forall a :: At(after, serverId, a) ==
          if At(agents, serverId, a) == Some(key) then None else At(agents, serverId, a))
    && (forall s, a :: s != serverId ==> At(after, s, a) == At(agents, s, a))
  }

  /** The request is sent when there is a token, and takes effect unless it was not applied. */
  lemma AddMeans(
    agents: map<ServerId, PeerTable>, serverId: ServerId, server: Server, ip: string, key: Key, outcome: AgentOutcome)
    ensures var after := AfterAdd(agents, serverId, server, ip, key, outcome);
            && (server.hasToken && outcome != NotAppliedError ==> KeySet(agents, after, serverId, ip + "/32", key))
            && (!server.hasToken || outcome == NotAppliedError ==> after == agents)
  {
  }

  /** Likewise for a removal, which also needs the server's row. */
  lemma RemoveMeans(
    agents: map<ServerId, PeerTable>, servers: map<ServerId, Server>, serverId: ServerId, key: Key, outcome: AgentOutcome)
    ensures var after := AfterRemove(agents, servers, serverId, key, outcome);
            var reached := serverId in servers && servers[serverId].hasToken && outcome != NotAppliedError;
            && (reached ==> KeyDropped(agents, after, serverId, key))
            && (!reached ==> after == agents)
  {
  }

  // ---------------------------------------------------------------- create

  /** The user's active peers, without the one being replaced. */
  function Devices(rows: map<PeerId, Peer>, userId: UserId, replacing: Option<PeerId>): (ids: set<PeerId>) {
    set id | id in rows && rows[id].userId == userId && rows[id].status == Active && replacing != Some(id)
  }

  /** The server's active peers, without the one being replaced. */
  function Seats(rows: map<PeerId, Peer>, serverId: ServerId, replacing: Option<PeerId>): (ids: set<PeerId>) {
    set id | id in rows && rows[id].serverId == serverId && rows[id].status == Active && replacing != Some(id)
  }

  /** Some active peer of the server holds the address. */
  predicate Held(rows: map<PeerId, Peer>, serverId: ServerId, ip: string) {
    exists id :: id in rows
      && rows[id].serverId == serverId && rows[id].status == Active && rows[id].assignedIp == Some(ip)
  }

  /** used is the set of addresses held on the server. */
  ghost predicate AllHeld(used: set<string>, rows: map<PeerId, Peer>, serverId: ServerId) {
    forall ip :: ip in used <==> Held(rows, serverId, ip)
  }

  lemma CountsMean(rows: map<PeerId, Peer>, userId: UserId, serverId: ServerId, replacing: Option<PeerId>)
    ensures ActiveOf(rows, userId) - Replaced(replacing) == Devices(rows, userId, replacing)
    ensures ActiveOn(rows, serverId) - Replaced(replacing) == Seats(rows, serverId, replacing)
    ensures AllHeld(AddressesOf(rows, ActiveOn(rows, serverId)), rows, serverId)
  {
    var used := AddressesOf(rows, ActiveOn(rows, serverId));
    forall ip
      ensures ip in used <==> Held(rows, serverId, ip)
    {
      if Held(rows, serverId, ip) {
        var id :| id in rows
          && rows[id].serverId == serverId && rows[id].status == Active && rows[id].assignedIp == Some(ip);
        assert id in ActiveOn(rows, serverId);
      }
    }
  }

  /** The checks of create in the order in which they are made. */
  datatype Checks = Checks(
    subscribed: bool, underDeviceLimit: bool, serverUp: bool, registered: bool, countryAllowed: bool, seatFree: bool)

  function ChecksOf(
    rows: map<PeerId, Peer>, ctx: Context, userId: UserId, serverId: ServerId, replacing: Option<PeerId>): (c: Checks)
  {
    var known := serverId in ctx.servers;
    Checks(
      ctx.subscription.Some?,
      ctx.subscription.Some? && |Devices(rows, userId, replacing)| < ctx.subscription.value.deviceLimit,
      known && ctx.servers[serverId].isActive,
      known && ctx.servers[serverId].registered,
      known && ctx.subscription.Some?
      && (ctx.subscription.value.allowedCountries == {}
          || ctx.servers[serverId].countryId in ctx.subscription.value.allowedCountries),
      known && |Seats(rows, serverId, replacing)| < ctx.servers[serverId].maxPeers)
  }

  /** The error of the first check that fails. */
  function FirstFailure(c: Checks): (e: Option<PeerError>) {
    if !c.subscribed then Some(NoSubscription)
    else if !c.underDeviceLimit then Some(DeviceLimit)
    else if !c.serverUp then Some(ServerUnavailable)
    else if !c.registered then Some(NotRegistered)
    else if !c.countryAllowed then Some(CountryNotIncluded)
    else if !c.seatFree then Some(ServerFull)
    else None
  }

  /**
   * Create is refused with the first check that fails, then for want of an address, then when the
   * agent does not confirm. It grants the address that allocation gives for those held on the server.
   * The row is inserted only on success; the agent's table changes whenever the request took effect.
   */
  lemma CreateMeans(
    st: PeerState, net: Net, ctx: Context, userId: UserId, serverId: ServerId, replacing: Option<PeerId>,
    supply: Supply, outcome: AgentOutcome, used: set<string>)
    requires AllHeld(used, st.rows, serverId)
    ensures var (after, r) := Create(st, net, ctx, userId, serverId, replacing, supply, outcome);
            var failure := FirstFailure(ChecksOf(st.rows, ctx, userId, serverId, replacing));
            var ip := FirstFreeIp(net.subnetCidr, net.serverAddress, used);
            && (failure.Some? ==> r == Err(failure.value) && after == st)
            && (failure.None? && ip.Err? ==> r == Err(Allocation(ip.error)) && after == st)
            && (failure.None? && ip.Ok? ==>
                  && serverId in ctx.servers
                  && var sent := ctx.servers[serverId].hasToken && outcome != NotAppliedError;
                     var confirmed := ctx.servers[serverId].hasToken && outcome == AppliedOk;
                  && r == (if confirmed then Ok(ip.value) else Err(AgentFailed))
                  && after.rows == (if confirmed
                                    then st.rows[supply.id := Peer(userId, serverId, supply.key, Some(ip.value), Active)]
                                    else st.rows)
                  && (sent ==> KeySet(st.agents, after.agents, serverId, ip.value + "/32", supply.key))
                  && (!sent ==> after.agents == st.agents))
  {
    hide ActiveOf, ActiveOn, AddressesOf, Replaced, FirstFreeIp, Devices, Seats, Held, KeySet, AfterAdd, Admit;
    CountsMean(st.rows, userId, serverId, replacing);
    assert used == AddressesOf(st.rows, ActiveOn(st.rows, serverId));
    AdmitMeans(st.rows, net, ctx, userId, serverId, replacing, used);
    if serverId in ctx.servers && FirstFreeIp(net.subnetCidr, net.serverAddress, used).Ok? {
      AddMeans(st.agents, serverId, ctx.servers[serverId],
               FirstFreeIp(net.subnetCidr, net.serverAddress, used).value, supply.key, outcome);
    }
  }

  /** The address granted is the least host that is neither the server nor held on it, printed. */
  lemma CreateGrantsLeast(
    st: PeerState, net: Net, ctx: Context, userId: UserId, serverId: ServerId, replacing: Option<PeerId>,
    supply: Supply, outcome: AgentOutcome, used: set<string>)
    requires AllHeld(used, st.rows, serverId)
    requires Create(st, net, ctx, userId, serverId, replacing, supply, outcome).1.Ok?
    ensures ParseSubnet(net.subnetCidr).Some? && IpToWord(HostPart(net.serverAddress)).Some?
    ensures var s, server := ParseSubnet(net.subnetCidr).value, IpToWord(HostPart(net.serverAddress)).value;
            exists h: Bits.Word ::
              && IsLeastFree(s, server, used, h)
              && Create(st, net, ctx, userId, serverId, replacing, supply, outcome).1.value == CidrText.IntToIp(h)
  {
    hide FirstFreeIp, ParseSubnet, IpToWord, HostPart, IsLeastFree, Taken, SomeMalformed, Create, ChecksOf, AllHeld,
         CidrText.IntToIp;
    CreateMeans(st, net, ctx, userId, serverId, replacing, supply, outcome, used);
    AllocationMeans(net.subnetCidr, net.serverAddress, used);
  }

  lemma AdmitMeans(
    rows: map<PeerId, Peer>, net: Net, ctx: Context, userId: UserId, serverId: ServerId, replacing: Option<PeerId>,
    used: set<string>)
    requires used == AddressesOf(rows, ActiveOn(rows, serverId))
    ensures var failure := FirstFailure(ChecksOf(rows, ctx, userId, serverId, replacing));
            var ip := FirstFreeIp(net.subnetCidr, net.serverAddress, used);
            && (failure.None? ==> serverId in ctx.servers)
            && Admit(rows, net, ctx, userId, serverId, replacing) ==
               if failure.Some? then Err(failure.value)
               else if ip.Err? then Err(Allocation(ip.error))
               else Ok(ip.value)
  {
    hide ActiveOf, ActiveOn, AddressesOf, Replaced, FirstFreeIp, Devices, Seats, AllHeld;
    CountsMean(rows, userId, serverId, replacing);
  }

  // ---------------------------------------------------------------- release

  /**
   * Revoking a user's active peer succeeds, marks the row, frees its address and keeps everything else
   * of it and all other rows; the agent's table changes if the removal took effect.
   */
  lemma RevokeMeans(st: PeerState, ctx: Context, peerId: PeerId, outcome: AgentOutcome)
    requires peerId in st.rows && st.rows[peerId].status == Active
    ensures var was := st.rows[peerId];
            var (after, r) := Revoke(st, ctx, was.userId, peerId, outcome);
            var reached :=
              was.serverId in ctx.servers && ctx.servers[was.serverId].hasToken && outcome != NotAppliedError;
            && r == Ok(())
            && after.rows == st.rows[peerId := Peer(was.userId, was.serverId, was.publicKey, None, Revoked)]
            && (reached ==> KeyDropped(st.agents, after.agents, was.serverId, was.publicKey))
            && (!reached ==> after.agents == st.agents)
  {
    hide AfterRemove, KeyDropped;
    var was := st.rows[peerId];
    RemoveMeans(st.agents, ctx.servers, was.serverId, was.publicKey, outcome);
  }

  /**
   * Deleting a peer removes its row whatever its status, and no other row; the agent is asked only for
   * an active one. For an unknown peer nothing changes.
   */
  lemma AdminDeleteMeans(st: PeerState, ctx: Context, peerId: PeerId, outcome: AgentOutcome)
    ensures var (after, r) := AdminDelete(st, ctx, peerId, outcome);
            && (peerId !in st.rows ==> r == Err(PeerNotFound) && after == st)
            && (peerId in st.rows ==>
                  var was := st.rows[peerId];
                  var reached := was.status == Active
                    && was.serverId in ctx.servers && ctx.servers[was.serverId].hasToken && outcome != NotAppliedError;
                  && r == Ok(())
                  && after.rows.Keys == st.rows.Keys - {peerId}
                  && (forall id :: id in after.rows ==> after.rows[id] == st.rows[id])
                  && (reached ==> KeyDropped(st.agents, after.agents, was.serverId, was.publicKey))
                  && (!reached ==> after.agents == st.agents))
  {
    hide AfterRemove, KeyDropped;
    if peerId in st.rows {
      var was := st.rows[peerId];
      RemoveMeans(st.agents, ctx.servers, was.serverId, was.publicKey, outcome);
    }
  }

  /**
   * Recreating a user's active peer creates one on the same server, not counting the old one, and
   * revokes the old one exactly if that succeeds.
   */
  lemma RecreateMeans(
    st: PeerState, net: Net, ctx: Context, peerId: PeerId, supply: Supply,
    addOutcome: AgentOutcome, removeOutcome: AgentOutcome)
    requires peerId in st.rows && st.rows[peerId].status == Active && Fresh(st, supply)
    ensures var was := st.rows[peerId];
            var (created, r) := Create(st, net, ctx, was.userId, was.serverId, Some(peerId), supply, addOutcome);
            Recreate(st, net, ctx, was.userId, peerId, supply, addOutcome, removeOutcome) ==
            if r.Err? then (created, r)
            else (Revoke(created, ctx, was.userId, peerId, removeOutcome).0, r)
  {
    hide Admit, AfterAdd, AfterRemove, Confirmed;
  }
}
