/** The stateful peer service; each method is proved against its function in Peers. */
module PeersService {
  import opened Results
  import opened IpAlloc
  import opened Peers

  lemma AddressesNone(rows: map<PeerId, Peer>)
    ensures Elements([]) == AddressesOf(rows, {})
  {
  }

  lemma ActiveExists(rows: map<PeerId, Peer>, serverId: ServerId, id: PeerId)
    requires id in ActiveOn(rows, serverId)
    ensures id in rows
  {
  }

  lemma AddressesSnoc(rows: map<PeerId, Peer>, seen: set<PeerId>, id: PeerId, ips: seq<string>)
    requires Elements(ips) == AddressesOf(rows, seen)
    ensures id in rows && rows[id].assignedIp.Some?
            ==> Elements(ips + [rows[id].assignedIp.value]) == AddressesOf(rows, seen + {id})
    ensures id in rows && rows[id].assignedIp.None? ==> Elements(ips) == AddressesOf(rows, seen + {id})
  {
    if id in rows && rows[id].assignedIp.Some? {
      var ip := rows[id].assignedIp.value;
      assert AddressesOf(rows, seen + {id}) == AddressesOf(rows, seen) + {ip};
      assert Elements(ips + [ip]) == Elements(ips) + {ip};
    }
  }

  class Service {
    const net: Net
    var rows: map<PeerId, Peer>
    var agents: map<ServerId, PeerTable>

    constructor (net: Net)
      ensures this.net == net && State() == PeerState(map[], map[])
    {
      this.net, rows, agents := net, map[], map[];
    }

    ghost function State(): (st: PeerState)
      reads this
    {
      PeerState(rows, agents)
    }

    /** findMany of a server's active peers, mapped to their addresses without nulls. */
    method UsedIps(serverId: ServerId) returns (ips: seq<string>)
      ensures Elements(ips) == AddressesOf(rows, ActiveOn(rows, serverId))
    {
      hide ActiveOn, AddressesOf, Elements;
      var ids := ActiveOn(rows, serverId);
      ips := [];
      AddressesNone(rows);
      ghost var seen: set<PeerId> := {};
      while ids != {}
        invariant ids + seen == ActiveOn(rows, serverId)
        invariant Elements(ips) == AddressesOf(rows, seen)
        decreases |ids|
      {
        var id :| id in ids;
        AddressesSnoc(rows, seen, id, ips);
        ActiveExists(rows, serverId, id);
        ids := ids - {id};
        seen := seen + {id};
        if rows[id].assignedIp.Some? {
          ips := ips + [rows[id].assignedIp.value];
        }
      }
      assert seen == ActiveOn(rows, serverId);
    }

    /** AgentGatewayService.addPeer: the request may take effect, be confirmed, or neither. */
    method AddPeer(serverId: ServerId, server: Server, ip: string, key: Key, outcome: AgentOutcome) returns (ok: bool)
      modifies this`agents
      ensures agents == AfterAdd(old(agents), serverId, server, ip, key, outcome)
      ensures ok == Confirmed(server, outcome)
    {
      if !server.hasToken {
        return false;
      }
      if !outcome.NotAppliedError? {
        agents := agents[serverId := WgAdd(TableOf(agents, serverId), AllowedIp(ip), key)];
      }
      return outcome.AppliedOk?;
    }

    /** AgentGatewayService.removePeer with its error swallowed. */
    method RemovePeer(servers: map<ServerId, Server>, serverId: ServerId, key: Key, outcome: AgentOutcome)
      modifies this`agents
      ensures agents == AfterRemove(old(agents), servers, serverId, key, outcome)
    {
      if serverId in servers {
        var server := servers[serverId];
        if server.hasToken && !outcome.NotAppliedError? {
          agents := agents[serverId := WgRemove(TableOf(agents, serverId), key)];
        }
      }
    }

    method Create(
      ctx: Context, userId: UserId, serverId: ServerId, replacing: Option<PeerId>, supply: Supply, outcome: AgentOutcome)
      returns (r: Result<string, PeerError>)
      modifies this
      ensures (State(), r) == Peers.Create(old(State()), net, ctx, userId, serverId, replacing, supply, outcome)
    {
      hide ActiveOf, ActiveOn, AddressesOf, FirstFreeIp, AfterAdd, Confirmed, Elements;
      if ctx.subscription.None? {
        return Err(NoSubscription);
      }
      var tariff := ctx.subscription.value;
      var activePeers := |ActiveOf(rows, userId) - Replaced(replacing)|;
      if activePeers >= tariff.deviceLimit {
        return Err(DeviceLimit);
      }
      if serverId !in ctx.servers || !ctx.servers[serverId].isActive {
        return Err(ServerUnavailable);
      }
      var server := ctx.servers[serverId];
      if !server.registered {
        return Err(NotRegistered);
      }
      if tariff.allowedCountries != {} && server.countryId !in tariff.allowedCountries {
        return Err(CountryNotIncluded);
      }
      var capacityUsed := |ActiveOn(rows, serverId) - Replaced(replacing)|;
      if capacityUsed >= server.maxPeers {
        return Err(ServerFull);
      }
      var usedIps := UsedIps(serverId);
      var address := NextFreeIp(net.subnetCidr, net.serverAddress, usedIps);
      if address.Err? {
        return Err(Allocation(address.error));
      }
      var ok := AddPeer(serverId, server, address.value, supply.key, outcome);
      if !ok {
        return Err(AgentFailed);
      }
      rows := rows[supply.id := Peer(userId, serverId, supply.key, Some(address.value), Active)];
      return Ok(address.value);
    }

    /** The user's own active peer, or why there is none. */
    method LoadOwned(userId: UserId, peerId: PeerId) returns (r: Result<Peer, PeerError>)
      ensures r.Ok? <==> peerId in ActiveOf(rows, userId)
      ensures r.Ok? ==> r.value == rows[peerId]
      ensures r == Err(PeerRevoked) <==> peerId in OwnedBy(rows, userId) - ActiveOf(rows, userId)
      ensures r == Err(PeerNotFound) <==> peerId !in OwnedBy(rows, userId)
    {
      if peerId !in rows || rows[peerId].userId != userId {
        return Err(PeerNotFound);
      }
      if rows[peerId].status != Active {
        return Err(PeerRevoked);
      }
      return Ok(rows[peerId]);
    }

    method Revoke(ctx: Context, userId: UserId, peerId: PeerId, outcome: AgentOutcome) returns (r: Result<(), PeerError>)
      modifies this
      ensures (State(), r) == Peers.Revoke(old(State()), ctx, userId, peerId, outcome)
    {
      hide AfterRemove;
      var loaded := LoadOwned(userId, peerId);
      if loaded.Err? {
        return Err(loaded.error);
      }
      var peer := loaded.value;
      RemovePeer(ctx.servers, peer.serverId, peer.publicKey, outcome);
      rows := rows[peerId := peer.(status := Revoked, assignedIp := None)];
      return Ok(());
    }

    method Recreate(
      ctx: Context, userId: UserId, peerId: PeerId, supply: Supply, addOutcome: AgentOutcome, removeOutcome: AgentOutcome)
      returns (r: Result<string, PeerError>)
      modifies this
      ensures (State(), r) == Peers.Recreate(old(State()), net, ctx, userId, peerId, supply, addOutcome, removeOutcome)
    {
      hide Peers.Create, Peers.Revoke;
      var loaded := LoadOwned(userId, peerId);
      if loaded.Err? {
        return Err(loaded.error);
      }
      r := Create(ctx, userId, loaded.value.serverId, Some(peerId), supply, addOutcome);
      if r.Ok? {
        var revoked := Revoke(ctx, userId, peerId, removeOutcome);
        if revoked.Err? {
          return Err(revoked.error);
        }
      }
    }

    method AdminDelete(ctx: Context, peerId: PeerId, outcome: AgentOutcome) returns (r: Result<(), PeerError>)
      modifies this
      ensures (State(), r) == Peers.AdminDelete(old(State()), ctx, peerId, outcome)
    {
      hide AfterRemove;
      if peerId !in rows {
        return Err(PeerNotFound);
      }
      var peer := rows[peerId];
      if peer.status == Active {
        RemovePeer(ctx.servers, peer.serverId, peer.publicKey, outcome);
      }
      rows := rows - {peerId};
      return Ok(());
    }
  }
}
