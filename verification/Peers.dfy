/**
 * apps/api/src/peers/peers.service.ts: the peer rows of the panel and the peer tables of the remote
 * WireGuard agents, kept in step although any agent call may fail with or without its effect.
 *
 * The operations are specified as functions on a PeerState; PeersService is the stateful service
 * and each of its methods is proved against its function.
 */
module Peers {
  import opened Results
  import opened Sets
  import opened CidrText
  import opened IpAlloc
  import Bits

  type PeerId = nat
  type UserId = string
  type ServerId = string
  type Key = nat

  datatype PeerStatus = Active | Revoked

  datatype Peer = Peer(
    userId: UserId, serverId: ServerId, publicKey: Key, assignedIp: Option<string>, status: PeerStatus)

  datatype Server = Server(isActive: bool, registered: bool, hasToken: bool, countryId: string, maxPeers: nat)

  datatype Tariff = Tariff(deviceLimit: nat, allowedCountries: set<string>)

  /** WG_SUBNET_CIDR and WG_SERVER_ADDRESS. */
  datatype Net = Net(subnetCidr: string, serverAddress: string)

  /** What a call reads besides the peers: the server table and the user's active subscription. */
  datatype Context = Context(servers: map<ServerId, Server>, subscription: Option<Tariff>)

  /** How a request to an agent may end; a request without an agent token is never sent. */
  datatype AgentOutcome = AppliedOk | AppliedError | NotAppliedError

  /** Allowed address to public key, the last writer winning. */
  type PeerTable = map<string, Key>

  datatype PeerState = PeerState(rows: map<PeerId, Peer>, agents: map<ServerId, PeerTable>)

  datatype PeerError =
    | NoSubscription | DeviceLimit | ServerUnavailable | NotRegistered | CountryNotIncluded | ServerFull
    | Allocation(error: AllocError) | AgentFailed | PeerNotFound | PeerRevoked

  // ---------------------------------------------------------------- agents

  function AllowedIp(ip: string): (address: string) {
    ip + "/32"
  }

  function TableOf(agents: map<ServerId, PeerTable>, serverId: ServerId): (t: PeerTable) {
    if serverId in agents then agents[serverId] else map[]
  }

  /** wg set peer KEY remove */
  function WgRemove(table: PeerTable, key: Key): (t: PeerTable) {
    map a | a in table && table[a] != key :: table[a]
  }

  /** wg set peer KEY allowed-ips ADDRESS */
  function WgAdd(table: PeerTable, address: string, key: Key): (t: PeerTable) {
    WgRemove(table, key)[address := key]
  }

  predicate Reached(server: Server, outcome: AgentOutcome) {
    server.hasToken && !outcome.NotAppliedError?
  }

  predicate Confirmed(server: Server, outcome: AgentOutcome) {
    server.hasToken && outcome.AppliedOk?
  }

  function AfterAdd(
    agents: map<ServerId, PeerTable>, serverId: ServerId, server: Server, ip: string, key: Key, outcome: AgentOutcome)
    : (after: map<ServerId, PeerTable>)
  {
    if Reached(server, outcome)
    then agents[serverId := WgAdd(TableOf(agents, serverId), AllowedIp(ip), key)]
    else agents
  }

  /** A removal whose failure is tolerated; nothing is sent when the server row is gone. */
  function AfterRemove(
    agents: map<ServerId, PeerTable>, servers: map<ServerId, Server>, serverId: ServerId, key: Key, outcome: AgentOutcome)
    : (after: map<ServerId, PeerTable>)
  {
    if serverId in servers && Reached(servers[serverId], outcome)
    then agents[serverId := WgRemove(TableOf(agents, serverId), key)]
    else agents
  }

  // ---------------------------------------------------------------- queries

  function ActiveOf(rows: map<PeerId, Peer>, userId: UserId): (ids: set<PeerId>) {
    set id | id in rows && rows[id].userId == userId && rows[id].status == Active
  }

  function ActiveOn(rows: map<PeerId, Peer>, serverId: ServerId): (ids: set<PeerId>) {
    set id | id in rows && rows[id].serverId == serverId && rows[id].status == Active
  }

  function AddressesOf(rows: map<PeerId, Peer>, ids: set<PeerId>): (ips: set<string>) {
    set id | id in ids && id in rows && rows[id].assignedIp.Some? :: rows[id].assignedIp.value
  }

  function Replaced(replacing: Option<PeerId>): (ids: set<PeerId>) {
    if replacing.Some? then {replacing.value} else {}
  }

  // ---------------------------------------------------------------- operations

  /** The checks of create, in order, ending in the address for the new peer. */
  function Admit(
    rows: map<PeerId, Peer>, net: Net, ctx: Context, userId: UserId, serverId: ServerId, replacing: Option<PeerId>)
    : (r: Result<string, PeerError>)
  {
    if ctx.subscription.None? then Err(NoSubscription)
    else if |ActiveOf(rows, userId) - Replaced(replacing)| >= ctx.subscription.value.deviceLimit then Err(DeviceLimit)
    else if serverId !in ctx.servers || !ctx.servers[serverId].isActive then Err(ServerUnavailable)
    else if !ctx.servers[serverId].registered then Err(NotRegistered)
    else if ctx.subscription.value.allowedCountries != {}
         && ctx.servers[serverId].countryId !in ctx.subscription.value.allowedCountries then Err(CountryNotIncluded)
    else if |ActiveOn(rows, serverId) - Replaced(replacing)| >= ctx.servers[serverId].maxPeers then Err(ServerFull)
    else
      match FirstFreeIp(net.subnetCidr, net.serverAddress, AddressesOf(rows, ActiveOn(rows, serverId)))
      case Ok(ip) => Ok(ip)
      case Err(e) => Err(Allocation(e))
  }

  /** The row id and key pair generated for a new peer. */
  datatype Supply = Supply(id: PeerId, key: Key)

  function Create(
    st: PeerState, net: Net, ctx: Context, userId: UserId, serverId: ServerId, replacing: Option<PeerId>,
    supply: Supply, outcome: AgentOutcome)
    : (r: (PeerState, Result<string, PeerError>))
  {
    match Admit(st.rows, net, ctx, userId, serverId, replacing)
    case Err(e) => (st, Err(e))
    case Ok(ip) =>
      var server := ctx.servers[serverId];
      var agents := AfterAdd(st.agents, serverId, server, ip, supply.key, outcome);
      if Confirmed(server, outcome)
      then (PeerState(st.rows[supply.id := Peer(userId, serverId, supply.key, Some(ip), Active)], agents), Ok(ip))
      else (st.(agents := agents), Err(AgentFailed))
  }

  function LoadOwned(rows: map<PeerId, Peer>, userId: UserId, peerId: PeerId): (r: Result<Peer, PeerError>) {
    if peerId !in rows || rows[peerId].userId != userId then Err(PeerNotFound)
    else if rows[peerId].status != Active then Err(PeerRevoked)
    else Ok(rows[peerId])
  }

  function Revoke(st: PeerState, ctx: Context, userId: UserId, peerId: PeerId, outcome: AgentOutcome)
    : (r: (PeerState, Result<(), PeerError>))
  {
    match LoadOwned(st.rows, userId, peerId)
    case Err(e) => (st, Err(e))
    case Ok(peer) =>
      (PeerState(
         st.rows[peerId := peer.(status := Revoked, assignedIp := None)],
         AfterRemove(st.agents, ctx.servers, peer.serverId, peer.publicKey, outcome)),
       Ok(()))
  }

  /** A new peer on the same server, then the old one revoked. */
  function Recreate(
    st: PeerState, net: Net, ctx: Context, userId: UserId, peerId: PeerId, supply: Supply,
    addOutcome: AgentOutcome, removeOutcome: AgentOutcome)
    : (r: (PeerState, Result<string, PeerError>))
  {
    match LoadOwned(st.rows, userId, peerId)
    case Err(e) => (st, Err(e))
    case Ok(peer) =>
      var (created, result) := Create(st, net, ctx, userId, peer.serverId, Some(peerId), supply, addOutcome);
      if result.Err? then (created, result)
      else
        var (revoked, second) := Revoke(created, ctx, userId, peerId, removeOutcome);
        (revoked, if second.Err? then Err(second.error) else result)
  }

  function AdminDelete(st: PeerState, ctx: Context, peerId: PeerId, outcome: AgentOutcome)
    : (r: (PeerState, Result<(), PeerError>))
  {
    if peerId !in st.rows then (st, Err(PeerNotFound))
    else
      var peer := st.rows[peerId];
      var agents :=
        if peer.status == Active
        then AfterRemove(st.agents, ctx.servers, peer.serverId, peer.publicKey, outcome)
        else st.agents;
      (PeerState(st.rows - {peerId}, agents), Ok(()))
  }

  // ---------------------------------------------------------------- the invariant

  ghost predicate InPool(net: Net, ip: string) {
    Assignable(net.subnetCidr, net.serverAddress, ip)
  }

  /** The agent sends traffic for the peer's address to the peer's own key. */
  predicate Routed(agents: map<ServerId, PeerTable>, peer: Peer)
    requires peer.assignedIp.Some?
  {
    var table := TableOf(agents, peer.serverId);
    AllowedIp(peer.assignedIp.value) in table && table[AllowedIp(peer.assignedIp.value)] == peer.publicKey
  }

  /** A revoked peer holds no address; an active one holds a pool address that routes to its key. */
  ghost predicate RowOk(net: Net, agents: map<ServerId, PeerTable>, peer: Peer) {
    match peer.status
    case Revoked => peer.assignedIp.None?
    case Active => peer.assignedIp.Some? && InPool(net, peer.assignedIp.value) && Routed(agents, peer)
  }

  /** The two unique constraints of the peer table, for one pair of rows. */
  predicate Apart(p: Peer, q: Peer) {
    && p.publicKey != q.publicKey
    && (p.serverId == q.serverId && p.assignedIp.Some? && q.assignedIp.Some? ==> p.assignedIp != q.assignedIp)
  }

  predicate UniqueRows(rows: map<PeerId, Peer>) {
    forall id, other :: id in rows && other in rows && id != other ==> Apart(rows[id], rows[other])
  }

  ghost predicate Consistent(st: PeerState, net: Net) {
    && UniqueRows(st.rows)
    && forall id :: id in st.rows ==> RowOk(net, st.agents, st.rows[id])
  }

  /** The generated row id and key were never used before. */
  predicate Fresh(st: PeerState, supply: Supply) {
    && supply.id !in st.rows
    && (forall id :: id in st.rows ==> st.rows[id].publicKey != supply.key)
  }

  // ---------------------------------------------------------------- every operation keeps it

  lemma AllowedIpInjective(a: string, b: string)
    ensures AllowedIp(a) == AllowedIp(b) ==> a == b
  {
    assert AllowedIp(a)[..|AllowedIp(a)| - 3] == a;
    assert AllowedIp(b)[..|AllowedIp(b)| - 3] == b;
  }

  /** The address granted is in the pool and held by no peer of the server. */
  lemma AdmitFree(
    rows: map<PeerId, Peer>, net: Net, ctx: Context, userId: UserId, serverId: ServerId, replacing: Option<PeerId>)
    requires Admit(rows, net, ctx, userId, serverId, replacing).Ok?
    ensures var ip := Admit(rows, net, ctx, userId, serverId, replacing).value;
            InPool(net, ip) && ip !in AddressesOf(rows, ActiveOn(rows, serverId)) && serverId in ctx.servers
  {
    hide ActiveOf, ActiveOn, AddressesOf, FirstFreeIp, InPool, Replaced;
    GrantedFree(rows, net, serverId);
  }

  lemma GrantedFree(rows: map<PeerId, Peer>, net: Net, serverId: ServerId)
    requires FirstFreeIp(net.subnetCidr, net.serverAddress, AddressesOf(rows, ActiveOn(rows, serverId))).Ok?
    ensures var used := AddressesOf(rows, ActiveOn(rows, serverId));
            var ip := FirstFreeIp(net.subnetCidr, net.serverAddress, used).value;
            InPool(net, ip) && ip !in used
  {
    hide ActiveOn, AddressesOf, FirstFreeIp, Assignable;
    AllocatedIsFree(net.subnetCidr, net.serverAddress, AddressesOf(rows, ActiveOn(rows, serverId)));
  }

  /** A key's own removal, and any change to another address, leave a routed peer routed. */
  lemma RoutedAfterAdd(
    agents: map<ServerId, PeerTable>, serverId: ServerId, server: Server, ip: string, key: Key, outcome: AgentOutcome,
    peer: Peer)
    requires peer.assignedIp.Some? && Routed(agents, peer) && peer.publicKey != key
    requires peer.serverId == serverId ==> peer.assignedIp.value != ip
    ensures Routed(AfterAdd(agents, serverId, server, ip, key, outcome), peer)
  {
    AllowedIpInjective(peer.assignedIp.value, ip);
  }

  lemma RoutedAfterRemove(
    agents: map<ServerId, PeerTable>, servers: map<ServerId, Server>, serverId: ServerId, key: Key, outcome: AgentOutcome,
    peer: Peer)
    requires peer.assignedIp.Some? && Routed(agents, peer) && peer.publicKey != key
    ensures Routed(AfterRemove(agents, servers, serverId, key, outcome), peer)
  {
  }

  lemma CreateConsistent(
    st: PeerState, net: Net, ctx: Context, userId: UserId, serverId: ServerId, replacing: Option<PeerId>,
    supply: Supply, outcome: AgentOutcome)
    requires Consistent(st, net) && Fresh(st, supply)
    ensures Consistent(Create(st, net, ctx, userId, serverId, replacing, supply, outcome).0, net)
  {
    hide Admit, AllowedIp, InPool;
    if Admit(st.rows, net, ctx, userId, serverId, replacing).Ok? {
      AdmitFree(st.rows, net, ctx, userId, serverId, replacing);
      var ip := Admit(st.rows, net, ctx, userId, serverId, replacing).value;
      forall id | id in st.rows && st.rows[id].status == Active
        ensures st.rows[id].serverId == serverId ==> st.rows[id].assignedIp.value != ip
        ensures Routed(AfterAdd(st.agents, serverId, ctx.servers[serverId], ip, supply.key, outcome), st.rows[id])
      {
        RoutedAfterAdd(st.agents, serverId, ctx.servers[serverId], ip, supply.key, outcome, st.rows[id]);
      }
    }
  }

  lemma RevokeConsistent(st: PeerState, net: Net, ctx: Context, userId: UserId, peerId: PeerId, outcome: AgentOutcome)
    requires Consistent(st, net)
    ensures Consistent(Revoke(st, ctx, userId, peerId, outcome).0, net)
  {
    hide AllowedIp, InPool, Routed, AfterRemove;
    if LoadOwned(st.rows, userId, peerId).Ok? {
      var peer := st.rows[peerId];
      forall id | id in st.rows && id != peerId && st.rows[id].status == Active
        ensures Routed(AfterRemove(st.agents, ctx.servers, peer.serverId, peer.publicKey, outcome), st.rows[id])
      {
        assert Apart(st.rows[id], peer);
        RoutedAfterRemove(st.agents, ctx.servers, peer.serverId, peer.publicKey, outcome, st.rows[id]);
      }
    }
  }

  lemma AdminDeleteConsistent(st: PeerState, net: Net, ctx: Context, peerId: PeerId, outcome: AgentOutcome)
    requires Consistent(st, net)
    ensures Consistent(AdminDelete(st, ctx, peerId, outcome).0, net)
  {
    hide AllowedIp, InPool, Routed, AfterRemove;
    if peerId in st.rows && st.rows[peerId].status == Active {
      var peer := st.rows[peerId];
      forall id | id in st.rows && id != peerId && st.rows[id].status == Active
        ensures Routed(AfterRemove(st.agents, ctx.servers, peer.serverId, peer.publicKey, outcome), st.rows[id])
      {
        assert Apart(st.rows[id], peer);
        RoutedAfterRemove(st.agents, ctx.servers, peer.serverId, peer.publicKey, outcome, st.rows[id]);
      }
    }
  }

  lemma RecreateConsistent(
    st: PeerState, net: Net, ctx: Context, userId: UserId, peerId: PeerId, supply: Supply,
    addOutcome: AgentOutcome, removeOutcome: AgentOutcome)
    requires Consistent(st, net) && Fresh(st, supply)
    ensures Consistent(Recreate(st, net, ctx, userId, peerId, supply, addOutcome, removeOutcome).0, net)
  {
    hide Create, Revoke, Consistent, Fresh;
    if LoadOwned(st.rows, userId, peerId).Ok? {
      var serverId := st.rows[peerId].serverId;
      CreateConsistent(st, net, ctx, userId, serverId, Some(peerId), supply, addOutcome);
      var created := Create(st, net, ctx, userId, serverId, Some(peerId), supply, addOutcome).0;
      RevokeConsistent(created, net, ctx, userId, peerId, removeOutcome);
    }
  }

  // ---------------------------------------------------------------- recreate is all or nothing

  /** The rows after a successful create: exactly one new active row. */
  lemma CreateRows(
    st: PeerState, net: Net, ctx: Context, userId: UserId, serverId: ServerId, replacing: Option<PeerId>,
    supply: Supply, outcome: AgentOutcome)
    ensures var (after, r) := Create(st, net, ctx, userId, serverId, replacing, supply, outcome);
            && (r.Err? ==> after.rows == st.rows)
            && (r.Ok? ==> after.rows == st.rows[supply.id := Peer(userId, serverId, supply.key, Some(r.value), Active)])
            && (r.Ok? ==> r.value !in AddressesOf(st.rows, ActiveOn(st.rows, serverId)))
  {
    hide ActiveOn, ActiveOf, AddressesOf, AfterAdd, Admit, InPool;
    if Admit(st.rows, net, ctx, userId, serverId, replacing).Ok? {
      AdmitFree(st.rows, net, ctx, userId, serverId, replacing);
    }
  }

  /**
   * Either the rows are untouched and the old peer still routes, or the old peer is revoked, a new
   * one with another address stands in its place, and no count of active peers has changed.
   */
  lemma RecreateAllOrNothing(
    st: PeerState, net: Net, ctx: Context, userId: UserId, peerId: PeerId, supply: Supply,
    addOutcome: AgentOutcome, removeOutcome: AgentOutcome)
    requires Consistent(st, net) && Fresh(st, supply) && LoadOwned(st.rows, userId, peerId).Ok?
    ensures var (after, r) := Recreate(st, net, ctx, userId, peerId, supply, addOutcome, removeOutcome);
            var was := st.rows[peerId];
            && (r.Err? ==> after.rows == st.rows && Routed(after.agents, was))
            && (r.Ok? ==>
                && Some(r.value) != was.assignedIp
                && after.rows == st.rows[supply.id := Peer(userId, was.serverId, supply.key, Some(r.value), Active)]
                                        [peerId := was.(status := Revoked, assignedIp := None)]
                && Routed(after.agents, after.rows[supply.id])
                && (forall u :: |ActiveOf(after.rows, u)| == |ActiveOf(st.rows, u)|)
                && (forall s :: |ActiveOn(after.rows, s)| == |ActiveOn(st.rows, s)|))
  {
    hide Recreate, Routed, InPool, ActiveOf, ActiveOn;
    var was := st.rows[peerId];
    RecreateConsistent(st, net, ctx, userId, peerId, supply, addOutcome, removeOutcome);
    RecreateRows(st, net, ctx, userId, peerId, supply, addOutcome, removeOutcome);
    var (after, r) := Recreate(st, net, ctx, userId, peerId, supply, addOutcome, removeOutcome);
    assert RowOk(net, st.agents, was);
    if r.Ok? {
      assert RowOk(net, after.agents, after.rows[supply.id]);
      ReplacedCounts(st.rows, peerId, supply.id, after.rows);
    } else {
      assert RowOk(net, after.agents, after.rows[peerId]);
    }
  }

  lemma RecreateRows(
    st: PeerState, net: Net, ctx: Context, userId: UserId, peerId: PeerId, supply: Supply,
    addOutcome: AgentOutcome, removeOutcome: AgentOutcome)
    requires Consistent(st, net) && Fresh(st, supply) && LoadOwned(st.rows, userId, peerId).Ok?
    ensures var (after, r) := Recreate(st, net, ctx, userId, peerId, supply, addOutcome, removeOutcome);
            var was := st.rows[peerId];
            && (r.Err? ==> after.rows == st.rows)
            && (r.Ok? ==>
                && Some(r.value) != was.assignedIp
                && after.rows == st.rows[supply.id := Peer(userId, was.serverId, supply.key, Some(r.value), Active)]
                                        [peerId := was.(status := Revoked, assignedIp := None)])
  {
    hide Create, InPool, Routed, AfterRemove;
    var was := st.rows[peerId];
    CreateRows(st, net, ctx, userId, was.serverId, Some(peerId), supply, addOutcome);
    assert RowOk(net, st.agents, was);
    assert peerId in ActiveOn(st.rows, was.serverId);
    assert was.assignedIp.value in AddressesOf(st.rows, ActiveOn(st.rows, was.serverId));
    var (created, result) := Create(st, net, ctx, userId, was.serverId, Some(peerId), supply, addOutcome);
    assert LoadOwned(created.rows, userId, peerId) == Ok(was);
  }

  /** after is rows with an active row of one user and server replaced by another. */
  predicate ReplacesRow(rows: map<PeerId, Peer>, oldId: PeerId, newId: PeerId, after: map<PeerId, Peer>) {
    && oldId in rows && newId !in rows && rows[oldId].status == Active
    && newId in after && after[newId].status == Active
    && after[newId].userId == rows[oldId].userId && after[newId].serverId == rows[oldId].serverId
    && after.Keys == rows.Keys + {newId} && after[oldId].status == Revoked
    && forall id :: id in rows && id != oldId ==> after[id] == rows[id]
  }

  lemma SwapCount(a: set<PeerId>, b: set<PeerId>, swapped: bool, oldId: PeerId, newId: PeerId)
    requires swapped ==> oldId in a && newId !in a && b == a - {oldId} + {newId}
    requires !swapped ==> b == a
    ensures |a| == |b|
  {
  }

  lemma ReplacedUserCount(rows: map<PeerId, Peer>, oldId: PeerId, newId: PeerId, after: map<PeerId, Peer>, u: UserId)
    requires ReplacesRow(rows, oldId, newId, after)
    ensures |ActiveOf(after, u)| == |ActiveOf(rows, u)|
  {
    forall id
      ensures id in ActiveOf(after, u) <==>
              if u == rows[oldId].userId then id in ActiveOf(rows, u) - {oldId} + {newId} else id in ActiveOf(rows, u)
    {
      if id in rows && id != oldId { assert after[id] == rows[id]; }
    }
    SwapCount(ActiveOf(rows, u), ActiveOf(after, u), u == rows[oldId].userId, oldId, newId);
  }

  lemma ReplacedServerCount(rows: map<PeerId, Peer>, oldId: PeerId, newId: PeerId, after: map<PeerId, Peer>, s: ServerId)
    requires ReplacesRow(rows, oldId, newId, after)
    ensures |ActiveOn(after, s)| == |ActiveOn(rows, s)|
  {
    forall id
      ensures id in ActiveOn(after, s) <==>
              if s == rows[oldId].serverId then id in ActiveOn(rows, s) - {oldId} + {newId} else id in ActiveOn(rows, s)
    {
      if id in rows && id != oldId { assert after[id] == rows[id]; }
    }
    SwapCount(ActiveOn(rows, s), ActiveOn(after, s), s == rows[oldId].serverId, oldId, newId);
  }

  lemma ReplacedCounts(rows: map<PeerId, Peer>, oldId: PeerId, newId: PeerId, after: map<PeerId, Peer>)
    requires ReplacesRow(rows, oldId, newId, after)
    ensures forall u :: |ActiveOf(after, u)| == |ActiveOf(rows, u)|
    ensures forall s :: |ActiveOn(after, s)| == |ActiveOn(rows, s)|
  {
    hide ReplacesRow, ActiveOf, ActiveOn;
    forall u: UserId {
      ReplacedUserCount(rows, oldId, newId, after, u);
    }
    forall s: ServerId {
      ReplacedServerCount(rows, oldId, newId, after, s);
    }
  }

  /** A replacement is never refused for a limit that the active peers already meet. */
  lemma RecreateIgnoresOldPeer(
    st: PeerState, net: Net, ctx: Context, userId: UserId, peerId: PeerId, supply: Supply,
    addOutcome: AgentOutcome, removeOutcome: AgentOutcome)
    requires LoadOwned(st.rows, userId, peerId).Ok?
    requires ctx.subscription.Some? ==> |ActiveOf(st.rows, userId)| <= ctx.subscription.value.deviceLimit
    requires forall s :: s in ctx.servers ==> |ActiveOn(st.rows, s)| <= ctx.servers[s].maxPeers
    ensures var r := Recreate(st, net, ctx, userId, peerId, supply, addOutcome, removeOutcome).1;
            r.Err? ==> !r.error.DeviceLimit? && !r.error.ServerFull?
  {
    hide AfterAdd, AfterRemove, FirstFreeIp;
    var serverId := st.rows[peerId].serverId;
    assert peerId in ActiveOf(st.rows, userId) && peerId in ActiveOn(st.rows, serverId);
    assert |ActiveOf(st.rows, userId) - {peerId}| < |ActiveOf(st.rows, userId)|;
    assert |ActiveOn(st.rows, serverId) - {peerId}| < |ActiveOn(st.rows, serverId)|;
  }

  // ---------------------------------------------------------------- allocation under capacity

  lemma {:induction false} AddressesSize(rows: map<PeerId, Peer>, ids: set<PeerId>)
    ensures |AddressesOf(rows, ids)| <= |ids|
  {
    if ids == {} {
      assert AddressesOf(rows, ids) == {};
    } else {
      var id :| id in ids;
      AddressesSize(rows, ids - {id});
      var one := if id in rows && rows[id].assignedIp.Some? then {rows[id].assignedIp.value} else {};
      assert AddressesOf(rows, ids) == AddressesOf(rows, ids - {id}) + one;
    }
  }

  lemma AddressesWellFormed(st: PeerState, net: Net, serverId: ServerId)
    requires Consistent(st, net)
    ensures AllWellFormed(AddressesOf(st.rows, ActiveOn(st.rows, serverId)))
  {
    hide IpToWord, HostPart, IntToIp, Routed, AssignableHost;
    forall ip | ip in AddressesOf(st.rows, ActiveOn(st.rows, serverId))
      ensures IpToWord(HostPart(ip)).Some?
    {
      var id :| id in ActiveOn(st.rows, serverId) && st.rows[id].assignedIp == Some(ip);
      assert RowOk(net, st.agents, st.rows[id]);
      AssignableParses(net, ip);
    }
  }

  lemma AssignableParses(net: Net, ip: string)
    requires InPool(net, ip)
    ensures IpToWord(HostPart(ip)).Some?
  {
    hide IpToWord, HostPart, IntToIp, AssignableHost;
    var h: Bits.Word :| AssignableHost(net.subnetCidr, net.serverAddress, h) && ip == IntToIp(h);
    PrintedIpParses(h);
  }

  lemma WithoutReplaced(ids: set<PeerId>, replacing: Option<PeerId>)
    ensures |ids| <= |ids - Replaced(replacing)| + 1
    ensures replacing.None? ==> ids - Replaced(replacing) == ids
  {
    SubsetSize(ids, (ids - Replaced(replacing)) + Replaced(replacing));
  }

  /** While a server's seats are fewer than the pool's addresses, no request finds the pool exhausted. */
  lemma AllocationNeverFails(
    st: PeerState, net: Net, ctx: Context, userId: UserId, serverId: ServerId, replacing: Option<PeerId>)
    requires Consistent(st, net)
    requires ParseSubnet(net.subnetCidr).Some? && IpToWord(HostPart(net.serverAddress)).Some?
    requires IpToWord(HostPart(net.serverAddress)).value in Hosts(ParseSubnet(net.subnetCidr).value)
    requires serverId in ctx.servers ==> ctx.servers[serverId].maxPeers < PoolCapacity(ParseSubnet(net.subnetCidr).value)
    ensures var r := Admit(st.rows, net, ctx, userId, serverId, replacing); r.Err? ==> !r.error.Allocation?
  {
    hide ParseSubnet, IpToWord, HostPart, Hosts, PoolCapacity, ActiveOn, ActiveOf, AddressesOf, Consistent, FirstFreeIp,
         Admit, Replaced;
    var ids := ActiveOn(st.rows, serverId);
    AddressesSize(st.rows, ids);
    AddressesWellFormed(st, net, serverId);
    WithoutReplaced(ids, replacing);
    if serverId in ctx.servers && |ids - Replaced(replacing)| < ctx.servers[serverId].maxPeers {
      AllocationSucceeds(net.subnetCidr, net.serverAddress, AddressesOf(st.rows, ids));
    }
    AdmitUnexhausted(st.rows, net, ctx, userId, serverId, replacing);
  }

  lemma AdmitUnexhausted(
    rows: map<PeerId, Peer>, net: Net, ctx: Context, userId: UserId, serverId: ServerId, replacing: Option<PeerId>)
    requires serverId in ctx.servers && |ActiveOn(rows, serverId) - Replaced(replacing)| < ctx.servers[serverId].maxPeers
             ==> FirstFreeIp(net.subnetCidr, net.serverAddress, AddressesOf(rows, ActiveOn(rows, serverId))).Ok?
    ensures var r := Admit(rows, net, ctx, userId, serverId, replacing); r.Err? ==> !r.error.Allocation?
  {
    hide ActiveOf, ActiveOn, AddressesOf, FirstFreeIp, Replaced;
  }

  /** The tariff and the server permit a new peer, and neither limit is reached. */
  predicate Permitted(
    rows: map<PeerId, Peer>, ctx: Context, userId: UserId, serverId: ServerId, replacing: Option<PeerId>)
  {
    && ctx.subscription.Some? && serverId in ctx.servers
    && var tariff := ctx.subscription.value;
       var server := ctx.servers[serverId];
    && server.isActive && server.registered
    && (tariff.allowedCountries == {} || server.countryId in tariff.allowedCountries)
    && |ActiveOf(rows, userId) - Replaced(replacing)| < tariff.deviceLimit
    && |ActiveOn(rows, serverId) - Replaced(replacing)| < server.maxPeers
  }

  /** With enough addresses, create succeeds exactly when it is permitted and the agent confirms. */
  lemma CreateSucceedsIff(
    st: PeerState, net: Net, ctx: Context, userId: UserId, serverId: ServerId, replacing: Option<PeerId>,
    supply: Supply, outcome: AgentOutcome)
    requires Consistent(st, net)
    requires ParseSubnet(net.subnetCidr).Some? && IpToWord(HostPart(net.serverAddress)).Some?
    requires IpToWord(HostPart(net.serverAddress)).value in Hosts(ParseSubnet(net.subnetCidr).value)
    requires serverId in ctx.servers ==> ctx.servers[serverId].maxPeers < PoolCapacity(ParseSubnet(net.subnetCidr).value)
    ensures Create(st, net, ctx, userId, serverId, replacing, supply, outcome).1.Ok?
            <==> Permitted(st.rows, ctx, userId, serverId, replacing) && Confirmed(ctx.servers[serverId], outcome)
  {
    hide ParseSubnet, IpToWord, HostPart, Hosts, PoolCapacity, Consistent, Admit, Permitted, AfterAdd, Confirmed;
    AllocationNeverFails(st, net, ctx, userId, serverId, replacing);
    AdmitPermitted(st.rows, net, ctx, userId, serverId, replacing);
  }

  lemma AdmitPermitted(
    rows: map<PeerId, Peer>, net: Net, ctx: Context, userId: UserId, serverId: ServerId, replacing: Option<PeerId>)
    ensures var r := Admit(rows, net, ctx, userId, serverId, replacing);
            && (r.Ok? ==> serverId in ctx.servers)
            && (Permitted(rows, ctx, userId, serverId, replacing) ==> serverId in ctx.servers)
            && (r.Ok? || r.error.Allocation? <==> Permitted(rows, ctx, userId, serverId, replacing))
  {
    hide ActiveOf, ActiveOn, AddressesOf, FirstFreeIp, Replaced;
  }

  // ---------------------------------------------------------------- release

  /** Only the peer's own row is touched, its address is free and, if the agent was reached, its key is gone. */
  ghost predicate Released(st: PeerState, after: PeerState, ctx: Context, peerId: PeerId, outcome: AgentOutcome)
    requires peerId in st.rows && st.rows[peerId].assignedIp.Some?
  {
    var was := st.rows[peerId];
    && (forall id :: id in st.rows && id != peerId ==> id in after.rows && after.rows[id] == st.rows[id])
    && (forall id :: id in after.rows ==> id in st.rows)
    && was.assignedIp.value !in AddressesOf(after.rows, ActiveOn(after.rows, was.serverId))
    && (was.serverId in ctx.servers && Reached(ctx.servers[was.serverId], outcome)
        ==> was.publicKey !in TableOf(after.agents, was.serverId).Values)
  }

  lemma KeyRemoved(table: PeerTable, key: Key)
    ensures key !in WgRemove(table, key).Values
  {
  }

  /** Revoking and deleting an active peer both free its address for the next one. */
  lemma ReleaseFrees(st: PeerState, net: Net, ctx: Context, peerId: PeerId, outcome: AgentOutcome)
    requires Consistent(st, net) && peerId in st.rows && st.rows[peerId].status == Active
    ensures st.rows[peerId].assignedIp.Some?
    ensures var (revoked, r) := Revoke(st, ctx, st.rows[peerId].userId, peerId, outcome);
            r.Ok? && Released(st, revoked, ctx, peerId, outcome)
            && peerId in revoked.rows && revoked.rows[peerId].status == Revoked
    ensures var (deleted, r) := AdminDelete(st, ctx, peerId, outcome);
            r.Ok? && Released(st, deleted, ctx, peerId, outcome) && peerId !in deleted.rows
  {
    hide InPool, AllowedIp, Routed, WgRemove, AddressesOf, UniqueRows, ActiveOf;
    var was := st.rows[peerId];
    assert RowOk(net, st.agents, was);
    KeyRemoved(TableOf(st.agents, was.serverId), was.publicKey);
    var revoked := Revoke(st, ctx, was.userId, peerId, outcome).0;
    var deleted := AdminDelete(st, ctx, peerId, outcome).0;
    AddressFreed(st, revoked.rows, peerId);
    AddressFreed(st, deleted.rows, peerId);
  }

  lemma AddressFreed(st: PeerState, after: map<PeerId, Peer>, peerId: PeerId)
    requires UniqueRows(st.rows) && peerId in st.rows && st.rows[peerId].assignedIp.Some?
    requires forall id :: id in after && after[id].status == Active ==>
               id != peerId && id in st.rows && after[id] == st.rows[id]
    ensures st.rows[peerId].assignedIp.value !in AddressesOf(after, ActiveOn(after, st.rows[peerId].serverId))
  {
    forall id | id in ActiveOn(after, st.rows[peerId].serverId)
      ensures after[id].assignedIp != st.rows[peerId].assignedIp
    {
      assert Apart(st.rows[id], st.rows[peerId]);
    }
  }

  // ---------------------------------------------------------------- ownership

  /** The rows of a user, active or not. */
  function OwnedBy(rows: map<PeerId, Peer>, userId: UserId): (ids: set<PeerId>) {
    set id | id in rows && rows[id].userId == userId
  }

  /** Whose step it is; administrators act for nobody. */
  function ActorOf(op: Op): (userId: Option<UserId>) {
    match op
    case CreateOp(_, userId, _, _, _) => Some(userId)
    case RevokeOp(_, userId, _, _) => Some(userId)
    case RecreateOp(_, userId, _, _, _, _) => Some(userId)
    case AdminDeleteOp(_, _, _) => None
  }

  lemma CreateTouchesNoOther(
    st: PeerState, net: Net, ctx: Context, userId: UserId, serverId: ServerId, replacing: Option<PeerId>,
    supply: Supply, outcome: AgentOutcome)
    requires Fresh(st, supply)
    ensures var after := Create(st, net, ctx, userId, serverId, replacing, supply, outcome).0.rows;
            && (forall id :: id in st.rows ==> id in after && after[id] == st.rows[id])
            && (forall id :: id in after && id !in st.rows ==> after[id].userId == userId)
  {
    hide Admit, AfterAdd, Confirmed;
  }

  lemma RevokeTouchesNoOther(st: PeerState, ctx: Context, userId: UserId, peerId: PeerId, outcome: AgentOutcome)
    ensures var after := Revoke(st, ctx, userId, peerId, outcome).0.rows;
            && after.Keys == st.rows.Keys
            && (forall id :: id in st.rows && st.rows[id].userId != userId ==> after[id] == st.rows[id])
            && (forall id :: id in st.rows ==> after[id].userId == st.rows[id].userId)
  {
    hide AfterRemove;
  }

  /** No step of a user changes, adds or removes a peer of another user. */
  lemma OthersUntouched(st: PeerState, net: Net, op: Op, userId: UserId, other: UserId)
    requires ActorOf(op) == Some(userId) && other != userId
    requires op.CreateOp? || op.RecreateOp? ==> Fresh(st, op.supply)
    ensures var after := Step(st, net, op).rows;
            && OwnedBy(after, other) == OwnedBy(st.rows, other)
            && forall id :: id in OwnedBy(after, other) ==> after[id] == st.rows[id]
  {
    hide Create, Revoke, Fresh;
    match op
    case CreateOp(ctx, _, serverId, supply, outcome) =>
      CreateTouchesNoOther(st, net, ctx, userId, serverId, None, supply, outcome);
    case RevokeOp(ctx, _, peerId, outcome) =>
      RevokeTouchesNoOther(st, ctx, userId, peerId, outcome);
    case RecreateOp(ctx, _, peerId, supply, outcome, removeOutcome) =>
      if LoadOwned(st.rows, userId, peerId).Ok? {
        var serverId := st.rows[peerId].serverId;
        CreateTouchesNoOther(st, net, ctx, userId, serverId, Some(peerId), supply, outcome);
        var created := Create(st, net, ctx, userId, serverId, Some(peerId), supply, outcome).0;
        RevokeTouchesNoOther(created, ctx, userId, peerId, removeOutcome);
      }
  }

  /** Revoking and recreating act on the user's own active peers only; for any other they say why and do nothing. */
  lemma OwnActiveOnly(
    st: PeerState, net: Net, ctx: Context, userId: UserId, peerId: PeerId, supply: Supply,
    addOutcome: AgentOutcome, removeOutcome: AgentOutcome)
    requires peerId !in ActiveOf(st.rows, userId)
    ensures var e := if peerId in OwnedBy(st.rows, userId) then PeerRevoked else PeerNotFound;
            && Revoke(st, ctx, userId, peerId, removeOutcome) == (st, Err(e))
            && Recreate(st, net, ctx, userId, peerId, supply, addOutcome, removeOutcome) == (st, Err(e))
  {
    hide Create, AfterRemove;
  }

  /** A peer cannot be revoked twice. */
  lemma RevokeOnce(
    st: PeerState, ctx: Context, userId: UserId, peerId: PeerId, outcome: AgentOutcome, again: Context,
    secondOutcome: AgentOutcome)
    requires Revoke(st, ctx, userId, peerId, outcome).1.Ok?
    ensures var after := Revoke(st, ctx, userId, peerId, outcome).0;
            Revoke(after, again, userId, peerId, secondOutcome) == (after, Err(PeerRevoked))
  {
    hide AfterRemove;
  }

  // ---------------------------------------------------------------- limits

  /** No user holds more active peers than device(user), no server more than seats(server). */
  ghost predicate WithinLimits(rows: map<PeerId, Peer>, device: UserId -> nat, seats: ServerId -> nat) {
    && (forall u :: |ActiveOf(rows, u)| <= device(u))
    && (forall s :: |ActiveOn(rows, s)| <= seats(s))
  }

  /** The limits a call reads are no greater than the bounds. */
  ghost predicate Bounded(ctx: Context, userId: UserId, device: UserId -> nat, seats: ServerId -> nat) {
    && (ctx.subscription.Some? ==> ctx.subscription.value.deviceLimit <= device(userId))
    && (forall s :: s in ctx.servers ==> ctx.servers[s].maxPeers <= seats(s))
  }

  lemma CreateWithinLimits(
    st: PeerState, net: Net, ctx: Context, userId: UserId, serverId: ServerId, supply: Supply, outcome: AgentOutcome,
    device: UserId -> nat, seats: ServerId -> nat)
    requires WithinLimits(st.rows, device, seats) && Bounded(ctx, userId, device, seats) && Fresh(st, supply)
    ensures WithinLimits(Create(st, net, ctx, userId, serverId, None, supply, outcome).0.rows, device, seats)
  {
    hide Admit, AfterAdd, ActiveOf, ActiveOn;
    if Admit(st.rows, net, ctx, userId, serverId, None).Ok? {
      var ip := Admit(st.rows, net, ctx, userId, serverId, None).value;
      AdmitBelowLimits(st.rows, net, ctx, userId, serverId);
      AddedRow(st.rows, supply.id, Peer(userId, serverId, supply.key, Some(ip), Active));
    }
  }

  lemma AdmitBelowLimits(rows: map<PeerId, Peer>, net: Net, ctx: Context, userId: UserId, serverId: ServerId)
    requires Admit(rows, net, ctx, userId, serverId, None).Ok?
    ensures ctx.subscription.Some? && |ActiveOf(rows, userId)| < ctx.subscription.value.deviceLimit
    ensures serverId in ctx.servers && |ActiveOn(rows, serverId)| < ctx.servers[serverId].maxPeers
  {
    hide ActiveOf, ActiveOn, AddressesOf, FirstFreeIp;
    WithoutReplaced(ActiveOf(rows, userId), None);
    WithoutReplaced(ActiveOn(rows, serverId), None);
  }

  lemma AddedOf(rows: map<PeerId, Peer>, id: PeerId, peer: Peer, u: UserId)
    requires id !in rows && peer.status == Active
    ensures |ActiveOf(rows[id := peer], u)| == |ActiveOf(rows, u)| + if u == peer.userId then 1 else 0
  {
    var after := rows[id := peer];
    if u == peer.userId {
      assert ActiveOf(after, u) == ActiveOf(rows, u) + {id};
    } else {
      assert ActiveOf(after, u) == ActiveOf(rows, u);
    }
  }

  lemma AddedOn(rows: map<PeerId, Peer>, id: PeerId, peer: Peer, s: ServerId)
    requires id !in rows && peer.status == Active
    ensures |ActiveOn(rows[id := peer], s)| == |ActiveOn(rows, s)| + if s == peer.serverId then 1 else 0
  {
    var after := rows[id := peer];
    if s == peer.serverId {
      assert ActiveOn(after, s) == ActiveOn(rows, s) + {id};
    } else {
      assert ActiveOn(after, s) == ActiveOn(rows, s);
    }
  }

  lemma AddedRow(rows: map<PeerId, Peer>, id: PeerId, peer: Peer)
    requires id !in rows && peer.status == Active
    ensures forall u :: |ActiveOf(rows[id := peer], u)| == |ActiveOf(rows, u)| + if u == peer.userId then 1 else 0
    ensures forall s :: |ActiveOn(rows[id := peer], s)| == |ActiveOn(rows, s)| + if s == peer.serverId then 1 else 0
  {
    hide ActiveOf, ActiveOn;
    forall u: UserId {
      AddedOf(rows, id, peer, u);
    }
    forall s: ServerId {
      AddedOn(rows, id, peer, s);
    }
  }

  lemma FewerActive(rows: map<PeerId, Peer>, after: map<PeerId, Peer>, device: UserId -> nat, seats: ServerId -> nat)
    requires WithinLimits(rows, device, seats)
    requires forall id :: id in after && after[id].status == Active ==> id in rows && after[id] == rows[id]
    ensures WithinLimits(after, device, seats)
  {
    forall u
      ensures |ActiveOf(after, u)| <= device(u)
    {
      SubsetSize(ActiveOf(after, u), ActiveOf(rows, u));
    }
    forall s
      ensures |ActiveOn(after, s)| <= seats(s)
    {
      SubsetSize(ActiveOn(after, s), ActiveOn(rows, s));
    }
  }

  // ---------------------------------------------------------------- runs

  datatype Op =
    | CreateOp(ctx: Context, userId: UserId, serverId: ServerId, supply: Supply, outcome: AgentOutcome)
    | RevokeOp(ctx: Context, userId: UserId, peerId: PeerId, outcome: AgentOutcome)
    | RecreateOp(
        ctx: Context, userId: UserId, peerId: PeerId, supply: Supply, outcome: AgentOutcome, removeOutcome: AgentOutcome)
    | AdminDeleteOp(ctx: Context, peerId: PeerId, outcome: AgentOutcome)

  function Step(st: PeerState, net: Net, op: Op): (after: PeerState) {
    match op
    case CreateOp(ctx, userId, serverId, supply, outcome) => Create(st, net, ctx, userId, serverId, None, supply, outcome).0
    case RevokeOp(ctx, userId, peerId, outcome) => Revoke(st, ctx, userId, peerId, outcome).0
    case RecreateOp(ctx, userId, peerId, supply, outcome, removeOutcome) =>
      Recreate(st, net, ctx, userId, peerId, supply, outcome, removeOutcome).0
    case AdminDeleteOp(ctx, peerId, outcome) => AdminDelete(st, ctx, peerId, outcome).0
  }

  function Run(st: PeerState, net: Net, ops: seq<Op>): (after: PeerState) {
    if ops == [] then st else Step(Run(st, net, ops[..|ops| - 1]), net, ops[|ops| - 1])
  }

  /** Generated ids and keys are new, and limits never exceed the bounds. */
  ghost predicate Allowed(st: PeerState, op: Op, device: UserId -> nat, seats: ServerId -> nat) {
    && (op.CreateOp? || op.RecreateOp? ==> Fresh(st, op.supply) && Bounded(op.ctx, op.userId, device, seats))
  }

  ghost predicate AllowedRun(st: PeerState, net: Net, ops: seq<Op>, device: UserId -> nat, seats: ServerId -> nat) {
    forall i :: 0 <= i < |ops| ==> Allowed(Run(st, net, ops[..i]), ops[i], device, seats)
  }

  lemma StepConsistent(st: PeerState, net: Net, op: Op, device: UserId -> nat, seats: ServerId -> nat)
    requires Consistent(st, net) && Allowed(st, op, device, seats)
    ensures Consistent(Step(st, net, op), net)
  {
    hide Create, Revoke, Recreate, AdminDelete, Consistent, Fresh;
    match op
    case CreateOp(ctx, userId, serverId, supply, outcome) =>
      CreateConsistent(st, net, ctx, userId, serverId, None, supply, outcome);
    case RevokeOp(ctx, userId, peerId, outcome) =>
      RevokeConsistent(st, net, ctx, userId, peerId, outcome);
    case RecreateOp(ctx, userId, peerId, supply, outcome, removeOutcome) =>
      RecreateConsistent(st, net, ctx, userId, peerId, supply, outcome, removeOutcome);
    case AdminDeleteOp(ctx, peerId, outcome) =>
      AdminDeleteConsistent(st, net, ctx, peerId, outcome);
  }

  lemma StepWithinLimits(st: PeerState, net: Net, op: Op, device: UserId -> nat, seats: ServerId -> nat)
    requires Consistent(st, net) && WithinLimits(st.rows, device, seats) && Allowed(st, op, device, seats)
    ensures WithinLimits(Step(st, net, op).rows, device, seats)
  {
    hide Create, Recreate, Consistent, Fresh, WithinLimits, AfterRemove;
    match op
    case CreateOp(ctx, userId, serverId, supply, outcome) =>
      CreateWithinLimits(st, net, ctx, userId, serverId, supply, outcome, device, seats);
    case RevokeOp(ctx, userId, peerId, outcome) =>
      FewerActive(st.rows, Step(st, net, op).rows, device, seats);
    case RecreateOp(ctx, userId, peerId, supply, outcome, removeOutcome) =>
      RecreateWithinLimits(st, net, ctx, userId, peerId, supply, outcome, removeOutcome, device, seats);
    case AdminDeleteOp(ctx, peerId, outcome) =>
      FewerActive(st.rows, Step(st, net, op).rows, device, seats);
  }

  lemma RecreateWithinLimits(
    st: PeerState, net: Net, ctx: Context, userId: UserId, peerId: PeerId, supply: Supply,
    addOutcome: AgentOutcome, removeOutcome: AgentOutcome, device: UserId -> nat, seats: ServerId -> nat)
    requires Consistent(st, net) && WithinLimits(st.rows, device, seats) && Fresh(st, supply)
    ensures WithinLimits(
              Recreate(st, net, ctx, userId, peerId, supply, addOutcome, removeOutcome).0.rows, device, seats)
  {
    hide Create, Revoke, Consistent, Fresh, ActiveOf, ActiveOn;
    if LoadOwned(st.rows, userId, peerId).Ok? {
      RecreateAllOrNothing(st, net, ctx, userId, peerId, supply, addOutcome, removeOutcome);
    }
  }

  /**
   * In every run, however agent calls fail: rows meet the unique constraints, every active peer's
   * address is its own, comes from the pool and routes to its key, and no limit is exceeded.
   */
  lemma {:induction false} RunSafe(st: PeerState, net: Net, ops: seq<Op>, device: UserId -> nat, seats: ServerId -> nat)
    requires Consistent(st, net) && WithinLimits(st.rows, device, seats)
    requires AllowedRun(st, net, ops, device, seats)
    ensures Consistent(Run(st, net, ops), net) && WithinLimits(Run(st, net, ops).rows, device, seats)
  {
    hide Consistent, WithinLimits, Allowed, Step;
    if ops != [] {
      var n := |ops| - 1;
      forall i | 0 <= i < n
        ensures Allowed(Run(st, net, ops[..n][..i]), ops[..n][i], device, seats)
      {
        assert ops[..n][..i] == ops[..i];
      }
      RunSafe(st, net, ops[..n], device, seats);
      StepConsistent(Run(st, net, ops[..n]), net, ops[n], device, seats);
      StepWithinLimits(Run(st, net, ops[..n]), net, ops[n], device, seats);
    }
  }

  /** So it is for every run of a panel that starts without peers, whatever the agents hold. */
  lemma RunFromNothingSafe(
    net: Net, agents: map<ServerId, PeerTable>, ops: seq<Op>, device: UserId -> nat, seats: ServerId -> nat)
    requires AllowedRun(PeerState(map[], agents), net, ops, device, seats)
    ensures var after := Run(PeerState(map[], agents), net, ops);
            Consistent(after, net) && WithinLimits(after.rows, device, seats)
  {
    hide AllowedRun, Run, Consistent, WithinLimits;
    NoPeersConsistent(net, agents, device, seats);
    RunSafe(PeerState(map[], agents), net, ops, device, seats);
  }

  /** A panel without peers is consistent, whatever the agents hold. */
  lemma NoPeersConsistent(net: Net, agents: map<ServerId, PeerTable>, device: UserId -> nat, seats: ServerId -> nat)
    ensures Consistent(PeerState(map[], agents), net) && WithinLimits(map[], device, seats)
  {
    forall u: UserId
      ensures ActiveOf(map[], u) == {}
    {
    }
    forall s: ServerId
      ensures ActiveOn(map[], s) == {}
    {
    }
  }
}
