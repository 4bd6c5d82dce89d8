/** Node registration and lifecycle: server/internal/controlplane/node_registry.go, the node handlers and the
    prune loop of server.go. Every handler and every prune round is one atomic step. */
module ControlPlane {
  import opened Prelude
  import opened Bits
  import opened Ipam
  import opened VirtualNetwork

  /** Which store operations fail during one step. */
  datatype Faults = Faults(saveIP: bool, deleteIP: bool, saveNode: bool, deleteNode: bool)

  /** The cache is the stored nodes, exactly the registered nodes hold an allocation, each node carries its own,
      and the allocator agrees with the store on them. */
  ghost predicate Agree(cache: map<string, NodeInfo>, nodes: map<string, NodeInfo>,
                        ips: map<string, uint32>, leases: map<string, uint32>) {
    && leases == ips
    && cache == nodes
    && nodes.Keys == ips.Keys
    && forall id :: id in nodes ==> id != "" && nodes[id].nodeID == id && nodes[id].virtualIP == Some(ips[id])
  }

  ghost function Stale(nodes: map<string, NodeInfo>, cutoff: int): set<string> {
    set id | id in nodes && nodes[id].lastSeen < cutoff
  }

  /** Removing nodes keeps everything in agreement when both deletions work, and otherwise only if there was
      nothing to remove. */
  lemma RemovalAgreesIff(nodes: map<string, NodeInfo>, ips: map<string, uint32>, gone: set<string>,
                         nodeFails: bool, ipFails: bool)
    requires Agree(nodes, nodes, ips, ips)
    ensures Agree(nodes - gone, if nodeFails then nodes else nodes - gone,
                  if ipFails then ips else ips - gone, ips - gone)
      <==> (!nodeFails && !ipFails) || gone !! nodes.Keys
  {
    if gone !! nodes.Keys {
      assert nodes - gone == nodes && ips - gone == ips;
    } else {
      var id :| id in gone && id in nodes;
      assert id !in nodes - gone && id !in ips - gone;
    }
  }

  /** The node is saved nowhere: all that changed is that its address is given up. */
  lemma GivingUpAgreesIff(nodes: map<string, NodeInfo>, ips: map<string, uint32>, id: string, ip: uint32, ipFails: bool)
    requires Agree(nodes, nodes, ips, ips)
    requires id in ips ==> ips[id] == ip
    ensures var placed := ips[id := ip];
      Agree(nodes, nodes, if ipFails then placed else placed - {id}, placed - {id}) <==> id !in ips && !ipFails
  {
    var placed := ips[id := ip];
    assert id !in placed - {id} && id in placed;
    if id !in ips {
      assert placed - {id} == ips;
    } else {
      assert id in nodes;
    }
  }

  lemma RegistrationAgrees(nodes: map<string, NodeInfo>, ips: map<string, uint32>, node: NodeInfo)
    requires Agree(nodes, nodes, ips, ips)
    requires node.nodeID != "" && node.virtualIP.Some?
    ensures var nodes', ips' := nodes[node.nodeID := node], ips[node.nodeID := node.virtualIP.value];
      Agree(nodes', nodes', ips', ips')
  {
  }

  /** The node is gone from the cache only. */
  lemma KeptAddressAgreesIff(nodes: map<string, NodeInfo>, ips: map<string, uint32>, id: string)
    requires Agree(nodes, nodes, ips, ips)
    ensures Agree(nodes - {id}, nodes, ips, ips) <==> id !in nodes
  {
    if id !in nodes {
      assert nodes - {id} == nodes;
    }
  }

  class NodeRegistry {
    const store: Store
    var nodes: map<string, NodeInfo>

    constructor (store: Store)
      ensures this.store == store
      ensures nodes == map id | id in store.nodes && store.nodes[id].nodeID != "" :: store.nodes[id]
    {
      this.store := store;
      nodes := map id | id in store.nodes && store.nodes[id].nodeID != "" :: store.nodes[id];
    }

    method Register(node: NodeInfo, now: int, fails: bool) returns (ok: bool)
      modifies this, store`nodes
      ensures ok == !fails
      ensures var stamped := node.(connectedAt := now, lastSeen := now);
        && store.nodes == (if ok then old(store.nodes)[node.nodeID := stamped] else old(store.nodes))
        && nodes == (if ok then old(nodes)[node.nodeID := stamped] else old(nodes))
    {
      var stamped := node.(connectedAt := now, lastSeen := now);
      ok := store.SaveNode(stamped, fails);
      if ok {
        nodes := nodes[node.nodeID := stamped];
      }
    }

    /** Touches the cached node, loading it first if only the store knows it, and saves it. */
    method Heartbeat(nodeID: string, now: int, fails: bool) returns (ok: bool)
      requires forall id :: id in nodes ==> nodes[id].nodeID == id
      requires forall id :: id in store.nodes ==> store.nodes[id].nodeID == id
      modifies this, store`nodes
      ensures ok <==> !fails && (nodeID in old(nodes) || nodeID in old(store.nodes))
      ensures nodeID !in old(nodes) && nodeID !in old(store.nodes) ==>
        nodes == old(nodes) && store.nodes == old(store.nodes)
      ensures nodeID in old(nodes) || nodeID in old(store.nodes) ==>
        var touched :=
          (if nodeID in old(nodes) then old(nodes)[nodeID] else old(store.nodes)[nodeID]).(lastSeen := now);
        && nodes == old(nodes)[nodeID := touched]
        && store.nodes == if fails then old(store.nodes) else old(store.nodes)[nodeID := touched]
    {
      if nodeID !in nodes {
        if nodeID !in store.nodes {
          return false;
        }
        nodes := nodes[nodeID := store.nodes[nodeID]];
      }
      nodes := nodes[nodeID := nodes[nodeID].(lastSeen := now)];
      ok := store.SaveNode(nodes[nodeID], fails);
    }

    method Deregister(nodeID: string, fails: bool) returns (ok: bool)
      modifies this, store`nodes
      ensures ok == !fails
      ensures nodes == old(nodes) - {nodeID}
      ensures store.nodes == if fails then old(store.nodes) else old(store.nodes) - {nodeID}
    {
      nodes := nodes - {nodeID};
      ok := store.DeleteNode(nodeID, fails);
    }

    /** Drops every node last seen before the cutoff and names them; store errors are ignored. */
    method PruneStaleIDs(cutoff: int, fails: bool) returns (pruned: seq<string>)
      requires forall id :: id in nodes ==> nodes[id].nodeID == id
      modifies this, store`nodes
      ensures forall id :: id in pruned <==> id in Stale(old(nodes), cutoff)
      ensures nodes == old(nodes) - Stale(old(nodes), cutoff)
      ensures forall id :: id in nodes <==> id in old(nodes) && old(nodes)[id].lastSeen >= cutoff
      ensures store.nodes == if fails then old(store.nodes) else old(store.nodes) - Stale(old(nodes), cutoff)
    {
      pruned := [];
      ghost var gone: set<string> := {};
      var remaining := nodes.Keys;
      while remaining != {}
        invariant remaining <= old(nodes).Keys
        invariant gone == Stale(old(nodes), cutoff) - remaining
        invariant forall id :: id in pruned <==> id in gone
        invariant nodes == old(nodes) - gone
        invariant store.nodes == if fails then old(store.nodes) else old(store.nodes) - gone
        decreases remaining
      {
        var id :| id in remaining;
        assert id in nodes && nodes[id] == old(nodes)[id];
        remaining := remaining - {id};
        if nodes[id].lastSeen < cutoff {
          gone := gone + {id};
          nodes := nodes - {id};
          var _ := store.DeleteNode(id, fails);
          pruned := pruned + [id];
        }
      }
    }
  }

  class Server {
    const store: Store
    const registry: NodeRegistry
    const virtualNet: VirtualNetworkManager

    ghost predicate Wired() {
      registry.store == store && virtualNet.store == store && virtualNet.allocator.Configured()
    }

    ghost predicate Consistent()
      reads store, registry, virtualNet.allocator
    {
      && virtualNet.allocator.Valid()
      && Agree(registry.nodes, store.nodes, store.ips, virtualNet.allocator.leases)
    }

    constructor (store: Store, registry: NodeRegistry, virtualNet: VirtualNetworkManager)
      ensures this.store == store && this.registry == registry && this.virtualNet == virtualNet
    {
      this.store, this.registry, this.virtualNet := store, registry, virtualNet;
    }

    /** No two registered nodes are told the same address. */
    lemma AddressesAreUnique(a: string, b: string)
      requires Wired() && Consistent()
      requires a in registry.nodes && b in registry.nodes && a != b
      ensures registry.nodes[a].virtualIP != registry.nodes[b].virtualIP
    {
      assert store.ips[a] != store.ips[b];
    }

    /** 400 without an id, 500 when no address can be placed or the node cannot be saved, else 201. */
    method HandleRegisterNode(node: NodeInfo, now: int, faults: Faults) returns (status: int, body: Option<NodeInfo>)
      requires Wired() && Consistent()
      modifies store, registry, virtualNet.allocator
      ensures status == (if node.nodeID == "" then 400
                         else if faults.saveNode then 500
                         else if virtualNet.Unplaceable(node.nodeID, old(store.ips), faults.saveIP) then 500
                         else 201)
      ensures status == 201 <==> body.Some?
      ensures status == 201 ==>
        && body.value.virtualIP.Some?
        && body.value == node.(virtualIP := body.value.virtualIP, subnet := virtualNet.settings.subnetText,
                               connectedAt := now, lastSeen := now)
        && (if node.nodeID in old(store.ips) then body.value.virtualIP.value == old(store.ips)[node.nodeID]
            else body.value.virtualIP.value !in old(store.ips).Values)
        && store.ips == old(store.ips)[node.nodeID := body.value.virtualIP.value]
        && registry.nodes == old(registry.nodes)[node.nodeID := body.value]
      ensures store.nodes == if status == 201 then registry.nodes else old(store.nodes)
      ensures status != 201 ==> registry.nodes == old(registry.nodes)
      ensures status == 400 || virtualNet.Unplaceable(node.nodeID, old(store.ips), faults.saveIP) ==>
        store.ips == old(store.ips)
      ensures status == 500 && !virtualNet.Unplaceable(node.nodeID, old(store.ips), faults.saveIP) ==>
        && store.ips - {node.nodeID} == old(store.ips) - {node.nodeID}
        && (node.nodeID in store.ips <==> faults.deleteIP)
        && virtualNet.allocator.leases == old(store.ips) - {node.nodeID}
      // Losing a node save releases the address: harmless for a new node whose allocation can be deleted again,
      // and only then.
      ensures Consistent() <==>
        status != 500 || virtualNet.Unplaceable(node.nodeID, old(store.ips), faults.saveIP)
        || (node.nodeID !in old(store.ips) && !faults.deleteIP)
    {
      if node.nodeID == "" {
        return 400, None;
      }
      var placed := virtualNet.AssignNode(node, faults.saveIP);
      if placed == None {
        return 500, None;
      }
      ghost var ips := old(store.ips);
      var ok := SaveOrGiveUp(placed.value, now, faults, ips);
      if !ok {
        return 500, None;
      }
      return 201, Some(placed.value.(connectedAt := now, lastSeen := now));
    }

    /** Registers a node that has its address; when that fails, the address is released. */
    method SaveOrGiveUp(node: NodeInfo, now: int, faults: Faults, ghost ips: map<string, uint32>) returns (ok: bool)
      requires Wired() && virtualNet.Synced() && Agree(registry.nodes, store.nodes, ips, ips)
      requires node.nodeID != "" && node.virtualIP.Some? && store.ips == ips[node.nodeID := node.virtualIP.value]
      requires node.nodeID in ips ==> ips[node.nodeID] == node.virtualIP.value
      modifies store, registry, virtualNet.allocator`leases
      ensures ok == !faults.saveNode
      ensures registry.nodes ==
        if ok then old(registry.nodes)[node.nodeID := node.(connectedAt := now, lastSeen := now)]
        else old(registry.nodes)
      ensures store.nodes == registry.nodes
      ensures store.ips == if ok || faults.deleteIP then old(store.ips) else old(store.ips) - {node.nodeID}
      ensures !ok ==> store.ips - {node.nodeID} == ips - {node.nodeID}
      ensures !ok ==> virtualNet.allocator.leases == ips - {node.nodeID}
      ensures Consistent() <==> ok || (node.nodeID !in ips && !faults.deleteIP)
    {
      ok := registry.Register(node, now, faults.saveNode);
      if ok {
        RegistrationAgrees(old(store.nodes), ips, node.(connectedAt := now, lastSeen := now));
      } else {
        var _ := virtualNet.ReleaseNode(node.nodeID, faults.deleteIP);
        GivingUpAgreesIff(old(store.nodes), ips, node.nodeID, node.virtualIP.value, faults.deleteIP);
      }
    }

    method HandleHeartbeat(nodeID: string, now: int, faults: Faults) returns (status: int)
      requires Wired() && Consistent()
      modifies store`nodes, registry
      ensures status == if nodeID in old(store.nodes) && !faults.saveNode then 200 else 404
      ensures store.nodes ==
        if status == 200 then old(store.nodes)[nodeID := old(store.nodes)[nodeID].(lastSeen := now)]
        else old(store.nodes)
      ensures registry.nodes ==
        if nodeID in old(store.nodes) then old(store.nodes)[nodeID := old(store.nodes)[nodeID].(lastSeen := now)]
        else old(store.nodes)
      // A failed save has already touched the cached node.
      ensures Consistent() <==> status == 200 || nodeID !in old(store.nodes) || old(store.nodes)[nodeID].lastSeen == now
    {
      var ok := registry.Heartbeat(nodeID, now, faults.saveNode);
      status := if ok then 200 else 404;
      if nodeID in store.nodes && faults.saveNode && old(store.nodes)[nodeID].lastSeen != now {
        assert registry.nodes[nodeID] != store.nodes[nodeID];
      }
    }

    method HandleDeleteNode(nodeID: string, faults: Faults) returns (status: int)
      requires Wired() && Consistent()
      modifies store, registry, virtualNet.allocator
      ensures status == if faults.deleteNode || faults.deleteIP then 500 else 200
      ensures registry.nodes == old(registry.nodes) - {nodeID}
      ensures store.nodes == if faults.deleteNode then old(store.nodes) else old(store.nodes) - {nodeID}
      ensures store.ips == if status == 500 then old(store.ips) else old(store.ips) - {nodeID}
      ensures Consistent() <==> status == 200 || nodeID !in old(store.nodes)
    {
      RemovalAgreesIff(store.nodes, store.ips, {nodeID}, faults.deleteNode, faults.deleteIP);
      var ok := registry.Deregister(nodeID, faults.deleteNode);
      if !ok {
        KeptAddressAgreesIff(old(store.nodes), store.ips, nodeID);
        return 500;
      }
      ok := virtualNet.ReleaseNode(nodeID, faults.deleteIP);
      return if ok then 200 else 500;
    }

    method HandleGetNodeRoutes(nodeID: string, faults: Faults) returns (status: int, body: Option<NetworkConfig>)
      requires Wired() && Consistent()
      modifies store, virtualNet.allocator
      ensures Consistent() && store.nodes == old(store.nodes) && store.ips == old(store.ips)
      ensures virtualNet.allocator.leases == old(virtualNet.allocator.leases)
      ensures virtualNet.allocator.nextHost == old(virtualNet.allocator.nextHost)
      ensures status == if nodeID in store.nodes then 200 else 404
      ensures status == 200 ==> body.Some? && var c := body.value;
        && c.nodeID == nodeID && Some(c.virtualIP) == store.nodes[nodeID].virtualIP
        && c.subnet == virtualNet.settings.subnetText && c.gateway == virtualNet.settings.gatewayText
        && |c.routes| == 1
        && c.routes[0].destination == virtualNet.settings.subnetText
        && c.routes[0].gateway == virtualNet.settings.gatewayText
    {
      body := virtualNet.BuildConfig(nodeID, faults.saveIP, faults.saveNode);
      status := if body.Some? then 200 else 404;
    }

    /** One tick of the prune loop: prune, then release each pruned node's address. */
    method PruneRound(cutoff: int, faults: Faults)
      requires Wired() && Consistent()
      modifies store, registry, virtualNet.allocator
      ensures registry.nodes == old(registry.nodes) - Stale(old(registry.nodes), cutoff)
      ensures forall id :: id in registry.nodes <==>
        id in old(registry.nodes) && old(registry.nodes)[id].lastSeen >= cutoff
      ensures store.nodes == if faults.deleteNode then old(store.nodes) else registry.nodes
      ensures store.ips ==
        if faults.deleteIP then old(store.ips) else old(store.ips) - Stale(old(registry.nodes), cutoff)
      ensures Consistent() <==> (!faults.deleteNode && !faults.deleteIP) || Stale(old(registry.nodes), cutoff) == {}
    {
      ghost var stale := Stale(registry.nodes, cutoff);
      RemovalAgreesIff(store.nodes, store.ips, stale, faults.deleteNode, faults.deleteIP);
      var pruned := registry.PruneStaleIDs(cutoff, faults.deleteNode);
      ReleaseAll(pruned, stale, faults.deleteIP);
    }

    method ReleaseAll(pruned: seq<string>, ghost stale: set<string>, fails: bool)
      requires virtualNet.allocator.Valid() && virtualNet.store == store
      requires forall id :: id in pruned <==> id in stale
      modifies store`ips, virtualNet.allocator`leases
      ensures virtualNet.allocator.Valid()
      ensures virtualNet.allocator.leases == old(virtualNet.allocator.leases) - stale
      ensures store.ips == if fails then old(store.ips) else old(store.ips) - stale
    {
      ghost var gone: set<string> := {};
      for i := 0 to |pruned|
        invariant gone == set id | id in pruned[..i]
        invariant virtualNet.allocator.Valid()
        invariant virtualNet.allocator.leases == old(virtualNet.allocator.leases) - gone
        invariant store.ips == if fails then old(store.ips) else old(store.ips) - gone
      {
        var _ := virtualNet.ReleaseNode(pruned[i], fails);
        gone := gone + {pruned[i]};
      }
      assert gone == stale;
    }
  }

  /** Starting over a store: the registry loads the nodes, the allocator the allocations. */
  method NewServer(settings: NetworkSettings, store: Store) returns (r: Option<Server>)
    requires settings.subnet.Some? ==> settings.subnet.value.ones <= 32
    ensures r.Some? <==>
      exists network: uint32, broadcast: uint32 ::
        IsBlock(settings, network, broadcast) && Restorable(network, broadcast, settings.gateway.value, store.ips)
    ensures r.Some? ==> var s := r.value;
      && s.Wired() && s.virtualNet.MatchesSettings() && s.store == store && s.virtualNet.settings == settings
      && fresh(s.registry) && fresh(s.virtualNet.allocator)
      && s.virtualNet.Synced()
      && s.registry.nodes == map id | id in store.nodes && store.nodes[id].nodeID != "" :: store.nodes[id]
  {
    var virtualNet := NewVirtualNetworkManager(settings, store);
    if virtualNet == None {
      return None;
    }
    var registry := new NodeRegistry(store);
    var server := new Server(store, registry, virtualNet.value);
    return Some(server);
  }

  /** A restart over the store of a consistent server always comes up, with the same registered nodes, the
      same addresses and everything in agreement. */
  method Restart(server: Server) returns (next: Server)
    requires server.Wired() && server.virtualNet.MatchesSettings() && server.Consistent()
    ensures next.Wired() && next.virtualNet.MatchesSettings() && next.Consistent()
    ensures next.store == server.store && next.virtualNet.settings == server.virtualNet.settings
    ensures fresh(next.registry) && fresh(next.virtualNet.allocator)
    ensures next.registry.nodes == server.registry.nodes
    ensures next.virtualNet.allocator.leases == server.virtualNet.allocator.leases
  {
    var allocator := server.virtualNet.allocator;
    assert Restorable(allocator.network, allocator.broadcast, allocator.gateway, server.store.ips);
    assert IsBlock(server.virtualNet.settings, allocator.network, allocator.broadcast);
    var r := NewServer(server.virtualNet.settings, server.store);
    next := r.value;
    assert next.registry.nodes == server.store.nodes;
  }

  datatype Request =
    | RegisterNode(node: NodeInfo, now: int)
    | Heartbeat(nodeID: string, now: int)
    | DeleteNode(nodeID: string)
    | GetRoutes(nodeID: string)
    | PruneTick(cutoff: int)
    | RestartServer

  /** Any run from an empty store in which only saving an allocation ever fails keeps everything in agreement,
      and so no two registered nodes ever share an address. */
  method Run(settings: NetworkSettings, script: seq<(Request, bool)>) returns (server: Server)
    requires Usable(settings.subnet, settings.gateway)
    ensures server.Wired() && server.Consistent()
    ensures forall a, b :: a in server.registry.nodes && b in server.registry.nodes && a != b ==>
      server.registry.nodes[a].virtualIP != server.registry.nodes[b].virtualIP
  {
    var store := new Store();
    server := FirstServer(settings, store);
    for i := 0 to |script|
      invariant fresh(server.store) && fresh(server.registry) && fresh(server.virtualNet.allocator)
      invariant server.Wired() && server.virtualNet.MatchesSettings() && server.Consistent()
    {
      var faults := Faults(script[i].1, false, false, false);
      match script[i].0 {
        case RegisterNode(node, now) => var _, _ := server.HandleRegisterNode(node, now, faults);
        case Heartbeat(nodeID, now) => var _ := server.HandleHeartbeat(nodeID, now, faults);
        case DeleteNode(nodeID) => var _ := server.HandleDeleteNode(nodeID, faults);
        case GetRoutes(nodeID) => var _, _ := server.HandleGetNodeRoutes(nodeID, faults);
        case PruneTick(cutoff) => server.PruneRound(cutoff, faults);
        case RestartServer => server := Restart(server);
      }
    }
    forall a, b | a in server.registry.nodes && b in server.registry.nodes && a != b
      ensures server.registry.nodes[a].virtualIP != server.registry.nodes[b].virtualIP
    {
      server.AddressesAreUnique(a, b);
    }
  }

  method FirstServer(settings: NetworkSettings, store: Store) returns (server: Server)
    requires Usable(settings.subnet, settings.gateway)
    requires store.nodes == map[] && store.ips == map[]
    ensures server.Wired() && server.virtualNet.MatchesSettings() && server.Consistent() && server.store == store
    ensures fresh(server.registry) && fresh(server.virtualNet.allocator)
  {
    UsableHasBlock(settings);
    var r := NewServer(settings, store);
    server := r.value;
  }

  /** An empty block of at least four addresses has a host to give out. */
  lemma EmptyBlockHasRoom(network: uint32, broadcast: uint32, gateway: uint32) returns (host: uint32)
    requires broadcast >= network + 3
    ensures IsHostOf(network, broadcast, gateway, host)
  {
    host := if gateway == network + 1 then network + 2 else network + 1;
  }

  method FirstRegistration(server: Server, node: NodeInfo, now: int) returns (status: int)
    requires server.Wired() && server.virtualNet.MatchesSettings() && server.Consistent()
    requires server.store.ips == map[] && node.nodeID != ""
    modifies server.store, server.registry, server.virtualNet.allocator
    ensures status == 201 && server.Consistent()
    ensures node.nodeID in server.store.ips && node.nodeID in server.registry.nodes
  {
    ghost var allocator := server.virtualNet.allocator;
    assert Pow2(2) == 4;
    Pow2Monotone(2, 32 - server.virtualNet.settings.subnet.value.ones);
    ghost var host := EmptyBlockHasRoom(allocator.network, allocator.broadcast, allocator.gateway);
    assert allocator.IsHost(host) && host !in server.store.ips.Values;
    var body;
    status, body := server.HandleRegisterNode(node, now, Faults(false, false, false, false));
  }

  /** Registering again while saving nodes fails leaves any registered node without its address. */
  method FailedReregistration(server: Server, node: NodeInfo, now: int) returns (status: int)
    requires server.Wired() && server.Consistent() && node.nodeID != "" && node.nodeID in server.registry.nodes
    modifies server.store, server.registry, server.virtualNet.allocator
    ensures status == 500 && !server.Consistent()
    ensures node.nodeID in server.registry.nodes && node.nodeID in server.store.nodes
    ensures node.nodeID !in server.store.ips && node.nodeID !in server.virtualNet.allocator.leases
  {
    var body;
    status, body := server.HandleRegisterNode(node, now, Faults(false, false, true, false));
  }

  /** A run that loses an address: a node registers, registers again while saving nodes fails, and is then still
      registered, with an address that is free for others. */
  method LostReregistration(settings: NetworkSettings, node: NodeInfo, now: int)
    returns (server: Server, first: int, second: int)
    requires Usable(settings.subnet, settings.gateway) && node.nodeID != ""
    ensures first == 201 && second == 500 && !server.Consistent()
    ensures node.nodeID in server.registry.nodes && node.nodeID in server.store.nodes
    ensures node.nodeID !in server.store.ips && node.nodeID !in server.virtualNet.allocator.leases
  {
    var store := new Store();
    server := FirstServer(settings, store);
    first := FirstRegistration(server, node, now);
    second := FailedReregistration(server, node, now);
  }

  lemma UsableHasBlock(settings: NetworkSettings)
    requires Usable(settings.subnet, settings.gateway)
    ensures exists network: uint32, broadcast: uint32 ::
      IsBlock(settings, network, broadcast) && Restorable(network, broadcast, settings.gateway.value, map[])
  {
    var hostBits := 32 - settings.subnet.value.ones;
    var addr := settings.subnet.value.addr;
    MaskedIsAligned(addr, hostBits);
    var network := addr - addr % Pow2(hostBits);
    assert IsBlock(settings, network, network + Pow2(hostBits) - 1);
    assert Restorable(network, network + Pow2(hostBits) - 1, settings.gateway.value, map[]);
  }
}
