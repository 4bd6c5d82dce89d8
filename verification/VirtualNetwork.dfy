/** Virtual address assignment mirrored into the persistent store:
    server/internal/controlplane/virtual_network.go over store_memory.go. */
module VirtualNetwork {
  import opened Prelude
  import opened Bits
  import opened Ipam

  datatype NodeInfo = NodeInfo(
    nodeID: string,
    publicKey: string,
    natType: string,
    region: string,
    subnet: string,
    virtualIP: Option<uint32>,
    metadata: map<string, string>,
    connectedAt: int,
    lastSeen: int
  )

  datatype Route = Route(destination: string, gateway: string, iface: string, metric: int)

  datatype NetworkSettings = NetworkSettings(
    subnetText: string, gatewayText: string,
    subnet: Option<Cidr>, gateway: Option<uint32>,
    iface: string, mtu: int, routeMetric: int)

  datatype NetworkConfig = NetworkConfig(
    nodeID: string, virtualIP: uint32, subnet: string, gateway: string, iface: string, mtu: int, routes: seq<Route>)

  /** Nodes and address allocations. Each save and delete is told whether it succeeds; a failing one changes nothing. */
  class Store {
    var nodes: map<string, NodeInfo>
    var ips: map<string, uint32>

    constructor ()
      ensures nodes == map[] && ips == map[]
    {
      nodes, ips := map[], map[];
    }

    method SaveNode(node: NodeInfo, fails: bool) returns (ok: bool)
      modifies this`nodes
      ensures ok == !fails
      ensures nodes == if fails then old(nodes) else old(nodes)[node.nodeID := node]
    {
      if !fails {
        nodes := nodes[node.nodeID := node];
      }
      return !fails;
    }

    method DeleteNode(nodeID: string, fails: bool) returns (ok: bool)
      modifies this`nodes
      ensures ok == !fails
      ensures nodes == if fails then old(nodes) else old(nodes) - {nodeID}
    {
      if !fails {
        nodes := nodes - {nodeID};
      }
      return !fails;
    }

    method SaveIPAllocation(nodeID: string, ip: uint32, fails: bool) returns (ok: bool)
      modifies this`ips
      ensures ok == !fails
      ensures ips == if fails then old(ips) else old(ips)[nodeID := ip]
    {
      if !fails {
        ips := ips[nodeID := ip];
      }
      return !fails;
    }

    method DeleteIPAllocation(nodeID: string, fails: bool) returns (ok: bool)
      modifies this`ips
      ensures ok == !fails
      ensures ips == if fails then old(ips) else old(ips) - {nodeID}
    {
      if !fails {
        ips := ips - {nodeID};
      }
      return !fails;
    }
  }

  class VirtualNetworkManager {
    const allocator: IPAM
    const store: Store
    const settings: NetworkSettings

    /** The allocator manages the block of the settings. */
    ghost predicate MatchesSettings() {
      IsBlock(settings, allocator.network, allocator.broadcast) && Some(allocator.gateway) == settings.gateway
    }

    /** The allocator and the store agree. */
    ghost predicate Synced()
      reads allocator, store
    {
      allocator.Valid() && allocator.leases == store.ips
    }

    constructor (allocator: IPAM, store: Store, settings: NetworkSettings)
      ensures this.allocator == allocator && this.store == store && this.settings == settings
    {
      this.allocator, this.store, this.settings := allocator, store, settings;
    }

    ghost predicate Full(ips: map<string, uint32>) {
      forall host: uint32 :: allocator.IsHost(host) ==> host in ips.Values
    }

    /** The node has no address and cannot be given one. */
    ghost predicate Unplaceable(nodeID: string, ips: map<string, uint32>, saveFails: bool) {
      nodeID !in ips && (saveFails || Full(ips))
    }

    /** The address a node has, or the next free one; the result is the node with its address filled in. */
    method AssignNode(node: NodeInfo, saveFails: bool) returns (r: Option<NodeInfo>)
      requires allocator.Configured() && Synced()
      modifies allocator, store`ips
      ensures Synced()
      ensures r == None <==> node.nodeID == "" || Unplaceable(node.nodeID, old(store.ips), saveFails)
      ensures r == None ==> store.ips == old(store.ips)
      ensures r.Some? ==>
        && r.value.virtualIP.Some?
        && r.value == node.(virtualIP := r.value.virtualIP, subnet := settings.subnetText)
        && store.ips == old(store.ips)[node.nodeID := r.value.virtualIP.value]
      ensures r.Some? && node.nodeID in old(store.ips) ==>
        r.value.virtualIP.value == old(store.ips)[node.nodeID] && allocator.nextHost == old(allocator.nextHost)
      ensures r.Some? && node.nodeID !in old(store.ips) ==>
        && r.value.virtualIP.value !in old(store.ips).Values
        && allocator.IsNextFree(old(store.ips).Values, old(allocator.nextHost),
          r.value.virtualIP.value - allocator.network)
    {
      if node.nodeID == "" {
        return None;
      }
      if node.nodeID in store.ips {
        var existing := store.ips[node.nodeID];
        var reserved := allocator.Reserve(node.nodeID, Some(existing));
        if reserved != Reserved {
          return None;
        }
        assert store.ips == store.ips[node.nodeID := existing];
        return Some(node.(virtualIP := Some(existing), subnet := settings.subnetText));
      }
      var lease := allocator.Allocate(node.nodeID);
      if lease == None {
        return None;
      }
      var ip := lease.value;
      var saved := store.SaveIPAllocation(node.nodeID, ip, saveFails);
      if !saved {
        allocator.Release(node.nodeID);
        return None;
      }
      return Some(node.(virtualIP := Some(ip), subnet := settings.subnetText));
    }

    /** Frees the address in the allocator first and in the store second. When the second step fails the two
        disagree exactly if there was something to free. */
    method ReleaseNode(nodeID: string, deleteFails: bool) returns (ok: bool)
      requires allocator.Valid()
      modifies allocator`leases, store`ips
      ensures ok == !deleteFails
      ensures allocator.Valid() && allocator.leases == old(allocator.leases) - {nodeID}
      ensures store.ips == if deleteFails then old(store.ips) else old(store.ips) - {nodeID}
      ensures old(Synced()) ==> (Synced() <==> !deleteFails || nodeID !in old(store.ips))
    {
      allocator.Release(nodeID);
      ok := store.DeleteIPAllocation(nodeID, deleteFails);
      assert nodeID !in old(store.ips) ==> old(store.ips) - {nodeID} == old(store.ips);
    }

    /** The configuration of a node; a registered node without an allocation gets one first. */
    method BuildConfig(nodeID: string, saveIPFails: bool, saveNodeFails: bool) returns (r: Option<NetworkConfig>)
      requires allocator.Configured() && Synced()
      requires forall id :: id in store.nodes ==> store.nodes[id].nodeID == id
      modifies allocator, store
      ensures Synced()
      // The configuration tells the node its own address, and to reach the subnet through the gateway.
      ensures r.Some? ==>
        && nodeID in store.ips && r.value.nodeID == nodeID && r.value.virtualIP == store.ips[nodeID]
        && r.value.subnet == settings.subnetText && r.value.gateway == settings.gatewayText
        && r.value.iface == settings.iface && r.value.mtu == settings.mtu && |r.value.routes| == 1
      ensures r.Some? ==> var route := r.value.routes[0];
        && route.destination == settings.subnetText && route.gateway == settings.gatewayText
        && route.iface == settings.iface && route.metric == settings.routeMetric
      ensures nodeID in old(store.ips) ==>
        && r.Some? && store.ips == old(store.ips) && store.nodes == old(store.nodes)
        && allocator.nextHost == old(allocator.nextHost)
      ensures nodeID !in old(store.ips) && nodeID !in old(store.nodes) ==>
        && r == None && store.ips == old(store.ips) && store.nodes == old(store.nodes)
        && allocator.nextHost == old(allocator.nextHost)
      ensures nodeID !in old(store.ips) && nodeID in old(store.nodes) ==>
        && (nodeID in store.ips <==> nodeID != "" && !Unplaceable(nodeID, old(store.ips), saveIPFails))
        && (r.Some? <==> nodeID in store.ips && !saveNodeFails)
        && store.ips == (if nodeID in store.ips then old(store.ips)[nodeID := store.ips[nodeID]] else old(store.ips))
        && (nodeID in store.ips ==> store.ips[nodeID] !in old(store.ips).Values)
        && store.nodes == (if r.Some?
                           then old(store.nodes)[nodeID := old(store.nodes)[nodeID].(
                                  virtualIP := Some(store.ips[nodeID]), subnet := settings.subnetText)]
                           else old(store.nodes))
    {
      if nodeID !in store.ips {
        if nodeID !in store.nodes {
          return None;
        }
        var node := AssignNode(store.nodes[nodeID], saveIPFails);
        if node == None {
          return None;
        }
        var saved := store.SaveNode(node.value, saveNodeFails);
        if !saved {
          return None;
        }
      }
      return Some(ConfigOf(nodeID, store.ips[nodeID]));
    }

    function ConfigOf(nodeID: string, ip: uint32): NetworkConfig {
      NetworkConfig(nodeID, ip, settings.subnetText, settings.gatewayText, settings.iface, settings.mtu,
                    [Route(settings.subnetText, settings.gatewayText, settings.iface, settings.routeMetric)])
    }

    /** Reserves every stored allocation, in whatever order the map yields them. */
    method RestoreAllocations() returns (ok: bool)
      requires allocator.Configured() && allocator.Valid() && allocator.leases == map[] && allocator.nextHost == 1
      modifies allocator
      ensures allocator.Valid()
      ensures ok <==> Restorable(allocator.network, allocator.broadcast, allocator.gateway, store.ips)
      ensures ok ==> Synced() && IsRestoredCursor(allocator, store.ips, allocator.nextHost)
    {
      var remaining := store.ips.Keys;
      while remaining != {}
        invariant allocator.Valid()
        invariant remaining <= store.ips.Keys
        invariant allocator.leases == store.ips - remaining
        invariant IsRestoredCursor(allocator, allocator.leases, allocator.nextHost)
        decreases remaining
      {
        var nodeID :| nodeID in remaining;
        ghost var before, cursor := allocator.leases, allocator.nextHost;
        var reserved := allocator.Reserve(nodeID, Some(store.ips[nodeID]));
        if reserved != Reserved {
          return false;
        }
        CursorAfterOneMore(allocator, before, cursor, nodeID, store.ips[nodeID]);
        remaining := remaining - {nodeID};
      }
      assert allocator.leases == store.ips;
      return true;
    }
  }

  /** What stored allocations must satisfy to be restored. */
  ghost predicate Restorable(network: uint32, broadcast: uint32, gateway: uint32, ips: map<string, uint32>) {
    Injective(ips) && forall node :: node in ips ==> IsHostOf(network, broadcast, gateway, ips[node])
  }

  /** The block the settings describe: the aligned one around the subnet's address. */
  ghost predicate IsBlock(settings: NetworkSettings, network: uint32, broadcast: uint32) {
    && Usable(settings.subnet, settings.gateway)
    && var size := Pow2(32 - settings.subnet.value.ones);
       && network == settings.subnet.value.addr - settings.subnet.value.addr % size
       && broadcast == network + size - 1
  }

  function OffsetAfter(allocator: IPAM, ip: uint32): int {
    ip - allocator.network + 1
  }

  /** The cursor that restoring ips leaves: one past the highest address that still has a host above it, or 1.
      Nothing here depends on an order. */
  ghost predicate IsRestoredCursor(allocator: IPAM, ips: map<string, uint32>, cursor: int) {
    && (cursor == 1 || exists node :: node in ips && OffsetAfter(allocator, ips[node]) == cursor)
    && 1 <= cursor
    && (1 < cursor ==> cursor < allocator.broadcast - allocator.network)
    && forall node :: node in ips && OffsetAfter(allocator, ips[node]) < allocator.broadcast - allocator.network
         ==> OffsetAfter(allocator, ips[node]) <= cursor
  }

  lemma RestoredCursorIsUnique(allocator: IPAM, ips: map<string, uint32>, a: int, b: int)
    requires IsRestoredCursor(allocator, ips, a) && IsRestoredCursor(allocator, ips, b)
    ensures a == b
  {
  }

  lemma CursorAfterOneMore(allocator: IPAM, ips: map<string, uint32>, cursor: uint32, nodeID: string, ip: uint32)
    requires IsRestoredCursor(allocator, ips, cursor) && nodeID !in ips && allocator.IsHost(ip)
    ensures IsRestoredCursor(allocator, ips[nodeID := ip], allocator.CursorAfter(cursor, ip))
  {
    var more := ips[nodeID := ip];
    assert more[nodeID] == ip;
    if cursor != 1 {
      var node :| node in ips && OffsetAfter(allocator, ips[node]) == cursor;
      assert more[node] == ips[node];
    }
  }

  /** Starts over the store: works exactly when the settings are usable and the stored allocations restorable. */
  method NewVirtualNetworkManager(settings: NetworkSettings, store: Store) returns (r: Option<VirtualNetworkManager>)
    requires settings.subnet.Some? ==> settings.subnet.value.ones <= 32
    ensures r.Some? <==>
      exists network: uint32, broadcast: uint32 ::
        IsBlock(settings, network, broadcast) && Restorable(network, broadcast, settings.gateway.value, store.ips)
    ensures r.Some? ==> var m := r.value;
      && fresh(m) && fresh(m.allocator) && m.store == store && m.settings == settings
      && m.allocator.Configured() && m.MatchesSettings() && m.Synced()
      && IsRestoredCursor(m.allocator, store.ips, m.allocator.nextHost)
  {
    var allocator := NewIPAM(settings.subnet, settings.gateway);
    if allocator == None {
      return None;
    }
    var manager := new VirtualNetworkManager(allocator.value, store, settings);
    assert IsBlock(settings, allocator.value.network, allocator.value.broadcast);
    var ok := manager.RestoreAllocations();
    return if ok then Some(manager) else None;
  }
}
