/** The cursor allocator of pkg/ipam/ipam.go. An IPv4 address is its 32-bit value; AddressBytesRoundTrip
    says why its four bytes carry the same information. */
module Ipam {
  import opened Prelude
  import opened Bits
  import opened BigEndian

  /** A CIDR block as written: an address and a prefix length. */
  datatype Cidr = Cidr(addr: uint32, ones: nat)

  datatype ReserveResult =
    | Reserved
    | InvalidAddress
    | NotInSubnet
    | ReservedAddress
    | NodeHoldsOther(held: uint32)
    | HeldByOther(node: string)

  method Uint32ToIP(n: uint32) returns (ip: array<uint8>)
    ensures fresh(ip) && ip[..] == ToBytes(n, 4)
  {
    ip := new uint8[4];
    PutUint(ip, 0, 4, n);
  }

  lemma AddressBytesRoundTrip(n: uint32, ip: seq<uint8>)
    requires |ip| == 4
    ensures FromBytes(ToBytes(n, 4)) == n
    ensures FromBytes(ip) < TWO_TO_THE_32 && ToBytes(FromBytes(ip), 4) == ip
  {
    Widths();
    ReadWritten(n, 4);
    WriteRead(ip);
  }

  /** The IPv4 network mask with h host bits. */
  function NetMask(hostBits: nat): (mask: nat)
    requires hostBits <= 32
    ensures mask < TWO_TO_THE_32
  {
    Pow2Monotone(hostBits, 32);
    Pow2Of32();
    Pow2(32) - Pow2(hostBits)
  }

  /** (1 << h) - 1 in uint32 arithmetic: for h = 32 the shift gives 0 and the subtraction wraps. */
  function HostMask(hostBits: nat): uint32 {
    (Pow2(hostBits) % TWO_TO_THE_32 - 1) % TWO_TO_THE_32
  }

  lemma HostMaskValue(hostBits: nat)
    requires hostBits <= 32
    ensures HostMask(hostBits) == Pow2(hostBits) - 1
  {
    Pow2Of32();
    var p := Pow2(hostBits);
    if hostBits < 32 {
      Pow2Monotone(hostBits, 31);
      assert Pow2(32) == 2 * Pow2(31);
      DivisionUnique(p, TWO_TO_THE_32, 0, p);
      DivisionUnique(p - 1, TWO_TO_THE_32, 0, p - 1);
    } else {
      assert p % TWO_TO_THE_32 == 0;
    }
  }

  /** net.IPNet.Contains: the masked bits agree. */
  predicate Contains(network: uint32, hostBits: nat, ip: uint32)
    requires hostBits <= 32
  {
    BitAnd(ip, NetMask(hostBits)) == BitAnd(network, NetMask(hostBits))
  }

  /** The network address and the end of its block, with no carry out of 32 bits. */
  ghost predicate AlignedBlock(network: uint32, hostBits: nat) {
    && hostBits <= 32
    && LowBitsClear(network, hostBits)
    && network + Pow2(hostBits) <= TWO_TO_THE_32
  }

  lemma MaskedIsAligned(addr: uint32, hostBits: nat)
    requires hostBits <= 32
    ensures BitAnd(addr, NetMask(hostBits)) == addr - addr % Pow2(hostBits)
    ensures AlignedBlock(addr - addr % Pow2(hostBits), hostBits)
  {
    Pow2Of32();
    AndWithNetMask(addr, 32, hostBits);
    Pow2Divides(hostBits, 32);
    BlockFits(addr, Pow2(hostBits), TWO_TO_THE_32);
    LowBitsClearIsMultiple(addr - addr % Pow2(hostBits), hostBits);
  }

  lemma BlockFits(x: nat, m: nat, limit: nat)
    requires m > 0 && x < limit && limit % m == 0
    ensures (x - x % m) % m == 0 && x - x % m + m <= limit
  {
    var q, blocks := x / m, limit / m;
    assert x - x % m == m * q && limit == m * blocks;
    DivisionUnique(x - x % m, m, q, 0);
    if q > blocks {
      MulGap(m, q, blocks);
    } else if q < blocks {
      MulGap(m, blocks, q);
    }
  }

  lemma SameBlock(a: nat, b: nat, m: nat)
    requires m > 0
    ensures a - a % m == b - b % m <==> a - a % m <= b < a - a % m + m
  {
    var base := a - a % m;
    assert base == m * (a / m) && b == m * (b / m) + b % m;
    if base <= b < base + m {
      DivisionUnique(b, m, a / m, b - base);
    }
  }

  lemma SameQuotient(a: nat, b: nat, m: nat)
    requires m > 0
    ensures a / m == b / m <==> a - a % m <= b < a - a % m + m
    ensures a - a % m <= a < a - a % m + m
  {
    SameBlock(a, b, m);
    assert a - a % m == m * (a / m) && b - b % m == m * (b / m);
    if a / m > b / m {
      MulGap(m, a / m, b / m);
    } else if a / m < b / m {
      MulGap(m, b / m, a / m);
    }
  }

  /** Subnet membership is an interval. */
  lemma ContainsIsInterval(network: uint32, hostBits: nat, ip: uint32)
    requires AlignedBlock(network, hostBits)
    ensures Contains(network, hostBits, ip) <==> network <= ip < network + Pow2(hostBits)
  {
    LowBitsClearIsMultiple(network, hostBits);
    MaskedIsAligned(network, hostBits);
    MaskedIsAligned(ip, hostBits);
    SameBlock(network, ip, Pow2(hostBits));
  }

  ghost predicate SubnetIsInterval(network: uint32, broadcast: uint32, hostBits: nat)
    requires hostBits <= 32
  {
    forall ip: uint32 :: Contains(network, hostBits, ip) <==> network <= ip <= broadcast
  }

  /** The broadcast address, computed with a bitwise or, is the last address of the block. */
  lemma BroadcastIsLast(network: uint32, hostBits: nat)
    requires AlignedBlock(network, hostBits)
    ensures BitOr(network, HostMask(hostBits)) == network + Pow2(hostBits) - 1
  {
    HostMaskValue(hostBits);
    LowBitsClearIsMultiple(network, hostBits);
    OrWithHostMask(network, hostBits);
  }

  ghost predicate Injective(m: map<string, uint32>) {
    forall a, b :: a in m && b in m && m[a] == m[b] ==> a == b
  }

  predicate IsHostOf(network: uint32, broadcast: uint32, gateway: uint32, ip: uint32) {
    network < ip < broadcast && ip != gateway
  }

  /** The addresses that may be handed out. */
  ghost function Hosts(network: uint32, broadcast: uint32, gateway: uint32): set<uint32> {
    Between(network, broadcast) - {gateway}
  }

  ghost function Between(lo: uint32, hi: uint32): set<uint32> {
    set ip: uint32 | StrictlyBetween(lo, ip, hi)
  }

  predicate StrictlyBetween(lo: uint32, ip: uint32, hi: uint32) {
    lo < ip < hi
  }

  class IPAM {
    const network: uint32
    const broadcast: uint32
    const gateway: uint32
    const hostBits: nat
    var leases: map<string, uint32>
    var nextHost: uint32

    /** What NewIPAM has checked of the constants. */
    ghost predicate Configured() {
      && 2 <= hostBits <= 32
      && SubnetIsInterval(network, broadcast, hostBits)
      && network < broadcast == network + Pow2(hostBits) - 1
      && network <= gateway <= broadcast
    }

    /** Leases are distinct hosts strictly inside the block, and the cursor stays inside it. */
    ghost predicate Valid()
      reads this
    {
      && Injective(leases)
      && (forall node :: node in leases ==> IsHost(leases[node]))
      && 1 <= nextHost <= broadcast - network
    }

    predicate IsHost(ip: uint32) {
      IsHostOf(network, broadcast, gateway, ip)
    }

    constructor (network: uint32, hostBits: nat, gateway: uint32)
      requires AlignedBlock(network, hostBits) && 2 <= hostBits
      requires network <= gateway < network + Pow2(hostBits)
      ensures Configured() && Valid()
      ensures this.network == network && this.hostBits == hostBits && this.gateway == gateway
      ensures leases == map[] && nextHost == 1
    {
      this.network, this.hostBits, this.gateway := network, hostBits, gateway;
      BroadcastIsLast(network, hostBits);
      broadcast := BitOr(network, HostMask(hostBits));
      leases, nextHost := map[], 1;
      Pow2Monotone(2, hostBits);
      assert Pow2(2) == 4;
      forall ip: uint32
        ensures Contains(network, hostBits, ip) <==> network <= ip < network + Pow2(hostBits)
      {
        ContainsIsInterval(network, hostBits, ip);
      }
    }

    /** The next free offset at or after start, cyclically: the later ones first, then those before start. */
    ghost predicate IsNextFree(held: set<uint32>, start: int, offset: int)
    {
      && IsFree(held, offset)
      && (if offset >= start then forall k :: start <= k < offset ==> !IsFree(held, k)
          else forall k :: start <= k || k < offset ==> !IsFree(held, k))
    }

    ghost predicate IsFree(held: set<uint32>, offset: int)
    {
      && 0 <= network + offset < TWO_TO_THE_32
      && IsHost(network + offset)
      && network + offset !in held
    }

    /** An existing allocation is returned unchanged. Otherwise the next free host after the cursor is taken,
        and there is none exactly when every host address is held. */
    method Allocate(nodeID: string) returns (ip: Option<uint32>)
      requires Valid()
      modifies this
      ensures Valid()
      ensures nodeID in old(leases) ==>
        ip == Some(old(leases)[nodeID]) && leases == old(leases) && nextHost == old(nextHost)
      ensures nodeID !in old(leases) ==>
        (ip == None <==> forall host: uint32 :: IsHost(host) ==> host in old(leases).Values)
      ensures ip == None ==> leases == old(leases) && nextHost == old(nextHost)
      ensures nodeID !in old(leases) && ip.Some? ==>
        && IsNextFree(old(leases).Values, old(nextHost), ip.value - network)
        && network < ip.value < broadcast && ip.value != gateway && ip.value !in old(leases).Values
        && leases == old(leases)[nodeID := ip.value]
        && nextHost == ip.value - network + 1
      // From the cursor on, and then from the first host on, every host passed over is held.
      ensures nodeID !in old(leases) && ip.Some? && ip.value >= network + old(nextHost) ==>
        forall host: uint32 :: IsHost(host) && network + old(nextHost) <= host < ip.value ==> host in old(leases).Values
      ensures nodeID !in old(leases) && ip.Some? && ip.value < network + old(nextHost) ==>
        forall host: uint32 :: IsHost(host) && (host < ip.value || network + old(nextHost) <= host) ==>
          host in old(leases).Values
    {
      if nodeID in leases {
        return Some(leases[nodeID]);
      }
      var used := leases.Values + {network, broadcast, gateway};
      var offset := FindFrom(used);
      if offset == None {
        offset := FindBelow(used);
      }
      if offset == None {
        NothingFree(leases.Values);
        return None;
      }
      var candidate := Add32(network, offset.value);
      PassedOver(leases.Values, nextHost, offset.value);
      Take(nodeID, candidate, offset.value);
      return Some(candidate);
    }

    lemma PassedOver(held: set<uint32>, start: int, offset: int)
      requires IsNextFree(held, start, offset)
      ensures offset >= start ==>
        forall host: uint32 :: IsHost(host) && network + start <= host < network + offset ==> host in held
      ensures offset < start ==>
        forall host: uint32 :: IsHost(host) && (host < network + offset || network + start <= host) ==> host in held
    {
      forall host: uint32 | IsHost(host) && host !in held
        ensures IsFree(held, host - network)
      {
      }
    }

    lemma NothingFree(held: set<uint32>)
      requires forall k :: !IsFree(held, k)
      ensures forall host: uint32 :: IsHost(host) ==> host in held
    {
      forall host: uint32 | IsHost(host)
        ensures host in held
      {
        assert !IsFree(held, host - network);
      }
    }

    /** The first loop: from the cursor up to the broadcast address. */
    method FindFrom(used: set<uint32>) returns (found: Option<uint32>)
      requires Valid() && used == leases.Values + {network, broadcast, gateway}
      ensures found == None ==> forall k :: nextHost <= k ==> !IsFree(leases.Values, k)
      ensures found.Some? ==> IsNextFree(leases.Values, nextHost, found.value)
    {
      var offset := nextHost;
      while Add32(network, offset) < broadcast
        invariant nextHost <= offset <= broadcast - network
        invariant forall k :: nextHost <= k < offset ==> !IsFree(leases.Values, k)
        decreases broadcast - network - offset
      {
        var candidate := Add32(network, offset);
        assert candidate == network + offset;  // no wrap
        if candidate !in used {
          return Some(offset);
        }
        offset := Add32(offset, 1);
      }
      return None;
    }

    /** The second loop: from the first host up to the cursor. */
    method FindBelow(used: set<uint32>) returns (found: Option<uint32>)
      requires Valid() && used == leases.Values + {network, broadcast, gateway}
      requires forall k :: nextHost <= k ==> !IsFree(leases.Values, k)
      ensures found == None ==> forall k :: !IsFree(leases.Values, k)
      ensures found.Some? ==> IsNextFree(leases.Values, nextHost, found.value)
    {
      var start := nextHost;
      var offset := 1;
      while offset < start
        invariant 1 <= offset <= start
        invariant forall k :: k < offset ==> !IsFree(leases.Values, k)
        decreases start - offset
      {
        var candidate := Add32(network, offset);
        assert candidate == network + offset < broadcast;  // so the following exit is never taken
        if candidate >= broadcast {
          break;
        }
        if candidate !in used {
          return Some(offset);
        }
        offset := Add32(offset, 1);
      }
      return None;
    }

    method Take(nodeID: string, candidate: uint32, offset: uint32)
      requires Valid() && nodeID !in leases
      requires candidate == network + offset && IsHost(candidate) && candidate !in leases.Values
      modifies this
      ensures Valid()
      ensures leases == old(leases)[nodeID := candidate]
      ensures nextHost == offset + 1
    {
      assert forall node :: node in leases ==> leases[node] in leases.Values;
      leases := leases[nodeID := candidate];
      nextHost := Add32(offset, 1);
    }

    /** The cursor after address ip has been restored. */
    function CursorAfter(cursor: uint32, ip: uint32): uint32
      requires network <= ip < broadcast
    {
      var next := ip - network + 1;
      if next > cursor && next < broadcast - network then next else cursor
    }

    /** Restores an allocation: takes the address unless it is unusable or already spoken for. */
    method Reserve(nodeID: string, ip: Option<uint32>) returns (r: ReserveResult)
      requires Configured() && Valid()
      modifies this
      ensures Valid()
      ensures r == InvalidAddress <==> ip == None
      ensures r == NotInSubnet <==> ip.Some? && !(network <= ip.value <= broadcast)
      ensures r == ReservedAddress <==> ip.Some? && ip.value in {network, broadcast, gateway}
      ensures ip.Some? && IsHost(ip.value) ==>
        if nodeID in old(leases) then
          r == if old(leases)[nodeID] == ip.value then Reserved else NodeHoldsOther(old(leases)[nodeID])
        else if ip.value in old(leases).Values then
          r.HeldByOther? && r.node in old(leases) && old(leases)[r.node] == ip.value
        else
          r == Reserved
      ensures leases == if r == Reserved then old(leases)[nodeID := ip.value] else old(leases)
      ensures r == Reserved ==> network < ip.value < broadcast
      ensures nextHost == if r == Reserved && nodeID !in old(leases)
                          then CursorAfter(old(nextHost), ip.value) else old(nextHost)
      // The cursor never goes back, and it moves past the address unless that is the last host.
      ensures nextHost >= old(nextHost)
      ensures r == Reserved && nodeID !in old(leases) && ip.value < broadcast - 1 ==> nextHost > ip.value - network
      ensures nextHost == old(nextHost) || nextHost == ip.value - network + 1
    {
      if ip == None {
        return InvalidAddress;
      }
      var candidate := ip.value;
      if !Contains(network, hostBits, candidate) {
        return NotInSubnet;
      }
      if candidate == network || candidate == broadcast || candidate == gateway {
        return ReservedAddress;
      }
      if nodeID in leases {
        if leases[nodeID] == candidate {
          return Reserved;
        }
        return NodeHoldsOther(leases[nodeID]);
      }
      var holder := HolderOf(candidate);
      if holder.Some? {
        return HeldByOther(holder.value);
      }
      Restore(nodeID, candidate);
      return Reserved;
    }

    method Restore(nodeID: string, candidate: uint32)
      requires Valid() && nodeID !in leases && IsHost(candidate) && candidate !in leases.Values
      modifies this
      ensures Valid()
      ensures leases == old(leases)[nodeID := candidate]
      ensures nextHost == CursorAfter(old(nextHost), candidate)
    {
      assert forall node :: node in leases ==> leases[node] in leases.Values;
      leases := leases[nodeID := candidate];
      var next := Add32(candidate - network, 1);
      if next > nextHost && next < broadcast - network {
        nextHost := next;
      }
    }

    method HolderOf(ip: uint32) returns (holder: Option<string>)
      ensures holder == None <==> ip !in leases.Values
      ensures holder.Some? ==> holder.value in leases && leases[holder.value] == ip
    {
      var remaining := leases.Keys;
      while remaining != {}
        invariant remaining <= leases.Keys
        invariant forall node :: node in leases && node !in remaining ==> leases[node] != ip
        decreases remaining
      {
        var node :| node in remaining;
        if leases[node] == ip {
          return Some(node);
        }
        remaining := remaining - {node};
      }
      return None;
    }

    method Release(nodeID: string)
      requires Valid()
      modifies this`leases
      ensures Valid()
      ensures leases == old(leases) - {nodeID}
    {
      leases := leases - {nodeID};
    }

    method GetAllocation(nodeID: string) returns (ip: Option<uint32>)
      ensures ip == if nodeID in leases then Some(leases[nodeID]) else None
    {
      return if nodeID in leases then Some(leases[nodeID]) else None;
    }

    /** How many nodes can hold an address at once. */
    ghost function Capacity(): int {
      Pow2(hostBits) - 2 - if network < gateway < broadcast then 1 else 0
    }

    /** Every host address is held exactly when the number of allocations has reached the capacity, which it
        never exceeds: 2^h - 2 nodes fit, one fewer when the gateway is a host address. */
    lemma FullAtCapacity()
      requires Configured() && Valid()
      ensures |leases| <= Capacity()
      ensures (forall host: uint32 :: IsHost(host) ==> host in leases.Values) <==> |leases| == Capacity()
    {
      var hosts := Hosts(network, broadcast, gateway);
      HostCount(network, broadcast, gateway);
      ValuesCount(leases);
      assert leases.Values <= hosts;
      SubsetCount(leases.Values, hosts);
      assert (forall host: uint32 :: IsHost(host) ==> host in leases.Values) <==> hosts <= leases.Values;
    }
  }

  /** A subnet and gateway an allocator can be built from: both IPv4, at least four addresses, and the gateway with
      the same leading bits as the subnet's address. */
  ghost predicate Usable(subnet: Option<Cidr>, gateway: Option<uint32>) {
    && subnet.Some? && gateway.Some?
    && subnet.value.ones <= 30
    && var size := Pow2(32 - subnet.value.ones);
       gateway.value / size == subnet.value.addr / size
  }

  /** The block that masking finds, and when it holds another address. */
  lemma BlockAround(addr: uint32, hostBits: nat, other: uint32)
    requires hostBits <= 32
    ensures var network := BitAnd(addr, NetMask(hostBits));
      && network == addr - addr % Pow2(hostBits)
      && AlignedBlock(network, hostBits)
      && network <= addr < network + Pow2(hostBits)
      && (Contains(network, hostBits, other) <==> other / Pow2(hostBits) == addr / Pow2(hostBits))
      && (Contains(network, hostBits, other) <==> network <= other < network + Pow2(hostBits))
  {
    var network, size := BitAnd(addr, NetMask(hostBits)), Pow2(hostBits);
    assert network == addr - addr % size && AlignedBlock(network, hostBits) by {
      MaskedIsAligned(addr, hostBits);
    }
    assert Contains(network, hostBits, other) <==> network <= other < network + size by {
      ContainsIsInterval(network, hostBits, other);
    }
    SameQuotient(addr, other, size);
  }

  /** Builds an allocator from a parsed subnet and gateway, refusing what does not parse as IPv4, a gateway
      outside the subnet and a subnet of fewer than four addresses. The block is the aligned one around the
      subnet's address. */
  method NewIPAM(subnet: Option<Cidr>, gateway: Option<uint32>) returns (r: Option<IPAM>)
    requires subnet.Some? ==> subnet.value.ones <= 32
    ensures r.Some? <==> Usable(subnet, gateway)
    ensures r.Some? ==> var m := r.value;
      && fresh(m) && m.Configured() && m.Valid() && m.leases == map[] && m.nextHost == 1
      && m.hostBits == 32 - subnet.value.ones && m.gateway == gateway.value
      && m.network == subnet.value.addr - subnet.value.addr % Pow2(m.hostBits)
      && m.network <= subnet.value.addr <= m.broadcast
  {
    if subnet.None? || gateway.None? {
      return None;
    }
    var addr, hostBits := subnet.value.addr, 32 - subnet.value.ones;
    var network := BitAnd(addr, NetMask(hostBits));
    BlockAround(addr, hostBits, gateway.value);
    if !Contains(network, hostBits, gateway.value) {
      return None;
    }
    if hostBits < 2 {
      return None;
    }
    var m := new IPAM(network, hostBits, gateway.value);
    return Some(m);
  }

  lemma {:induction false} IntervalCount(lo: uint32, hi: uint32)
    requires lo <= hi
    ensures |Between(lo, hi)| == if lo < hi then hi - lo - 1 else 0
    decreases hi - lo
  {
    if hi - lo <= 1 {
      assert Between(lo, hi) == {};
    } else {
      IntervalCount(lo, hi - 1);
      assert Between(lo, hi) == Between(lo, hi - 1) + {hi - 1};
    }
  }

  lemma HostCount(network: uint32, broadcast: uint32, gateway: uint32)
    requires network < broadcast
    ensures |Hosts(network, broadcast, gateway)|
      == broadcast - network - 1 - if network < gateway < broadcast then 1 else 0
  {
    IntervalCount(network, broadcast);
    if !(network < gateway < broadcast) {
      assert Hosts(network, broadcast, gateway) == Between(network, broadcast);
    }
  }

  lemma {:induction false} ValuesCount(m: map<string, uint32>)
    requires Injective(m)
    ensures |m.Values| == |m|
    decreases |m|
  {
    if m == map[] {
      assert m.Values == {};
    } else {
      var k :| k in m;
      var rest := m - {k};
      assert |rest| == |m| - 1;
      ValuesCount(rest);
      assert forall j :: j in m && j != k ==> j in rest && m[j] == rest[j];
      assert m[k] !in rest.Values;
      assert m.Values == rest.Values + {m[k]} by {
        forall v | v in m.Values
          ensures v in rest.Values + {m[k]}
        {
          var j :| j in m && m[j] == v;
          assert j != k ==> rest[j] in rest.Values;
        }
      }
    }
  }

  lemma {:induction false} SubsetCount<T>(a: set<T>, b: set<T>)
    requires a <= b
    ensures |a| <= |b|
    ensures b <= a <==> |a| == |b|
    decreases b
  {
    if a == {} {
    } else {
      var x :| x in a;
      SubsetCount(a - {x}, b - {x});
      if b - {x} <= a - {x} {
        assert forall y :: y in b && y != x ==> y in b - {x};
      }
    }
  }
}
