/** Changing a channel's VLAN: save the old logical interface's settings, tear everything down, set them up anew. */
module Vlan {
  import opened Bytes
  import opened Paths
  import opened ObjectTree

  const MAX_IPV6_STATIC_ADDRESSES := 15

  datatype Family = V4 | V6

  /** An address together with the family it parses in; its text form is not modelled. */
  datatype Addr = Addr(family: Family, bits: nat)

  datatype Origin = Static | FromDhcp | Slaac | LinkLocal

  datatype DhcpConf = NoDhcp | DhcpV4 | DhcpV6 | DhcpBoth

  datatype IpProps = IpProps(address: Addr, origin: Origin, prefix: byte)
  datatype NeighborProps = NeighborProps(ip: Addr, mac: nat, permanent: bool)

  datatype IfAddr = IfAddr(path: string, address: Addr, origin: Origin, prefix: byte)
  datatype IfNeigh = IfNeigh(path: string, ip: Addr, mac: nat)

  /** What the network daemon shows on the bus. The object lists are in path order, as lookups iterate. */
  datatype Net = Net(ips: seq<Object<IpProps>>, neighbors: seq<Object<NeighborProps>>, vlans: set<string>,
                     dhcp: map<string, DhcpConf>, gateway4: Option<Addr>, gateway6: Option<Addr>, created: nat)

  datatype Params = Params(ifname: string, ifPath: string, logicalPath: string)

  /** The daemon's own choices: names of new objects, the paths of VLAN interfaces and their initial DHCP setting. */
  datatype Daemon = Daemon(name: nat -> string, vlanPath: nat -> string, initialDhcp: DhcpConf)
  {
    /** The next `count` objects are given different names. */
    ghost predicate NamesDistinct(from: nat, count: nat) {
      forall i, j | from <= i < j < from + count :: name(i) != name(j)
    }
  }

  const ORIGINS_V4 := {Static, FromDhcp}
  const ORIGINS_V6_STATIC := {Static}

  // -------- lookups --------

  function IsBelow<P>(base: string): (r: Object<P> -> bool) { (o: Object<P>) => Under(base, o.path) }

  /** The objects a lookup cache lists: those below the logical interface. */
  function Below<P>(objects: seq<Object<P>>, base: string): (r: seq<Object<P>>) { Filter(objects, IsBelow(base)) }

  predicate Wanted(o: Object<IpProps>, family: Family, origins: set<Origin>) {
    o.props.address.family == family && o.props.origin in origins
  }

  function IsWanted(family: Family, origins: set<Origin>): (r: Object<IpProps> -> bool) {
    (o: Object<IpProps>) => Wanted(o, family, origins)
  }

  /** The address objects of a family and of allowed origins, in order. */
  function Selected(objects: seq<Object<IpProps>>, family: Family, origins: set<Origin>): (r: seq<Object<IpProps>>) {
    Filter(objects, IsWanted(family, origins))
  }

  function ToIfAddr(o: Object<IpProps>): (r: IfAddr) { IfAddr(o.path, o.props.address, o.props.origin, o.props.prefix) }

  function ToIfAddrs(objects: seq<Object<IpProps>>): (r: seq<IfAddr>)
    ensures |r| == |objects| && forall i | 0 <= i < |r| :: r[i] == ToIfAddr(objects[i])
  {
    seq(|objects|, i requires 0 <= i < |objects| => ToIfAddr(objects[i]))
  }

  /** The addresses of a family and of allowed origins, in order. */
  function Matching(objects: seq<Object<IpProps>>, family: Family, origins: set<Origin>): (r: seq<IfAddr>) {
    ToIfAddrs(Selected(objects, family, origins))
  }

  function Nth<T>(s: seq<T>, i: nat): (r: Option<T>) { if i < |s| then Some(s[i]) else None }

  function FirstN<T>(s: seq<T>, n: nat): (r: seq<T>) { if n <= |s| then s[..n] else s }

  /** The first permanent neighbor with the address. */
  function StaticNeighbor(objects: seq<Object<NeighborProps>>, ip: Addr): (r: Option<IfNeigh>) {
    if objects == [] then None
    else if objects[0].props.ip == ip && objects[0].props.permanent
    then Some(IfNeigh(objects[0].path, ip, objects[0].props.mac))
    else StaticNeighbor(objects[1..], ip)
  }

  function GatewayNeighbor(objects: seq<Object<NeighborProps>>, gateway: Option<Addr>): (r: Option<IfNeigh>) {
    if gateway == None then None else StaticNeighbor(objects, gateway.value)
  }

  // -------- the memoising cache and the indexed lookup --------

  /** `ObjectLookupCache`: properties are fetched on first use and kept. */
  class ObjectLookupCache<P(==)> {
    const objs: seq<Object<P>>   // what the bus would answer, path by path
    var cache: map<string, P>

    /** Whatever is remembered is what a direct lookup gives. */
    ghost predicate Valid()
      reads this
    {
      InPathOrder(objs) && forall i | 0 <= i < |objs| && objs[i].path in cache :: cache[objs[i].path] == objs[i].props
    }

    constructor (objs: seq<Object<P>>)
      requires InPathOrder(objs)
      ensures Valid() && this.objs == objs && fresh(this)
    {
      this.objs, cache := objs, map[];
    }

    /** Agrees with direct lookup, and never fetches a path twice. */
    method Get(i: nat) returns (props: P)
      requires Valid() && i < |objs|
      modifies this`cache
      ensures Valid() && props == objs[i].props
      ensures cache == old(cache)[objs[i].path := props]
    {
      if objs[i].path in cache {
        props := cache[objs[i].path];
        assert cache == cache[objs[i].path := props];
        return;
      }
      props := objs[i].props;
      cache := cache[objs[i].path := props];
      forall j | 0 <= j < |objs| && objs[j].path == objs[i].path ensures j == i {
        BeforeAsymmetric(objs[i].path, objs[j].path);
      }
    }
  }

  /** `findIfAddr` counts `idx` down over the matching objects. */
  method FindIfAddr(ips: ObjectLookupCache<IpProps>, family: Family, idx: byte, origins: set<Origin>)
      returns (r: Option<IfAddr>)
    requires ips.Valid()
    modifies ips`cache
    ensures ips.Valid() && r == Nth(Matching(ips.objs, family, origins), idx)
  {
    var left := idx;
    for i := 0 to |ips.objs|
      invariant ips.Valid()
      invariant Nth(Selected(ips.objs[i..], family, origins), left) == Nth(Selected(ips.objs, family, origins), idx)
    {
      assert ips.objs[i..][0] == ips.objs[i] && ips.objs[i..][1..] == ips.objs[i + 1..];
      var props := ips.Get(i);
      if props.address.family != family {
        continue;
      }
      if props.origin !in origins {
        continue;
      }
      if left > 0 {
        left := left - 1;
        continue;
      }
      return Some(IfAddr(ips.objs[i].path, props.address, props.origin, props.prefix));
    }
    return None;
  }

  /** Asking for index 0, 1, 2, ... until there is none is filtering and keeping the first fifteen. */
  method CollectStaticV6(ips: ObjectLookupCache<IpProps>) returns (addrs: seq<IfAddr>)
    requires ips.Valid()
    modifies ips`cache
    ensures ips.Valid()
    ensures addrs == FirstN(Matching(ips.objs, V6, ORIGINS_V6_STATIC), MAX_IPV6_STATIC_ADDRESSES)
  {
    addrs := [];
    ghost var all := Matching(ips.objs, V6, ORIGINS_V6_STATIC);
    for i := 0 to MAX_IPV6_STATIC_ADDRESSES
      invariant ips.Valid()
      invariant i <= |all| && addrs == all[..i]
    {
      var a := FindIfAddr(ips, V6, i, ORIGINS_V6_STATIC);
      if a == None {
        assert addrs == all;
        return;
      }
      addrs := addrs + [a.value];
    }
  }

  method FindStaticNeighbor(neighbors: ObjectLookupCache<NeighborProps>, ip: Addr) returns (r: Option<IfNeigh>)
    requires neighbors.Valid()
    modifies neighbors`cache
    ensures neighbors.Valid() && r == StaticNeighbor(neighbors.objs, ip)
  {
    for i := 0 to |neighbors.objs|
      invariant neighbors.Valid()
      invariant StaticNeighbor(neighbors.objs[i..], ip) == StaticNeighbor(neighbors.objs, ip)
    {
      assert neighbors.objs[i..][0] == neighbors.objs[i] && neighbors.objs[i..][1..] == neighbors.objs[i + 1..];
      var props := neighbors.Get(i);
      if props.ip.family != ip.family {
        continue;
      }
      if props.ip != ip {
        continue;
      }
      if !props.permanent {
        continue;
      }
      return Some(IfNeigh(neighbors.objs[i].path, ip, props.mac));
    }
    return None;
  }

  method FindGatewayNeighbor(neighbors: ObjectLookupCache<NeighborProps>, gateway: Option<Addr>)
      returns (r: Option<IfNeigh>)
    requires neighbors.Valid()
    modifies neighbors`cache
    ensures neighbors.Valid() && r == GatewayNeighbor(neighbors.objs, gateway)
  {
    if gateway == None {
      return None;
    }
    r := FindStaticNeighbor(neighbors, gateway.value);
  }
}
