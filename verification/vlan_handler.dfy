/** The VLAN reconfiguration itself, call by call against the network daemon. */
module VlanHandler {
  import opened Bytes
  import opened Paths
  import opened ObjectTree
  import opened Vlan
  import opened VlanReconfigure

  /** The daemon behind the bus: each method is one call to it. */
  class Network {
    var net: Net
    const daemon: Daemon

    constructor (net: Net, daemon: Daemon)
      ensures this.net == net && this.daemon == daemon
    {
      this.net, this.daemon := net, daemon;
    }

    method Delete(path: string)
      modifies this
      ensures net == WithoutObjects(old(net), {path})
    {
      net := WithoutObjects(net, {path});
    }

    method SetDhcp(base: string, conf: DhcpConf)
      requires base in net.dhcp
      modifies this
      ensures net == old(net).(dhcp := old(net).dhcp[base := conf])
    {
      net := net.(dhcp := net.dhcp[base := conf]);
    }

    method CreateIfAddr(base: string, a: IfAddr)
      modifies this
      ensures net == WithIp(old(net), daemon, base, a)
    {
      net := WithIp(net, daemon, base, a);
    }

    method CreateNeighbor(base: string, n: IfNeigh)
      modifies this
      ensures net == WithNeighbor(old(net), daemon, base, n)
    {
      net := WithNeighbor(net, daemon, base, n);
    }

    method CreateVlan(vlan: nat) returns (path: string)
      modifies this
      ensures net == WithVlan(old(net), daemon, vlan) && path == daemon.vlanPath(vlan)
    {
      net := WithVlan(net, daemon, vlan);
      path := daemon.vlanPath(vlan);
    }
  }

  lemma WithoutTwice(net: Net, a: set<string>, b: set<string>)
    ensures WithoutObjects(WithoutObjects(net, a), b) == WithoutObjects(net, a + b)
  {
    KeptTwice(net.ips, a, b);
    KeptTwice(net.neighbors, a, b);
    var n := WithoutObjects(net, a);
    assert n.vlans - b == net.vlans - (a + b);
    assert n.dhcp - n.vlans * b == net.dhcp - net.vlans * (a + b);
  }

  lemma WithoutNothing(net: Net)
    ensures WithoutObjects(net, {}) == net
  {
    FilterAll(net.ips, IsOther({}));
    FilterAll(net.neighbors, IsOther({}));
    assert net.vlans - {} == net.vlans && net.vlans * {} == {};
    assert net.dhcp - {} == net.dhcp;
  }

  ghost function GoneAmong(paths: seq<string>, ifname: string): (r: set<string>) {
    set p | p in paths && Contains(p, ifname)
  }

  lemma GoneOneMore(paths: seq<string>, i: nat, ifname: string)
    requires i < |paths|
    ensures GoneAmong(paths[..i + 1], ifname)
         == if Contains(paths[i], ifname) then GoneAmong(paths[..i], ifname) + {paths[i]}
             else GoneAmong(paths[..i], ifname)
  {
    assert paths[..i + 1] == paths[..i] + [paths[i]];
  }

  class Channel {
    const ifname: string
    const ifPath: string
    var logicalPath: string

    function Abs(): (r: Params)
      reads this
    {
      Params(ifname, ifPath, logicalPath)
    }

    constructor (p: Params)
      ensures Abs() == p
    {
      ifname, ifPath, logicalPath := p.ifname, p.ifPath, p.logicalPath;
    }

    /** Deletes the interface's own objects, its logical interface among them. */
    method DeleteOwnObjects(network: Network, objs: seq<string>)
      requires ifPath !in objs
      modifies this`logicalPath, network
      ensures network.net == WithoutObjects(old(network.net), GoneAmong(objs, ifname))
      ensures logicalPath == if old(logicalPath) in GoneAmong(objs, ifname) then ifPath else old(logicalPath)
    {
      ghost var before := network.net;
      WithoutNothing(before);
      assert GoneAmong(objs[..0], ifname) == {};
      for i := 0 to |objs|
        invariant network.net == WithoutObjects(before, GoneAmong(objs[..i], ifname))
        invariant logicalPath == if old(logicalPath) in GoneAmong(objs[..i], ifname) then ifPath else old(logicalPath)
      {
        GoneOneMore(objs, i, ifname);
        assert objs[i] in objs;
        if Contains(objs[i], ifname) {
          network.Delete(objs[i]);
          WithoutTwice(before, GoneAmong(objs[..i], ifname), {objs[i]});
          if objs[i] == logicalPath {
            logicalPath := ifPath;
          }
        }
      }
      assert objs[..|objs|] == objs;
    }

    /** `deconfigureChannel`; `objs` is the answer to GetSubTree: every object with a Delete interface. */
    method DeconfigureChannel(network: Network, objs: seq<string>)
      requires forall path :: path in objs <==> path in Deletable(network.net)
      requires Proper(network.net, Abs(), network.daemon)
      modifies this`logicalPath, network
      ensures network.net == Deconfigured(old(network.net), old(Abs()))
      ensures logicalPath == LogicalAfter(old(network.net), old(Abs()))
    {
      ghost var before := network.net;
      assert GoneAmong(objs, ifname) == Doomed(before, ifname);
      DeleteOwnObjects(network, objs);
      LogicalIsDoomedOrPhysical(before, old(Abs()), network.daemon);
      assert logicalPath in network.net.dhcp by { assert ifPath !in before.vlans; }
      network.SetDhcp(logicalPath, NoDhcp);
    }

    method CreateVLAN(network: Network, vlan: nat)
      modifies this`logicalPath, network
      ensures network.net == if vlan == 0 then old(network.net) else WithVlan(old(network.net), network.daemon, vlan)
      ensures logicalPath == if vlan == 0 then old(logicalPath) else network.daemon.vlanPath(vlan)
    {
      if vlan == 0 {
        return;
      }
      logicalPath := network.CreateVlan(vlan);
    }

    /** The saving half of `reconfigureVLAN`. */
    method SaveSettings(network: Network) returns (saved: Saved)
      requires logicalPath in network.net.dhcp
      requires InPathOrder(network.net.ips) && InPathOrder(network.net.neighbors)
      ensures saved == Save(network.net, Abs())
    {
      FilterKeepsOrder(network.net.ips, IsBelow(logicalPath));
      FilterKeepsOrder(network.net.neighbors, IsBelow(logicalPath));
      var ips := new ObjectLookupCache(Below(network.net.ips, logicalPath));
      var ifaddr4 := FindIfAddr(ips, V4, 0, ORIGINS_V4);
      var ifaddrs6 := CollectStaticV6(ips);
      var dhcp := network.net.dhcp[logicalPath];
      var neighbors := new ObjectLookupCache(Below(network.net.neighbors, logicalPath));
      var neighbor4 := FindGatewayNeighbor(neighbors, network.net.gateway4);
      var neighbor6 := FindGatewayNeighbor(neighbors, network.net.gateway6);
      saved := Saved(ifaddr4, ifaddrs6, dhcp, neighbor4, neighbor6);
    }

    /** The addresses of the restoring half, each taking its place among the paths. */
    method CreateIps(network: Network, saved: Saved)
      modifies network
      ensures network.net == old(network.net).(
                ips := InsertedAll(old(network.net.ips),
                                   MadeIps(network.daemon, logicalPath, saved, old(network.net.created))),
                created := old(network.net.created) + |Again(saved)|)
    {
      ghost var start, again, n := network.net, Again(saved), |AgainV4(saved)|;
      if saved.addr4.Some? {
        OneMoreIp(start, network.daemon, logicalPath, again, 0);
        network.CreateIfAddr(logicalPath, saved.addr4.value);
      }
      for i := 0 to |saved.addrs6|
        invariant network.net == AfterIps(start, network.daemon, logicalPath, again, n + i)
      {
        OneMoreIp(start, network.daemon, logicalPath, again, n + i);
        network.CreateIfAddr(logicalPath, saved.addrs6[i]);
      }
      assert again[..|again|] == again;
    }

    method CreateNeighbors(network: Network, saved: Saved, ghost from: nat)
      requires network.net.created == from + |Again(saved)|
      modifies network
      ensures network.net == old(network.net).(
                neighbors := InsertedAll(old(network.net.neighbors),
                                         MadeNeighbors(network.daemon, logicalPath, saved, from)),
                created := old(network.net.created) + |NeighborsAgain(saved)|)
    {
      ghost var start, again := network.net, NeighborsAgain(saved);
      if saved.neighbor4.Some? {
        OneMoreNeighbor(start, network.daemon, logicalPath, again, 0);
        network.CreateNeighbor(logicalPath, saved.neighbor4.value);
      }
      if saved.neighbor6.Some? {
        OneMoreNeighbor(start, network.daemon, logicalPath, again, |again| - 1);
        network.CreateNeighbor(logicalPath, saved.neighbor6.value);
      }
      assert again[..|again|] == again;
    }

    /** The restoring half. */
    method RestoreSettings(network: Network, saved: Saved)
      requires logicalPath in network.net.dhcp
      modifies network
      ensures network.net == Restored(old(network.net), network.daemon, logicalPath, saved)
    {
      ghost var from := network.net.created;
      network.SetDhcp(logicalPath, saved.dhcp);
      CreateIps(network, saved);
      CreateNeighbors(network, saved, from);
    }

    /** Afterwards everything that the call requires holds again, for the new logical interface. */
    method ReconfigureVLAN(network: Network, vlan: nat, objs: seq<string>)
      requires Proper(network.net, Abs(), network.daemon)
      requires forall path :: path in objs <==> path in Deletable(network.net)
      modifies this`logicalPath, network
      ensures network.net == Reconfigured(old(network.net), old(Abs()), vlan, network.daemon)
      ensures logicalPath == NewLogical(old(network.net), old(Abs()), vlan, network.daemon)
      ensures Ready(network.net, Abs()) && NamesVlans(Abs(), network.daemon)
    {
      ReconfigureKeepsReady(network.net, Abs(), vlan, network.daemon);
      var saved := SaveSettings(network);
      DeconfigureChannel(network, objs);
      CreateVLAN(network, vlan);
      RestoreSettings(network, saved);
    }
  }
}
