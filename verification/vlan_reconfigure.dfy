/** `reconfigureVLAN`: what it does to the network daemon's objects, and what survives it. */
module VlanReconfigure {
  import opened Bytes
  import opened Paths
  import opened ObjectTree
  import opened Vlan

  // -------- the daemon's reactions --------

  function IsOther<P>(gone: set<string>): (r: Object<P> -> bool) { (o: Object<P>) => o.path !in gone }

  function Kept<P>(objects: seq<Object<P>>, gone: set<string>): (r: seq<Object<P>>) { Filter(objects, IsOther(gone)) }

  function WithoutObjects(net: Net, gone: set<string>): (r: Net) {
    net.(ips := Kept(net.ips, gone), neighbors := Kept(net.neighbors, gone), vlans := net.vlans - gone,
         dhcp := net.dhcp - net.vlans * gone)
  }

  function NewIp(d: Daemon, base: string, a: IfAddr, number: nat): (r: Object<IpProps>) {
    Object(base + "/" + d.name(number), IpProps(a.address, Static, a.prefix))
  }

  function NewNeighbor(d: Daemon, base: string, n: IfNeigh, number: nat): (r: Object<NeighborProps>) {
    Object(base + "/" + d.name(number), NeighborProps(n.ip, n.mac, true))
  }

  function WithIp(net: Net, d: Daemon, base: string, a: IfAddr): (r: Net) {
    net.(ips := Inserted(net.ips, NewIp(d, base, a, net.created)), created := net.created + 1)
  }

  function WithNeighbor(net: Net, d: Daemon, base: string, n: IfNeigh): (r: Net) {
    net.(neighbors := Inserted(net.neighbors, NewNeighbor(d, base, n, net.created)), created := net.created + 1)
  }

  function WithVlan(net: Net, d: Daemon, vlan: nat): (r: Net) {
    net.(vlans := net.vlans + {d.vlanPath(vlan)}, dhcp := net.dhcp[d.vlanPath(vlan) := d.initialDhcp])
  }

  /** What the daemon makes of addresses it is asked to create one after another. */
  function Created(d: Daemon, base: string, addrs: seq<IfAddr>, from: nat): (r: seq<Object<IpProps>>)
    ensures |r| == |addrs|
  {
    seq(|addrs|, i requires 0 <= i < |addrs| => NewIp(d, base, addrs[i], from + i))
  }

  function CreatedNeighbors(d: Daemon, base: string, ns: seq<IfNeigh>, from: nat): (r: seq<Object<NeighborProps>>)
    ensures |r| == |ns|
  {
    seq(|ns|, i requires 0 <= i < |ns| => NewNeighbor(d, base, ns[i], from + i))
  }

  /** The daemon's state when the first `k` of the addresses have been created. */
  function AfterIps(net: Net, d: Daemon, base: string, addrs: seq<IfAddr>, k: nat): (r: Net)
    requires k <= |addrs|
  {
    net.(ips := InsertedAll(net.ips, Created(d, base, addrs[..k], net.created)), created := net.created + k)
  }

  function AfterNeighbors(net: Net, d: Daemon, base: string, ns: seq<IfNeigh>, k: nat): (r: Net)
    requires k <= |ns|
  {
    net.(neighbors := InsertedAll(net.neighbors, CreatedNeighbors(d, base, ns[..k], net.created)),
        created := net.created + k)
  }

  lemma OneMoreIp(net: Net, d: Daemon, base: string, addrs: seq<IfAddr>, k: nat)
    requires k < |addrs|
    ensures AfterIps(net, d, base, addrs, k + 1) == WithIp(AfterIps(net, d, base, addrs, k), d, base, addrs[k])
  {
    var before, next := Created(d, base, addrs[..k], net.created), NewIp(d, base, addrs[k], net.created + k);
    assert Created(d, base, addrs[..k + 1], net.created) == before + [next];
  }

  lemma OneMoreNeighbor(net: Net, d: Daemon, base: string, ns: seq<IfNeigh>, k: nat)
    requires k < |ns|
    ensures AfterNeighbors(net, d, base, ns, k + 1) == WithNeighbor(AfterNeighbors(net, d, base, ns, k), d, base, ns[k])
  {
    var before, next := CreatedNeighbors(d, base, ns[..k], net.created), NewNeighbor(d, base, ns[k], net.created + k);
    assert CreatedNeighbors(d, base, ns[..k + 1], net.created) == before + [next];
  }

  // -------- the three stages --------

  datatype Saved = Saved(addr4: Option<IfAddr>, addrs6: seq<IfAddr>, dhcp: DhcpConf, neighbor4: Option<IfNeigh>,
                         neighbor6: Option<IfNeigh>)

  function Save(net: Net, p: Params): (r: Saved)
    requires p.logicalPath in net.dhcp
  {
    var ips, neighbors := Below(net.ips, p.logicalPath), Below(net.neighbors, p.logicalPath);
    Saved(Nth(Matching(ips, V4, ORIGINS_V4), 0),
          FirstN(Matching(ips, V6, ORIGINS_V6_STATIC), MAX_IPV6_STATIC_ADDRESSES),
          net.dhcp[p.logicalPath],
          GatewayNeighbor(neighbors, net.gateway4), GatewayNeighbor(neighbors, net.gateway6))
  }

  /** The addresses that are set up again: the first IPv4 one, then the static IPv6 ones. */
  function Again(saved: Saved): (r: seq<IfAddr>) { AgainV4(saved) + saved.addrs6 }

  function AgainV4(saved: Saved): (r: seq<IfAddr>) { if saved.addr4.Some? then [saved.addr4.value] else [] }

  function NeighborsAgain(saved: Saved): (r: seq<IfNeigh>) {
    (if saved.neighbor4.Some? then [saved.neighbor4.value] else [])
    + (if saved.neighbor6.Some? then [saved.neighbor6.value] else [])
  }

  function PathsOf<P(==)>(objects: seq<Object<P>>): (r: set<string>) { set o | o in objects :: o.path }

  /** Every object with a Delete interface. */
  function Deletable(net: Net): (r: set<string>) { PathsOf(net.ips) + PathsOf(net.neighbors) + net.vlans }

  /** The interface's own objects are told by their path containing its name. */
  function Doomed(net: Net, ifname: string): (r: set<string>) { set p | p in Deletable(net) && Contains(p, ifname) }

  function LogicalAfter(net: Net, p: Params): (r: string) {
    if p.logicalPath in Doomed(net, p.ifname) then p.ifPath else p.logicalPath
  }

  function Deconfigured(net: Net, p: Params): (r: Net) {
    var bare := WithoutObjects(net, Doomed(net, p.ifname));
    bare.(dhcp := bare.dhcp[LogicalAfter(net, p) := NoDhcp])
  }

  /** The objects that are made again, when `created` is the daemon's next number. */
  function MadeIps(d: Daemon, base: string, saved: Saved, created: nat): (r: seq<Object<IpProps>>) {
    Created(d, base, Again(saved), created)
  }

  function MadeNeighbors(d: Daemon, base: string, saved: Saved, created: nat): (r: seq<Object<NeighborProps>>) {
    CreatedNeighbors(d, base, NeighborsAgain(saved), created + |Again(saved)|)
  }

  function Restored(net: Net, d: Daemon, base: string, saved: Saved): (r: Net) {
    net.(dhcp := net.dhcp[base := saved.dhcp],
         ips := InsertedAll(net.ips, MadeIps(d, base, saved, net.created)),
         neighbors := InsertedAll(net.neighbors, MadeNeighbors(d, base, saved, net.created)),
         created := net.created + |Again(saved)| + |NeighborsAgain(saved)|)
  }

  function NewLogical(net: Net, p: Params, vlan: nat, d: Daemon): (r: string) {
    if vlan == 0 then LogicalAfter(net, p) else d.vlanPath(vlan)
  }

  function Reconfigured(net: Net, p: Params, vlan: nat, d: Daemon): (r: Net)
    requires p.logicalPath in net.dhcp
  {
    var bare := Deconfigured(net, p);
    Restored(if vlan == 0 then bare else WithVlan(bare, d, vlan), d, NewLogical(net, p, vlan, d), Save(net, p))
  }

  /** A daemon that names VLANs after their interface. */
  ghost predicate NamesVlans(p: Params, d: Daemon) {
    forall v :: Contains(d.vlanPath(v), p.ifname) && d.vlanPath(v) != p.ifPath && !Under(d.vlanPath(v), p.ifPath)
  }

  /** The objects of this one reconfiguration get different names; later ones may get the same names again. */
  ghost predicate NamesObjects(net: Net, p: Params, d: Daemon)
    requires p.logicalPath in net.dhcp
  {
    d.NamesDistinct(net.created, |Again(Save(net, p))| + |NeighborsAgain(Save(net, p))|)
  }

  ghost predicate Proper(net: Net, p: Params, d: Daemon) {
    Ready(net, p) && NamesVlans(p, d) && NamesObjects(net, p, d)
  }

  /** The channel's parameters as `getChannelParams` finds them. */
  ghost predicate Ready(net: Net, p: Params) {
    && InPathOrder(net.ips) && InPathOrder(net.neighbors)
    && Contains(p.ifPath, p.ifname) && Contains(p.logicalPath, p.ifname)
    && (p.logicalPath == p.ifPath || p.logicalPath in net.vlans)
    && p.ifPath !in Deletable(net)
    && p.logicalPath in net.dhcp && p.ifPath in net.dhcp
  }

  // -------- teardown --------

  /** After the teardown nothing is left below a path that contains the interface's name. */
  lemma NothingBelow<P(!new)>(objects: seq<Object<P>>, gone: set<string>, ifname: string, base: string)
    requires forall o | o in objects && Contains(o.path, ifname) :: o.path in gone
    requires Contains(base, ifname)
    ensures Below(Kept(objects, gone), base) == []
  {
    FilterMembers(objects, IsOther(gone));
    forall o | o in Kept(objects, gone) ensures !Under(base, o.path) {
      if Under(base, o.path) { SubtreeContains(base, o.path, ifname); }
    }
    FilterNone(Kept(objects, gone), IsBelow(base));
  }

  lemma KeptTwice<P(!new)>(objects: seq<Object<P>>, a: set<string>, b: set<string>)
    ensures Kept(Kept(objects, a), b) == Kept(objects, a + b)
  {
    FilterTwice(objects, IsOther(a), IsOther(b), IsOther(a + b));
  }

  lemma TornDown(net: Net, p: Params, d: Daemon, base: string)
    requires Proper(net, p, d) && Contains(base, p.ifname)
    ensures Below(Deconfigured(net, p).ips, base) == [] && Below(Deconfigured(net, p).neighbors, base) == []
  {
    var gone := Doomed(net, p.ifname);
    forall o | o in net.ips && Contains(o.path, p.ifname) ensures o.path in gone { assert o.path in PathsOf(net.ips); }
    NothingBelow(net.ips, gone, p.ifname, base);
    forall o | o in net.neighbors && Contains(o.path, p.ifname) ensures o.path in gone {
      assert o.path in PathsOf(net.neighbors);
    }
    NothingBelow(net.neighbors, gone, p.ifname, base);
  }

  lemma LogicalIsDoomedOrPhysical(net: Net, p: Params, d: Daemon)
    requires Proper(net, p, d)
    ensures LogicalAfter(net, p) == p.ifPath
  {
    if p.logicalPath != p.ifPath { assert p.logicalPath in Doomed(net, p.ifname); }
  }

  // -------- setting up again --------

  ghost predicate NamedFrom<P>(d: Daemon, base: string, objects: seq<Object<P>>, from: nat) {
    forall i | 0 <= i < |objects| :: objects[i].path == base + "/" + d.name(from + i)
  }

  ghost predicate Apart<P>(objects: seq<Object<P>>, base: string) {
    DistinctPaths(objects) && forall o | o in objects :: Under(base, o.path)
  }

  lemma NamedObjects<P(!new)>(d: Daemon, base: string, objects: seq<Object<P>>, from: nat, first: nat, count: nat)
    requires d.NamesDistinct(first, count) && first <= from && from + |objects| <= first + count
    requires NamedFrom(d, base, objects, from)
    ensures Apart(objects, base)
  {
    forall i, j | 0 <= i < j < |objects| ensures objects[i].path != objects[j].path {
      assert d.name(from + i) != d.name(from + j);
      assert d.name(from + i) == objects[i].path[|base| + 1..] && d.name(from + j) == objects[j].path[|base| + 1..];
    }
  }

  /** `all` is `objects` and `news` in path order, and below `base` there is exactly `news`. */
  ghost predicate Rebuilt<P>(objects: seq<Object<P>>, news: seq<Object<P>>, all: seq<Object<P>>, base: string) {
    && InPathOrder(all) && multiset(all) == multiset(objects) + multiset(news)
    && InPathOrder(Below(all, base)) && multiset(Below(all, base)) == multiset(news)
    && forall o | o in news :: Under(base, o.path)
  }

  /** New objects below an empty place: all of them are listed there, in path order, and nothing else is. */
  lemma AddedBelow<P(!new)>(objects: seq<Object<P>>, news: seq<Object<P>>, base: string)
    requires Apart(news, base)
    requires InPathOrder(objects) && Below(objects, base) == []
    ensures Rebuilt(objects, news, InsertedAll(objects, news), base)
  {
    var all := InsertedAll(objects, news);
    FilterMembers(objects, IsBelow(base));
    forall x, y | x in objects && y in news ensures x.path != y.path {
      assert x in Below(objects, base) <==> Under(base, x.path);
    }
    InsertedAllKeepsOrder(objects, news);
    InsertedAllContents(objects, news);
    FilterKeepsOrder(all, IsBelow(base));
    FilterOfSame(all, objects + news, IsBelow(base));
    FilterConcat(objects, news, IsBelow(base));
    FilterAll(news, IsBelow(base));
    assert Below(objects, base) + news == news;
  }

  lemma RebuiltMembers<P(!new)>(listed: seq<Object<P>>, gone: set<string>, ifname: string, news: seq<Object<P>>,
                                all: seq<Object<P>>, base: string)
    requires Rebuilt(Kept(listed, gone), news, all, base)
    requires forall o | o in listed :: o.path in gone <==> Contains(o.path, ifname)
    ensures forall o :: o in all <==> (o in listed && !Contains(o.path, ifname)) || o in news
  {
    FilterMembers(listed, IsOther(gone));
    forall o ensures o in all <==> (o in listed && !Contains(o.path, ifname)) || o in news {
      assert o in all <==> o in multiset(Kept(listed, gone)) + multiset(news);
    }
  }

  lemma TwoHalves(net: Net, p: Params, vlan: nat, d: Daemon)
    requires p.logicalPath in net.dhcp
    ensures var n, base, gone := Reconfigured(net, p, vlan, d), NewLogical(net, p, vlan, d), Doomed(net, p.ifname);
            && n.ips == InsertedAll(Kept(net.ips, gone), MadeIps(d, base, Save(net, p), net.created))
            && n.neighbors == InsertedAll(Kept(net.neighbors, gone), MadeNeighbors(d, base, Save(net, p), net.created))
  {}

  lemma MadeAreApart(d: Daemon, base: string, saved: Saved, created: nat)
    requires d.NamesDistinct(created, |Again(saved)| + |NeighborsAgain(saved)|)
    ensures Apart(MadeIps(d, base, saved, created), base) && Apart(MadeNeighbors(d, base, saved, created), base)
  {
    var count := |Again(saved)| + |NeighborsAgain(saved)|;
    NamedObjects(d, base, MadeIps(d, base, saved, created), created, created, count);
    NamedObjects(d, base, MadeNeighbors(d, base, saved, created), created + |Again(saved)|, created, count);
  }

  // -------- main results --------

  /** The DHCP setting and the gateways are the old ones. */
  lemma SettingsKept(net: Net, p: Params, vlan: nat, d: Daemon)
    requires Proper(net, p, d)
    ensures var n, base := Reconfigured(net, p, vlan, d), NewLogical(net, p, vlan, d);
            && base == (if vlan == 0 then p.ifPath else d.vlanPath(vlan))
            && base in n.dhcp && n.dhcp[base] == net.dhcp[p.logicalPath]
            && n.gateway4 == net.gateway4 && n.gateway6 == net.gateway6
  {
    LogicalIsDoomedOrPhysical(net, p, d);
  }

  /** The DHCP settings afterwards: the new logical interface has the old one's, the physical interface below a VLAN
      has none, every other interface keeps its own, and those of the deleted VLANs are gone. */
  lemma DhcpAfterwards(net: Net, p: Params, vlan: nat, d: Daemon)
    requires Proper(net, p, d)
    ensures var n, base := Reconfigured(net, p, vlan, d), if vlan == 0 then p.ifPath else d.vlanPath(vlan);
            && base in n.dhcp && n.dhcp[base] == net.dhcp[p.logicalPath]
            && (vlan > 0 ==> p.ifPath in n.dhcp && n.dhcp[p.ifPath] == NoDhcp)
            && (forall path | path != base && path != p.ifPath ::
                  && (path in n.dhcp <==> path in net.dhcp && !(path in net.vlans && Contains(path, p.ifname)))
                  && (path in n.dhcp ==> n.dhcp[path] == net.dhcp[path]))
  {
    LogicalIsDoomedOrPhysical(net, p, d);
  }

  /** The VLAN interfaces afterwards: those whose path does not contain the interface's name, and the new one. */
  lemma VlansAfterwards(net: Net, p: Params, vlan: nat, d: Daemon)
    requires Proper(net, p, d)
    ensures forall path :: path in Reconfigured(net, p, vlan, d).vlans
                      <==> (path in net.vlans && !Contains(path, p.ifname)) || (vlan > 0 && path == d.vlanPath(vlan))
  {}

  /** Below the new logical interface there are exactly the saved addresses, as static ones, each once and in path
      order; the other interfaces' addresses are still there. */
  lemma IpsRebuilt(net: Net, p: Params, vlan: nat, d: Daemon)
    requires Proper(net, p, d)
    ensures var base := NewLogical(net, p, vlan, d);
            Rebuilt(Kept(net.ips, Doomed(net, p.ifname)), MadeIps(d, base, Save(net, p), net.created),
                    Reconfigured(net, p, vlan, d).ips, base)
  {
    var base := NewLogical(net, p, vlan, d);
    LogicalIsDoomedOrPhysical(net, p, d);
    TornDown(net, p, d, base);
    FilterKeepsOrder(net.ips, IsOther(Doomed(net, p.ifname)));
    TwoHalves(net, p, vlan, d);
    MadeAreApart(d, base, Save(net, p), net.created);
    AddedBelow(Kept(net.ips, Doomed(net, p.ifname)), MadeIps(d, base, Save(net, p), net.created), base);
  }

  /** The same for the neighbors of the gateways. */
  lemma NeighborsRebuilt(net: Net, p: Params, vlan: nat, d: Daemon)
    requires Proper(net, p, d)
    ensures var base := NewLogical(net, p, vlan, d);
            Rebuilt(Kept(net.neighbors, Doomed(net, p.ifname)), MadeNeighbors(d, base, Save(net, p), net.created),
                    Reconfigured(net, p, vlan, d).neighbors, base)
  {
    var base := NewLogical(net, p, vlan, d);
    LogicalIsDoomedOrPhysical(net, p, d);
    TornDown(net, p, d, base);
    FilterKeepsOrder(net.neighbors, IsOther(Doomed(net, p.ifname)));
    TwoHalves(net, p, vlan, d);
    MadeAreApart(d, base, Save(net, p), net.created);
    AddedBelow(Kept(net.neighbors, Doomed(net, p.ifname)), MadeNeighbors(d, base, Save(net, p), net.created), base);
  }

  /** The objects afterwards: the old ones whose path does not contain the interface's name, and the ones made
      again below the new logical interface. */
  lemma AfterwardsExactly(net: Net, p: Params, vlan: nat, d: Daemon)
    requires Proper(net, p, d)
    ensures var n, base := Reconfigured(net, p, vlan, d), NewLogical(net, p, vlan, d);
            && (forall o :: o in n.ips <==> (o in net.ips && !Contains(o.path, p.ifname))
                                            || o in MadeIps(d, base, Save(net, p), net.created))
            && (forall o :: o in n.neighbors <==> (o in net.neighbors && !Contains(o.path, p.ifname))
                                                  || o in MadeNeighbors(d, base, Save(net, p), net.created))
  {
    var n, base, gone := Reconfigured(net, p, vlan, d), NewLogical(net, p, vlan, d), Doomed(net, p.ifname);
    forall o | o in net.ips ensures o.path in gone <==> Contains(o.path, p.ifname) {
      assert o.path in PathsOf(net.ips);
    }
    forall o | o in net.neighbors ensures o.path in gone <==> Contains(o.path, p.ifname) {
      assert o.path in PathsOf(net.neighbors);
    }
    IpsRebuilt(net, p, vlan, d);
    NeighborsRebuilt(net, p, vlan, d);
    RebuiltMembers(net.ips, gone, p.ifname, MadeIps(d, base, Save(net, p), net.created), n.ips, base);
    RebuiltMembers(net.neighbors, gone, p.ifname, MadeNeighbors(d, base, Save(net, p), net.created), n.neighbors, base);
  }

  /** Away from the new interface an object survives exactly if its path does not contain the interface's name. */
  lemma ElsewhereSurvivesExactlyIfNameAbsent(net: Net, p: Params, vlan: nat, d: Daemon)
    requires Proper(net, p, d)
    ensures var n, base := Reconfigured(net, p, vlan, d), NewLogical(net, p, vlan, d);
            && (forall o | o in net.ips && !Under(base, o.path) :: o in n.ips <==> !Contains(o.path, p.ifname))
            && (forall o | o in net.neighbors && !Under(base, o.path) ::
                  o in n.neighbors <==> !Contains(o.path, p.ifname))
  {
    IpsRebuilt(net, p, vlan, d);
    NeighborsRebuilt(net, p, vlan, d);
    AfterwardsExactly(net, p, vlan, d);
  }

  /** So reconfiguring an interface destroys the objects of every interface whose name is a longer one. */
  lemma LongerNamesDestroyed(net: Net, p: Params, vlan: nat, d: Daemon, o: Object<IpProps>, before: string,
      behind: string)
    requires Proper(net, p, d) && o in net.ips && !Under(NewLogical(net, p, vlan, d), o.path)
    requires o.path == before + p.ifname + behind
    ensures o !in Reconfigured(net, p, vlan, d).ips
  {
    ContainedBehind(before, p.ifname);
    ContainedInLonger(before + p.ifname, p.ifname, behind);
    ElsewhereSurvivesExactlyIfNameAbsent(net, p, vlan, d);
  }

  /** Everything a reconfiguration asks for holds again afterwards, so they can follow one another. */
  lemma ReconfigureKeepsReady(net: Net, p: Params, vlan: nat, d: Daemon)
    requires Proper(net, p, d)
    ensures Ready(Reconfigured(net, p, vlan, d), p.(logicalPath := NewLogical(net, p, vlan, d)))
  {
    var n, base := Reconfigured(net, p, vlan, d), NewLogical(net, p, vlan, d);
    SettingsKept(net, p, vlan, d);
    IfPathStaysUndeletable(net, p, vlan, d);
    IpsRebuilt(net, p, vlan, d);
    NeighborsRebuilt(net, p, vlan, d);
  }

  lemma IfPathStaysUndeletable(net: Net, p: Params, vlan: nat, d: Daemon)
    requires Proper(net, p, d)
    ensures p.ifPath !in Deletable(Reconfigured(net, p, vlan, d))
  {
    IfPathNotBelow(net, p, vlan, d);
    IfPathNoAddress(net, p, vlan, d);
    IfPathNoNeighbor(net, p, vlan, d);
  }

  lemma IfPathNotBelow(net: Net, p: Params, vlan: nat, d: Daemon)
    requires Proper(net, p, d)
    ensures !Under(NewLogical(net, p, vlan, d), p.ifPath)
    ensures p.ifPath !in Reconfigured(net, p, vlan, d).vlans
  {
    LogicalIsDoomedOrPhysical(net, p, d);
  }

  lemma IfPathNoAddress(net: Net, p: Params, vlan: nat, d: Daemon)
    requires Proper(net, p, d)
    ensures p.ifPath !in PathsOf(Reconfigured(net, p, vlan, d).ips)
  {
    var base := NewLogical(net, p, vlan, d);
    IfPathNotBelow(net, p, vlan, d);
    IpsRebuilt(net, p, vlan, d);
    NoNewPath(net.ips, Doomed(net, p.ifname), MadeIps(d, base, Save(net, p), net.created),
              Reconfigured(net, p, vlan, d).ips, base, p.ifPath);
  }

  lemma IfPathNoNeighbor(net: Net, p: Params, vlan: nat, d: Daemon)
    requires Proper(net, p, d)
    ensures p.ifPath !in PathsOf(Reconfigured(net, p, vlan, d).neighbors)
  {
    var base := NewLogical(net, p, vlan, d);
    IfPathNotBelow(net, p, vlan, d);
    NeighborsRebuilt(net, p, vlan, d);
    NoNewPath(net.neighbors, Doomed(net, p.ifname), MadeNeighbors(d, base, Save(net, p), net.created),
              Reconfigured(net, p, vlan, d).neighbors, base, p.ifPath);
  }

  lemma NoNewPath<P(!new)>(listed: seq<Object<P>>, gone: set<string>, news: seq<Object<P>>, all: seq<Object<P>>,
                               base: string, path: string)
    requires Rebuilt(Kept(listed, gone), news, all, base)
    requires path !in PathsOf(listed) && !Under(base, path)
    ensures path !in PathsOf(all)
  {
    FilterMembers(listed, IsOther(gone));
    forall o | o in all ensures o.path != path {
      assert o in multiset(Kept(listed, gone)) + multiset(news);
      if o in listed { assert o.path in PathsOf(listed); }
    }
  }

  // -------- static IPv6 addresses --------

  /** What is visible of an address: where it points and how wide its subnet is. */
  function Settings(addrs: seq<IfAddr>): (r: seq<(Addr, byte)>)
    ensures |r| == |addrs|
  {
    seq(|addrs|, i requires 0 <= i < |addrs| => (addrs[i].address, addrs[i].prefix))
  }

  function SettingsOf(objects: seq<Object<IpProps>>): (r: seq<(Addr, byte)>)
    ensures |r| == |objects|
  {
    seq(|objects|, i requires 0 <= i < |objects| => (objects[i].props.address, objects[i].props.prefix))
  }

  lemma {:induction false} SettingsOfSame(a: seq<Object<IpProps>>, b: seq<Object<IpProps>>)
    requires multiset(a) == multiset(b)
    ensures multiset(SettingsOf(a)) == multiset(SettingsOf(b))
    decreases |a|
  {
    SameLength(a, b);
    if a != [] {
      assert a[0] in multiset(b);
      var i :| 0 <= i < |b| && b[i] == a[0];
      DropSame(a, b, i);
      SettingsOfSame(a[..0] + a[1..], b[..i] + b[i + 1..]);
      SettingsSplit(a, 0);
      SettingsSplit(b, i);
    }
  }

  lemma DropSame<T>(a: seq<T>, b: seq<T>, i: nat)
    requires multiset(a) == multiset(b) && a != [] && i < |b| && b[i] == a[0]
    ensures multiset(a[..0] + a[1..]) == multiset(b[..i] + b[i + 1..])
  {
    WithoutOne(a, 0);
    WithoutOne(b, i);
    var x, y := multiset(a[..0] + a[1..]), multiset(b[..i] + b[i + 1..]);
    assert x == x + multiset{a[0]} - multiset{a[0]} && y == y + multiset{a[0]} - multiset{a[0]};
  }

  lemma WithoutOne<T>(s: seq<T>, i: nat)
    requires i < |s|
    ensures multiset(s) == multiset(s[..i] + s[i + 1..]) + multiset{s[i]}
  {
    assert s == s[..i] + [s[i]] + s[i + 1..];
  }

  lemma SettingsSplit(s: seq<Object<IpProps>>, i: nat)
    requires i < |s|
    ensures multiset(SettingsOf(s))
         == multiset(SettingsOf(s[..i] + s[i + 1..])) + multiset{(s[i].props.address, s[i].props.prefix)}
  {
    var all := SettingsOf(s);
    assert SettingsOf(s[..i] + s[i + 1..]) == all[..i] + all[i + 1..];
    WithoutOne(all, i);
  }

  /** The static IPv6 objects that a lookup on the new interface goes through. */
  function V6Now(net: Net, p: Params, vlan: nat, d: Daemon): (r: seq<Object<IpProps>>)
    requires p.logicalPath in net.dhcp
  {
    Selected(Below(Reconfigured(net, p, vlan, d).ips, NewLogical(net, p, vlan, d)), V6, ORIGINS_V6_STATIC)
  }

  /** The number of the first object made for a static IPv6 address. */
  function V6From(saved: Saved, created: nat): (r: nat) { created + |AgainV4(saved)| }

  /** The objects made for the saved static IPv6 addresses, in the order of their creation. */
  function V6Made(d: Daemon, base: string, saved: Saved, created: nat): (r: seq<Object<IpProps>>) {
    Created(d, base, saved.addrs6, V6From(saved, created))
  }

  lemma MatchingFamily(objects: seq<Object<IpProps>>, family: Family, origins: set<Origin>)
    ensures forall a | a in Matching(objects, family, origins) :: a.address.family == family
  {
    var found := Selected(objects, family, origins);
    FilterMembers(objects, IsWanted(family, origins));
    forall i | 0 <= i < |found| ensures found[i].props.address.family == family {
      assert found[i] in found;
    }
  }

  /** Among what was made again, the wanted family is made of the addresses of that family. */
  lemma SelectedOfCreated(d: Daemon, base: string, saved: Saved, created: nat)
    requires SavedByFamily(saved)
    ensures var made := MadeIps(d, base, saved, created);
            && Selected(made, V6, ORIGINS_V6_STATIC) == V6Made(d, base, saved, created)
            && Selected(made, V4, ORIGINS_V4) == Created(d, base, AgainV4(saved), created)
  {
    var first, others := Created(d, base, AgainV4(saved), created), V6Made(d, base, saved, created);
    assert MadeIps(d, base, saved, created) == first + others;
    AllV6(d, base, saved.addrs6, V6From(saved, created));
    OnlyOneKind(first, others, IsWanted(V4, ORIGINS_V4));
    FilterConcat(first, others, IsWanted(V6, ORIGINS_V6_STATIC));
    FilterAll(others, IsWanted(V6, ORIGINS_V6_STATIC));
    FilterNone(first, IsWanted(V6, ORIGINS_V6_STATIC));
  }

  lemma AllV6(d: Daemon, base: string, addrs: seq<IfAddr>, from: nat)
    requires forall a | a in addrs :: a.address.family == V6
    ensures forall o | o in Created(d, base, addrs, from) :: o.props.address.family == V6 && o.props.origin == Static
  {
    var made := Created(d, base, addrs, from);
    forall o | o in made ensures o.props.address.family == V6 && o.props.origin == Static {
      var i :| 0 <= i < |made| && made[i] == o;
      assert addrs[i] in addrs;
    }
  }

  lemma OnlyOneKind<P(!new)>(first: seq<Object<P>>, others: seq<Object<P>>, keep: Object<P> -> bool)
    requires (forall o | o in first :: keep(o)) && forall o | o in others :: !keep(o)
    ensures Filter(first + others, keep) == first
  {
    FilterConcat(first, others, keep);
    FilterAll(first, keep);
    FilterNone(others, keep);
  }

  ghost predicate SavedByFamily(saved: Saved) {
    && (saved.addr4.Some? ==> saved.addr4.value.address.family == V4)
    && (forall a | a in saved.addrs6 :: a.address.family == V6)
  }

  /** A lookup lists the addresses below the interface that have the family and one of the origins, and no others. */
  lemma LookupListsExactly(objects: seq<Object<IpProps>>, base: string, family: Family, origins: set<Origin>)
    ensures forall a :: a in Matching(Below(objects, base), family, origins)
                   <==> exists o :: o in objects && base + "/" <= o.path && o.props.address.family == family
                                    && o.props.origin in origins
                                    && a == IfAddr(o.path, o.props.address, o.props.origin, o.props.prefix)
  {
    var below := Below(objects, base);
    var found := Selected(below, family, origins);
    FilterMembers(objects, IsBelow(base));
    FilterMembers(below, IsWanted(family, origins));
    forall a ensures a in ToIfAddrs(found) <==> exists o :: o in found && a == ToIfAddr(o) {
      if a in ToIfAddrs(found) {
        var i :| 0 <= i < |found| && ToIfAddrs(found)[i] == a;
        assert found[i] in found;
      }
      if o :| o in found && a == ToIfAddr(o) {
        var i :| 0 <= i < |found| && found[i] == o;
        assert ToIfAddrs(found)[i] == a;
      }
    }
    forall o ensures o in found <==> o in objects && base + "/" <= o.path && o.props.address.family == family
                                     && o.props.origin in origins {}
  }

  /** Saved are an IPv4 address with origin static or DHCP, if there is one, and static IPv6 ones: all, or fifteen. */
  lemma SavedExactly(net: Net, p: Params)
    requires p.logicalPath in net.dhcp
    ensures var saved := Save(net, p);
            && (saved.addr4 == None <==> forall o | o in net.ips && p.logicalPath + "/" <= o.path ::
                  !(o.props.address.family == V4 && (o.props.origin == Static || o.props.origin == FromDhcp)))
            && |saved.addrs6| <= 15
            && (forall a | a in saved.addrs6 ::
                  exists o :: o in net.ips && p.logicalPath + "/" <= o.path && a.address.family == V6
                              && o.props == IpProps(a.address, Static, a.prefix))
            && (|saved.addrs6| < 15 ==> forall o | o in net.ips && p.logicalPath + "/" <= o.path
                  && o.props.address.family == V6 && o.props.origin == Static ::
                    IfAddr(o.path, o.props.address, Static, o.props.prefix) in saved.addrs6)
  {
    LookupListsExactly(net.ips, p.logicalPath, V4, ORIGINS_V4);
    LookupListsExactly(net.ips, p.logicalPath, V6, ORIGINS_V6_STATIC);
    var all4 := Matching(Below(net.ips, p.logicalPath), V4, ORIGINS_V4);
    var all6 := Matching(Below(net.ips, p.logicalPath), V6, ORIGINS_V6_STATIC);
    if all4 != [] { assert all4[0] in all4; }
    forall o | o in net.ips && p.logicalPath + "/" <= o.path && o.props.address.family == V4
               && (o.props.origin == Static || o.props.origin == FromDhcp)
      ensures all4 != []
    {
      assert IfAddr(o.path, o.props.address, o.props.origin, o.props.prefix) in all4;
    }
    forall a | a in Save(net, p).addrs6 ensures a in all6 {}
  }

  /** And they are the first such addresses in path order. */
  lemma SavedAreFirst(net: Net, p: Params)
    requires p.logicalPath in net.dhcp && InPathOrder(net.ips)
    ensures var saved, all4 := Save(net, p), Matching(Below(net.ips, p.logicalPath), V4, ORIGINS_V4);
            && (saved.addr4.Some? ==> saved.addr4.value in all4)
            && (saved.addr4.Some? ==>
                  forall a | a in all4 :: a == saved.addr4.value || Before(saved.addr4.value.path, a.path))
    ensures var saved, all6 := Save(net, p), Matching(Below(net.ips, p.logicalPath), V6, ORIGINS_V6_STATIC);
            && (forall i | 0 <= i < |saved.addrs6| :: i < |all6| && saved.addrs6[i] == all6[i])
            && (forall i, j | 0 <= i < j < |all6| :: Before(all6[i].path, all6[j].path))
  {
    var below := Below(net.ips, p.logicalPath);
    FilterKeepsOrder(net.ips, IsBelow(p.logicalPath));
    FilterKeepsOrder(below, IsWanted(V4, ORIGINS_V4));
    FilterKeepsOrder(below, IsWanted(V6, ORIGINS_V6_STATIC));
  }

  lemma SavedFamilies(net: Net, p: Params)
    requires p.logicalPath in net.dhcp
    ensures SavedByFamily(Save(net, p))
  {
    MatchingFamily(Below(net.ips, p.logicalPath), V4, ORIGINS_V4);
    MatchingFamily(Below(net.ips, p.logicalPath), V6, ORIGINS_V6_STATIC);
  }

  /** A lookup below an interface rebuilt from `saved` goes through the objects made, in path order. */
  lemma LookupOfRebuilt(below: seq<Object<IpProps>>, d: Daemon, base: string, saved: Saved, created: nat)
    requires SavedByFamily(saved)
    requires InPathOrder(below) && multiset(below) == multiset(MadeIps(d, base, saved, created))
    ensures InPathOrder(Selected(below, V6, ORIGINS_V6_STATIC))
    ensures multiset(Selected(below, V6, ORIGINS_V6_STATIC)) == multiset(V6Made(d, base, saved, created))
    ensures multiset(Selected(below, V4, ORIGINS_V4)) == multiset(Created(d, base, AgainV4(saved), created))
  {
    SelectedOfCreated(d, base, saved, created);
    FilterOfSame(below, MadeIps(d, base, saved, created), IsWanted(V6, ORIGINS_V6_STATIC));
    FilterOfSame(below, MadeIps(d, base, saved, created), IsWanted(V4, ORIGINS_V4));
    FilterKeepsOrder(below, IsWanted(V6, ORIGINS_V6_STATIC));
  }

  /** The objects a lookup goes through are those that were made, in path order. */
  lemma LookupsAfterwards(net: Net, p: Params, vlan: nat, d: Daemon)
    requires Proper(net, p, d)
    ensures InPathOrder(V6Now(net, p, vlan, d))
    ensures multiset(V6Now(net, p, vlan, d))
        == multiset(V6Made(d, NewLogical(net, p, vlan, d), Save(net, p), net.created))
    ensures var n, base := Reconfigured(net, p, vlan, d), NewLogical(net, p, vlan, d);
            multiset(Selected(Below(n.ips, base), V4, ORIGINS_V4))
            == multiset(Created(d, base, AgainV4(Save(net, p)), net.created))
  {
    var base := NewLogical(net, p, vlan, d);
    IpsRebuilt(net, p, vlan, d);
    SavedFamilies(net, p);
    LookupOfRebuilt(Below(Reconfigured(net, p, vlan, d).ips, base), d, base, Save(net, p), net.created);
  }

  lemma SettingsOfCreated(d: Daemon, base: string, addrs: seq<IfAddr>, from: nat)
    ensures SettingsOf(Created(d, base, addrs, from)) == Settings(addrs)
  {
    assert SettingsOf(Created(d, base, addrs, from)) == Settings(addrs);
  }

  /** A lookup on the new interface finds exactly the static IPv6 addresses that were saved. */
  lemma StaticV6FoundAgain(net: Net, p: Params, vlan: nat, d: Daemon)
    requires Proper(net, p, d)
    ensures multiset(SettingsOf(V6Now(net, p, vlan, d))) == multiset(Settings(Save(net, p).addrs6))
  {
    var base, saved := NewLogical(net, p, vlan, d), Save(net, p);
    LookupsAfterwards(net, p, vlan, d);
    SettingsOfSame(V6Now(net, p, vlan, d), V6Made(d, base, saved, net.created));
    SettingsOfCreated(d, base, saved.addrs6, V6From(saved, net.created));
  }

  lemma FirstOnesAreAll(addrs: seq<IfAddr>, n: nat)
    ensures multiset(Settings(FirstN(addrs, n))) == multiset(Settings(addrs)) <==> |addrs| <= n
  {
    var all, some := Settings(addrs), Settings(FirstN(addrs, n));
    if |addrs| <= n {
      assert FirstN(addrs, n) == addrs;
    } else {
      assert |multiset(all)| == |all| > |some| == |multiset(some)|;
    }
  }

  /** All static IPv6 addresses survive, as often as they were there, exactly if there are at most fifteen. */
  lemma AllStaticV6PreservedExactlyUpToFifteen(net: Net, p: Params, vlan: nat, d: Daemon)
    requires Proper(net, p, d)
    ensures var before := Matching(Below(net.ips, p.logicalPath), V6, ORIGINS_V6_STATIC);
            multiset(SettingsOf(V6Now(net, p, vlan, d))) == multiset(Settings(before)) <==> |before| <= 15
  {
    StaticV6FoundAgain(net, p, vlan, d);
    FirstOnesAreAll(Matching(Below(net.ips, p.logicalPath), V6, ORIGINS_V6_STATIC), MAX_IPV6_STATIC_ADDRESSES);
  }

  /** The daemon's next names ascend. */
  ghost predicate NamesAscend(d: Daemon, from: nat, count: nat) {
    forall i, j | from <= i < j < from + count :: Before(d.name(i), d.name(j))
  }

  lemma PathOrderIsNameOrder(d: Daemon, base: string, addrs: seq<IfAddr>, from: nat)
    ensures InPathOrder(Created(d, base, addrs, from)) <==> NamesAscend(d, from, |addrs|)
  {
    var made := Created(d, base, addrs, from);
    forall i, j | from <= i < j < from + |addrs|
      ensures Before(d.name(i), d.name(j)) <==> Before(made[i - from].path, made[j - from].path)
    {
      BeforeBehindPrefix(base + "/", d.name(i), d.name(j));
    }
    if NamesAscend(d, from, |addrs|) {
      forall i, j | 0 <= i < j < |made| ensures Before(made[i].path, made[j].path) {
        assert Before(d.name(from + i), d.name(from + j));
      }
    }
  }

  /** A lookup goes through the addresses in the order of their creation exactly if the daemon's names ascend. */
  lemma OrderKeptExactlyIfNamesAscend(net: Net, p: Params, vlan: nat, d: Daemon)
    requires Proper(net, p, d)
    ensures var saved := Save(net, p);
            V6Now(net, p, vlan, d) == V6Made(d, NewLogical(net, p, vlan, d), saved, net.created)
            <==> NamesAscend(d, V6From(saved, net.created), |saved.addrs6|)
  {
    var base, saved := NewLogical(net, p, vlan, d), Save(net, p);
    LookupsAfterwards(net, p, vlan, d);
    PathOrderIsNameOrder(d, base, saved.addrs6, V6From(saved, net.created));
    if InPathOrder(V6Made(d, base, saved, net.created)) {
      OrderIsUnique(V6Now(net, p, vlan, d), V6Made(d, base, saved, net.created));
    }
  }

  ghost predicate AllDifferent<T>(s: seq<T>) { forall i, j | 0 <= i < j < |s| :: s[i] != s[j] }

  lemma SameSettingsSameObjects(a: seq<Object<IpProps>>, b: seq<Object<IpProps>>)
    requires multiset(a) == multiset(b) && SettingsOf(a) == SettingsOf(b) && AllDifferent(SettingsOf(b))
    ensures a == b
  {
    assert |a| == |SettingsOf(a)| == |b|;
    forall i | 0 <= i < |a| ensures a[i] == b[i] {
      assert a[i] in multiset(b);
      var j :| 0 <= j < |b| && b[j] == a[i];
      assert SettingsOf(b)[j] == SettingsOf(a)[i] == SettingsOf(b)[i];
    }
  }

  /** With different addresses, lookups see all of them in the old order exactly if there are at most fifteen and
      the daemon's names ascend. */
  lemma EverythingInOrderExactlyIf(net: Net, p: Params, vlan: nat, d: Daemon)
    requires Proper(net, p, d)
    requires AllDifferent(Settings(Matching(Below(net.ips, p.logicalPath), V6, ORIGINS_V6_STATIC)))
    ensures var before := Matching(Below(net.ips, p.logicalPath), V6, ORIGINS_V6_STATIC);
            SettingsOf(V6Now(net, p, vlan, d)) == Settings(before)
            <==> |before| <= 15 && NamesAscend(d, V6From(Save(net, p), net.created), |before|)
  {
    var before, saved := Matching(Below(net.ips, p.logicalPath), V6, ORIGINS_V6_STATIC), Save(net, p);
    var base, from := NewLogical(net, p, vlan, d), V6From(saved, net.created);
    AllStaticV6PreservedExactlyUpToFifteen(net, p, vlan, d);
    SettingsOfCreated(d, base, saved.addrs6, from);
    LookupsAfterwards(net, p, vlan, d);
    OrderKeptExactlyIfNamesAscend(net, p, vlan, d);
    InOrderExactlyIf(V6Now(net, p, vlan, d), V6Made(d, base, saved, net.created), before, saved.addrs6,
                     NamesAscend(d, from, |saved.addrs6|));
  }

  lemma InOrderExactlyIf(now: seq<Object<IpProps>>, made: seq<Object<IpProps>>, before: seq<IfAddr>, kept: seq<IfAddr>,
                         ascend: bool)
    requires AllDifferent(Settings(before)) && kept == FirstN(before, MAX_IPV6_STATIC_ADDRESSES)
    requires multiset(SettingsOf(now)) == multiset(Settings(before)) <==> |before| <= 15
    requires SettingsOf(made) == Settings(kept) && multiset(now) == multiset(made)
    requires now == made <==> ascend
    ensures SettingsOf(now) == Settings(before) <==> |before| <= 15 && ascend
    ensures |before| <= 15 ==> |kept| == |before|
  {
    if |before| <= 15 {
      assert kept == before;
      if SettingsOf(now) == Settings(before) {
        SameSettingsSameObjects(now, made);
      }
    }
  }

  /** What survived one reconfiguration survives every further one, also if old names are given again. */
  lemma NextOneLosesNothing(net: Net, p: Params, vlan: nat, next: nat, d: Daemon)
    requires Proper(net, p, d)
    ensures var n, q := Reconfigured(net, p, vlan, d), p.(logicalPath := NewLogical(net, p, vlan, d));
            Ready(n, q) && NamesVlans(q, d)
    ensures var n, q := Reconfigured(net, p, vlan, d), p.(logicalPath := NewLogical(net, p, vlan, d));
            q.logicalPath in n.dhcp && NamesObjects(n, q, d) ==>
            multiset(SettingsOf(V6Now(n, q, next, d))) == multiset(SettingsOf(V6Now(net, p, vlan, d)))
  {
    var n, q := Reconfigured(net, p, vlan, d), p.(logicalPath := NewLogical(net, p, vlan, d));
    ReconfigureKeepsReady(net, p, vlan, d);
    if NamesObjects(n, q, d) {
      SurvivorsSurvive(net, p, vlan, next, d);
    }
  }

  lemma SurvivorsSurvive(net: Net, p: Params, vlan: nat, next: nat, d: Daemon)
    requires Proper(net, p, d)
    requires Proper(Reconfigured(net, p, vlan, d), p.(logicalPath := NewLogical(net, p, vlan, d)), d)
    ensures var n, q := Reconfigured(net, p, vlan, d), p.(logicalPath := NewLogical(net, p, vlan, d));
            multiset(SettingsOf(V6Now(n, q, next, d))) == multiset(SettingsOf(V6Now(net, p, vlan, d)))
  {
    var n, q := Reconfigured(net, p, vlan, d), p.(logicalPath := NewLogical(net, p, vlan, d));
    LookupsAfterwards(net, p, vlan, d);
    SameLength(V6Now(net, p, vlan, d), V6Made(d, q.logicalPath, Save(net, p), net.created));
    AllStaticV6PreservedExactlyUpToFifteen(n, q, next, d);
    assert Settings(Matching(Below(n.ips, q.logicalPath), V6, ORIGINS_V6_STATIC)) == SettingsOf(V6Now(net, p, vlan, d));
  }

  lemma SameLength<T>(a: seq<T>, b: seq<T>)
    requires multiset(a) == multiset(b)
    ensures |a| == |b|
  {
    assert |a| == |multiset(a)| == |multiset(b)| == |b|;
  }

  // -------- the IPv4 address and the gateways' neighbors --------

  /** A lookup of the IPv4 address on the new interface gives the old address and prefix, now static. */
  lemma FirstV4FoundAgain(net: Net, p: Params, vlan: nat, d: Daemon)
    requires Proper(net, p, d)
    ensures var n, base := Reconfigured(net, p, vlan, d), NewLogical(net, p, vlan, d);
            var before := Nth(Matching(Below(net.ips, p.logicalPath), V4, ORIGINS_V4), 0);
            var now := Nth(Matching(Below(n.ips, base), V4, ORIGINS_V4), 0);
            && (now.Some? <==> before.Some?)
            && (now.Some? ==> now.value.address == before.value.address && now.value.prefix == before.value.prefix
                              && now.value.origin == Static)
  {
    var n, base, saved := Reconfigured(net, p, vlan, d), NewLogical(net, p, vlan, d), Save(net, p);
    LookupsAfterwards(net, p, vlan, d);
    OneOrNone(Selected(Below(n.ips, base), V4, ORIGINS_V4), Created(d, base, AgainV4(saved), net.created));
  }

  lemma OneOrNone<T>(found: seq<T>, made: seq<T>)
    requires multiset(found) == multiset(made) && |made| <= 1
    ensures found == made
  {
    SameLength(found, made);
    if found != [] {
      assert found[0] in multiset(made);
    }
  }

  lemma {:induction false} StaticNeighborMeaning(objects: seq<Object<NeighborProps>>, ip: Addr)
    ensures StaticNeighbor(objects, ip) == None <==> forall o | o in objects :: !(o.props.ip == ip && o.props.permanent)
    ensures StaticNeighbor(objects, ip).Some? ==>
              exists o | o in objects :: o.props.ip == ip && o.props.permanent
                && StaticNeighbor(objects, ip) == Some(IfNeigh(o.path, ip, o.props.mac))
    decreases |objects|
  {
    if objects != [] {
      StaticNeighborMeaning(objects[1..], ip);
      assert objects == [objects[0]] + objects[1..];
      assert objects[0] in objects && forall o | o in objects[1..] :: o in objects;
    }
  }

  /** The neighbor found is the first one in path order. */
  lemma {:induction false} StaticNeighborIsFirst(objects: seq<Object<NeighborProps>>, ip: Addr, i: nat)
    requires i < |objects| && objects[i].props.ip == ip && objects[i].props.permanent
    requires forall j | 0 <= j < i :: !(objects[j].props.ip == ip && objects[j].props.permanent)
    ensures StaticNeighbor(objects, ip) == Some(IfNeigh(objects[i].path, ip, objects[i].props.mac))
    decreases i
  {
    if i > 0 {
      StaticNeighborIsFirst(objects[1..], ip, i - 1);
    }
  }

  function Mac(n: Option<IfNeigh>): (r: Option<nat>) { if n == None then None else Some(n.value.mac) }

  /** In whatever order neighbors are listed, the one of a gateway is found if it is the only one for that address. */
  lemma OnlyOneIsFound(now: seq<Object<NeighborProps>>, made: seq<Object<NeighborProps>>, gateway: Option<Addr>,
                       mine: Option<IfNeigh>)
    requires multiset(now) == multiset(made)
    requires forall o | o in made && Some(o.props.ip) == gateway :: mine.Some? && o.props.mac == mine.value.mac
    requires mine.Some? ==> exists o | o in made :: Some(o.props.ip) == gateway && o.props.permanent
    ensures Mac(GatewayNeighbor(now, gateway)) == Mac(mine)
  {
    forall o ensures o in now <==> o in made { assert o in multiset(now) <==> o in multiset(made); }
    if gateway.Some? {
      StaticNeighborMeaning(now, gateway.value);
    }
  }

  /** Both gateways' neighbors keep their hardware addresses. */
  lemma GatewayNeighborsFoundAgain(net: Net, p: Params, vlan: nat, d: Daemon)
    requires Proper(net, p, d)
    requires net.gateway4.Some? ==> net.gateway4.value.family == V4
    requires net.gateway6.Some? ==> net.gateway6.value.family == V6
    ensures var n, base := Reconfigured(net, p, vlan, d), NewLogical(net, p, vlan, d);
            var before, now := Below(net.neighbors, p.logicalPath), Below(n.neighbors, base);
            && Mac(GatewayNeighbor(now, n.gateway4)) == Mac(GatewayNeighbor(before, net.gateway4))
            && Mac(GatewayNeighbor(now, n.gateway6)) == Mac(GatewayNeighbor(before, net.gateway6))
  {
    var base, saved := NewLogical(net, p, vlan, d), Save(net, p);
    SettingsKept(net, p, vlan, d);
    NeighborsRebuilt(net, p, vlan, d);
    var now := Below(Reconfigured(net, p, vlan, d).neighbors, base);
    SavedNeighbors(net, p);
    BothFound(now, d, base, saved, net.gateway4, net.gateway6, net.created);
  }

  lemma SavedNeighbors(net: Net, p: Params)
    requires p.logicalPath in net.dhcp
    ensures var before, saved := Below(net.neighbors, p.logicalPath), Save(net, p);
            && saved.neighbor4 == GatewayNeighbor(before, net.gateway4)
            && saved.neighbor6 == GatewayNeighbor(before, net.gateway6)
            && (saved.neighbor4.Some? ==> net.gateway4 == Some(saved.neighbor4.value.ip))
            && (saved.neighbor6.Some? ==> net.gateway6 == Some(saved.neighbor6.value.ip))
  {
    var before := Below(net.neighbors, p.logicalPath);
    if net.gateway4.Some? { StaticNeighborMeaning(before, net.gateway4.value); }
    if net.gateway6.Some? { StaticNeighborMeaning(before, net.gateway6.value); }
  }

  lemma BothFound(now: seq<Object<NeighborProps>>, d: Daemon, base: string, saved: Saved, gateway4: Option<Addr>,
                  gateway6: Option<Addr>, created: nat)
    requires gateway4.Some? ==> gateway4.value.family == V4
    requires gateway6.Some? ==> gateway6.value.family == V6
    requires saved.neighbor4.Some? ==> gateway4 == Some(saved.neighbor4.value.ip)
    requires saved.neighbor6.Some? ==> gateway6 == Some(saved.neighbor6.value.ip)
    requires multiset(now) == multiset(MadeNeighbors(d, base, saved, created))
    ensures Mac(GatewayNeighbor(now, gateway4)) == Mac(saved.neighbor4)
    ensures Mac(GatewayNeighbor(now, gateway6)) == Mac(saved.neighbor6)
  {
    var made, again := MadeNeighbors(d, base, saved, created), NeighborsAgain(saved);
    if saved.neighbor4.Some? { assert again[0] == saved.neighbor4.value && made[0] in made; }
    if saved.neighbor6.Some? { assert again[|again| - 1] == saved.neighbor6.value && made[|again| - 1] in made; }
    forall o | o in made ensures exists n | n in again :: o.props == NeighborProps(n.ip, n.mac, true) {
      var i :| 0 <= i < |made| && made[i] == o;
      assert again[i] in again;
    }
    OnlyOneIsFound(now, made, gateway4, saved.neighbor4);
    OnlyOneIsFound(now, made, gateway6, saved.neighbor6);
  }
}
