/** The handler maps, the filter list, and the dispatch of a command through them. */
module Registry {
  import opened Bytes

  const CMD_WILDCARD: byte := 0xFF
  const NETFN_TRANSPORT: byte := 0x0C
  const NETFN_GROUP: byte := 0x2C
  const NETFN_OEM_EIGHT: byte := 0x3E
  const CC_SUCCESS: byte := 0x00
  const CC_INSUFFICIENT_PRIVILEGE: byte := 0xD4
  const CC_INVALID_COMMAND: byte := 0xC1

  /** Handlers and filters are shared pointers; only their identity matters to the registry. */
  datatype Entry = Entry(prio: int, priv: nat, handler: nat)

  datatype Registration = Registration(key: nat, entry: Entry)

  datatype Filter = Filter(prio: int, id: nat)

  // -------- keys --------

  /** `(cluster << 8) | cmd`, in thirty-two bits. */
  function MakeCmdKey(cluster: nat, cmd: byte): (r: nat) { (cluster * 0x100 + cmd) % 0x1_0000_0000 }

  /** Different commands of different clusters never share a key, up to the twenty-four bits of an IANA number. */
  lemma CmdKeyInjective(c1: nat, cmd1: byte, c2: nat, cmd2: byte)
    requires c1 < 0x100_0000 && c2 < 0x100_0000
    ensures MakeCmdKey(c1, cmd1) == MakeCmdKey(c2, cmd2) <==> c1 == c2 && cmd1 == cmd2
  {}

  predicate ValidNetFn(netFn: byte): (ok: bool)
    ensures ok <==> netFn % 2 == 0 && (netFn <= 12 || 44 <= netFn <= 62)
  {
    netFn % 2 == 0 && !(netFn > NETFN_TRANSPORT && netFn < NETFN_GROUP) && netFn <= NETFN_OEM_EIGHT
  }

  // -------- folding registrations --------

  function Registered(m: map<nat, Entry>, r: Registration): (result: map<nat, Entry>) {
    if r.key !in m || m[r.key].prio <= r.entry.prio then m[r.key := r.entry] else m
  }

  function Fold(rs: seq<Registration>): (r: map<nat, Entry>) {
    if rs == [] then map[] else Registered(Fold(rs[..|rs| - 1]), rs[|rs| - 1])
  }

  /** Registration `i` decides key `k`: none has a higher priority, and no later one the same. */
  predicate Decides(rs: seq<Registration>, k: nat, i: nat) {
    && i < |rs| && rs[i].key == k
    && (forall j | 0 <= j < |rs| && rs[j].key == k :: rs[j].entry.prio <= rs[i].entry.prio)
    && (forall j | i < j < |rs| && rs[j].key == k :: rs[j].entry.prio < rs[i].entry.prio)
  }

  predicate Mentions(rs: seq<Registration>, k: nat) { exists i | 0 <= i < |rs| :: rs[i].key == k }

  /** How the deciding registration changes when one more is made. */
  lemma DecidesOneMore(init: seq<Registration>, r: Registration, k: nat, i: nat)
    requires Decides(init, k, i)
    ensures r.key == k && init[i].entry.prio <= r.entry.prio ==> Decides(init + [r], k, |init|)
    ensures r.key != k || init[i].entry.prio > r.entry.prio ==> Decides(init + [r], k, i)
  {
    var rs := init + [r];
    assert forall j | 0 <= j < |init| :: rs[j] == init[j];
  }

  lemma MentionsOneMore(init: seq<Registration>, r: Registration, k: nat)
    ensures Mentions(init + [r], k) <==> Mentions(init, k) || r.key == k
    ensures !Mentions(init, k) && r.key == k ==> Decides(init + [r], k, |init|)
  {
    var rs := init + [r];
    assert forall j | 0 <= j < |init| :: rs[j] == init[j];
    if r.key == k { assert rs[|init|].key == k; }
    if Mentions(init, k) {
      var i :| 0 <= i < |init| && init[i].key == k;
      assert rs[i].key == k;
    }
  }

  /** Per key, the map holds the handler of highest priority, the latest among equals. */
  lemma {:induction false} FoldKeepsHighest(rs: seq<Registration>, k: nat)
    ensures k in Fold(rs) <==> Mentions(rs, k)
    ensures k in Fold(rs) ==> exists i: nat :: Decides(rs, k, i) && Fold(rs)[k] == rs[i].entry
  {
    if rs != [] {
      var n := |rs| - 1;
      var init, r := rs[..n], rs[n];
      assert rs == init + [r];
      FoldKeepsHighest(init, k);
      MentionsOneMore(init, r, k);
      if k in Fold(init) {
        var i: nat :| Decides(init, k, i) && Fold(init)[k] == init[i].entry;
        DecidesOneMore(init, r, k, i);
        assert rs[i] == init[i];
      }
    }
  }

  /** Same registrations, any order. */
  predicate Rearranged(a: seq<Registration>, b: seq<Registration>) { multiset(a) == multiset(b) }

  predicate DistinctPriorities(rs: seq<Registration>) {
    forall i, j | 0 <= i < j < |rs| && rs[i].key == rs[j].key :: rs[i].entry.prio != rs[j].entry.prio
  }

  lemma SameMembers(a: seq<Registration>, b: seq<Registration>)
    requires Rearranged(a, b)
    ensures forall x :: x in a <==> x in b
  {
    forall x ensures x in a <==> x in b {
      assert x in multiset(a) <==> x in multiset(b);
    }
  }

  lemma DecidersEqual(a: seq<Registration>, b: seq<Registration>, k: nat, i: nat, j: nat)
    requires Decides(a, k, i) && Decides(b, k, j) && DistinctPriorities(a)
    requires a[i] in b && b[j] in a
    ensures a[i] == b[j]
  {
    var i' :| 0 <= i' < |a| && a[i'] == b[j];
    var j' :| 0 <= j' < |b| && b[j'] == a[i];
    assert a[i'].entry.prio <= a[i].entry.prio == b[j'].entry.prio <= b[j].entry.prio;
  }

  lemma KeyDecidedAlike(a: seq<Registration>, b: seq<Registration>, k: nat)
    requires DistinctPriorities(a) && k in Fold(a)
    requires forall x :: x in a <==> x in b
    ensures k in Fold(b) && Fold(a)[k] == Fold(b)[k]
  {
    FoldKeepsHighest(a, k);
    FoldKeepsHighest(b, k);
    var i: nat :| Decides(a, k, i) && Fold(a)[k] == a[i].entry;
    assert a[i] in a && a[i] in b;
    MentionedByMember(b, a[i]);
    var j: nat :| Decides(b, k, j) && Fold(b)[k] == b[j].entry;
    assert b[j] in b && b[j] in a;
    DecidersEqual(a, b, k, i, j);
  }

  lemma MentionedByMember(rs: seq<Registration>, r: Registration)
    requires r in rs
    ensures Mentions(rs, r.key)
  {
    var i :| 0 <= i < |rs| && rs[i] == r;
    assert rs[i].key == r.key;
  }

  /** Registration order does not matter when the priorities of a key are distinct. */
  lemma OrderIndependent(a: seq<Registration>, b: seq<Registration>)
    requires Rearranged(a, b) && DistinctPriorities(a) && DistinctPriorities(b)
    ensures Fold(a) == Fold(b)
  {
    SameMembers(a, b);
    forall k | k in Fold(a) ensures k in Fold(b) && Fold(a)[k] == Fold(b)[k] { KeyDecidedAlike(a, b, k); }
    forall k | k in Fold(b) ensures k in Fold(a) && Fold(a)[k] == Fold(b)[k] { KeyDecidedAlike(b, a, k); }
  }

  /** The condition matters: two handlers of equal priority are decided by the order alone. */
  lemma TiesDependOnOrder(r1: Registration, r2: Registration)
    requires r1.key == r2.key
    ensures Fold([r1, r2]) == Fold([r2, r1]) <==> r1.entry.prio != r2.entry.prio || r1.entry == r2.entry
  {
    assert [r1, r2][..1] == [r1] && [r2, r1][..1] == [r2] && [r1][..0] == [] && [r2][..0] == [];
    assert Fold([r1]) == map[r1.key := r1.entry] && Fold([r2]) == map[r2.key := r2.entry];
    assert Fold([r1, r2])[r1.key] == if r1.entry.prio <= r2.entry.prio then r2.entry else r1.entry;
    assert Fold([r2, r1])[r1.key] == if r2.entry.prio <= r1.entry.prio then r1.entry else r2.entry;
    if r1.entry.prio != r2.entry.prio || r1.entry == r2.entry {
      assert Fold([r1, r2]) == Fold([r2, r1]);
    }
  }

  // -------- the filter list --------

  predicate Descending(fs: seq<Filter>) {
    forall i, j | 0 <= i < j < |fs| :: fs[i].prio >= fs[j].prio
  }

  /** Behind all filters of higher priority and before all others; but the first filter stays first unless the new one
      has a higher priority. */
  predicate IsPlaceFor(fs: seq<Filter>, f: Filter, place: nat) {
    && place <= |fs|
    && (place == 0 <==> fs == [] || fs[0].prio < f.prio)
    && (forall i | 0 < i < place :: fs[i].prio > f.prio)
    && (forall i | place <= i < |fs| && Descending(fs) :: fs[i].prio <= f.prio)
  }

  lemma InsertKeepsDescending(before: seq<Filter>, f: Filter, behind: seq<Filter>)
    requires Descending(before + behind)
    requires before != [] ==> before[|before| - 1].prio >= f.prio
    requires behind != [] ==> f.prio >= behind[0].prio
    ensures Descending(before + [f] + behind)
    ensures multiset(before + [f] + behind) == multiset(before + behind) + multiset{f}
  {
    var all, s, n := before + behind, before + [f] + behind, |before|;
    forall i, j | 0 <= i < j < |s| ensures s[i].prio >= s[j].prio {
      assert n > 0 ==> before[n - 1] == all[n - 1];
      assert i < n ==> s[i] == all[i] && all[i].prio >= all[n - 1].prio;
      assert i > n ==> s[i] == all[i - 1];
      assert j < n ==> s[j] == all[j];
      assert j > n ==> s[j] == all[j - 1] && behind[0] == all[n] && all[n].prio >= all[j - 1].prio;
    }
    assert multiset(s) == multiset(all) + multiset{f};
  }

  lemma InsertAtKeepsDescending(fs: seq<Filter>, place: nat, f: Filter)
    requires Descending(fs) && place <= |fs|
    requires place > 0 ==> fs[place - 1].prio >= f.prio
    requires place < |fs| ==> f.prio >= fs[place].prio
    ensures Descending(fs[..place] + [f] + fs[place..])
    ensures multiset(fs[..place] + [f] + fs[place..]) == multiset(fs) + multiset{f}
  {
    assert fs == fs[..place] + fs[place..];
    InsertKeepsDescending(fs[..place], f, fs[place..]);
  }

  // -------- dispatch --------

  datatype Outcome = Ran(handler: nat) | Rejected(cc: byte)

  /** The first filter that objects decides; `verdict` is what each filter says about this request. */
  function FilterVerdict(fs: seq<Filter>, verdict: map<nat, byte>): (cc: byte)
    requires forall f | f in fs :: f.id in verdict
    ensures cc == CC_SUCCESS <==> forall f | f in fs :: verdict[f.id] == CC_SUCCESS
    ensures cc != CC_SUCCESS ==>
              exists i | 0 <= i < |fs| ::
                verdict[fs[i].id] == cc && forall j | 0 <= j < i :: verdict[fs[j].id] == CC_SUCCESS
  {
    if fs == [] then CC_SUCCESS
    else if verdict[fs[0].id] != CC_SUCCESS then verdict[fs[0].id]
    else FilterVerdict(fs[1..], verdict)
  }

  /** The registered command: its own key first, then its cluster's wildcard. */
  function Chosen(handlers: map<nat, Entry>, cluster: nat, cmd: byte): (r: Option<Entry>) {
    if MakeCmdKey(cluster, cmd) in handlers then Some(handlers[MakeCmdKey(cluster, cmd)])
    else if MakeCmdKey(cluster, CMD_WILDCARD) in handlers then Some(handlers[MakeCmdKey(cluster, CMD_WILDCARD)])
    else None
  }

  /** After any registrations, the handler chosen for a command is the one of highest priority, the latest among
      equals, that was registered for it - or, only if none was, for the wildcard of its cluster. */
  lemma ChosenExactly(rs: seq<Registration>, cluster: nat, cmd: byte)
    ensures var own, wildcard := MakeCmdKey(cluster, cmd), MakeCmdKey(cluster, 0xFF);
            match Chosen(Fold(rs), cluster, cmd)
            case None => !Mentions(rs, own) && !Mentions(rs, wildcard)
            case Some(entry) =>
              exists i: nat ::
                && Decides(rs, if Mentions(rs, own) then own else wildcard, i)
                && entry == rs[i].entry
  {
    FoldKeepsHighest(rs, MakeCmdKey(cluster, cmd));
    FoldKeepsHighest(rs, MakeCmdKey(cluster, CMD_WILDCARD));
  }

  class Dispatcher {
    var handlerMap: map<nat, Entry>
    var filterList: seq<Filter>
    ghost var registrations: seq<Registration>
    ghost var filters: multiset<Filter>

    /** The map is the fold of everything registered; the list is all filters, by descending priority. */
    ghost predicate Valid()
      reads this
    {
      handlerMap == Fold(registrations) && Descending(filterList) && multiset(filterList) == filters
    }

    constructor ()
      ensures Valid() && registrations == [] && filters == multiset{}
    {
      handlerMap, filterList, registrations, filters := map[], [], [], multiset{};
    }

    /** The common part of the three register functions, behind their check of the cluster. */
    method Register(r: Registration) returns (ok: bool)
      requires Valid()
      modifies this`handlerMap, this`registrations
      ensures Valid() && registrations == old(registrations) + [r]
      ensures ok <==> forall i | 0 <= i < |old(registrations)| && old(registrations)[i].key == r.key ::
                        old(registrations)[i].entry.prio <= r.entry.prio
    {
      FoldKeepsHighest(registrations, r.key);
      registrations := registrations + [r];
      assert registrations[..|registrations| - 1] == old(registrations);
      if r.key !in handlerMap || handlerMap[r.key].prio <= r.entry.prio {
        handlerMap := handlerMap[r.key := r.entry];
        return true;
      }
      return false;
    }

    method RegisterHandler(prio: int, netFn: byte, cmd: byte, priv: nat, handler: nat) returns (ok: bool)
      requires Valid()
      modifies this`handlerMap, this`registrations
      ensures Valid()
      ensures !ValidNetFn(netFn) ==> !ok && registrations == old(registrations)
      ensures ValidNetFn(netFn) ==>
                var key := MakeCmdKey(netFn, cmd);
                && registrations == old(registrations) + [Registration(key, Entry(prio, priv, handler))]
                && (ok <==> forall i | 0 <= i < |old(registrations)| && old(registrations)[i].key == key ::
                              old(registrations)[i].entry.prio <= prio)
    {
      if netFn % 2 == 1 || (netFn > NETFN_TRANSPORT && netFn < NETFN_GROUP) || netFn > NETFN_OEM_EIGHT {
        return false;
      }
      ok := Register(Registration(MakeCmdKey(netFn, cmd), Entry(prio, priv, handler)));
    }

    /** The place for a filter: the front if it beats the first, else behind the last that beats it - or, if
        none does, behind the first. */
    method PlaceFor(filter: Filter) returns (place: nat)
      ensures IsPlaceFor(filterList, filter, place)
      ensures place > 0 ==> filterList[place - 1].prio >= filter.prio
      ensures Descending(filterList) && place < |filterList| ==> filter.prio >= filterList[place].prio
    {
      if filterList == [] || filterList[0].prio < filter.prio {
        return 0;
      }
      var j, i := 0, 0;
      while i < |filterList| && filterList[i].prio > filter.prio
        invariant 0 <= j <= i <= |filterList| && j < |filterList|
        invariant if i == 0 then j == 0 else j == i - 1
        invariant forall k | 0 <= k < i :: filterList[k].prio > filter.prio
      {
        j := i;
        i := i + 1;
      }
      if Descending(filterList) {
        assert forall k | j + 1 <= k < |filterList| :: filterList[k].prio <= filterList[i].prio;
      }
      return j + 1;
    }

    /** `registerFilter`. */
    method RegisterFilter(filter: Filter)
      requires Valid()
      modifies this`filterList, this`filters
      ensures Valid() && filters == old(filters) + multiset{filter}
      ensures exists place: nat ::
                IsPlaceFor(old(filterList), filter, place)
                && filterList == old(filterList[..place]) + [filter] + old(filterList[place..])
    {
      var place := PlaceFor(filter);
      InsertAtKeepsDescending(filterList, place, filter);
      filterList := filterList[..place] + [filter] + filterList[place..];
      filters := filters + multiset{filter};
    }

    /** `filterIpmiCommand`. */
    method FilterCommand(verdict: map<nat, byte>) returns (cc: byte)
      requires forall f | f in filterList :: f.id in verdict
      ensures cc == FilterVerdict(filterList, verdict)
    {
      for i := 0 to |filterList|
        invariant FilterVerdict(filterList[i..], verdict) == FilterVerdict(filterList, verdict)
      {
        assert filterList[i..][0] == filterList[i] && filterList[i..][1..] == filterList[i + 1..];
        cc := verdict[filterList[i].id];
        if cc != CC_SUCCESS {
          return;
        }
      }
      return CC_SUCCESS;
    }

    /** `executeIpmiCommandCommon`: a handler runs only behind all filters and with enough privilege. */
    method Execute(cluster: nat, cmd: byte, priv: nat, verdict: map<nat, byte>) returns (r: Outcome)
      requires forall f | f in filterList :: f.id in verdict
      ensures r.Ran? <==>
                && Chosen(handlerMap, cluster, cmd).Some?
                && (forall f | f in filterList :: verdict[f.id] == CC_SUCCESS)
                && priv >= Chosen(handlerMap, cluster, cmd).value.priv
      ensures r.Ran? ==> r.handler == Chosen(handlerMap, cluster, cmd).value.handler
      ensures r.Rejected? ==> r.cc == (if Chosen(handlerMap, cluster, cmd) == None then CC_INVALID_COMMAND
                                       else if FilterVerdict(filterList, verdict) != CC_SUCCESS
                                           then FilterVerdict(filterList, verdict)
                                       else CC_INSUFFICIENT_PRIVILEGE)
    {
      var filterResponse := FilterCommand(verdict);
      var key := MakeCmdKey(cluster, cmd);
      if key in handlerMap {
        if filterResponse != CC_SUCCESS {
          return Rejected(filterResponse);
        }
        var chosen := handlerMap[key];
        if priv < chosen.priv {
          return Rejected(CC_INSUFFICIENT_PRIVILEGE);
        }
        return Ran(chosen.handler);
      }
      var wildcard := MakeCmdKey(cluster, CMD_WILDCARD);
      if wildcard in handlerMap {
        if filterResponse != CC_SUCCESS {
          return Rejected(filterResponse);
        }
        var chosen := handlerMap[wildcard];
        if priv < chosen.priv {
          return Rejected(CC_INSUFFICIENT_PRIVILEGE);
        }
        return Ran(chosen.handler);
      }
      return Rejected(CC_INVALID_COMMAND);
    }
  }
}
