/**
 * The cache of built FRU blobs and the property-change signals that invalidate it. Reading an inventory
 * takes several bus calls, and the inventory may change between any two of them; signals wait in a queue
 * until the running command has returned.
 */
module FruCache {
  import opened Bytes
  import opened FruArea
  import opened Chunks
  import opened Paths
  import FruBuilder

  const XYZ_PREFIX := "/xyz/openbmc_project/"
  const INVENTORY := "/xyz/openbmc_project/inventory"

  datatype Mapping = Mapping(name: string, section: string, property: string)
  datatype Interface = Interface(intf: string, properties: seq<Mapping>)
  datatype Instance = Instance(path: string, interfaces: seq<Interface>)
  datatype FruEntry = FruEntry(id: byte, instances: seq<Instance>)

  /** The generated table in map order: ascending FRU ids. */
  type FruTable = seq<FruEntry>

  /** One `GetAll` call: the object's full path, the interface, and what to take from the reply. */
  datatype Query = Query(path: string, intf: string, properties: seq<Mapping>)

  // -------- paths --------

  /** Stored paths are full object paths, or relative to the inventory. */
  function FullPath(path: string): (r: string) {
    if Contains(path, XYZ_PREFIX) then path else INVENTORY + path
  }

  /** The signal handler cuts the inventory prefix off. */
  function Trimmed(path: string): (r: string) {
    if INVENTORY <= path then path[|INVENTORY|..] else path
  }

  /** The match rule listens to the inventory's part of the tree only. */
  predicate InNamespace(path: string) { path == INVENTORY || INVENTORY + "/" <= path }

  predicate Lists(entry: FruEntry, path: string) {
    exists i | 0 <= i < |entry.instances| :: entry.instances[i].path == path
  }

  /** The scan over the table stops at the first FRU that lists the path. */
  function Route(table: FruTable, path: string): (r: Option<byte>) {
    if table == [] then None
    else if Lists(table[0], path) then Some(table[0].id)
    else Route(table[1..], path)
  }

  // -------- gathering the inventory --------

  function QueriesOf(path: string, interfaces: seq<Interface>): (r: seq<Query>)
    ensures |r| == |interfaces|
    ensures forall q | q in r :: q.path == FullPath(path)
  {
    seq(|interfaces|, i requires 0 <= i < |interfaces| =>
      Query(FullPath(path), interfaces[i].intf, interfaces[i].properties))
  }

  function Queries(instances: seq<Instance>): (r: seq<Query>) {
    if instances == [] then [] else QueriesOf(instances[0].path, instances[0].interfaces) + Queries(instances[1..])
  }

  /** `data[section].emplace(property, value)`: the first value for a property stays. */
  function Emplaced(data: Inventory, m: Mapping, reply: PropertyMap): (r: Inventory) {
    if m.name !in reply then data
    else if m.section in data && m.property in data[m.section] then data
    else data[m.section := Section(m.section, data)[m.property := reply[m.name]]]
  }

  function WithReply(data: Inventory, properties: seq<Mapping>, reply: PropertyMap): (r: Inventory)
    decreases |properties|
  {
    if properties == [] then data else WithReply(Emplaced(data, properties[0], reply), properties[1..], reply)
  }

  function Gathered(data: Inventory, queries: seq<Query>, replies: seq<PropertyMap>): (r: Inventory)
    requires |replies| >= |queries|
    decreases |queries|
  {
    if queries == [] then data
    else Gathered(WithReply(data, queries[0].properties, replies[0]), queries[1..], replies[1..])
  }

  // -------- what is gathered --------

  /** How many interfaces the instances before the i-th have. */
  function StartOf(instances: seq<Instance>, i: nat): (r: nat)
    requires i <= |instances|
  {
    if i == 0 then 0 else |instances[0].interfaces| + StartOf(instances[1..], i - 1)
  }

  /** Every interface of every instance is asked for once, in the table's order. */
  lemma {:induction false} QueriesExactly(instances: seq<Instance>, i: nat)
    requires i <= |instances|
    ensures |Queries(instances)| == StartOf(instances, |instances|)
    ensures StartOf(instances, i) <= |Queries(instances)|
    ensures i < |instances| ==>
              && StartOf(instances, i + 1) == StartOf(instances, i) + |instances[i].interfaces| <= |Queries(instances)|
              && forall j | 0 <= j < |instances[i].interfaces| ::
                   Queries(instances)[StartOf(instances, i) + j]
                   == Query(FullPath(instances[i].path), instances[i].interfaces[j].intf,
                            instances[i].interfaces[j].properties)
    decreases |instances|
  {
    if instances != [] {
      var rest := instances[1..];
      QueriesExactly(rest, if i == 0 then 0 else i - 1);
    }
  }

  function Found(data: Inventory, section: string, property: string): (r: Option<Value>) {
    if section in data && property in data[section] then Some(data[section][property]) else None
  }

  /** The j-th mapping puts something of this reply under the property. */
  predicate Gives(properties: seq<Mapping>, reply: PropertyMap, j: nat, section: string, property: string) {
    && j < |properties| && properties[j].section == section && properties[j].property == property
    && properties[j].name in reply
  }

  predicate GivesFirst(properties: seq<Mapping>, reply: PropertyMap, j: nat, section: string, property: string) {
    Gives(properties, reply, j, section, property)
    && forall i: nat | i < j :: !Gives(properties, reply, i, section, property)
  }

  ghost predicate NoneGives(properties: seq<Mapping>, reply: PropertyMap, section: string, property: string) {
    forall j: nat :: !Gives(properties, reply, j, section, property)
  }

  lemma GivesFromSecond(properties: seq<Mapping>, reply: PropertyMap, section: string, property: string)
    requires properties != []
    ensures forall j: nat ::
              (Gives(properties[1..], reply, j, section, property)
               <==> Gives(properties, reply, j + 1, section, property))
  {}

  /** A reply adds the first value its mappings give, unless there is one already. */
  lemma {:induction false} ReplyFound(data: Inventory, properties: seq<Mapping>, reply: PropertyMap,
                                      section: string, property: string)
    ensures var before := Found(data, section, property);
            var after := Found(WithReply(data, properties, reply), section, property);
            && (before.Some? ==> after == before)
            && (NoneGives(properties, reply, section, property) ==> after == before)
            && (before == None ==>
                  forall j: nat | GivesFirst(properties, reply, j, section, property) ::
                    after == Some(reply[properties[j].name]))
    decreases |properties|
  {
    if properties != [] {
      var next := Emplaced(data, properties[0], reply);
      ReplyFound(next, properties[1..], reply, section, property);
      GivesFromSecond(properties, reply, section, property);
      forall j: nat | 0 < j && GivesFirst(properties, reply, j, section, property)
        ensures GivesFirst(properties[1..], reply, j - 1, section, property)
        ensures !Gives(properties, reply, 0, section, property)
      {
        forall i: nat | i < j - 1 ensures !Gives(properties[1..], reply, i, section, property) {
          assert !Gives(properties, reply, i + 1, section, property);
        }
      }
      if Gives(properties, reply, 0, section, property) {
        assert Found(next, section, property).Some?;
      } else {
        assert Found(next, section, property) == Found(data, section, property);
      }
    }
  }

  lemma AnyGivesFirst(properties: seq<Mapping>, reply: PropertyMap, j: nat, section: string, property: string)
    returns (first: nat)
    requires Gives(properties, reply, j, section, property)
    ensures first <= j && GivesFirst(properties, reply, first, section, property)
  {
    first := 0;
    while !Gives(properties, reply, first, section, property)
      invariant first <= j && forall i: nat | i < first :: !Gives(properties, reply, i, section, property)
      decreases j - first
    {
      first := first + 1;
    }
  }

  /** The j-th mapping of the k-th query puts something of that query's reply under the property. */
  predicate Provides(queries: seq<Query>, replies: seq<PropertyMap>, k: nat, j: nat, section: string, property: string)
  {
    k < |queries| && k < |replies| && Gives(queries[k].properties, replies[k], j, section, property)
  }

  /** And no query before it does, nor any mapping before it. */
  ghost predicate ProvidesFirst(queries: seq<Query>, replies: seq<PropertyMap>, k: nat, j: nat,
                                section: string, property: string)
  {
    && k < |queries| && k < |replies| && GivesFirst(queries[k].properties, replies[k], j, section, property)
    && forall i: nat | i < k && i < |replies| :: NoneGives(queries[i].properties, replies[i], section, property)
  }

  lemma {:induction false} GatheredOnto(data: Inventory, queries: seq<Query>, replies: seq<PropertyMap>,
                                        section: string, property: string)
    requires |replies| >= |queries|
    ensures var before := Found(data, section, property);
            var after := Found(Gathered(data, queries, replies), section, property);
            && (before.Some? ==> after == before)
            && (before == None && after.Some? ==>
                  exists k: nat, j: nat :: ProvidesFirst(queries, replies, k, j, section, property))
            && (before == None ==>
                  forall k: nat, j: nat | ProvidesFirst(queries, replies, k, j, section, property) ::
                    after == Some(replies[k][queries[k].properties[j].name]))
    decreases |queries|
  {
    if queries != [] {
      var ms, reply := queries[0].properties, replies[0];
      var next := WithReply(data, ms, reply);
      ReplyFound(data, ms, reply, section, property);
      GatheredOnto(next, queries[1..], replies[1..], section, property);
      if j: nat :| Gives(ms, reply, j, section, property) {
        var first := AnyGivesFirst(ms, reply, j, section, property);
        assert ProvidesFirst(queries, replies, 0, first, section, property);
        assert !NoneGives(ms, reply, section, property);
        forall k: nat, j: nat | ProvidesFirst(queries, replies, k, j, section, property) ensures k == 0 {}
      } else {
        assert NoneGives(ms, reply, section, property);
        forall k: nat, j: nat
          ensures ProvidesFirst(queries[1..], replies[1..], k, j, section, property)
             <==> ProvidesFirst(queries, replies, k + 1, j, section, property)
        {
          ProvidesFromSecond(queries, replies, k, j, section, property);
        }
        forall k: nat, j: nat | ProvidesFirst(queries, replies, k, j, section, property)
          ensures k > 0 && ProvidesFirst(queries[1..], replies[1..], k - 1, j, section, property)
        {
          assert k > 0;
        }
      }
    }
  }

  lemma ProvidesFromSecond(queries: seq<Query>, replies: seq<PropertyMap>, k: nat, j: nat,
                           section: string, property: string)
    requires queries != [] && replies != [] && NoneGives(queries[0].properties, replies[0], section, property)
    ensures ProvidesFirst(queries[1..], replies[1..], k, j, section, property)
       <==> ProvidesFirst(queries, replies, k + 1, j, section, property)
  {
    if ProvidesFirst(queries, replies, k + 1, j, section, property) {
      forall i: nat | i < k && i < |replies[1..]|
        ensures NoneGives(queries[1..][i].properties, replies[1..][i], section, property)
      {
        assert NoneGives(queries[i + 1].properties, replies[i + 1], section, property);
      }
    }
  }

  ghost predicate NoEmptySection(data: Inventory) { forall section | section in data :: data[section] != map[] }

  lemma {:induction false} ReplyLeavesNoneEmpty(data: Inventory, properties: seq<Mapping>, reply: PropertyMap)
    requires NoEmptySection(data)
    ensures NoEmptySection(WithReply(data, properties, reply))
    decreases |properties|
  {
    if properties != [] {
      var m, next := properties[0], Emplaced(data, properties[0], reply);
      if next != data { assert m.property in next[m.section]; }
      ReplyLeavesNoneEmpty(next, properties[1..], reply);
    }
  }

  lemma {:induction false} SectionsNeverEmpty(data: Inventory, queries: seq<Query>, replies: seq<PropertyMap>)
    requires |replies| >= |queries| && NoEmptySection(data)
    ensures NoEmptySection(Gathered(data, queries, replies))
    decreases |queries|
  {
    if queries != [] {
      ReplyLeavesNoneEmpty(data, queries[0].properties, replies[0]);
      SectionsNeverEmpty(WithReply(data, queries[0].properties, replies[0]), queries[1..], replies[1..]);
    }
  }

  /** What a blob is built from: a property is there exactly if some query's reply has a name mapped to it, and its
      value is that of the first such query, and of its first such mapping. */
  lemma GatheredExactly(queries: seq<Query>, replies: seq<PropertyMap>, section: string, property: string)
    requires |replies| >= |queries|
    ensures var data := Gathered(map[], queries, replies);
            && ((section in data && property in data[section])
                <==> exists k: nat, j: nat :: Provides(queries, replies, k, j, section, property))
            && (section in data ==> data[section] != map[])
            && (forall k: nat, j: nat | ProvidesFirst(queries, replies, k, j, section, property) ::
                  && section in data && property in data[section]
                  && data[section][property] == replies[k][queries[k].properties[j].name])
  {
    GatheredOnto(map[], queries, replies, section, property);
    SectionsNeverEmpty(map[], queries, replies);
    var data := Gathered(map[], queries, replies);
    if k: nat, j: nat :| Provides(queries, replies, k, j, section, property) {
      var first, at := SomeProvidesFirst(queries, replies, k, j, section, property);
      assert Found(data, section, property).Some?;
    }
    if Found(data, section, property).Some? {
      var k: nat, j: nat :| ProvidesFirst(queries, replies, k, j, section, property);
      assert Provides(queries, replies, k, j, section, property);
    }
  }

  lemma {:induction false} SomeProvidesFirst(queries: seq<Query>, replies: seq<PropertyMap>, k: nat, j: nat,
                                             section: string, property: string) returns (first: nat, at: nat)
    requires |replies| >= |queries| && Provides(queries, replies, k, j, section, property)
    ensures ProvidesFirst(queries, replies, first, at, section, property)
  {
    if i: nat, m: nat :| i < k && Provides(queries, replies, i, m, section, property) {
      first, at := SomeProvidesFirst(queries, replies, i, m, section, property);
    } else {
      first := k;
      at := AnyGivesFirst(queries[k].properties, replies[k], j, section, property);
      forall i: nat | i < k ensures NoneGives(queries[i].properties, replies[i], section, property) {
        forall m: nat ensures !Gives(queries[i].properties, replies[i], m, section, property) {
          assert !Provides(queries, replies, i, m, section, property);
        }
      }
    }
  }

  // -------- states and events --------

  /** `bus` is the inventory as it is now; `cache` holds the replies a blob was built from. */
  datatype State = State(bus: map<(string, string), PropertyMap>, cache: map<byte, seq<PropertyMap>>,
                         pending: seq<string>, building: Option<(FruEntry, seq<PropertyMap>)>)

  datatype Event =
    | Change(path: string, intf: string, props: PropertyMap)   // properties change: PropertiesChanged
    | Appear(path: string, intf: string, props: PropertyMap)   // an interface is added: no PropertiesChanged
    | Vanish(path: string, intf: string)                       // an interface is removed: none either
    | Begin(entry: FruEntry)                                   // a command misses the cache
    | ReadNext(answered: bool)                                 // its next GetAll is answered, or fails
    | Abort                                                    // it finds no service to ask
    | Finish                                                   // it stores what it built
    | Deliver                                                  // the oldest signal reaches its handler

  function GetAll(bus: map<(string, string), PropertyMap>, q: Query): (r: PropertyMap) {
    if (q.path, q.intf) in bus then bus[(q.path, q.intf)] else map[]
  }

  predicate Enabled(table: FruTable, s: State, e: Event) {
    match e
    case Change(path, intf, _) => (path, intf) in s.bus
    case Appear(path, intf, _) => (path, intf) !in s.bus
    case Vanish(path, intf) => (path, intf) in s.bus
    case Begin(entry) => s.building == None && entry in table && entry.id !in s.cache
    case ReadNext(_) => s.building.Some? && |s.building.value.1| < |Queries(s.building.value.0.instances)|
    case Abort => s.building.Some? && |s.building.value.1| < |Queries(s.building.value.0.instances)|
    case Finish => s.building.Some? && |s.building.value.1| == |Queries(s.building.value.0.instances)|
    case Deliver => s.building == None && s.pending != []
  }

  /** `processFruPropChange`. */
  function Invalidated<T>(table: FruTable, cache: map<byte, T>, path: string): (r: map<byte, T>) {
    match Route(table, Trimmed(path))
    case None => cache
    case Some(id) => cache - {id}
  }

  /** The query that a half-built blob is waiting for. */
  function NextQuery(s: State): (r: Query)
    requires s.building.Some? && |s.building.value.1| < |Queries(s.building.value.0.instances)|
  {
    Queries(s.building.value.0.instances)[|s.building.value.1|]
  }

  function Step(table: FruTable, s: State, e: Event): (r: State)
    requires Enabled(table, s, e)
  {
    match e
    case Change(path, intf, props) =>
      s.(bus := s.bus[(path, intf) := props], pending := s.pending + if InNamespace(path) then [path] else [])
    case Appear(path, intf, props) => s.(bus := s.bus[(path, intf) := props])
    case Vanish(path, intf) => s.(bus := s.bus - {(path, intf)})
    case Begin(entry) => s.(building := Some((entry, [])))
    case ReadNext(answered) =>
      var (entry, replies) := s.building.value;
      s.(building := Some((entry, replies + [if answered then GetAll(s.bus, NextQuery(s)) else map[]])))
    case Abort => s.(building := None)
    case Finish =>
      var (entry, replies) := s.building.value;
      s.(cache := s.cache[entry.id := replies], building := None)
    case Deliver =>
      s.(cache := Invalidated(table, s.cache, s.pending[0]), pending := s.pending[1..])
  }

  const INITIAL := State(map[], map[], [], None)

  function Run(table: FruTable, es: seq<Event>): (r: Option<State>) {
    if es == [] then Some(INITIAL)
    else
      match Run(table, es[..|es| - 1])
      case None => None
      case Some(s) => if Enabled(table, s, es[|es| - 1]) then Some(Step(table, s, es[|es| - 1])) else None
  }

  // -------- coherence --------

  /** Some query of the FRU has a signal waiting. */
  predicate SignalPending(queries: seq<Query>, pending: seq<string>) {
    exists k | 0 <= k < |queries| :: queries[k].path in pending
  }

  predicate DistinctIds(table: FruTable) {
    forall i, j | 0 <= i < j < |table| :: table[i].id != table[j].id
  }

  /** A change of this object is heard, and invalidates this FRU. */
  predicate Routed(table: FruTable, entry: FruEntry, path: string) {
    InNamespace(path) && Route(table, Trimmed(path)) == Some(entry.id)
  }

  predicate RoutedTable(table: FruTable) {
    forall entry, k | entry in table && 0 <= k < |Queries(entry.instances)| ::
      Routed(table, entry, Queries(entry.instances)[k].path)
  }

  /** The replies on which a FRU's cached or half-built blob rests. */
  function Held(s: State, entry: FruEntry): (r: seq<PropertyMap>) {
    if entry.id in s.cache then s.cache[entry.id]
    else if s.building.Some? && s.building.value.0 == entry then s.building.value.1
    else []
  }

  /** Cached blobs rest on all their replies, and the half-built one on some. */
  predicate Shape(table: FruTable, s: State) {
    && (forall entry | entry in table && entry.id in s.cache :: |s.cache[entry.id]| == |Queries(entry.instances)|)
    && (s.building.Some? ==>
          && s.building.value.0 in table && s.building.value.0.id !in s.cache
          && |s.building.value.1| <= |Queries(s.building.value.0.instances)|)
  }

  predicate Fresh(s: State, q: Query, reply: PropertyMap) { reply == GetAll(s.bus, q) || q.path in s.pending }

  /** Every reply that is held is current, or a signal for its object is pending. */
  predicate Coherent(table: FruTable, s: State) {
    forall entry, k | entry in table && 0 <= k < |Held(s, entry)| && k < |Queries(entry.instances)| ::
      Fresh(s, Queries(entry.instances)[k], Held(s, entry)[k])
  }

  lemma StepKeepsShape(table: FruTable, s: State, e: Event)
    requires DistinctIds(table) && Shape(table, s) && Enabled(table, s, e)
    ensures Shape(table, Step(table, s, e))
  {
    if e.Finish? {
      var t := Step(table, s, e);
      forall entry | entry in table && entry.id in t.cache ensures |t.cache[entry.id]| == |Queries(entry.instances)| {
        if entry.id == s.building.value.0.id { assert entry == s.building.value.0; }
      }
    }
  }

  /** Reply `k` of this FRU is held, and is about this interface. */
  predicate IsAbout(s: State, entry: FruEntry, k: nat, path: string, intf: string) {
    && k < |Held(s, entry)| && k < |Queries(entry.instances)|
    && Queries(entry.instances)[k].path == path && Queries(entry.instances)[k].intf == intf
  }

  /** And the interface is something else now. */
  predicate Outdated(s: State, entry: FruEntry, k: nat, path: string, intf: string, now: PropertyMap) {
    IsAbout(s, entry, k, path, intf) && Held(s, entry)[k] != now
  }

  ghost predicate OutdatesHeld(table: FruTable, s: State, path: string, intf: string, now: PropertyMap) {
    path !in s.pending && exists entry, k: nat :: entry in table && Outdated(s, entry, k, path, intf, now)
  }

  /** The last signal about a held reply's object reaches the handler, which does not take it for this FRU's. */
  predicate Misrouted(table: FruTable, s: State, entry: FruEntry, k: nat) {
    && s.pending != [] && k < |Held(s, entry)| && k < |Queries(entry.instances)|
    && Queries(entry.instances)[k].path == s.pending[0] && s.pending[0] !in s.pending[1..]
    && Route(table, Trimmed(s.pending[0])) != Some(entry.id)
    && Held(s, entry)[k] != GetAll(s.bus, Queries(entry.instances)[k])
  }

  /** What escapes the handler: an interface that a held reply is about appears or vanishes, or changes outside the
      inventory; the call that should have read it fails and is taken for an empty reply; a signal goes to another
      FRU or to none. */
  ghost predicate Unheard(table: FruTable, s: State, e: Event)
    requires Enabled(table, s, e)
  {
    match e
    case Change(path, intf, props) => !InNamespace(path) && OutdatesHeld(table, s, path, intf, props)
    case Appear(path, intf, props) => OutdatesHeld(table, s, path, intf, props)
    case Vanish(path, intf) => OutdatesHeld(table, s, path, intf, map[])
    case ReadNext(answered) => !answered && !Fresh(s, NextQuery(s), map[])
    case Deliver => exists entry, k: nat :: entry in table && Misrouted(table, s, entry, k)
    case _ => false
  }

  /** In a routed table no signal goes astray. */
  lemma RoutedTablesMissNoSignal(table: FruTable, s: State, e: Event)
    requires RoutedTable(table) && Enabled(table, s, e) && (e.Change? || e.Deliver?)
    ensures !Unheard(table, s, e)
  {}

  /** Only these events hand a reply over, or leave the replies as they are. */
  lemma HeldAfter(table: FruTable, s: State, e: Event, entry: FruEntry)
    requires DistinctIds(table) && Shape(table, s) && Enabled(table, s, e) && entry in table
    ensures var h := Held(Step(table, s, e), entry);
            match e
            case ReadNext(answered) =>
              h == if s.building.value.0 == entry
                   then Held(s, entry) + [if answered then GetAll(s.bus, NextQuery(s)) else map[]] else Held(s, entry)
            case Abort => h == [] || h == Held(s, entry)
            case Begin(_) => h == [] || h == Held(s, entry)
            case Deliver => h == if Route(table, Trimmed(s.pending[0])) == Some(entry.id) then [] else Held(s, entry)
            case _ => h == Held(s, entry)
  {}

  /** Whatever does not escape the handler keeps coherence. */
  lemma HeardKeepsCoherence(table: FruTable, s: State, e: Event)
    requires DistinctIds(table) && Shape(table, s) && Enabled(table, s, e)
    requires Coherent(table, s) && !Unheard(table, s, e)
    ensures Coherent(table, Step(table, s, e))
  {
    var t := Step(table, s, e);
    forall entry, k | entry in table && 0 <= k < |Held(t, entry)| && k < |Queries(entry.instances)|
      ensures Fresh(t, Queries(entry.instances)[k], Held(t, entry)[k])
    {
      ReplyKeepsFresh(table, s, e, entry, k);
    }
  }

  lemma ReplyKeepsFresh(table: FruTable, s: State, e: Event, entry: FruEntry, k: nat)
    requires DistinctIds(table) && Shape(table, s) && Enabled(table, s, e) && entry in table
    requires Coherent(table, s) && !Unheard(table, s, e)
    requires k < |Held(Step(table, s, e), entry)| && k < |Queries(entry.instances)|
    ensures Fresh(Step(table, s, e), Queries(entry.instances)[k], Held(Step(table, s, e), entry)[k])
  {
    HeldAfter(table, s, e, entry);
    if k < |Held(s, entry)| {
      assert Held(Step(table, s, e), entry)[k] == Held(s, entry)[k];
      assert Fresh(s, Queries(entry.instances)[k], Held(s, entry)[k]);
      StaysFresh(table, s, e, entry, k);
    } else {
      NewReplyFresh(table, s, e);
    }
  }

  lemma NewReplyFresh(table: FruTable, s: State, e: Event)
    requires Enabled(table, s, e) && e.ReadNext? && !Unheard(table, s, e)
    ensures Fresh(Step(table, s, e), NextQuery(s), if e.answered then GetAll(s.bus, NextQuery(s)) else map[])
  {}

  lemma StaysFresh(table: FruTable, s: State, e: Event, entry: FruEntry, k: nat)
    requires Enabled(table, s, e) && !Unheard(table, s, e) && entry in table
    requires k < |Held(s, entry)| && k < |Queries(entry.instances)|
    requires Fresh(s, Queries(entry.instances)[k], Held(s, entry)[k])
    requires e.Deliver? ==> Route(table, Trimmed(s.pending[0])) != Some(entry.id)
    ensures Fresh(Step(table, s, e), Queries(entry.instances)[k], Held(s, entry)[k])
  {
    var q := Queries(entry.instances)[k];
    match e {
      case Appear(path, intf, props) => assert !Outdated(s, entry, k, path, intf, props) || path in s.pending;
      case Vanish(path, intf) => assert !Outdated(s, entry, k, path, intf, map[]) || path in s.pending;
      case Change(path, intf, props) =>
        assert !Outdated(s, entry, k, path, intf, props) || path in s.pending || InNamespace(path);
      case Deliver => assert !Misrouted(table, s, entry, k);
      case _ =>
    }
  }

  lemma UnheardBreaksCoherence(table: FruTable, s: State, e: Event)
    requires DistinctIds(table) && Shape(table, s) && Enabled(table, s, e) && Unheard(table, s, e)
    ensures !Coherent(table, Step(table, s, e))
  {
    var t := Step(table, s, e);
    if e.ReadNext? {
      var (entry, replies) := s.building.value;
      HeldAfter(table, s, e, entry);
      assert !Fresh(t, Queries(entry.instances)[|replies|], Held(t, entry)[|replies|]);
    } else if e.Deliver? {
      var entry, k: nat :| entry in table && Misrouted(table, s, entry, k);
      HeldAfter(table, s, e, entry);
      assert !Fresh(t, Queries(entry.instances)[k], Held(t, entry)[k]);
    } else {
      var now := if e.Vanish? then map[] else e.props;
      var entry, k: nat :| entry in table && Outdated(s, entry, k, e.path, e.intf, now);
      HeldAfter(table, s, e, entry);
      assert !Fresh(t, Queries(entry.instances)[k], Held(t, entry)[k]);
    }
  }

  lemma {:induction false} RunKeepsShape(table: FruTable, es: seq<Event>)
    requires DistinctIds(table) && Run(table, es).Some?
    ensures Shape(table, Run(table, es).value)
  {
    if es != [] {
      RunKeepsShape(table, es[..|es| - 1]);
      StepKeepsShape(table, Run(table, es[..|es| - 1]).value, es[|es| - 1]);
    }
  }

  /** At no point of the run did anything change unheard. */
  ghost predicate AllHeard(table: FruTable, es: seq<Event>)
    requires Run(table, es).Some?
  {
    es == [] || (AllHeard(table, es[..|es| - 1]) && !Unheard(table, Run(table, es[..|es| - 1]).value, es[|es| - 1]))
  }

  /** At every point of the run the cache was coherent. */
  ghost predicate AlwaysCoherent(table: FruTable, es: seq<Event>)
    requires Run(table, es).Some?
  {
    Coherent(table, Run(table, es).value) && (es == [] || AlwaysCoherent(table, es[..|es| - 1]))
  }

  /** For every table and in every run, whatever changes between the reads of one build: the cache is coherent
      throughout if and only if nothing that it rests on ever escapes the handler. */
  lemma {:induction false} CoherentExactlyIfAllHeard(table: FruTable, es: seq<Event>)
    requires DistinctIds(table) && Run(table, es).Some?
    ensures AlwaysCoherent(table, es) <==> AllHeard(table, es)
  {
    if es != [] {
      var init, e := es[..|es| - 1], es[|es| - 1];
      var s := Run(table, init).value;
      CoherentExactlyIfAllHeard(table, init);
      RunKeepsShape(table, init);
      if Unheard(table, s, e) {
        UnheardBreaksCoherence(table, s, e);
      } else if Coherent(table, s) {
        HeardKeepsCoherence(table, s, e);
      }
    }
  }

  // -------- tame runs --------

  /** No interface comes or goes while a reply about it is held, and every read is answered. */
  ghost predicate TameEvent(table: FruTable, s: State, e: Event) {
    match e
    case Appear(path, intf, _) => forall entry, k: nat | entry in table :: !IsAbout(s, entry, k, path, intf)
    case Vanish(path, intf) => forall entry, k: nat | entry in table :: !IsAbout(s, entry, k, path, intf)
    case ReadNext(answered) => answered
    case _ => true
  }

  ghost predicate Tame(table: FruTable, es: seq<Event>)
    requires Run(table, es).Some?
  {
    es == [] || (Tame(table, es[..|es| - 1]) && TameEvent(table, Run(table, es[..|es| - 1]).value, es[|es| - 1]))
  }

  lemma {:induction false} TameRoutedRunsAreHeard(table: FruTable, es: seq<Event>)
    requires RoutedTable(table) && Run(table, es).Some? && Tame(table, es)
    ensures AllHeard(table, es)
  {
    if es != [] {
      var init, e := es[..|es| - 1], es[|es| - 1];
      TameRoutedRunsAreHeard(table, init);
      if e.Change? || e.Deliver? {
        RoutedTablesMissNoSignal(table, Run(table, init).value, e);
      }
    }
  }

  lemma TameOneMore(table: FruTable, es: seq<Event>, s: State, e: Event)
    requires Run(table, es) == Some(s) && Tame(table, es) && Enabled(table, s, e) && TameEvent(table, s, e)
    ensures Run(table, es + [e]) == Some(Step(table, s, e)) && Tame(table, es + [e])
  {
    assert (es + [e])[..|es|] == es;
  }

  lemma NextReply<T>(replies: seq<T>, n: nat)
    requires n < |replies|
    ensures replies[..n] + [replies[n]] == replies[..n + 1]
  {}

  /** Lets a half-built blob read on until it has all its replies. */
  lemma ReadOnToTheEnd(table: FruTable, es: seq<Event>, s: State, entry: FruEntry, n: nat) returns (all: seq<Event>)
    requires Run(table, es) == Some(s) && Tame(table, es) && n <= |Queries(entry.instances)|
    requires s.building == Some((entry, CurrentReplies(s.bus, Queries(entry.instances))[..n]))
    ensures Run(table, all) == Some(s.(building := Some((entry, CurrentReplies(s.bus, Queries(entry.instances))))))
    ensures Tame(table, all)
    decreases |Queries(entry.instances)| - n
  {
    var replies := CurrentReplies(s.bus, Queries(entry.instances));
    if n == |Queries(entry.instances)| {
      assert replies[..n] == replies;
      return es;
    }
    var next := Step(table, s, ReadNext(true));
    NextReply(replies, n);
    TameOneMore(table, es, s, ReadNext(true));
    all := ReadOnToTheEnd(table, es + [ReadNext(true)], next, entry, n + 1);
    assert next.(building := Some((entry, replies))) == s.(building := Some((entry, replies)));
  }

  /** The state after one object has been published and one FRU's blob has been built. */
  function OneBuilt(entry: FruEntry, q: Query): (r: State) {
    var bus: map<(string, string), PropertyMap> := map[(q.path, q.intf) := map[]];
    State(bus, map[entry.id := CurrentReplies(bus, Queries(entry.instances))], [], None)
  }

  lemma OneBuiltIsReached(table: FruTable, entry: FruEntry, q: Query) returns (es: seq<Event>)
    requires entry in table
    ensures Run(table, es) == Some(OneBuilt(entry, q)) && Tame(table, es)
  {
    var appear := Appear(q.path, q.intf, map[]);
    var s1 := Step(table, INITIAL, appear);
    TameOneMore(table, [], INITIAL, appear);
    var s2 := Step(table, s1, Begin(entry));
    TameOneMore(table, [] + [appear], s1, Begin(entry));
    es := ReadOnToTheEnd(table, [] + [appear] + [Begin(entry)], s2, entry, 0);
    var s3 := s2.(building := Some((entry, CurrentReplies(s2.bus, Queries(entry.instances)))));
    TameOneMore(table, es, s3, Finish);
    assert Step(table, s3, Finish) == OneBuilt(entry, q);
    es := es + [Finish];
  }

  /** An object that is published, read, and changed: if its signal does not reach its FRU, the blob stays stale. */
  lemma UnroutedRunGoesStale(table: FruTable, entry: FruEntry, k: nat) returns (es: seq<Event>)
    requires DistinctIds(table) && entry in table && k < |Queries(entry.instances)|
    requires !Routed(table, entry, Queries(entry.instances)[k].path)
    ensures Run(table, es).Some? && Tame(table, es) && !AlwaysCoherent(table, es)
  {
    var q := Queries(entry.instances)[k];
    var s, change := OneBuilt(entry, q), Change(q.path, q.intf, map["" := []]);
    es := OneBuiltIsReached(table, entry, q);
    var t := Step(table, s, change);
    TameOneMore(table, es, s, change);
    es := es + [change];
    if InNamespace(q.path) {
      TameOneMore(table, es, t, Deliver);
      es := es + [Deliver];
      t := Step(table, t, Deliver);
    }
    assert t.pending == [] && entry.id in t.cache;
    assert "" !in t.cache[entry.id][k] && "" in GetAll(t.bus, q);
    StaleWithNothingPending(table, t, entry, k);
  }

  lemma StaleWithNothingPending(table: FruTable, s: State, entry: FruEntry, k: nat)
    requires entry in table && entry.id in s.cache && k < |s.cache[entry.id]| && k < |Queries(entry.instances)|
    requires s.pending == [] && s.cache[entry.id][k] != GetAll(s.bus, Queries(entry.instances)[k])
    ensures !Coherent(table, s)
  {
    assert !Fresh(s, Queries(entry.instances)[k], Held(s, entry)[k]);
  }

  /** A table's cache is coherent in every tame run if and only if every object of the table is routed to its FRU. */
  lemma CoherentInTameRunsExactlyIfRouted(table: FruTable)
    requires DistinctIds(table)
    ensures RoutedTable(table) <==> forall es | Run(table, es).Some? && Tame(table, es) :: AlwaysCoherent(table, es)
  {
    if RoutedTable(table) {
      forall es | Run(table, es).Some? && Tame(table, es) ensures AlwaysCoherent(table, es) {
        TameRoutedRunsAreHeard(table, es);
        CoherentExactlyIfAllHeard(table, es);
      }
    } else {
      var entry, k :| entry in table && 0 <= k < |Queries(entry.instances)|
                      && !Routed(table, entry, Queries(entry.instances)[k].path);
      var es := UnroutedRunGoesStale(table, entry, k);
      assert !AlwaysCoherent(table, es);
    }
  }

  // -------- blobs --------

  function BlobFrom(lib: Library, entry: FruEntry, replies: seq<PropertyMap>): (r: seq<byte>)
    requires |replies| == |Queries(entry.instances)|
  {
    Blob(lib, Gathered(map[], Queries(entry.instances), replies))
  }

  function CurrentReplies(bus: map<(string, string), PropertyMap>, queries: seq<Query>): (r: seq<PropertyMap>) {
    seq(|queries|, k requires 0 <= k < |queries| => GetAll(bus, queries[k]))
  }

  function CurrentBlob(lib: Library, entry: FruEntry, bus: map<(string, string), PropertyMap>): (r: seq<byte>) {
    BlobFrom(lib, entry, CurrentReplies(bus, Queries(entry.instances)))
  }

  /** In every run in which nothing escapes the handler, a cached blob that differs from the current inventory's has
      a signal for its FRU waiting. */
  lemma StaleBlobHasSignal(lib: Library, table: FruTable, es: seq<Event>, entry: FruEntry)
    requires DistinctIds(table) && entry in table
    requires Run(table, es).Some? && AllHeard(table, es)
    requires entry.id in Run(table, es).value.cache
    ensures var s := Run(table, es).value;
            && |s.cache[entry.id]| == |Queries(entry.instances)|
            && (BlobFrom(lib, entry, s.cache[entry.id]) != CurrentBlob(lib, entry, s.bus)
                ==> SignalPending(Queries(entry.instances), s.pending))
  {
    CoherentExactlyIfAllHeard(table, es);
    RunKeepsShape(table, es);
    var s := Run(table, es).value;
    if !SignalPending(Queries(entry.instances), s.pending) {
      NothingPendingMeansCurrent(table, s, entry);
    }
  }

  lemma NothingPendingMeansCurrent(table: FruTable, s: State, entry: FruEntry)
    requires entry in table && entry.id in s.cache && Shape(table, s) && Coherent(table, s)
    requires !SignalPending(Queries(entry.instances), s.pending)
    ensures |s.cache[entry.id]| == |Queries(entry.instances)|
    ensures s.cache[entry.id] == CurrentReplies(s.bus, Queries(entry.instances))
  {
    var qs := Queries(entry.instances);
    forall k | 0 <= k < |qs| ensures s.cache[entry.id][k] == GetAll(s.bus, qs[k]) {
      assert Fresh(s, qs[k], Held(s, entry)[k]);
    }
  }

  /** Routing matters exactly as much: a change of an object on the bus, delivered, drops the FRU's blob if and only
      if the object is routed to it; otherwise the stale reply stays with nothing pending. */
  lemma InvalidatedExactlyIfRouted(table: FruTable, s: State, entry: FruEntry, k: nat, props: PropertyMap)
    requires entry in table && entry.id in s.cache && s.building == None && s.pending == []
    requires k < |Queries(entry.instances)| == |s.cache[entry.id]|
    requires var q := Queries(entry.instances)[k]; (q.path, q.intf) in s.bus
    requires props != s.cache[entry.id][k]
    ensures var q := Queries(entry.instances)[k];
            var changed := Step(table, s, Change(q.path, q.intf, props));
            var settled := if changed.pending == [] then changed else Step(table, changed, Deliver);
            && settled.pending == []
            && (entry.id !in settled.cache <==> Routed(table, entry, q.path))
            && (entry.id in settled.cache ==> settled.cache[entry.id][k] != GetAll(settled.bus, q))
  {}

  /** An inventory object that is published or withdrawn after it was read leaves the blob stale, routed or not. */
  lemma AppearingLeavesStale(table: FruTable, s: State, entry: FruEntry, k: nat, e: Event)
    requires entry in table && entry.id in s.cache && s.building == None && s.pending == []
    requires k < |Queries(entry.instances)| == |s.cache[entry.id]| && Enabled(table, s, e)
    requires var q := Queries(entry.instances)[k];
             e == Vanish(q.path, q.intf) || (e.Appear? && e.path == q.path && e.intf == q.intf)
    requires s.cache[entry.id][k] == GetAll(s.bus, Queries(entry.instances)[k])
    ensures var t := Step(table, s, e); var q := Queries(entry.instances)[k];
            && t.pending == [] && t.cache == s.cache
            && (t.cache[entry.id][k] != GetAll(t.bus, q) <==> GetAll(t.bus, q) != GetAll(s.bus, q))
  {}

  lemma {:induction false} RouteFindsUnique(table: FruTable, entry: FruEntry, path: string)
    requires entry in table && Lists(entry, path)
    requires forall other | other in table && Lists(other, path) :: other.id == entry.id
    ensures Route(table, path) == Some(entry.id)
  {
    if !Lists(table[0], path) {
      RouteFindsUnique(table[1..], entry, path);
    }
  }

  /** A relative path that belongs to one FRU only is routed to it. */
  lemma RelativeUniquePathIsRouted(table: FruTable, entry: FruEntry, path: string)
    requires entry in table && Lists(entry, path)
    requires !Contains(path, XYZ_PREFIX) && "/" <= path
    requires forall other | other in table && Lists(other, path) :: other.id == entry.id
    ensures Routed(table, entry, FullPath(path))
  {
    var full := INVENTORY + path;
    assert full[|INVENTORY|..] == path;
    assert (INVENTORY + "/") <= full;
    RouteFindsUnique(table, entry, path);
  }

  /** What the scan finds: the first FRU of the table that lists the path. */
  predicate FirstToList(table: FruTable, i: nat, path: string) {
    i < |table| && Lists(table[i], path) && forall j | 0 <= j < i :: !Lists(table[j], path)
  }

  lemma {:induction false} RouteFindsFirst(table: FruTable, path: string)
    ensures Route(table, path) == None <==> forall j | 0 <= j < |table| :: !Lists(table[j], path)
    ensures Route(table, path).Some?
        ==> exists i: nat :: FirstToList(table, i, path) && table[i].id == Route(table, path).value
  {
    if table != [] {
      RouteFindsFirst(table[1..], path);
      if Lists(table[0], path) {
        assert FirstToList(table, 0, path);
      } else if Route(table[1..], path).Some? {
        var i: nat :| FirstToList(table[1..], i, path) && table[1..][i].id == Route(table, path).value;
        assert forall j | 0 < j < |table| :: table[j] == table[1..][j - 1];
        assert FirstToList(table, i + 1, path);
      }
    }
  }

  /** An object stored under its full path is routed to its FRU only through the twin: exactly if the first FRU to
      list the path behind the inventory's prefix is this one. */
  lemma FullPathRoutedExactlyIfTwinListed(table: FruTable, entry: FruEntry, path: string)
    requires DistinctIds(table) && entry in table && Lists(entry, path)
    requires Contains(path, XYZ_PREFIX) && InNamespace(path)
    ensures FullPath(path) == path
    ensures Routed(table, entry, FullPath(path))
       <==> exists i: nat :: FirstToList(table, i, path[|INVENTORY|..]) && table[i] == entry
  {
    var twin := path[|INVENTORY|..];
    RouteFindsFirst(table, twin);
    if Route(table, twin).Some? {
      var i: nat :| FirstToList(table, i, twin) && table[i].id == Route(table, twin).value;
      forall j: nat | FirstToList(table, j, twin) ensures j == i {}
      var k :| 0 <= k < |table| && table[k] == entry;
    }
  }

  /** While an entry stays in the cache its content does not change. */
  lemma CachedBlobIsStable(table: FruTable, s: State, e: Event, id: byte)
    requires Enabled(table, s, e) && Shape(table, s) && id in s.cache && id in Step(table, s, e).cache
    ensures Step(table, s, e).cache[id] == s.cache[id]
  {}

  // -------- the stored blobs follow the protocol --------

  /** The object's map of blobs holds, id by id, what was built from the protocol's replies. */
  ghost predicate Represents(lib: Library, table: FruTable, fruMap: map<byte, seq<byte>>,
                             cache: map<byte, seq<PropertyMap>>) {
    && fruMap.Keys == cache.Keys
    && forall entry | entry in table && entry.id in cache ::
         |cache[entry.id]| == |Queries(entry.instances)| && fruMap[entry.id] == BlobFrom(lib, entry, cache[entry.id])
  }

  /** What the object's methods do to its map at an event of the protocol. */
  function BlobsAfter(lib: Library, table: FruTable, fruMap: map<byte, seq<byte>>, s: State, e: Event)
    : (r: map<byte, seq<byte>>)
    requires Enabled(table, s, e)
  {
    match e
    case Finish =>
      var (entry, replies) := s.building.value;
      fruMap[entry.id := BlobFrom(lib, entry, replies)]
    case Deliver => Invalidated(table, fruMap, s.pending[0])
    case _ => fruMap
  }

  lemma BlobsFollowProtocol(lib: Library, table: FruTable, fruMap: map<byte, seq<byte>>, s: State, e: Event)
    requires DistinctIds(table) && Shape(table, s) && Enabled(table, s, e)
    requires Represents(lib, table, fruMap, s.cache)
    ensures Represents(lib, table, BlobsAfter(lib, table, fruMap, s, e), Step(table, s, e).cache)
  {
    if e.Finish? {
      forall entry | entry in table && entry.id == s.building.value.0.id ensures entry == s.building.value.0 {}
    }
  }

  /** The object's map of blobs at the end of a run. */
  function Blobs(lib: Library, table: FruTable, es: seq<Event>): (r: map<byte, seq<byte>>)
    requires Run(table, es).Some?
  {
    if es == [] then map[]
    else
      var init := es[..|es| - 1];
      BlobsAfter(lib, table, Blobs(lib, table, init), Run(table, init).value, es[|es| - 1])
  }

  lemma {:induction false} BlobsRepresent(lib: Library, table: FruTable, es: seq<Event>)
    requires DistinctIds(table) && Run(table, es).Some?
    ensures Represents(lib, table, Blobs(lib, table, es), Run(table, es).value.cache)
  {
    if es != [] {
      var init := es[..|es| - 1];
      BlobsRepresent(lib, table, init);
      RunKeepsShape(table, init);
      BlobsFollowProtocol(lib, table, Blobs(lib, table, init), Run(table, init).value, es[|es| - 1]);
    }
  }

  /** Hence, in every run in which nothing escapes the handler, a stored blob that differs from what would be built
      now has a signal for its FRU waiting. */
  lemma StoredBlobHasSignal(lib: Library, table: FruTable, es: seq<Event>, entry: FruEntry)
    requires DistinctIds(table) && entry in table
    requires Run(table, es).Some? && AllHeard(table, es)
    ensures var s, blobs := Run(table, es).value, Blobs(lib, table, es);
            && (entry.id in blobs <==> entry.id in s.cache)
            && (entry.id in blobs && blobs[entry.id] != CurrentBlob(lib, entry, s.bus)
                ==> SignalPending(Queries(entry.instances), s.pending))
  {
    BlobsRepresent(lib, table, es);
    if entry.id in Blobs(lib, table, es) {
      StaleBlobHasSignal(lib, table, es, entry);
    }
  }

  // -------- the imperative cache --------

  datatype ReadReply = Reply(count: nat, data: seq<byte>) | InvalidField | SensorInvalid | OutOfRange | UnspecifiedError

  function ReplyFrom(blob: seq<byte>, offset: nat, readCount: nat): (r: ReadReply) {
    if offset >= |blob| then OutOfRange
    else Reply(|Piece(blob, offset, readCount)|, Piece(blob, offset, readCount))
  }

  /** The data of one reply; a reader gets none from an error. */
  function FruReader(blob: seq<byte>): (read: (nat, nat) -> seq<byte>) {
    (offset: nat, count: nat) => match ReplyFrom(blob, offset, count) case Reply(_, data) => data case _ => []
  }

  /** While the blob stays in the cache, consecutive replies of whatever sizes concatenate to it. */
  lemma ConsecutiveRepliesJoin(blob: seq<byte>, offset: nat, counts: seq<nat>)
    requires offset <= |blob|
    ensures ReadOn(FruReader(blob), offset, counts) == blob[offset..Min(offset + Total(counts), |blob|)]
  {
    ReaderGetsAll(blob, FruReader(blob), offset, counts);
  }

  /** Beyond the end there is nothing; otherwise as many bytes as asked for, or those that are left. */
  lemma ReplyExactly(blob: seq<byte>, offset: nat, readCount: nat)
    ensures var r := ReplyFrom(blob, offset, readCount);
            && (r == OutOfRange <==> offset >= |blob|)
            && (r.Reply? <==> offset < |blob|)
            && (r.Reply? ==>
                  && |r.data| == r.count == (if offset + readCount <= |blob| then readCount else |blob| - offset)
                  && forall i | 0 <= i < r.count :: r.data[i] == blob[offset + i])
  {}

  class Cache {
    const lib: Library
    const table: FruTable
    var fruMap: map<byte, seq<byte>>

    constructor (lib: Library, table: FruTable)
      ensures this.lib == lib && this.table == table && fruMap == map[]
    {
      this.lib, this.table, fruMap := lib, table, map[];
    }

    method ProcessFruPropChange(path: string)
      modifies this
      ensures fruMap == Invalidated(table, old(fruMap), path)
    {
      if fruMap == map[] {
        return;
      }
      var p := path;
      if INVENTORY <= p {
        p := p[|INVENTORY|..];
      }
      for i := 0 to |table|
        invariant fruMap == old(fruMap)
        invariant Route(table[i..], Trimmed(path)) == Route(table, Trimmed(path))
      {
        var found := FindInstance(table[i].instances, p);
        assert table[i..][0] == table[i] && table[i..][1..] == table[i + 1..];
        if found {
          fruMap := fruMap - {table[i].id};
          return;
        }
      }
    }

    /** `getFruAreaData`; `replies` is what the bus calls answer, one after another, if they are made. If there are
        too few, no service was found for the next one, and nothing is stored. */
    method GetFruAreaData(entry: FruEntry, replies: seq<PropertyMap>) returns (area: Option<seq<byte>>)
      requires entry in table && |replies| <= |Queries(entry.instances)|
      modifies this
      ensures area == AreaFor(lib, old(fruMap), entry, replies)
      ensures fruMap == if area == None then old(fruMap) else old(fruMap)[entry.id := area.value]
    {
      if entry.id in fruMap {
        area := Some(fruMap[entry.id]);
        assert fruMap == fruMap[entry.id := area.value];
        return;
      }
      var inventory := ReadDataFromInventory(entry, replies);
      if inventory == None {
        return None;
      }
      var built := FruBuilder.BuildFruAreaData(lib, inventory.value);
      area := Some(built);
      fruMap := fruMap[entry.id := built];
    }

    method ReadFruData(fruDeviceId: byte, offset: word, readCount: byte, replies: seq<PropertyMap>)
      returns (r: ReadReply)
      requires ById(table, fruDeviceId).Some? ==> |replies| <= |Queries(ById(table, fruDeviceId).value.instances)|
      modifies this
      ensures fruDeviceId == 0xFF ==> r == InvalidField && fruMap == old(fruMap)
      ensures fruDeviceId != 0xFF && ById(table, fruDeviceId) == None ==> r == SensorInvalid && fruMap == old(fruMap)
      ensures fruDeviceId != 0xFF && ById(table, fruDeviceId).Some? ==>
                match AreaFor(lib, old(fruMap), ById(table, fruDeviceId).value, replies)
                case None => r == UnspecifiedError && fruMap == old(fruMap)
                case Some(area) => r == ReplyFrom(area, offset, readCount) && fruMap == old(fruMap)[fruDeviceId := area]
    {
      if fruDeviceId == 0xFF {
        return InvalidField;
      }
      var entry := FindFru(table, fruDeviceId);
      if entry == None {
        return SensorInvalid;
      }
      var area := GetFruAreaData(entry.value, replies);
      if area == None {
        return UnspecifiedError;
      }
      r := Answer(area.value, offset, readCount);
    }
  }

  /** The blob that a command works on: the cached one, or one built from the replies if they are all there. */
  function AreaFor(lib: Library, fruMap: map<byte, seq<byte>>, entry: FruEntry, replies: seq<PropertyMap>)
    : (r: Option<seq<byte>>)
    requires |replies| <= |Queries(entry.instances)|
  {
    if entry.id in fruMap then Some(fruMap[entry.id])
    else if |replies| < |Queries(entry.instances)| then None
    else Some(BlobFrom(lib, entry, replies))
  }

  /** At the end of any run: an uncached FRU is built from what its interfaces are now, if every service answers; a
      cached one is served as built, from the replies of its time. */
  lemma ServedExactly(lib: Library, table: FruTable, es: seq<Event>, entry: FruEntry, replies: seq<PropertyMap>)
    requires DistinctIds(table) && Run(table, es).Some? && entry in table && |replies| <= |Queries(entry.instances)|
    ensures var s, area := Run(table, es).value, AreaFor(lib, Blobs(lib, table, es), entry, replies);
            && (area == None <==> entry.id !in s.cache && |replies| < |Queries(entry.instances)|)
            && (entry.id in s.cache ==>
                  && |s.cache[entry.id]| == |Queries(entry.instances)|
                  && area == Some(BlobFrom(lib, entry, s.cache[entry.id])))
            && (entry.id !in s.cache && replies == CurrentReplies(s.bus, Queries(entry.instances)) ==>
                  area == Some(CurrentBlob(lib, entry, s.bus)))
  {
    BlobsRepresent(lib, table, es);
  }

  method Answer(area: seq<byte>, offset: word, readCount: byte) returns (r: ReadReply)
    ensures r == ReplyFrom(area, offset, readCount)
  {
    if offset >= |area| {
      return OutOfRange;
    }
    var returnCount := if offset + readCount <= |area| then readCount else |area| - offset;
    r := Reply(returnCount, area[offset..offset + returnCount]);
  }

  /** The table's entry for an id. */
  function ById(table: FruTable, id: byte): (r: Option<FruEntry>)
    ensures r == None <==> forall entry | entry in table :: entry.id != id
    ensures r.Some? ==> r.value in table && r.value.id == id
  {
    if table == [] then None else if table[0].id == id then Some(table[0]) else ById(table[1..], id)
  }

  method FindFru(table: FruTable, id: byte) returns (r: Option<FruEntry>)
    ensures r == ById(table, id)
  {
    for i := 0 to |table|
      invariant ById(table[i..], id) == ById(table, id)
    {
      assert table[i..][0] == table[i] && table[i..][1..] == table[i + 1..];
      if table[i].id == id {
        return Some(table[i]);
      }
    }
    return None;
  }

  method FindInstance(instances: seq<Instance>, path: string) returns (found: bool)
    ensures found <==> exists i | 0 <= i < |instances| :: instances[i].path == path
  {
    for i := 0 to |instances|
      invariant forall j | 0 <= j < i :: instances[j].path != path
    {
      if instances[i].path == path {
        return true;
      }
    }
    return false;
  }

  method AddReply(data: Inventory, properties: seq<Mapping>, reply: PropertyMap) returns (r: Inventory)
    ensures r == WithReply(data, properties, reply)
  {
    r := data;
    for i := 0 to |properties|
      invariant WithReply(r, properties[i..], reply) == WithReply(data, properties, reply)
    {
      var m := properties[i];
      assert properties[i..][0] == m && properties[i..][1..] == properties[i + 1..];
      if m.name in reply {
        var section := Section(m.section, r);
        if m.property !in section {
          r := r[m.section := section[m.property := reply[m.name]]];
        }
      }
    }
    assert properties[|properties|..] == [];
  }

  lemma {:induction false} GatherInTwoParts(data: Inventory, a: seq<Query>, b: seq<Query>, replies: seq<PropertyMap>)
    requires |replies| >= |a| + |b|
    ensures Gathered(data, a + b, replies) == Gathered(Gathered(data, a, replies), b, replies[|a|..])
    decreases |a|
  {
    if a == [] {
      assert a + b == b && replies[0..] == replies;
    } else {
      GatherInTwoParts(WithReply(data, a[0].properties, replies[0]), a[1..], b, replies[1..]);
      assert (a + b)[1..] == a[1..] + b;
      assert replies[1..][|a| - 1..] == replies[|a|..];
    }
  }

  /** None when a reply is missing. */
  method ReadInstance(data: Inventory, instance: Instance, replies: seq<PropertyMap>) returns (r: Option<Inventory>)
    ensures r == if |replies| < |instance.interfaces| then None
                 else Some(Gathered(data, QueriesOf(instance.path, instance.interfaces), replies))
  {
    var gathered := data;
    ghost var qs := QueriesOf(instance.path, instance.interfaces);
    for j := 0 to |instance.interfaces|
      invariant j <= |replies|
      invariant |replies| >= |qs| ==> Gathered(gathered, qs[j..], replies[j..]) == Gathered(data, qs, replies)
    {
      if j == |replies| {
        return None;
      }
      assert qs[j..][0] == qs[j] && qs[j..][1..] == qs[j + 1..];
      assert replies[j..][1..] == replies[j + 1..];
      gathered := AddReply(gathered, instance.interfaces[j].properties, replies[j]);
    }
    r := Some(gathered);
  }

  /** Gathering from instance `i` on is gathering its replies and then those of the instances behind it. */
  lemma GatherNextInstance(data: Inventory, instances: seq<Instance>, i: nat, replies: seq<PropertyMap>)
    requires i < |instances| && |replies| == |Queries(instances[i..])|
    ensures |instances[i].interfaces| + |Queries(instances[i + 1..])| == |replies|
    ensures Gathered(data, Queries(instances[i..]), replies)
         == Gathered(Gathered(data, QueriesOf(instances[i].path, instances[i].interfaces), replies),
                     Queries(instances[i + 1..]), replies[|instances[i].interfaces|..])
  {
    assert instances[i..][0] == instances[i] && instances[i..][1..] == instances[i + 1..];
    GatherInTwoParts(data, QueriesOf(instances[i].path, instances[i].interfaces), Queries(instances[i + 1..]), replies);
  }

  /** `readDataFromInventory`: one bus call per interface of every instance, in order. */
  method ReadDataFromInventory(entry: FruEntry, replies: seq<PropertyMap>) returns (r: Option<Inventory>)
    requires |replies| <= |Queries(entry.instances)|
    ensures r == if |replies| < |Queries(entry.instances)| then None
                 else Some(Gathered(map[], Queries(entry.instances), replies))
  {
    var data: Inventory := map[];
    var unread := replies;
    ghost var missing := |Queries(entry.instances)| - |replies|;
    assert entry.instances[0..] == entry.instances;
    for i := 0 to |entry.instances|
      invariant |Queries(entry.instances[i..])| == |unread| + missing
      invariant missing == 0 ==>
                  Gathered(data, Queries(entry.instances[i..]), unread)
                      == Gathered(map[], Queries(entry.instances), replies)
    {
      QueriesFromInstance(entry.instances, i);
      if missing == 0 { GatherNextInstance(data, entry.instances, i, unread); }
      var gathered := ReadInstance(data, entry.instances[i], unread);
      if gathered == None {
        return None;
      }
      data := gathered.value;
      unread := unread[|entry.instances[i].interfaces|..];
    }
    r := Some(data);
  }

  lemma QueriesFromInstance(instances: seq<Instance>, i: nat)
    requires i < |instances|
    ensures |Queries(instances[i..])| == |instances[i].interfaces| + |Queries(instances[i + 1..])|
  {
    assert instances[i..][0] == instances[i] && instances[i..][1..] == instances[i + 1..];
  }
}
