/** Get SDR: sensors, FRUs and entities chained into one repository by next-record IDs. */
module SdrWalk {
  import opened Bytes
  import opened OrderedKeys

  const FRU_RECORD_ID_START := 256
  const ENTITY_RECORD_ID_START := 512
  const END_OF_RECORD: word := 0xFFFF
  const BYTE_BOUND := 0x100
  const KEY_BOUND := 0x1_0000_0000

  type FruId = x: int | 0 <= x < KEY_BOUND

  /** The three generated maps; each value is a record's key and body, already populated. The FRU table has
      thirty-two-bit ids although record IDs leave eight bits for them. */
  datatype Repository = Repository(sensors: map<byte, seq<byte>>, frus: map<FruId, seq<byte>>,
                                   entities: map<byte, seq<byte>>)

  datatype Kind = Sensor | Fru | Entity

  datatype RecordRef = RecordRef(kind: Kind, id: byte)

  function Start(kind: Kind): (r: nat) {
    match kind case Sensor => 0 case Fru => FRU_RECORD_ID_START case Entity => ENTITY_RECORD_ID_START
  }

  function RecordIdOf(ref: RecordRef): (r: word) { Start(ref.kind) + ref.id }

  function Keys(r: Repository, kind: Kind): (keys: set<int>)
    ensures forall k | k in keys :: 0 <= k < KEY_BOUND
    ensures kind != Fru ==> forall k | k in keys :: k < BYTE_BOUND
  {
    match kind case Sensor => r.sensors.Keys case Fru => r.frus.Keys case Entity => r.entities.Keys
  }

  predicate Has(r: Repository, ref: RecordRef) { ref.id in Keys(r, ref.kind) }

  // -------- one request --------

  /** Record ID of the first record of a kind; IDs are sixteen bits wide. */
  function FirstOf(r: Repository, kind: Kind): (result: Option<word>) {
    match FirstFrom(Keys(r, kind), 0, KEY_BOUND)
    case None => None
    case Some(first) => Some((Start(kind) + first) % 0x1_0000)
  }

  /** Where the chain goes on behind the last record of a kind: from sensors only a FRU leads on. */
  function Onward(r: Repository, kind: Kind): (result: word) {
    var first := match kind case Sensor => FirstOf(r, Fru) case Fru => FirstOf(r, Entity) case Entity => None;
    if first.Some? then first.value else END_OF_RECORD
  }

  function After(r: Repository, ref: RecordRef): (result: word) {
    match FirstFrom(Keys(r, ref.kind), ref.id + 1, KEY_BOUND)
    case Some(next) => (Start(ref.kind) + next) % 0x1_0000
    case None => Onward(r, ref.kind)
  }

  /** Which record a requested ID names; record 0 is the first sensor. */
  function Named(r: Repository, recordID: word): (found: Option<RecordRef>)
    ensures found.Some? ==> Has(r, found.value)
  {
    if recordID == 0 then
      match FirstFrom(Keys(r, Sensor), 0, KEY_BOUND)
      case None => None
      case Some(first) => Some(RecordRef(Sensor, first))
    else
      var kind := if recordID >= ENTITY_RECORD_ID_START then Entity
          else if recordID >= FRU_RECORD_ID_START then Fru else Sensor;
      var ref := RecordRef(kind, (recordID - Start(kind)) % 0x100);
      if Has(r, ref) then Some(ref) else None
  }

  // -------- the walk --------

  /** A host's walk: get `recordID`, go on with the next-record ID, stop at 0xFFFF. */
  function Walk(r: Repository, recordID: word, fuel: nat): (result: seq<RecordRef>)
    decreases fuel, r
  {
    if fuel == 0 then []
    else
      match Named(r, recordID)
      case None => []
      case Some(ref) => [ref] + if After(r, ref) == END_OF_RECORD then [] else Walk(r, After(r, ref), fuel - 1)
  }

  /** The records of one kind from a key on, in iteration order. */
  function From(r: Repository, kind: Kind, id: nat): (result: seq<RecordRef>) {
    Refs(kind, Ascending(Keys(r, kind), id, KEY_BOUND))
  }

  function Refs(kind: Kind, ids: seq<nat>): (r: seq<RecordRef>) {
    if ids == [] then [] else [RecordRef(kind, ids[0] % 0x100)] + Refs(kind, ids[1..])
  }

  /** What a walk finds behind the last record of a kind. */
  function Behind(r: Repository, kind: Kind): (result: seq<RecordRef>) {
    match kind
    case Sensor => if Keys(r, Fru) == {} then [] else From(r, Fru, 0) + From(r, Entity, 0)
    case Fru => From(r, Entity, 0)
    case Entity => []
  }

  function Rank(kind: Kind): (r: nat) { match kind case Sensor => 2 case Fru => 1 case Entity => 0 }

  predicate FruIdsFit(r: Repository) { forall k | k in Keys(r, Fru) :: k < BYTE_BOUND }

  lemma SkipToFirst(r: Repository, kind: Kind, from: nat)
    requires FruIdsFit(r)
    ensures FirstFrom(Keys(r, kind), from, KEY_BOUND) == None ==> From(r, kind, from) == []
    ensures FirstFrom(Keys(r, kind), from, KEY_BOUND).Some? ==>
              var k := FirstFrom(Keys(r, kind), from, KEY_BOUND).value;
              k < BYTE_BOUND && From(r, kind, from) == From(r, kind, k)
              && From(r, kind, k) == [RecordRef(kind, k)] + From(r, kind, k + 1)
  {
    if FirstFrom(Keys(r, kind), from, KEY_BOUND).Some? {
      var k := FirstFrom(Keys(r, kind), from, KEY_BOUND).value;
      assert FirstFrom(Keys(r, kind), k, KEY_BOUND) == Some(k);
    }
  }

  lemma NamedById(r: Repository, ref: RecordRef)
    requires Has(r, ref) && (ref.kind != Sensor || ref.id > 0)
    ensures Named(r, RecordIdOf(ref)) == Some(ref)
    ensures RecordIdOf(ref) != END_OF_RECORD
  {}

  lemma NoTruncation(kind: Kind, k: nat)
    requires k < BYTE_BOUND
    ensures (Start(kind) + k) % 0x1_0000 == Start(kind) + k < 0x300
  {}

  lemma AfterIsNext(r: Repository, ref: RecordRef, next: nat)
    requires FruIdsFit(r) && FirstFrom(Keys(r, ref.kind), ref.id + 1, KEY_BOUND) == Some(next)
    ensures next < BYTE_BOUND && After(r, ref) == RecordIdOf(RecordRef(ref.kind, next))
  {
    NoTruncation(ref.kind, next);
  }

  /** From any record the walk finishes that record's kind and then goes on behind it. */
  lemma {:induction false} WalkFrom(r: Repository, recordID: word, ref: RecordRef, fuel: nat)
    requires FruIdsFit(r) && Has(r, ref) && Named(r, recordID) == Some(ref)
    requires fuel >= BYTE_BOUND * (Rank(ref.kind) + 1) - ref.id
    ensures Walk(r, recordID, fuel) == From(r, ref.kind, ref.id) + Behind(r, ref.kind)
    decreases fuel, 0
  {
    var kind := ref.kind;
    HeadOfKind(r, ref);
    SkipToFirst(r, kind, ref.id + 1);
    OneStep(r, recordID, ref, fuel);
    match FirstFrom(Keys(r, kind), ref.id + 1, KEY_BOUND) {
      case Some(next) =>
        AfterIsNext(r, ref, next);
        var nextRef := RecordRef(kind, next);
        NamedById(r, nextRef);
        WalkFrom(r, RecordIdOf(nextRef), nextRef, fuel - 1);
        Regroup(ref, From(r, kind, next), Behind(r, kind));
      case None =>
        WalkBehind(r, kind, fuel - 1);
        Regroup(ref, [], Behind(r, kind));
    }
  }

  lemma Regroup(ref: RecordRef, a: seq<RecordRef>, b: seq<RecordRef>)
    ensures [ref] + (a + b) == [ref] + a + b
    ensures [] + b == b
  {}

  lemma HeadOfKind(r: Repository, ref: RecordRef)
    requires Has(r, ref)
    ensures From(r, ref.kind, ref.id) == [ref] + From(r, ref.kind, ref.id + 1)
  {
    assert FirstFrom(Keys(r, ref.kind), ref.id, KEY_BOUND) == Some(ref.id as int);
  }

  lemma OneStep(r: Repository, recordID: word, ref: RecordRef, fuel: nat)
    requires fuel > 0 && Named(r, recordID) == Some(ref)
    ensures Walk(r, recordID, fuel) == [ref] + if After(r, ref) == END_OF_RECORD then []
        else Walk(r, After(r, ref), fuel - 1)
  {}

  lemma {:induction false} WalkBehind(r: Repository, kind: Kind, fuel: nat)
    requires FruIdsFit(r) && fuel >= BYTE_BOUND * Rank(kind)
    ensures Behind(r, kind) == if Onward(r, kind) == END_OF_RECORD then [] else Walk(r, Onward(r, kind), fuel)
    decreases fuel, 2
  {
    match kind {
      case Entity =>
      case Sensor => EnterKind(r, Fru, fuel);
      case Fru => EnterKind(r, Entity, fuel);
    }
  }

  lemma {:induction false} EnterKind(r: Repository, kind: Kind, fuel: nat)
    requires FruIdsFit(r) && kind != Sensor && fuel >= BYTE_BOUND * (Rank(kind) + 1)
    ensures FirstOf(r, kind) == None <==> Keys(r, kind) == {}
    ensures FirstOf(r, kind) == None ==> From(r, kind, 0) == []
    ensures FirstOf(r, kind).Some? ==> FirstOf(r, kind).value < 0x300
                                       && Walk(r, FirstOf(r, kind).value, fuel) == From(r, kind, 0) + Behind(r, kind)
    decreases fuel, 1
  {
    var keys := Keys(r, kind);
    FirstIsLeast(keys, 0, KEY_BOUND);
    SkipToFirst(r, kind, 0);
    if FirstFrom(keys, 0, KEY_BOUND) == None {
      forall k ensures k !in keys {}
      assert keys == {};
    } else {
      var first := FirstFrom(keys, 0, KEY_BOUND).value;
      var ref := RecordRef(kind, first);
      NoTruncation(kind, first);
      assert FirstOf(r, kind) == Some(RecordIdOf(ref));
      NamedById(r, ref);
      WalkFrom(r, RecordIdOf(ref), ref, fuel);
    }
  }

  /** From record 0, with FRU ids in range, the walk is all sensors, then - if there is a FRU - everything else. */
  lemma WalkFromZero(r: Repository, fuel: nat)
    requires r.sensors != map[] && fuel >= 3 * BYTE_BOUND && FruIdsFit(r)
    ensures Walk(r, 0, fuel) == From(r, Sensor, 0) + Behind(r, Sensor)
  {
    var keys := Keys(r, Sensor);
    FirstIsLeast(keys, 0, KEY_BOUND);
    var some :| some in r.sensors;
    assert some in keys;
    SkipToFirst(r, Sensor, 0);
    var first := FirstFrom(keys, 0, KEY_BOUND).value;
    WalkFrom(r, 0, RecordRef(Sensor, first), fuel);
  }

  // -------- what the lists contain --------

  lemma {:induction false} ListedRefs(kind: Kind, ids: seq<nat>)
    requires forall k | k in ids :: k < BYTE_BOUND
    ensures |Refs(kind, ids)| == |ids|
    ensures forall i | 0 <= i < |ids| :: Refs(kind, ids)[i].kind == kind && Refs(kind, ids)[i].id == ids[i]
    decreases |ids|
  {
    if ids != [] {
      assert ids[0] in ids && forall k | k in ids[1..] :: k in ids;
      ListedRefs(kind, ids[1..]);
    }
  }

  predicate Increasing(refs: seq<RecordRef>) {
    forall i, j | 0 <= i < j < |refs| :: RecordIdOf(refs[i]) < RecordIdOf(refs[j])
  }

  predicate ListsKind(r: Repository, kind: Kind, refs: seq<RecordRef>) {
    && Increasing(refs)
    && |refs| == |Keys(r, kind)|
    && (forall ref | ref in refs :: ref.kind == kind && Has(r, ref))
    && (forall k | k in Keys(r, kind) && k < BYTE_BOUND :: RecordRef(kind, k) in refs)
  }

  lemma RefsListKind(r: Repository, kind: Kind, ids: seq<nat>)
    requires StrictlyAscending(ids) && |ids| == |Keys(r, kind)|
    requires forall k: int :: k in ids <==> k in Keys(r, kind)
    requires forall k | k in ids :: k < BYTE_BOUND
    ensures ListsKind(r, kind, Refs(kind, ids))
  {
    var refs := Refs(kind, ids);
    ListedRefs(kind, ids);
    forall ref | ref in refs ensures ref.kind == kind && Has(r, ref) {
      var i :| 0 <= i < |refs| && refs[i] == ref;
      assert ids[i] in ids;
    }
    forall k | k in Keys(r, kind) && k < BYTE_BOUND ensures RecordRef(kind, k) in refs {
      var i :| 0 <= i < |ids| && ids[i] == k;
      assert refs[i] == RecordRef(kind, k);
    }
  }

  lemma KindListed(r: Repository, kind: Kind)
    requires FruIdsFit(r)
    ensures ListsKind(r, kind, From(r, kind, 0))
  {
    var keys := Keys(r, kind);
    var ids := Ascending(keys, 0, KEY_BOUND);
    AscendingMeaning(keys, 0, KEY_BOUND);
    WalkLength(keys, KEY_BOUND);
    forall k | k in ids ensures k < BYTE_BOUND { assert k in keys; }
    RefsListKind(r, kind, ids);
  }

  lemma JoinIncreasing(r: Repository, a: seq<RecordRef>, b: seq<RecordRef>, c: seq<RecordRef>)
    requires ListsKind(r, Sensor, a) && ListsKind(r, Fru, b) && ListsKind(r, Entity, c)
    ensures Increasing(a + (b + c))
  {
    ConcatIncreasing(b, c, ENTITY_RECORD_ID_START);
    ConcatIncreasing(a, b + c, FRU_RECORD_ID_START);
  }

  /** The three lists one behind the other list the repository. */
  lemma JoinedLists(r: Repository, a: seq<RecordRef>, b: seq<RecordRef>, c: seq<RecordRef>)
    requires ListsKind(r, Sensor, a) && ListsKind(r, Fru, b) && ListsKind(r, Entity, c)
    ensures Increasing(a + (b + c)) && |a + (b + c)| == RecordCount(r)
    ensures forall ref :: ref in a + (b + c) <==> Has(r, ref)
  {
    JoinIncreasing(r, a, b, c);
    forall ref | Has(r, ref) ensures ref in a + (b + c) {
      var listed := RecordRef(ref.kind, ref.id);
      assert ref == listed;
      match ref.kind {
        case Sensor => assert listed in a;
        case Fru => assert listed in b;
        case Entity => assert listed in c;
      }
    }
  }

  lemma ConcatIncreasing(a: seq<RecordRef>, b: seq<RecordRef>, limit: nat)
    requires Increasing(a) && Increasing(b)
    requires forall ref | ref in a :: RecordIdOf(ref) < limit
    requires forall ref | ref in b :: RecordIdOf(ref) >= limit
    ensures Increasing(a + b)
  {
    var s := a + b;
    forall i, j | 0 <= i < j < |s| ensures RecordIdOf(s[i]) < RecordIdOf(s[j]) {
      assert if i < |a| then s[i] == a[i] && s[i] in a else s[i] == b[i - |a|] && s[i] in b;
      assert if j < |a| then s[j] == a[j] && s[j] in a else s[j] == b[j - |a|] && s[j] in b;
    }
  }

  function RecordCount(r: Repository): (result: nat) { |r.sensors| + |r.frus| + |r.entities| }

  /** The chain holds together: FRU ids fit a record ID, and a FRU leads from the sensors to the entities. */
  predicate Chained(r: Repository) { FruIdsFit(r) && (Keys(r, Fru) != {} || Keys(r, Entity) == {}) }

  /** Every record is visited exactly once, in increasing record-ID order, in as many steps as there are records. */
  lemma WalkVisitsAll(r: Repository, fuel: nat)
    requires r.sensors != map[] && fuel >= 3 * BYTE_BOUND && Chained(r)
    ensures Increasing(Walk(r, 0, fuel))
    ensures forall ref | ref in Walk(r, 0, fuel) :: Has(r, ref)
    ensures forall ref | Has(r, ref) :: ref in Walk(r, 0, fuel)
    ensures |Walk(r, 0, fuel)| == RecordCount(r)
  {
    var a, b, c := From(r, Sensor, 0), From(r, Fru, 0), From(r, Entity, 0);
    KindListed(r, Sensor);
    KindListed(r, Fru);
    KindListed(r, Entity);
    WalkIsAllKinds(r, fuel);
    JoinedLists(r, a, b, c);
  }

  lemma WalkIsAllKinds(r: Repository, fuel: nat)
    requires r.sensors != map[] && fuel >= 3 * BYTE_BOUND && Chained(r)
    ensures Walk(r, 0, fuel) == From(r, Sensor, 0) + (From(r, Fru, 0) + From(r, Entity, 0))
  {
    WalkFromZero(r, fuel);
    if Keys(r, Fru) == {} {
      KindListed(r, Fru);
      KindListed(r, Entity);
      assert From(r, Fru, 0) == [] && From(r, Entity, 0) == [];
    }
  }

  /** Some request of the walk returned the record of this key. */
  predicate Visited(r: Repository, kind: Kind, key: int, fuel: nat) {
    0 <= key < BYTE_BOUND && RecordRef(kind, key) in Walk(r, 0, fuel)
  }

  /** The condition is exact: with a FRU id beyond 255, or entities but no FRU, some record is never visited. */
  lemma WalkCompleteExactlyIfChained(r: Repository, fuel: nat)
    requires r.sensors != map[] && fuel >= 3 * BYTE_BOUND
    ensures (forall kind, key | key in Keys(r, kind) :: Visited(r, kind, key, fuel)) <==> Chained(r)
  {
    if !FruIdsFit(r) {
      var big :| big in Keys(r, Fru) && big >= BYTE_BOUND;
      assert !Visited(r, Fru, big, fuel);
    } else if Chained(r) {
      WalkVisitsAll(r, fuel);
      forall kind, key | key in Keys(r, kind) ensures Visited(r, kind, key, fuel) {
        assert Has(r, RecordRef(kind, key));
      }
    } else {
      WalkFromZero(r, fuel);
      KindListed(r, Sensor);
      var key :| key in Keys(r, Entity);
      assert Walk(r, 0, fuel) == From(r, Sensor, 0);
      assert !Visited(r, Entity, key, fuel);
    }
  }
}
