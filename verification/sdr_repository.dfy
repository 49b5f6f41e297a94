/** The Get SDR handlers over the memo of populated sensor records. */
module SdrRepository {
  import opened Bytes
  import opened OrderedKeys
  import opened Chunks
  import opened SdrWalk

  const SDR_VERSION: byte := 0x51
  const FULL_RECORD: byte := 0x01
  const FRU_RECORD: byte := 0x11
  const ENTITY_RECORD: byte := 0x08

  function TypeOf(kind: Kind): (r: byte) {
    match kind case Sensor => FULL_RECORD case Fru => FRU_RECORD case Entity => ENTITY_RECORD
  }

  function BodyOf(r: Repository, ref: RecordRef): (result: seq<byte>)
    requires Has(r, ref)
  {
    match ref.kind case Sensor => r.sensors[ref.id] case Fru => r.frus[ref.id] case Entity => r.entities[ref.id]
  }

  /** Header, key and body; the header of a sensor record carries the sensor's own number. */
  function RecordBytes(r: Repository, ref: RecordRef, recordID: word): (result: seq<byte>)
    requires Has(r, ref)
  {
    var id: word := if ref.kind == Sensor then ref.id else recordID;
    [id % 0x100, id / 0x100, SDR_VERSION, TypeOf(ref.kind), |BodyOf(r, ref)| % 0x100] + BodyOf(r, ref)
  }

  datatype Reply = Reply(next: word, data: seq<byte>) | SensorInvalid | OutOfRange

  function ReplyFor(r: Repository, recordID: word, offset: nat, count: nat): (result: Reply) {
    match Named(r, recordID)
    case None => SensorInvalid
    case Some(ref) =>
      if offset > |RecordBytes(r, ref, recordID)| then OutOfRange
      else Reply.Reply(After(r, ref), Piece(RecordBytes(r, ref, recordID), offset, count))
  }

  /** The data of one partial read of a record; a reader gets none from an error. */
  function SdrReader(r: Repository, recordID: word): (read: (nat, nat) -> seq<byte>) {
    (offset: nat, count: nat) => match ReplyFor(r, recordID, offset, count) case Reply(_, data) => data case _ => []
  }

  /** However a record is cut up, its pieces join up to it. */
  lemma PartialReadsReassemble(r: Repository, recordID: word, offset: nat, counts: seq<nat>)
    requires Named(r, recordID).Some?
    requires offset <= |RecordBytes(r, Named(r, recordID).value, recordID)|
    ensures var record := RecordBytes(r, Named(r, recordID).value, recordID);
            ReadOn(SdrReader(r, recordID), offset, counts) == record[offset..Min(offset + Total(counts), |record|)]
  {
    ReaderGetsAll(RecordBytes(r, Named(r, recordID).value, recordID), SdrReader(r, recordID), offset, counts);
  }

  // -------- what a host is told --------

  /** 0 asks for the first sensor; else 1 to 255 are sensors, 256 to 511 FRUs, and the rest entities, modulo 256. */
  ghost predicate Names(r: Repository, recordID: word, ref: RecordRef) {
    if recordID == 0 then ref.kind == Sensor && LeastAbove(r.sensors.Keys, -1, ref.id)
    else if recordID < 256 then ref.kind == Sensor && ref.id == recordID && ref.id in r.sensors
    else if recordID < 512 then ref.kind == Fru && ref.id as int == recordID as int - 256 && ref.id in r.frus
    else ref.kind == Entity && ref.id as int == (recordID as int - 512) % 256 && ref.id in r.entities
  }

  /** The least key above a bound. */
  ghost predicate LeastAbove(keys: set<int>, bound: int, k: int) {
    k in keys && bound < k && forall other | other in keys && bound < other :: k <= other
  }

  /** The ID of the least larger one of the kind, or behind the last one the first FRU's behind sensors and the first
      entity's behind FRUs, in sixteen bits; FFFFh if there is none. */
  ghost predicate Leads(r: Repository, ref: RecordRef, next: word) {
    var start, keys := (match ref.kind case Sensor => 0 case Fru => 256 case Entity => 512), Keys(r, ref.kind);
    if exists k :: k in keys && k > ref.id
    then exists k :: LeastAbove(keys, ref.id, k) && next == (start + k) % 0x1_0000
    else
      match ref.kind
      case Sensor => if r.frus == map[] then next == 0xFFFF
                     else exists k :: LeastAbove(r.frus.Keys, -1, k) && next == (256 + k) % 0x1_0000
      case Fru => if r.entities == map[] then next == 0xFFFF
                  else exists k :: LeastAbove(r.entities.Keys, -1, k) && next == 512 + k
      case Entity => next == 0xFFFF
  }

  lemma NamedExactly(r: Repository, recordID: word)
    ensures Named(r, recordID) == None <==> forall ref :: !Names(r, recordID, ref)
    ensures Named(r, recordID).Some? ==> Names(r, recordID, Named(r, recordID).value)
  {
    FirstIsLeast(Keys(r, Sensor), 0, KEY_BOUND);
    if recordID == 0 {
      forall ref | Names(r, recordID, ref) ensures Named(r, recordID).Some? {
        assert ref.id in Keys(r, Sensor);
      }
    }
    if Named(r, recordID).Some? { assert Names(r, recordID, Named(r, recordID).value); }
  }

  lemma FirstOfKind(r: Repository, kind: Kind)
    ensures FirstOf(r, kind) == None <==> Keys(r, kind) == {}
    ensures FirstOf(r, kind).Some? ==>
              exists k :: LeastAbove(Keys(r, kind), -1, k) && FirstOf(r, kind).value == (Start(kind) + k) % 0x1_0000
  {
    FirstIsLeast(Keys(r, kind), 0, KEY_BOUND);
    if FirstOf(r, kind) == None {
      forall k: int ensures k !in Keys(r, kind) {}
    } else {
      assert LeastAbove(Keys(r, kind), -1, FirstFrom(Keys(r, kind), 0, KEY_BOUND).value);
    }
  }

  lemma LeadsOnward(r: Repository, ref: RecordRef)
    requires Has(r, ref) && FirstFrom(Keys(r, ref.kind), ref.id + 1, KEY_BOUND) == None
    requires forall k | k in Keys(r, ref.kind) :: k <= ref.id
    ensures Leads(r, ref, After(r, ref))
  {
    match ref.kind {
      case Sensor => FirstOfKind(r, Fru);
      case Fru => FirstOfKind(r, Entity);
      case Entity =>
    }
  }

  lemma LeadsToNext(r: Repository, ref: RecordRef, next: int)
    requires Has(r, ref) && FirstFrom(Keys(r, ref.kind), ref.id + 1, KEY_BOUND) == Some(next)
    requires LeastAbove(Keys(r, ref.kind), ref.id, next)
    ensures Leads(r, ref, After(r, ref))
  {}

  lemma LeadsAfter(r: Repository, ref: RecordRef)
    requires Has(r, ref)
    ensures Leads(r, ref, After(r, ref))
  {
    FirstIsLeast(Keys(r, ref.kind), ref.id + 1, KEY_BOUND);
    match FirstFrom(Keys(r, ref.kind), ref.id + 1, KEY_BOUND) {
      case Some(next) => LeadsToNext(r, ref, next);
      case None => LeadsOnward(r, ref);
    }
  }

  /** The five header bytes: the record's ID - a sensor's own, else the one asked for - low byte first, the version,
      the type and the length of what follows. */
  ghost predicate Describes(header: seq<byte>, r: Repository, recordID: word, ref: RecordRef)
    requires Has(r, ref)
  {
    && |header| == 5
    && header[0] as int + 256 * header[1] as int == (if recordID < 256 then ref.id else recordID) as int
    && header[2] == 0x51
    && header[3] == (if recordID < 256 then 0x01 else if recordID < 512 then 0x11 else 0x08)
    && header[4] as int == |BodyOf(r, ref)| % 256
  }

  /** The answer to every Get SDR request: which error, or else the next record's ID and bytes of a header that
      describes the named record and of its body. */
  lemma ReplyExactly(r: Repository, recordID: word, offset: nat, count: nat) returns (header: seq<byte>)
    ensures var reply := ReplyFor(r, recordID, offset, count);
            && (reply == SensorInvalid <==> forall ref :: !Names(r, recordID, ref))
            && (reply.OutOfRange? ==>
                  exists ref :: Names(r, recordID, ref) && Has(r, ref) && offset > 5 + |BodyOf(r, ref)|)
            && (reply.Reply? ==>
                  exists ref :: Names(r, recordID, ref) && Has(r, ref) && offset <= 5 + |BodyOf(r, ref)|
                                && Describes(header, r, recordID, ref) && Leads(r, ref, reply.next)
                                && reply.data == Piece(header + BodyOf(r, ref), offset, count))
  {
    NamedExactly(r, recordID);
    match Named(r, recordID) {
      case None => header := [];
      case Some(ref) =>
        var bytes := RecordBytes(r, ref, recordID);
        header := bytes[..5];
        LeadsAfter(r, ref);
        assert bytes == header + BodyOf(r, ref);
        assert Describes(header, r, recordID, ref);
    }
  }

  /** A host chooses for every record ID which bytes it wants. */
  datatype Host = Host(offset: word -> byte, count: word -> byte)

  /** It never asks beyond the end of a record. */
  ghost predicate StaysInside(r: Repository, host: Host) {
    forall id: word | Named(r, id).Some? :: host.offset(id) as int <= 5 + |BodyOf(r, Named(r, id).value)|
  }

  /** What the host is given, with the IDs it asked for: it goes on with each reply's next-record ID, up to FFFFh. */
  function HostWalk(r: Repository, host: Host, recordID: word, fuel: nat): (result: seq<(word, seq<byte>)>)
    decreases fuel, r
  {
    if fuel == 0 then []
    else
      match ReplyFor(r, recordID, host.offset(recordID), host.count(recordID))
      case Reply(next, data) =>
        [(recordID, data)] + if next == END_OF_RECORD then [] else HostWalk(r, host, next, fuel - 1)
      case _ => []
  }

  /** Its i-th reply is this part of this record. */
  ghost predicate Given(r: Repository, host: Host, ref: RecordRef, given: (word, seq<byte>)) {
    && Named(r, given.0) == Some(ref)
    && host.offset(given.0) as int <= |RecordBytes(r, ref, given.0)|
    && given.1 == Piece(RecordBytes(r, ref, given.0), host.offset(given.0), host.count(given.0))
  }

  lemma {:induction false} HostWalkIsWalk(r: Repository, host: Host, recordID: word, fuel: nat)
    requires StaysInside(r, host)
    ensures var given, refs := HostWalk(r, host, recordID, fuel), Walk(r, recordID, fuel);
            |given| == |refs| && forall i | 0 <= i < |refs| :: Given(r, host, refs[i], given[i])
    decreases fuel
  {
    if fuel > 0 && Named(r, recordID).Some? {
      var ref := Named(r, recordID).value;
      assert Given(r, host, ref,
          (recordID, Piece(RecordBytes(r, ref, recordID), host.offset(recordID), host.count(recordID))));
      if After(r, ref) != END_OF_RECORD {
        HostWalkIsWalk(r, host, After(r, ref), fuel - 1);
      }
    }
  }

  /** Following the replies from record 0 on, a host is given the bytes it wants of every record, once each, in the
      order of their IDs, and as many replies as Get Repository Info counts records. */
  lemma HostIsGivenAll(r: Repository, host: Host, fuel: nat) returns (refs: seq<RecordRef>)
    requires r.sensors != map[] && fuel >= 3 * BYTE_BOUND && Chained(r) && StaysInside(r, host)
    ensures Increasing(refs) && forall ref :: ref in refs <==> Has(r, ref)
    ensures |HostWalk(r, host, 0, fuel)| == |refs| == |r.sensors| + |r.frus| + |r.entities|
    ensures forall i | 0 <= i < |refs| :: Given(r, host, refs[i], HostWalk(r, host, 0, fuel)[i])
  {
    refs := Walk(r, 0, fuel);
    WalkVisitsAll(r, fuel);
    HostWalkIsWalk(r, host, 0, fuel);
  }

  class SdrHandlers {
    const repository: Repository
    var sdrCacheMap: map<byte, seq<byte>>

    /** The memo holds what populating the record would give again. */
    ghost predicate Valid()
      reads this
    {
      forall id | id in sdrCacheMap ::
        id in repository.sensors && sdrCacheMap[id] == RecordBytes(repository, RecordRef(Sensor, id), id)
    }

    constructor (repository: Repository)
      ensures Valid() && this.repository == repository
    {
      this.repository, sdrCacheMap := repository, map[];
    }

    method Answer(next: word, record: seq<byte>, offset: nat, count: nat) returns (reply: Reply)
      ensures reply == if offset > |record| then OutOfRange else Reply.Reply(next, Piece(record, offset, count))
    {
      if offset > |record| {
        return OutOfRange;
      }
      var dataLength := Min(count, |record| - offset);
      return Reply.Reply(next, record[offset..offset + dataLength]);
    }

    method FruGetSdr(recordID: word, offset: byte, count: byte) returns (reply: Reply)
      requires FRU_RECORD_ID_START <= recordID < ENTITY_RECORD_ID_START
      ensures reply == ReplyFor(repository, recordID, offset, count)
    {
      var fruID: byte := (recordID - FRU_RECORD_ID_START) % 0x100;
      if fruID !in repository.frus {
        return SensorInvalid;
      }
      var ref := RecordRef(Fru, fruID);
      reply := Answer(After(repository, ref), RecordBytes(repository, ref, recordID), offset, count);
    }

    method EntityGetSdr(recordID: word, offset: byte, count: byte) returns (reply: Reply)
      requires recordID >= ENTITY_RECORD_ID_START
      ensures reply == ReplyFor(repository, recordID, offset, count)
    {
      var entityID: byte := (recordID - ENTITY_RECORD_ID_START) % 0x100;
      if entityID !in repository.entities {
        return SensorInvalid;
      }
      var ref := RecordRef(Entity, entityID);
      reply := Answer(After(repository, ref), RecordBytes(repository, ref, recordID), offset, count);
    }

    /** `ipmi_sen_get_sdr`; without any sensor, record 0 is out of bounds in the source. */
    method SenGetSdr(recordID: word, offset: byte, count: byte) returns (reply: Reply)
      requires Valid()
      requires recordID == 0 ==> repository.sensors != map[]
      modifies this
      ensures Valid()
      ensures reply == ReplyFor(repository, recordID, offset, count)
    {
      if recordID >= ENTITY_RECORD_ID_START {
        reply := EntityGetSdr(recordID, offset, count);
        return;
      }
      if recordID >= FRU_RECORD_ID_START {
        reply := FruGetSdr(recordID, offset, count);
        return;
      }
      var sensorId: byte;
      if recordID == 0 {
        FirstSensor();
        sensorId := FirstFrom(repository.sensors.Keys, 0, KEY_BOUND).value;
      } else {
        if recordID !in repository.sensors {
          return SensorInvalid;
        }
        sensorId := recordID;
      }
      var ref := RecordRef(Sensor, sensorId);
      assert Named(repository, recordID) == Some(ref);
      if sensorId !in sdrCacheMap {
        sdrCacheMap := sdrCacheMap[sensorId := RecordBytes(repository, ref, sensorId)];
      }
      reply := Answer(After(repository, ref), sdrCacheMap[sensorId], offset, count);
    }

    lemma FirstSensor()
      requires repository.sensors != map[]
      ensures FirstFrom(repository.sensors.Keys, 0, KEY_BOUND).Some?
    {
      var id :| id in repository.sensors;
      FirstIsLeast(repository.sensors.Keys, 0, KEY_BOUND);
      assert id in repository.sensors.Keys;
    }

    /** The record count of Get Repository Info, in sixteen bits. */
    method GetRepositoryInfo() returns (records: word)
      ensures records == RecordCount(repository) % 0x1_0000
    {
      records := (|repository.sensors| + |repository.frus| + |repository.entities|) % 0x1_0000;
    }
  }

  /** The count that Get Repository Info reports is the length of the host's walk, not cut off. */
  lemma WalkAsLongAsReported(r: Repository, fuel: nat)
    requires r.sensors != map[] && fuel >= 3 * BYTE_BOUND && Chained(r)
    ensures |Walk(r, 0, fuel)| == RecordCount(r) % 0x1_0000
  {
    WalkVisitsAll(r, fuel);
    CountFits(r);
  }

  lemma CountFits(r: Repository)
    requires Chained(r)
    ensures RecordCount(r) <= 0x300
  {
    CountBounded(Keys(r, Sensor), 0x100);
    CountBounded(Keys(r, Fru), 0x100);
    CountBounded(Keys(r, Entity), 0x100);
  }
}
