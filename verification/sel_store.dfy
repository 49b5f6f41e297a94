/** The SEL commands and signal callbacks over the two globals `selCacheMap` and `selCacheMapInitialized`. */
module SelStore {
  import opened Bytes
  import opened SelRecord
  import opened OrderedKeys
  import SelCache
  import SelReservation
  import SelEvent
  import opened SelWalk

  const REQUEST_SIZE := 6

  /** What reading the logging paths and converting them one by one comes to; None when reading them throws. */
  datatype Scan = Scan(paths: Option<seq<word>>, views: seq<Option<Record>>)
  {
    predicate Ok() { paths.Some? ==> |views| == |paths.value| }
  }

  /** The init scan inserts what converts, and never overwrites. */
  function Scanned(cache: SelCacheMap, ids: seq<word>, views: seq<Option<Record>>): (r: SelCacheMap)
    requires |ids| == |views|
    decreases |ids|
  {
    if ids == [] then cache
    else Scanned(SelCache.Store(cache, ids[0], SelCache.Inserted(Look(cache, ids[0]), views[0])), ids[1..], views[1..])
  }

  /** The two globals after a command that needs the cache: filled once, and again only after a failed try. */
  function Initialised(cache: SelCacheMap, initialized: bool, scan: Scan): (r: (SelCacheMap, bool))
    requires scan.Ok()
  {
    if initialized || scan.paths == None then (cache, initialized)
    else (Scanned(cache, scan.paths.value, scan.views), true)
  }

  /** What the cache has for an ID after the scan: what it had, or else the first record it was converted to. */
  lemma {:induction false} ScannedExactly(cache: SelCacheMap, ids: seq<word>, views: seq<Option<Record>>, id: word)
    requires |ids| == |views|
    ensures var after := Look(Scanned(cache, ids, views), id);
            && (id in cache ==> after == Some(cache[id]))
            && (after == None <==> id !in cache && forall i | 0 <= i < |ids| && ids[i] == id :: views[i] == None)
            && (id !in cache ==>
                  forall i | 0 <= i < |ids| && ids[i] == id && views[i].Some?
                    && (forall j | 0 <= j < i && ids[j] == id :: views[j] == None) :: after == views[i])
    decreases |ids|
  {
    if ids != [] {
      var next := SelCache.Store(cache, ids[0], SelCache.Inserted(Look(cache, ids[0]), views[0]));
      ScannedExactly(next, ids[1..], views[1..], id);
    }
  }

  /** Filled only once: a command that finds the cache initialised, or cannot read the paths, leaves it as it is. */
  lemma InitialisedExactly(cache: SelCacheMap, initialized: bool, scan: Scan)
    requires scan.Ok()
    ensures var (after, done) := Initialised(cache, initialized, scan);
            && (done <==> initialized || scan.paths.Some?)
            && (initialized || scan.paths == None ==> after == cache)
            && (!initialized && scan.paths.Some? ==>
                  forall id: word ::
                    && (id in cache ==> id in after && after[id] == cache[id])
                    && (id in after <==>
                          || id in cache
                          || exists i | 0 <= i < |scan.views| :: scan.paths.value[i] == id && scan.views[i].Some?))
  {
    if !initialized && scan.paths.Some? {
      var after := Scanned(cache, scan.paths.value, scan.views);
      forall id: word
        ensures id in cache ==> id in after && after[id] == cache[id]
        ensures id in after <==>
                  || id in cache
                  || exists i | 0 <= i < |scan.views| :: scan.paths.value[i] == id && scan.views[i].Some?
      {
        ScannedExactly(cache, scan.paths.value, scan.views, id);
      }
    }
  }

  // -------- the scan loop and the protocol --------

  predicate Races(e: SelCache.Event) { e.ScanNext? || e.LogAdd? || e.LogUpdate? || e.LogAssociate? || e.LogDelete? }

  /** A scan while the log changes: scan steps and changes in any order. */
  function Played(s: SelCache.State, es: seq<SelCache.Event>): (r: Option<SelCache.State>)
    decreases |es|
  {
    if es == [] then Some(s)
    else if !Races(es[0]) || !SelCache.Enabled(s, es[0]) then None
    else Played(SelCache.Step(s, es[0]), es[1..])
  }

  /** What the scan steps of such a race see, each in the log of its moment, and nothing where a bus call fails. */
  function ViewsRead(s: SelCache.State, es: seq<SelCache.Event>): (r: seq<Option<Record>>)
    requires Played(s, es).Some?
    decreases |es|
  {
    if es == [] then []
    else
      (if es[0].ScanNext? then [SelCache.Read(s.log, s.scan.value[0], es[0].answered)] else [])
      + ViewsRead(SelCache.Step(s, es[0]), es[1..])
  }

  /** However the log changes during the scan, the loop of the imperative code, fed with what its reads see, ends
      with the protocol's cache. */
  lemma {:induction false} RacingScanIsLoop(s: SelCache.State, es: seq<SelCache.Event>)
    requires s.scan.Some? && Played(s, es).Some? && Played(s, es).value.scan == Some([])
    ensures |ViewsRead(s, es)| == |s.scan.value|
    ensures Played(s, es).value.cache == Scanned(s.cache, s.scan.value, ViewsRead(s, es))
    decreases |es|
  {
    if es != [] {
      var next := SelCache.Step(s, es[0]);
      var rest := ViewsRead(next, es[1..]);
      RacingScanIsLoop(next, es[1..]);
      if es[0].ScanNext? {
        assert ViewsRead(s, es) == [SelCache.Read(s.log, s.scan.value[0], es[0].answered)] + rest;
        assert ViewsRead(s, es)[1..] == rest;
      } else {
        assert ViewsRead(s, es) == rest;
      }
    }
  }

  // -------- replies --------

  datatype GetRequest = GetRequest(reservationID: word, selRecordID: word, offset: byte, readLength: byte)

  /** A partial read copies `length` bytes from `start` bytes behind the record's first byte. */
  datatype GetReply =
    | Entire(next: word, record: Record)
    | Partial(next: word, record: Record, start: nat, length: nat)
    | LengthInvalid | InvalidReservation | SensorInvalid | InvalidField

  function GetReplyFor(cache: SelCacheMap, reservation: SelReservation.State, r: GetRequest): (result: GetReply) {
    if r.reservationID != 0 && !(reservation.valid && reservation.id == r.reservationID) then InvalidReservation
    else
      match Fetched(cache, r.selRecordID)
      case None => SensorInvalid
      case Some((key, next)) =>
        if r.readLength == ENTIRE_RECORD then Entire(next, cache[key])
        else if r.offset >= SEL_RECORD_SIZE || r.readLength > SEL_RECORD_SIZE then InvalidField
        else Partial(next, cache[key], 2 * r.offset as int,
                     if SEL_RECORD_SIZE - r.offset as int < r.readLength as int then SEL_RECORD_SIZE - r.offset as int
                     else r.readLength)
  }

  /** Whether key is the entry that a record ID names: the least for 0000h, the greatest for FFFFh, else its own. */
  ghost predicate Names(cache: SelCacheMap, id: word, key: word) {
    && key in cache
    && (id == FIRST_ENTRY ==> forall k | k in cache :: key <= k)
    && (id == LAST_ENTRY ==> forall k | k in cache :: k <= key)
    && (id != FIRST_ENTRY && id != LAST_ENTRY ==> key == id)
  }

  /** Whether next is what follows key: the least larger ID, or FFFFh if there is none. */
  ghost predicate Follows(cache: SelCacheMap, key: word, next: word) {
    if forall k | k in cache :: k <= key then next == LAST_ENTRY
    else next in cache && key < next && forall k | k in cache && key < k :: next <= k
  }

  predicate Accepts(reservation: SelReservation.State, reservationID: word) {
    reservationID == 0 || (reservation.valid && reservation.id == reservationID)
  }

  /** Whether these bytes can be asked for: the whole record, or at most sixteen from within it. */
  predicate Readable(offset: byte, readLength: byte) { readLength == 0xFF || (offset < 16 && readLength <= 16) }

  lemma FetchedExactly(cache: SelCacheMap, id: word)
    ensures Fetched(cache, id) == None <==> forall key: word :: !Names(cache, id, key)
    ensures Fetched(cache, id).Some? ==>
              Names(cache, id, Fetched(cache, id).value.0)
              && Follows(cache, Fetched(cache, id).value.0, Fetched(cache, id).value.1)
  {
    TargetMeaning(cache, id);
    if Target(cache, id).Some? {
      var key := Target(cache, id).value;
      assert Names(cache, id, key);
      FirstIsLeast(Keys(cache), key as int + 1, ID_BOUND);
      forall k: word ensures k in cache <==> k as int in Keys(cache) {}
    }
  }

  /** Every answer to Get SEL Entry, in terms of the cache alone. */
  lemma GetReplyExactly(cache: SelCacheMap, reservation: SelReservation.State, r: GetRequest)
    ensures var reply := GetReplyFor(cache, reservation, r);
            && reply != LengthInvalid
            && (reply == InvalidReservation <==> !Accepts(reservation, r.reservationID))
            && (reply == SensorInvalid <==>
                  Accepts(reservation, r.reservationID) && forall key: word :: !Names(cache, r.selRecordID, key))
            && (reply == InvalidField <==>
                  Accepts(reservation, r.reservationID) && !Readable(r.offset, r.readLength)
                  && exists key: word :: Names(cache, r.selRecordID, key))
            && (reply.Entire? ==> r.readLength == 0xFF)
            && (reply.Partial? ==>
                  && r.readLength != 0xFF && reply.start == 2 * r.offset as int
                  && reply.length == if 16 - r.offset < r.readLength then 16 - r.offset else r.readLength)
            && (reply.Entire? || reply.Partial? ==>
                  exists key: word :: Names(cache, r.selRecordID, key) && reply.record == cache[key]
                                      && Follows(cache, key, reply.next))
  {
    FetchedExactly(cache, r.selRecordID);
  }

  /** A host asks under one reservation, or none, and for whatever part of each record. */
  datatype Host = Host(reservationID: word, offset: word -> byte, readLength: word -> byte)

  ghost predicate Served(reservation: SelReservation.State, host: Host) {
    Accepts(reservation, host.reservationID) && forall id: word :: Readable(host.offset(id), host.readLength(id))
  }

  /** The records that a host is given: it asks for `id`, goes on with the reply's next-record ID, stops at FFFFh. */
  function HostWalk(cache: SelCacheMap, reservation: SelReservation.State, host: Host, id: word, fuel: nat)
    : (r: seq<Record>)
    decreases fuel, cache
  {
    if fuel == 0 then []
    else
      var request := GetRequest(host.reservationID, id, host.offset(id), host.readLength(id));
      match GetReplyFor(cache, reservation, request)
      case Entire(next, record) =>
        [record] + if next == LAST_ENTRY then [] else HostWalk(cache, reservation, host, next, fuel - 1)
      case Partial(next, record, _, _) =>
        [record] + if next == LAST_ENTRY then [] else HostWalk(cache, reservation, host, next, fuel - 1)
      case _ => []
  }

  lemma {:induction false} HostWalkIsWalk(cache: SelCacheMap, reservation: SelReservation.State, host: Host, id: word,
                                          fuel: nat)
    requires Served(reservation, host)
    ensures |HostWalk(cache, reservation, host, id, fuel)| == |Walk(cache, id, fuel)|
    ensures forall i | 0 <= i < |Walk(cache, id, fuel)| ::
              && Walk(cache, id, fuel)[i] in cache
              && HostWalk(cache, reservation, host, id, fuel)[i] == cache[Walk(cache, id, fuel)[i]]
    decreases fuel
  {
    if fuel > 0 {
      assert Readable(host.offset(id), host.readLength(id));
      match Fetched(cache, id) {
        case None =>
        case Some((key, next)) =>
          if next != LAST_ENTRY { HostWalkIsWalk(cache, reservation, host, next, fuel - 1); }
      }
    }
  }

  /** Following the replies from 0000h on, a host is given every record of the cache exactly once, in the order of
      their IDs; `ids` says whose record each one is. */
  lemma HostIsGivenAll(cache: SelCacheMap, reservation: SelReservation.State, host: Host) returns (ids: seq<word>)
    requires cache != map[] && LAST_ENTRY !in cache && Served(reservation, host)
    ensures var given := HostWalk(cache, reservation, host, FIRST_ENTRY, ID_BOUND);
            && StrictlyAscending(ids) && (forall id: word :: id in ids <==> id in cache)
            && |given| == |ids| == |cache|
            && forall i | 0 <= i < |ids| :: ids[i] in cache && given[i] == cache[ids[i]]
  {
    ids := Walk(cache, FIRST_ENTRY, ID_BOUND);
    WalkVisitsAll(cache);
    HostWalkIsWalk(cache, reservation, host, FIRST_ENTRY, ID_BOUND);
  }

  datatype ChangeReply = Done(id: word) | BadReservation | NoSuchEntry | BadRequest | ServiceFailed

  class SelRepository {
    var selCacheMap: SelCacheMap
    var selCacheMapInitialized: bool
    const reservations: SelReservation.SelReservations

    constructor ()
      ensures selCacheMap == map[] && !selCacheMapInitialized
      ensures fresh(reservations) && reservations.Abs() == SelReservation.INITIAL
    {
      selCacheMap, selCacheMapInitialized := map[], false;
      reservations := new SelReservation.SelReservations();
    }

    /** The callbacks get what `parseLoggingEntry` makes of the log as it is when they run. */
    method SelAddedCallback(id: word, view: Option<Record>)
      modifies this`selCacheMap
      ensures selCacheMap
           == SelCache.Store(old(selCacheMap), id, SelCache.Handled(Look(old(selCacheMap), id), view, SelCache.Added))
    {
      if view.Some? {
        if id !in selCacheMap {
          selCacheMap := selCacheMap[id := view.value];
        }
      }
      assert id in old(selCacheMap) ==> selCacheMap == selCacheMap[id := selCacheMap[id]];
    }

    method SelRemovedCallback(id: word)
      modifies this`selCacheMap
      ensures selCacheMap
           == SelCache.Store(old(selCacheMap), id, SelCache.Handled(Look(old(selCacheMap), id), None, SelCache.Removed))
    {
      selCacheMap := selCacheMap - {id};
    }

    method SelUpdatedCallback(id: word, view: Option<Record>)
      modifies this`selCacheMap
      ensures selCacheMap
           == SelCache.Store(old(selCacheMap), id, SelCache.Handled(Look(old(selCacheMap), id), view, SelCache.Updated))
    {
      if view.Some? {
        selCacheMap := selCacheMap[id := view.value];
      }
      assert view == None && id in selCacheMap ==> selCacheMap == selCacheMap[id := selCacheMap[id]];
    }

    method InitSELCache(scan: Scan)
      requires scan.Ok()
      modifies this`selCacheMap, this`selCacheMapInitialized
      ensures scan.paths == None ==>
                selCacheMap == old(selCacheMap) && selCacheMapInitialized == old(selCacheMapInitialized)
      ensures scan.paths.Some? ==> selCacheMap == Scanned(old(selCacheMap), scan.paths.value, scan.views)
                                   && selCacheMapInitialized
    {
      if scan.paths == None {
        return;
      }
      var paths := scan.paths.value;
      for i := 0 to |paths|
        invariant Scanned(selCacheMap, paths[i..], scan.views[i..]) == Scanned(old(selCacheMap), paths, scan.views)
      {
        assert paths[i..][0] == paths[i] && paths[i..][1..] == paths[i + 1..];
        assert scan.views[i..][0] == scan.views[i] && scan.views[i..][1..] == scan.views[i + 1..];
        SelAddedCallback(paths[i], scan.views[i]);
      }
      selCacheMapInitialized := true;
    }

    /** A failed initialisation is tried again by the next command. */
    method EnsureInitialized(scan: Scan)
      requires scan.Ok()
      modifies this`selCacheMap, this`selCacheMapInitialized
      ensures (selCacheMap, selCacheMapInitialized) == Initialised(old(selCacheMap), old(selCacheMapInitialized), scan)
    {
      if !selCacheMapInitialized {
        InitSELCache(scan);
      }
    }

    /** The entry count that Get SEL Info reports, in sixteen bits. */
    method GetSelInfoEntries(scan: Scan) returns (entries: word)
      requires scan.Ok()
      modifies this`selCacheMap, this`selCacheMapInitialized
      ensures (selCacheMap, selCacheMapInitialized) == Initialised(old(selCacheMap), old(selCacheMapInitialized), scan)
      ensures entries == |selCacheMap| % 0x1_0000
    {
      entries := 0;
      EnsureInitialized(scan);
      if selCacheMap != map[] {
        entries := |selCacheMap| % 0x1_0000;
      }
    }

    method GetSELEntry(dataLen: nat, r: GetRequest, scan: Scan) returns (reply: GetReply)
      requires scan.Ok()
      modifies this`selCacheMap, this`selCacheMapInitialized
      ensures reply == if dataLen != REQUEST_SIZE then LengthInvalid
                       else GetReplyFor(selCacheMap, reservations.Abs(), r)
      ensures (selCacheMap, selCacheMapInitialized)
           == if reply in {LengthInvalid, InvalidReservation} then (old(selCacheMap), old(selCacheMapInitialized))
              else Initialised(old(selCacheMap), old(selCacheMapInitialized), scan)
    {
      if dataLen != REQUEST_SIZE {
        return LengthInvalid;
      }
      if r.reservationID != 0 {
        if !reservations.CheckSELReservation(r.reservationID) {
          return InvalidReservation;
        }
      }
      EnsureInitialized(scan);
      FirstIsLeast(Keys(selCacheMap), 0, ID_BOUND);
      LastIsGreatest(Keys(selCacheMap), ID_BOUND);
      if selCacheMap == map[] {
        return SensorInvalid;
      }
      AnyKey(selCacheMap);
      var key: word;
      if r.selRecordID == FIRST_ENTRY {
        key := FirstFrom(Keys(selCacheMap), 0, ID_BOUND).value;
      } else if r.selRecordID == LAST_ENTRY {
        key := LastBelow(Keys(selCacheMap), ID_BOUND).value;
      } else if r.selRecordID in selCacheMap {
        key := r.selRecordID;
      } else {
        return SensorInvalid;
      }
      var next := NextRecordID(selCacheMap, key);
      if r.readLength == ENTIRE_RECORD {
        return Entire(next, selCacheMap[key]);
      }
      if r.offset >= SEL_RECORD_SIZE || r.readLength > SEL_RECORD_SIZE {
        return InvalidField;
      }
      var diff := SEL_RECORD_SIZE - r.offset as int;
      var readLength := if diff < r.readLength as int then diff else r.readLength;
      return Partial(next, selCacheMap[key], 2 * r.offset as int, readLength);
    }

    /** `deleteSELEntry`; `serviceOk` is the log service's answer. The cache waits for the signal. */
    method DeleteSELEntry(reservationID: word, selRecordID: word, scan: Scan, serviceOk: bool)
        returns (reply: ChangeReply)
      requires scan.Ok()
      modifies this`selCacheMap, this`selCacheMapInitialized, reservations
      ensures reservations.Abs() == SelReservation.Step(old(reservations.Abs()), SelReservation.Delete(reservationID))
      ensures reply == BadReservation
          <==> !SelReservation.Accepted(old(reservations.Abs()), SelReservation.Delete(reservationID))
      ensures (selCacheMap, selCacheMapInitialized)
           == if reply == BadReservation then (old(selCacheMap), old(selCacheMapInitialized))
              else Initialised(old(selCacheMap), old(selCacheMapInitialized), scan)
      ensures reply != BadReservation ==>
                reply == match Target(selCacheMap, selRecordID)
                         case None => NoSuchEntry
                         case Some(key) => if serviceOk then Done(key) else ServiceFailed
    {
      if !reservations.CheckSELReservation(reservationID) {
        return BadReservation;
      }
      reservations.CancelSELReservation();
      EnsureInitialized(scan);
      FirstIsLeast(Keys(selCacheMap), 0, ID_BOUND);
      LastIsGreatest(Keys(selCacheMap), ID_BOUND);
      if selCacheMap == map[] {
        return NoSuchEntry;
      }
      AnyKey(selCacheMap);
      var key: word;
      if selRecordID == FIRST_ENTRY {
        key := FirstFrom(Keys(selCacheMap), 0, ID_BOUND).value;
      } else if selRecordID == LAST_ENTRY {
        key := LastBelow(Keys(selCacheMap), ID_BOUND).value;
      } else {
        key := selRecordID;
      }
      if key !in selCacheMap {
        return NoSuchEntry;
      }
      return if serviceOk then Done(key) else ServiceFailed;
    }

    /** `ipmiStorageAddSEL`: any add cancels the reservation; the cache waits for the log's signal. */
    method AddSEL(sensors: SelEvent.SensorTable, a: SelEvent.AddRequest, sensorType: byte)
        returns (action: SelEvent.AddAction)
      modifies reservations
      ensures reservations.Abs() == SelReservation.Step(old(reservations.Abs()), SelReservation.Add)
      ensures a.recordType == SelEvent.SYSTEM_EVENT_RECORD <==> action.LogText?
      ensures action.LogText? ==> action.text == SelEvent.LoggedText(sensors, a)
    {
      reservations.CancelSELReservation();
      action := SelEvent.AddSel(sensors, a, sensorType);
    }

    method ReserveSEL() returns (id: word)
      modifies reservations
      ensures reservations.Abs() == SelReservation.Step(old(reservations.Abs()), SelReservation.Reserve)
      ensures id == reservations.Abs().id
    {
      id := reservations.ReserveSel();
    }

    /** `clearSEL`; erasure is always reported as completed (01h). */
    method ClearSEL(reservationID: word, clr: string, eraseOperation: byte, serviceOk: bool)
        returns (reply: ChangeReply)
      modifies reservations
      ensures var c := SelReservation.Clear(reservationID, clr == "CLR", eraseOperation);
              reservations.Abs() == SelReservation.Step(old(reservations.Abs()), c)
      ensures reply == BadRequest <==> clr != "CLR"
      ensures reply == BadReservation
          <==> clr == "CLR" && !(old(reservations.Abs().valid) && old(reservations.Abs().id) == reservationID)
      ensures reply == ServiceFailed <==> !serviceOk && SelReservation.Accepted(old(reservations.Abs()),
                                            SelReservation.Clear(reservationID, clr == "CLR", eraseOperation))
      ensures reply in {BadRequest, BadReservation, ServiceFailed, Done(0x01)}
    {
      if clr != "CLR" {
        return BadRequest;
      }
      if !reservations.CheckSELReservation(reservationID) {
        return BadReservation;
      }
      if eraseOperation == SelReservation.GET_ERASE_STATUS {
        return Done(0x01);
      }
      reservations.CancelSELReservation();
      return if serviceOk then Done(0x01) else ServiceFailed;
    }
  }

  /** A cache with an entry has a first and a last one. */
  lemma AnyKey(cache: SelCacheMap)
    requires cache != map[]
    ensures FirstFrom(Keys(cache), 0, ID_BOUND).Some? && LastBelow(Keys(cache), ID_BOUND).Some?
  {
    var id :| id in cache;
    assert id as int in Keys(cache);
    FirstIsLeast(Keys(cache), 0, ID_BOUND);
    LastIsGreatest(Keys(cache), ID_BOUND);
  }
}
