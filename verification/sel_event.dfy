/** From an Add SEL Entry request to logged text, and from logged text back to a SEL record. */
module SelEvent {
  import opened Bytes
  import opened SelRecord
  import opened SelText

  const SYSTEM_EVENT_RECORD: byte := 0x02
  const EVENT_MSG_REVISION: byte := 0x04
  const ASSERT_EVENT: byte := 0x00
  const DEASSERT_EVENT: byte := 0x80

  const EVENT_DIR := "EVENT_DIR"
  const GENERATOR_ID := "GENERATOR_ID"
  const RECORD_TYPE := "RECORD_TYPE"
  const SENSOR_DATA := "SENSOR_DATA"
  const SENSOR_PATH := "SENSOR_PATH"

  datatype Sensor = Sensor(path: string, sensorType: byte, eventReadingType: byte, sensorID: byte)

  /** The generated inventory map in key order. */
  type SensorTable = seq<Sensor>

  datatype AddRequest = AddRequest(recordType: byte, generatorID: word, sensorNumber: byte, eventDir: byte,
                                   eventData: (byte, byte, byte))

  function ByNumber(sensors: SensorTable, number: byte): (r: Option<Sensor>)
    ensures r.Some? ==> r.value in sensors && r.value.sensorID == number
    ensures r == None <==> forall sensor | sensor in sensors :: sensor.sensorID != number
  {
    if sensors == [] then None
    else if sensors[0].sensorID == number then Some(sensors[0]) else ByNumber(sensors[1..], number)
  }

  predicate FirstWithNumber(sensors: SensorTable, number: byte, i: nat) {
    i < |sensors| && sensors[i].sensorID == number && forall j | 0 <= j < i :: sensors[j].sensorID != number
  }

  /** With one number given to several sensors, the first one in the table's order stands for it. */
  lemma {:induction false} ByNumberIsFirst(sensors: SensorTable, number: byte)
    ensures ByNumber(sensors, number).Some? ==>
              exists i: nat :: FirstWithNumber(sensors, number, i) && ByNumber(sensors, number) == Some(sensors[i])
  {
    if sensors != [] {
      ByNumberIsFirst(sensors[1..], number);
      if sensors[0].sensorID == number {
        assert FirstWithNumber(sensors, number, 0);
      } else if ByNumber(sensors, number).Some? {
        var i: nat :| FirstWithNumber(sensors[1..], number, i) && ByNumber(sensors, number) == Some(sensors[1..][i]);
        assert forall j | 0 < j < |sensors| :: sensors[j] == sensors[1..][j - 1];
        assert FirstWithNumber(sensors, number, i + 1);
      }
    }
  }

  function ByPath(sensors: SensorTable, path: string): (r: Option<Sensor>)
    ensures r.Some? ==> r.value in sensors && r.value.path == path
    ensures r == None <==> forall sensor | sensor in sensors :: sensor.path != path
  {
    if sensors == [] then None
    else if sensors[0].path == path then Some(sensors[0]) else ByPath(sensors[1..], path)
  }

  /** A map has one value per key. */
  predicate DistinctPaths(sensors: SensorTable) {
    forall a, b | a in sensors && b in sensors && a.path == b.path :: a == b
  }

  function PathFor(sensors: SensorTable, number: byte): (r: string) {
    match ByNumber(sensors, number)
    case None => ""
    case Some(sensor) => sensor.path
  }

  function DataBytes(d: (byte, byte, byte)): (r: seq<byte>) { [d.0, d.1, d.2] }

  /** The metadata that `report<SELCreated>` attaches. */
  function LoggedText(sensors: SensorTable, a: AddRequest): (r: seq<string>) {
    [Pair(RECORD_TYPE, Decimal(a.recordType)),
     Pair(GENERATOR_ID, Decimal(a.generatorID)),
     Pair(SENSOR_DATA, HexStr(DataBytes(a.eventData))),
     Pair(EVENT_DIR, Decimal(if a.eventDir >= 0x80 then 0 else 1)),
     Pair(SENSOR_PATH, PathFor(sensors, a.sensorNumber))]
  }

  function Padded3(d: seq<byte>): (r: (byte, byte, byte)) {
    (if |d| > 0 then d[0] else 0, if |d| > 1 then d[1] else 0, if |d| > 2 then d[2] else 0)
  }

  /** The keys that every record needs; the direction is looked up for known sensors only. */
  predicate Complete(m: map<string, string>) {
    SENSOR_PATH in m && GENERATOR_ID in m && SENSOR_DATA in m
  }

  function Direction(m: map<string, string>): (r: Option<int>) {
    if EVENT_DIR in m then Converted(m[EVENT_DIR], 10) else None
  }

  /** `constructSEL` for a system record; None when an assertion or a conversion without value is met. */
  function Constructed(sensors: SensorTable, recordID: word, recordType: byte, timeStamp: nat, m: map<string, string>)
    : (r: Option<Record>)
  {
    if recordType != SYSTEM_EVENT_RECORD || !Complete(m) then None
    else
      var sensor := ByPath(sensors, m[SENSOR_PATH]);
      var dir := Direction(m);
      var generator := Converted(m[GENERATOR_ID], 10);
      var data := FromHex(m[SENSOR_DATA]);
      if generator == None || data == None || (sensor.Some? && dir == None) then None
      else
        var (d1, d2, d3) := Padded3(data.value);
        var eventType: byte :=
          if sensor == None then 0
          else if dir.value % 0x100 != 0 then sensor.value.eventReadingType
          else if sensor.value.eventReadingType >= 0x80 then sensor.value.eventReadingType
          else DEASSERT_EVENT + sensor.value.eventReadingType;
        Some(Record(recordID, recordType, timeStamp, generator.value % 0x1_0000, EVENT_MSG_REVISION,
                    if sensor.Some? then sensor.value.sensorType else 0,
                    if sensor.Some? then sensor.value.sensorID else 0xFF,
                    eventType, d1, d2, d3))
  }

  /** What Get SEL Entry rebuilds from an entry's text; entries without a record type are not SEL records. */
  function Rebuilt(sensors: SensorTable, recordID: word, timeStamp: nat, text: seq<string>): (r: Option<Record>) {
    match ParseAdditional(text)
    case None => None
    case Some(m) =>
      if RECORD_TYPE !in m || Converted(m[RECORD_TYPE], 10) == None then None
      else Constructed(sensors, recordID, Converted(m[RECORD_TYPE], 10).value % 0x100, timeStamp, m)
  }

  lemma KeysAreDistinct()
    ensures RECORD_TYPE != GENERATOR_ID && RECORD_TYPE != SENSOR_DATA && RECORD_TYPE != EVENT_DIR
        && RECORD_TYPE != SENSOR_PATH
    ensures GENERATOR_ID != SENSOR_DATA && GENERATOR_ID != EVENT_DIR && GENERATOR_ID != SENSOR_PATH
    ensures SENSOR_DATA != EVENT_DIR && SENSOR_DATA != SENSOR_PATH && EVENT_DIR != SENSOR_PATH
    ensures '=' !in RECORD_TYPE && '=' !in GENERATOR_ID && '=' !in SENSOR_DATA && '=' !in EVENT_DIR
        && '=' !in SENSOR_PATH
  {
    assert RECORD_TYPE[0] == 'R' && GENERATOR_ID[0] == 'G' && EVENT_DIR[0] == 'E';
    assert SENSOR_DATA[0] == 'S' && SENSOR_PATH[0] == 'S' && SENSOR_DATA[7] == 'D' && SENSOR_PATH[7] == 'P';
  }

  lemma OneMoreEntry(data: seq<string>, key: string, value: string)
    requires ParseAdditional(data).Some? && key !in ParseAdditional(data).value && '=' !in key
    ensures ParseAdditional(data + [Pair(key, value)]) == Some(ParseAdditional(data).value[key := value])
  {
    PairReadsBack(key, value);
    assert (data + [Pair(key, value)])[..|data|] == data;
  }

  /** Any five values come back under their keys. */
  lemma TextReadsBack(v1: string, v2: string, v3: string, v4: string, v5: string)
    ensures ParseAdditional([Pair(RECORD_TYPE, v1), Pair(GENERATOR_ID, v2), Pair(SENSOR_DATA, v3), Pair(EVENT_DIR, v4),
                             Pair(SENSOR_PATH, v5)])
         == Some(map[RECORD_TYPE := v1, GENERATOR_ID := v2, SENSOR_DATA := v3, EVENT_DIR := v4, SENSOR_PATH := v5])
  {
    KeysAreDistinct();
    var e1, e2, e3 := Pair(RECORD_TYPE, v1), Pair(GENERATOR_ID, v2), Pair(SENSOR_DATA, v3);
    var e4, e5 := Pair(EVENT_DIR, v4), Pair(SENSOR_PATH, v5);
    OneMoreEntry([], RECORD_TYPE, v1);
    OneMoreEntry([] + [e1], GENERATOR_ID, v2);
    OneMoreEntry([] + [e1] + [e2], SENSOR_DATA, v3);
    OneMoreEntry([] + [e1] + [e2] + [e3], EVENT_DIR, v4);
    OneMoreEntry([] + [e1] + [e2] + [e3] + [e4], SENSOR_PATH, v5);
    assert [] + [e1] + [e2] + [e3] + [e4] + [e5] == [e1, e2, e3, e4, e5];
  }

  /** The event type byte that comes back: the sensor's reading type under the logged direction. */
  function RebuiltEventType(sensor: Option<Sensor>, eventDir: byte): (r: byte) {
    match sensor
    case None => 0
    case Some(s) => if eventDir < 0x80 || s.eventReadingType >= 0x80 then s.eventReadingType
        else 0x80 + s.eventReadingType
  }

  function RebuiltRecord(sensors: SensorTable, a: AddRequest, recordID: word, timeStamp: nat): (r: Record) {
    var sensor := ByPath(sensors, PathFor(sensors, a.sensorNumber));
    Record(recordID, a.recordType, timeStamp, a.generatorID, EVENT_MSG_REVISION,
           if sensor.Some? then sensor.value.sensorType else 0, if sensor.Some? then sensor.value.sensorID else 0xFF,
           RebuiltEventType(sensor, a.eventDir), a.eventData.0, a.eventData.1, a.eventData.2)
  }

  lemma ConstructedFromText(sensors: SensorTable, a: AddRequest, recordID: word, timeStamp: nat, m: map<string, string>)
    requires a.recordType == SYSTEM_EVENT_RECORD && Complete(m)
    requires Direction(m) == Some(if a.eventDir >= 0x80 then 0 else 1)
    requires Converted(m[GENERATOR_ID], 10) == Some(a.generatorID as int)
    requires FromHex(m[SENSOR_DATA]) == Some(DataBytes(a.eventData))
    requires m[SENSOR_PATH] == PathFor(sensors, a.sensorNumber)
    ensures Constructed(sensors, recordID, a.recordType, timeStamp, m)
        == Some(RebuiltRecord(sensors, a, recordID, timeStamp))
  {}

  /** What is rebuilt from the logged text, for every system event request. */
  lemma LoggedTextRebuilds(sensors: SensorTable, a: AddRequest, recordID: word, timeStamp: nat)
    requires a.recordType == SYSTEM_EVENT_RECORD
    ensures Rebuilt(sensors, recordID, timeStamp, LoggedText(sensors, a))
         == Some(RebuiltRecord(sensors, a, recordID, timeStamp))
  {
    var dir := if a.eventDir >= 0x80 then 0 else 1;
    var v1, v2, v3 := Decimal(a.recordType), Decimal(a.generatorID), HexStr(DataBytes(a.eventData));
    var v4, v5 := Decimal(dir), PathFor(sensors, a.sensorNumber);
    TextReadsBack(v1, v2, v3, v4, v5);
    DecimalReadsBack(a.recordType);
    DecimalReadsBack(a.generatorID);
    DecimalReadsBack(dir);
    HexReadsBack(DataBytes(a.eventData));
    KeysAreDistinct();
    RebuildFrom(sensors, a, recordID, timeStamp, LoggedText(sensors, a), v1, v2, v3, v4, v5);
  }

  lemma RebuildFrom(sensors: SensorTable, a: AddRequest, recordID: word, timeStamp: nat, text: seq<string>,
                    v1: string, v2: string, v3: string, v4: string, v5: string)
    requires a.recordType == SYSTEM_EVENT_RECORD
    requires ParseAdditional(text)
          == Some(map[RECORD_TYPE := v1, GENERATOR_ID := v2, SENSOR_DATA := v3, EVENT_DIR := v4, SENSOR_PATH := v5])
    requires Converted(v1, 10) == Some(a.recordType as int) && Converted(v2, 10) == Some(a.generatorID as int)
    requires FromHex(v3) == Some(DataBytes(a.eventData)) && v5 == PathFor(sensors, a.sensorNumber)
    requires Converted(v4, 10) == Some(if a.eventDir >= 0x80 then 0 else 1)
    ensures Rebuilt(sensors, recordID, timeStamp, text) == Some(RebuiltRecord(sensors, a, recordID, timeStamp))
  {
    KeysAreDistinct();
    var m := ParseAdditional(text).value;
    assert m[RECORD_TYPE] == v1 && m[GENERATOR_ID] == v2 && m[SENSOR_DATA] == v3;
    assert m[EVENT_DIR] == v4 && m[SENSOR_PATH] == v5;
    ConstructedFromText(sensors, a, recordID, timeStamp, m);
  }

  ghost predicate Mentions(text: seq<string>, key: string) { exists i | 0 <= i < |text| :: HasKey(text[i], key) }

  /** An entry's text that gives a record consists of `KEY=value` pairs, has these four keys, and a fifth one if the
      sensor is known. */
  lemma RecordNeeds(sensors: SensorTable, recordID: word, timeStamp: nat, text: seq<string>)
    requires Rebuilt(sensors, recordID, timeStamp, text).Some?
    ensures forall i | 0 <= i < |text| :: '=' in text[i]
    ensures Mentions(text, "RECORD_TYPE") && Mentions(text, "GENERATOR_ID") && Mentions(text, "SENSOR_DATA")
        && Mentions(text, "SENSOR_PATH")
    ensures forall i: nat, sensor | FirstWithKey(text, "SENSOR_PATH", i) && sensor in sensors
              && sensor.path == text[i][12..] :: Mentions(text, "EVENT_DIR")
  {
    KeysAreDistinct();
    ParseAdditionalExactly(text, RECORD_TYPE);
    ParseAdditionalExactly(text, GENERATOR_ID);
    ParseAdditionalExactly(text, SENSOR_DATA);
    ParseAdditionalExactly(text, SENSOR_PATH);
    ParseAdditionalExactly(text, EVENT_DIR);
  }

  lemma DirectionKept(sensor: Sensor, eventDir: byte)
    ensures RebuiltEventType(Some(sensor), eventDir) >= 0x80 <==> eventDir >= 0x80 || sensor.eventReadingType >= 0x80
    ensures RebuiltEventType(Some(sensor), eventDir) % 0x80 == sensor.eventReadingType % 0x80
  {}

  /** Adding and then getting a system event of a known sensor keeps record type, generator, sensor number and
      event data, and keeps the direction exactly if the sensor's reading type leaves the direction bit free. */
  lemma AddThenGetPreservesEvent(sensors: SensorTable, a: AddRequest, recordID: word, timeStamp: nat)
    requires a.recordType == SYSTEM_EVENT_RECORD && DistinctPaths(sensors)
    requires ByNumber(sensors, a.sensorNumber).Some?
    ensures Rebuilt(sensors, recordID, timeStamp, LoggedText(sensors, a)).Some?
    ensures var r := Rebuilt(sensors, recordID, timeStamp, LoggedText(sensors, a)).value;
            var sensor := ByNumber(sensors, a.sensorNumber).value;
            && r.recordType == a.recordType && r.generatorID == a.generatorID && r.sensorNum == a.sensorNumber
            && r.recordID == recordID && r.timeStamp == timeStamp && r.eventMsgRevision == 4
            && r.sensorType == sensor.sensorType
            && (r.eventData1, r.eventData2, r.eventData3) == a.eventData
            && (r.eventType >= 0x80 <==> a.eventDir >= 0x80 || sensor.eventReadingType >= 0x80)
            && r.eventType % 0x80 == sensor.eventReadingType % 0x80
  {
    LoggedTextRebuilds(sensors, a, recordID, timeStamp);
    var sensor := ByNumber(sensors, a.sensorNumber).value;
    assert ByPath(sensors, sensor.path) == Some(sensor);
    DirectionKept(sensor, a.eventDir);
  }

  /** Of an event of an unknown sensor everything but the sensor and the direction comes back. */
  lemma UnknownSensorRebuilds(sensors: SensorTable, a: AddRequest, recordID: word, timeStamp: nat)
    requires a.recordType == SYSTEM_EVENT_RECORD && ByNumber(sensors, a.sensorNumber) == None
    requires forall sensor | sensor in sensors :: sensor.path != ""
    ensures Rebuilt(sensors, recordID, timeStamp, LoggedText(sensors, a))
         == Some(Record(recordID, 0x02, timeStamp, a.generatorID, 0x04, 0, 0xFF, 0, a.eventData.0, a.eventData.1,
                        a.eventData.2))
  {
    LoggedTextRebuilds(sensors, a, recordID, timeStamp);
  }

  /** The sensor number survives exactly for known sensors, and for the number that stands for none. */
  lemma NumberPreservedExactlyIfKnown(sensors: SensorTable, a: AddRequest, recordID: word, timeStamp: nat)
    requires a.recordType == SYSTEM_EVENT_RECORD && DistinctPaths(sensors)
    requires forall sensor | sensor in sensors :: sensor.path != ""
    ensures Rebuilt(sensors, recordID, timeStamp, LoggedText(sensors, a)).Some?
    ensures Rebuilt(sensors, recordID, timeStamp, LoggedText(sensors, a)).value.sensorNum == a.sensorNumber
       <==> ByNumber(sensors, a.sensorNumber).Some? || a.sensorNumber == 0xFF
  {
    LoggedTextRebuilds(sensors, a, recordID, timeStamp);
    if ByNumber(sensors, a.sensorNumber).Some? {
      AddThenGetPreservesEvent(sensors, a, recordID, timeStamp);
    }
  }

  // -------- the imperative ends --------

  datatype AddAction = LogText(text: seq<string>) | RunProcedure(number: byte) | Nothing

  const PROCEDURE_TYPE: byte := 0xDE

  /** `ipmiStorageAddSEL` up to the log: what it logs for a system event record, a procedure record, any other. */
  method AddSel(sensors: SensorTable, a: AddRequest, sensorType: byte) returns (action: AddAction)
    ensures action == if a.recordType == SYSTEM_EVENT_RECORD then LogText(LoggedText(sensors, a))
                      else if a.recordType == PROCEDURE_TYPE then RunProcedure(sensorType) else Nothing
  {
    action := Nothing;
    if a.recordType == SYSTEM_EVENT_RECORD {
      var objpath := "";
      var i := 0;
      while i < |sensors| && objpath == "" && sensors[i].sensorID != a.sensorNumber
        invariant 0 <= i <= |sensors| && objpath == ""
        invariant PathFor(sensors[i..], a.sensorNumber) == PathFor(sensors, a.sensorNumber)
      {
        assert sensors[i..][1..] == sensors[i + 1..];
        i := i + 1;
      }
      if i < |sensors| {
        objpath := sensors[i].path;
      }
      var selDataStr := ToHexStr(DataBytes(a.eventData));
      var asserted := !(a.eventDir >= 0x80);
      action := LogText([Pair(RECORD_TYPE, Decimal(a.recordType)), Pair(GENERATOR_ID, Decimal(a.generatorID)),
                         Pair(SENSOR_DATA, selDataStr), Pair(EVENT_DIR, Decimal(if asserted then 1 else 0)),
                         Pair(SENSOR_PATH, objpath)]);
    } else if a.recordType == PROCEDURE_TYPE {
      action := RunProcedure(sensorType);
    }
  }

  /** `constructSEL`, which fills its record field by field. */
  class SelBuilder {
    var record: Record

    constructor (recordID: word)
      ensures record == Record(recordID, 0, 0, 0, 0, 0, 0, 0, 0, 0, 0)
    {
      record := Record(recordID, 0, 0, 0, 0, 0, 0, 0, 0, 0, 0);
    }

    method ConstructSEL(sensors: SensorTable, recordType: byte, timeStamp: nat, m: map<string, string>)
        returns (ok: bool)
      requires record == Record(record.recordID, 0, 0, 0, 0, 0, 0, 0, 0, 0, 0)
      modifies this
      ensures ok <==> Constructed(sensors, old(record.recordID), recordType, timeStamp, m).Some?
      ensures ok ==> Some(record) == Constructed(sensors, old(record.recordID), recordType, timeStamp, m)
    {
      if recordType != SYSTEM_EVENT_RECORD || !Complete(m) {
        return false;
      }
      record := record.(sensorType := 0, sensorNum := 0xFF, eventType := 0);
      var sensor := ByPath(sensors, m[SENSOR_PATH]);
      if sensor.Some? {
        record := record.(sensorType := sensor.value.sensorType, sensorNum := sensor.value.sensorID);
        if EVENT_DIR !in m {
          return false;
        }
        var eventDir := Convert(m[EVENT_DIR], 10);
        if eventDir == None {
          return false;
        }
        var direction := if eventDir.value % 0x100 != 0 then ASSERT_EVENT else DEASSERT_EVENT;
        record := record.(eventType := OrDirection(direction, sensor.value.eventReadingType));
      }
      record := record.(recordType := recordType, timeStamp := timeStamp);
      var generator := Convert(m[GENERATOR_ID], 10);
      if generator == None {
        return false;
      }
      record := record.(generatorID := generator.value % 0x1_0000, eventMsgRevision := EVENT_MSG_REVISION);
      var data := ConvertVec(m[SENSOR_DATA]);
      if data == None {
        return false;
      }
      var (d1, d2, d3) := Padded3(data.value);
      record := record.(eventData1 := d1, eventData2 := d2, eventData3 := d3);
      ok := true;
    }
  }

  /** Bitwise or with the direction bit. */
  function OrDirection(direction: byte, readingType: byte): (r: byte)
    requires direction == ASSERT_EVENT || direction == DEASSERT_EVENT
  {
    if direction == DEASSERT_EVENT && readingType < 0x80 then DEASSERT_EVENT + readingType else readingType
  }
}
