/** The SEL event record, and reading a map with optional keys. */
module SelRecord {
  import opened Bytes

  /** `SELEventRecord`, field by field. */
  datatype Record = Record(recordID: word, recordType: byte, timeStamp: nat, generatorID: word, eventMsgRevision: byte,
                           sensorType: byte, sensorNum: byte, eventType: byte,
                           eventData1: byte, eventData2: byte, eventData3: byte)

  function Look<V>(m: map<word, V>, id: word): (r: Option<V>) {
    if id in m then Some(m[id]) else None
  }
}
