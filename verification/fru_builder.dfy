/** The builders themselves, which append to, resize and patch a byte vector in place. */
module FruBuilder {
  import opened Bytes
  import opened FruArea

  class FruAreaData {
    var data: seq<byte>

    constructor ()
      ensures data == []
    {
      data := [];
    }

    method PreFormatProcessing(langCode: bool)
      modifies this
      ensures data == old(data) + [SPEC_VERSION, 0] + if langCode then [ENGLISH] else []
    {
      data := data + [SPEC_VERSION];
      data := data + [0];
      if langCode {
        data := data + [ENGLISH];
      }
    }

    /** `std::accumulate` into a byte, then its negation. */
    method AppendDataChecksum()
      modifies this
      ensures data == Closed(old(data))
    {
      var checksum: byte := 0;
      for i := 0 to |data|
        invariant checksum == Sum(data[..i]) % 0x100 && data == old(data)
      {
        assert data[..i + 1][..i] == data[..i];
        checksum := (checksum + data[i]) % 0x100;
      }
      assert data[..|data|] == data;
      data := data + [(0x100 - checksum) % 0x100];
    }

    method PadData()
      modifies this
      ensures data == Padded(old(data))
    {
      var pad := (|data| + 1) % RECORD_UNIT;
      if pad != 0 {
        data := data + Zeros(RECORD_UNIT - pad);
      }
    }

    method PostFormatProcessing()
      requires |data| >= 2
      modifies this
      ensures data == Finished(old(data))
    {
      PadData();
      data := data[1 := ((|data| + 1) / RECORD_UNIT) % 0x100];
      AppendDataChecksum();
    }

    method AppendChassisType(lib: Library, props: PropertyMap)
      modifies this
      ensures data == old(data) + [ChassisType(lib, props)]
    {
      var chassisType: byte := 0;
      if TYPE in props {
        match lib.stoi(props[TYPE]) {
          case Some(value) => chassisType := value % 0x100;
          case None => chassisType := 0;
        }
      }
      data := data + [chassisType];
    }

    method AppendData(key: string, props: PropertyMap)
      modifies this
      ensures data == old(data) + Field(key, props)
    {
      if key in props {
        var value := WithoutPrefix(props[key]);
        var valueLength := if |value| > MAX_FIELD_LENGTH then MAX_FIELD_LENGTH else |value|;
        data := data + [TYPE_ASCII + valueLength];
        data := data + value[..valueLength];
      } else {
        data := data + [NOT_PRESENT];
      }
    }

    method AppendMfgDate(lib: Library, props: PropertyMap)
      modifies this
      ensures data == old(data) + LittleEndian3(MfgMinutes(lib, props))
    {
      if BUILD_DATE in props && |props[BUILD_DATE]| > 0 {
        var raw := lib.timeStringToRaw(props[BUILD_DATE]);
        if SECS_FROM_1970_TO_1996 <= raw <= SECS_FROM_1970_TO_1996 + SECS_PER_MIN * MAX_MFG_DATE {
          raw := raw - SECS_FROM_1970_TO_1996;
          raw := raw / SECS_PER_MIN;
          data := data + [raw % 0x100, (raw / 0x100) % 0x100, (raw / 0x1_0000) % 0x100];
          return;
        }
      }
      data := data + [0];
      data := data + [0];
      data := data + [0];
    }

    method BuildCommonHeaderSection(size: nat, offset: nat) returns (newOffset: nat)
      modifies this
      ensures data == old(data) + [HeaderByte(size, offset)] && newOffset == OffsetAfter(size, offset)
    {
      newOffset := offset;
      if size == 0 {
        data := data + [NOT_PRESENT];
      } else {
        var remainder := offset % RECORD_UNIT;
        newOffset := newOffset + if remainder > 0 then RECORD_UNIT - remainder else 0;
        data := data + [(newOffset / RECORD_UNIT) % 0x100];
        newOffset := (newOffset + size) % 0x1_0000;
      }
    }

    /** Appends one more field behind `prefix` and the fields that are there already. */
    method AppendField(key: string, props: PropertyMap, ghost prefix: seq<byte>, ghost fields: seq<seq<byte>>)
      returns (ghost longer: seq<seq<byte>>)
      requires data == prefix + Flat(fields)
      modifies this
      ensures longer == fields + [Field(key, props)] && data == prefix + Flat(longer)
    {
      AppendData(key, props);
      FlatAppend(fields, Field(key, props));
      longer := fields + [Field(key, props)];
    }

    method AppendEmptyField(ghost prefix: seq<byte>, ghost fields: seq<seq<byte>>)
        returns (ghost longer: seq<seq<byte>>)
      requires data == prefix + Flat(fields)
      modifies this
      ensures longer == fields + [[NOT_PRESENT]] && data == prefix + Flat(longer)
    {
      data := data + [NOT_PRESENT];
      FlatAppend(fields, [NOT_PRESENT]);
      longer := fields + [[NOT_PRESENT]];
    }

    /** The empty custom field, the end marker, and the closing of the area. */
    method EndWithEmptyCustomField()
      modifies this
      ensures data == Finished(old(data) + Tail(true))
    {
      data := data + [NOT_PRESENT];
      data := data + [END_OF_CUSTOM_FIELDS];
      assert data == old(data) + Tail(true);
      PostFormatProcessing();
    }
  }

  method WithoutPrefix(text: Value) returns (value: Value)
    ensures value == StripHexPrefix(text)
  {
    value := text;
    if |value| >= 2 && (value[..2] == [0x30, 0x78] || value[..2] == [0x30, 0x58]) {
      value := value[2..];
    }
  }

  method BuildChassisInfoArea(lib: Library, props: PropertyMap) returns (area: seq<byte>)
    ensures area == ChassisArea(lib, props)
  {
    var a := new FruAreaData();
    if props != map[] {
      a.PreFormatProcessing(false);
      a.AppendChassisType(lib, props);
      ghost var prefix, fields := a.data, [];
      assert prefix == [SPEC_VERSION, 0, ChassisType(lib, props)];
      fields := a.AppendField(MODEL_NUMBER, props, prefix, fields);
      fields := a.AppendField(SERIAL_NUMBER, props, prefix, fields);
      assert fields == ChassisFields(props);
      a.data := a.data + [END_OF_CUSTOM_FIELDS];
      assert a.data == prefix + Flat(ChassisFields(props)) + Tail(false);
      a.PostFormatProcessing();
    }
    area := a.data;
  }

  method BuildBoardInfoArea(lib: Library, props: PropertyMap) returns (area: seq<byte>)
    ensures area == BoardArea(lib, props)
  {
    var a := new FruAreaData();
    if props != map[] {
      a.PreFormatProcessing(true);
      a.AppendMfgDate(lib, props);
      ghost var prefix, fields := a.data, [];
      assert prefix == [SPEC_VERSION, 0, ENGLISH] + LittleEndian3(MfgMinutes(lib, props));
      fields := a.AppendField(MANUFACTURER, props, prefix, fields);
      fields := a.AppendField(PRETTY_NAME, props, prefix, fields);
      fields := a.AppendField(SERIAL_NUMBER, props, prefix, fields);
      fields := a.AppendField(PART_NUMBER, props, prefix, fields);
      fields := a.AppendEmptyField(prefix, fields);
      assert fields == BoardFields(props);
      a.EndWithEmptyCustomField();
    }
    area := a.data;
  }

  lemma SevenFields(fields: seq<seq<byte>>, f1: seq<byte>, f2: seq<byte>, f3: seq<byte>, f4: seq<byte>, f5: seq<byte>)
    requires fields == [] + [f1] + [f2] + [f3] + [f4] + [f5] + [[NOT_PRESENT]] + [[NOT_PRESENT]]
    ensures fields == [f1, f2, f3, f4, f5, [NOT_PRESENT], [NOT_PRESENT]]
  {}

  method BuildProductInfoArea(props: PropertyMap) returns (area: seq<byte>)
    ensures area == ProductArea(props)
  {
    var a := new FruAreaData();
    if props != map[] {
      a.PreFormatProcessing(true);
      ghost var prefix, fields := a.data, [];
      assert prefix == [SPEC_VERSION, 0, ENGLISH];
      fields := a.AppendField(MANUFACTURER, props, prefix, fields);
      fields := a.AppendField(PRETTY_NAME, props, prefix, fields);
      fields := a.AppendField(MODEL_NUMBER, props, prefix, fields);
      fields := a.AppendField(VERSION, props, prefix, fields);
      fields := a.AppendField(SERIAL_NUMBER, props, prefix, fields);
      fields := a.AppendEmptyField(prefix, fields);
      fields := a.AppendEmptyField(prefix, fields);
      SevenFields(fields, Field(MANUFACTURER, props), Field(PRETTY_NAME, props), Field(MODEL_NUMBER, props),
                  Field(VERSION, props), Field(SERIAL_NUMBER, props));
      a.EndWithEmptyCustomField();
    }
    area := a.data;
  }

  /** Header, areas in order, and padding up to the fixed size. */
  method Combine(header: seq<byte>, chassis: seq<byte>, board: seq<byte>, product: seq<byte>) returns (blob: seq<byte>)
    ensures blob == PaddedTo(header + chassis + board + product, FRU_SIZE, FRU_PAD)
  {
    blob := header + chassis;
    blob := blob + board;
    blob := blob + product;
    if |blob| < FRU_SIZE {
      blob := blob + seq(FRU_SIZE - |blob|, _ => FRU_PAD);
    }
  }

  method BuildFruAreaData(lib: Library, inventory: Inventory) returns (blob: seq<byte>)
    ensures blob == Blob(lib, inventory)
  {
    var header := new FruAreaData();
    var offset := COMMON_HEADER_SIZE;
    header.data := header.data + [SPEC_VERSION];
    header.data := header.data + [NOT_PRESENT];
    var chassis := BuildChassisInfoArea(lib, Section(CHASSIS, inventory));
    var o1 := header.BuildCommonHeaderSection(|chassis|, offset);
    var board := BuildBoardInfoArea(lib, Section(BOARD, inventory));
    var o2 := header.BuildCommonHeaderSection(|board|, o1);
    var product := BuildProductInfoArea(Section(PRODUCT, inventory));
    offset := header.BuildCommonHeaderSection(|product|, o2);
    header.data := header.data + [NOT_PRESENT];
    header.data := header.data + [NOT_PRESENT];
    SevenBytes(header.data, HeaderByte(|chassis|, COMMON_HEADER_SIZE), HeaderByte(|board|, o1),
        HeaderByte(|product|, o2));
    header.AppendDataChecksum();
    blob := Combine(header.data, chassis, board, product);
  }

  lemma SevenBytes(h: seq<byte>, c: byte, b: byte, p: byte)
    requires h == [] + [SPEC_VERSION] + [NOT_PRESENT] + [c] + [b] + [p] + [NOT_PRESENT] + [NOT_PRESENT]
    ensures h == [SPEC_VERSION, NOT_PRESENT, c, b, p, NOT_PRESENT, NOT_PRESENT]
  {}
}
